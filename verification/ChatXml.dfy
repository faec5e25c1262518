/** The chat XML engine: nodes built in place, a serializer that writes into fixed buffers, and
    an extractor that searches for substrings. */
module ChatXml {
  import opened CStrings
  import opened Sequences

  const MAX_ATTRS := 8
  const MAX_CHILDREN := 16
  const MAX_TAG := 31
  const MAX_VAL := 127
  const MAX_DATA := 511
  const CHILD_BUF := 512

  datatype Attr = Attr(key: string, val: string)

  datatype Xml = Element(tag: string, attrs: seq<Attr>, cdata: string, children: seq<Xml>)

  // ----- the text of a tree, with no bounds

  function KeyPart(key: string): string { " " + key + "=" + "\"" }

  function ValPart(val: string): string { val + "\"" }

  function AttrText(a: Attr): string { KeyPart(a.key) + ValPart(a.val) }

  function AttrsText(attrs: seq<Attr>): string
  {
    if attrs == [] then "" else AttrText(attrs[0]) + AttrsText(attrs[1..])
  }

  function Footer(x: Xml): string { "</" + x.tag + ">" }

  function Ideal(x: Xml): string
    decreases x, 1
  {
    var header := "<" + x.tag + AttrsText(x.attrs);
    if x.children == [] && x.cdata == "" then header + "/>"
    else header + ">" + x.cdata + IdealAll(x.children) + Footer(x)
  }

  function IdealAll(xs: seq<Xml>): string
    decreases xs, 0
  {
    if xs == [] then "" else Ideal(xs[0]) + IdealAll(xs[1..])
  }

  // ----- the text the code writes: every buffer keeps what fits

  function HeaderFrom(header: string, attrs: seq<Attr>): string
    decreases |attrs|
  {
    if attrs == [] then header
    else HeaderFrom(Trunc(header + Trunc(AttrText(attrs[0]), 127), 255), attrs[1..])
  }

  function Formatted(x: Xml, max: int): string
    decreases x, 1
  {
    if max <= 0 then ""
    else
      var header := HeaderFrom(Trunc("<" + x.tag, 255), x.attrs);
      if x.children == [] && x.cdata == "" then Trunc(Trunc(header + "/>", 255), max - 1)
      else
        var open := Trunc(Trunc(header + ">", 255), max - 1);
        var body := ChildrenFrom(Trunc(open + x.cdata, max - 1), x.children, max);
        Trunc(body + Trunc(Footer(x), 63), max - 1)
  }

  function ChildrenFrom(out: string, xs: seq<Xml>, max: int): string
    requires max > 0
    decreases xs, 0
  {
    if xs == [] then out
    else ChildrenFrom(Trunc(out + Formatted(xs[0], CHILD_BUF), max - 1), xs[1..], max)
  }

  // How an element is written, by example: attributes, text and children in that order, and a short
  // form where there is neither text nor child.
  lemma ElementText()
    ensures Ideal(Element("a", [Attr("k", "v")], "t", [Element("b", [], "", [])])) == "<a k=\"v\">t<b/></a>"
  {
    var b := Element("b", [], "", []);
    assert "<" + "b" + "" + "/>" == "<b/>";
    assert IdealAll([b]) == "<b/>" + "" == "<b/>";
    assert AttrText(Attr("k", "v")) == " k=\"v\"";
    assert AttrsText([Attr("k", "v")]) == " k=\"v\"" + "" == " k=\"v\"";
    assert "<" + "a" + " k=\"v\"" + ">" + "t" + "<b/>" + "</a>" == "<a k=\"v\">t<b/></a>";
  }

  // Whatever the tree, the output leaves room for its NUL.
  lemma FormattedFits(x: Xml, max: int)
    ensures |Formatted(x, max)| <= if max <= 0 then 0 else max - 1
  {
  }

  // Every attribute, header, footer and child fits the buffer it is put together in.
  predicate Fits(x: Xml)
    decreases x, 1
  {
    && (forall a :: a in x.attrs ==> |AttrText(a)| <= 127)
    && |"<" + x.tag + AttrsText(x.attrs)| + (if x.children == [] && x.cdata == "" then 2 else 1) <= 255
    && |Footer(x)| <= 63
    && AllFit(x.children)
  }

  predicate AllFit(xs: seq<Xml>)
    decreases xs, 0
  {
    xs == [] || (Fits(xs[0]) && |Ideal(xs[0])| < CHILD_BUF && AllFit(xs[1..]))
  }

  lemma {:induction false} HeaderIsIdeal(header: string, attrs: seq<Attr>)
    requires forall a :: a in attrs ==> |AttrText(a)| <= 127
    requires |header + AttrsText(attrs)| <= 255
    ensures HeaderFrom(header, attrs) == header + AttrsText(attrs)
    decreases |attrs|
  {
    if attrs == [] {
      assert header + "" == header;
    } else {
      Regroup(header, AttrText(attrs[0]), AttrsText(attrs[1..]));
      HeaderIsIdeal(header + AttrText(attrs[0]), attrs[1..]);
    }
  }

  // When everything fits, the code writes as much of the ideal text as the output buffer holds.
  lemma {:induction false} FormattedIsIdeal(x: Xml, max: nat)
    requires Fits(x) && max > 0
    ensures Formatted(x, max) == Trunc(Ideal(x), max - 1)
    decreases x, 1
  {
    if x.children == [] && x.cdata == "" {
      HeaderIsIdeal("<" + x.tag, x.attrs);
    } else {
      hide Fits;
      OpenPart(x);
      var open, n := "<" + x.tag + AttrsText(x.attrs) + ">", max - 1;
      TruncAppend(open, x.cdata, n);
      ChildrenAreIdeal(open + x.cdata, x.children, max);
      TruncAppend(open + x.cdata + IdealAll(x.children), Footer(x), n);
    }
  }

  lemma OpenPart(x: Xml)
    requires Fits(x) && (x.children != [] || x.cdata != "")
    ensures AllFit(x.children) && Trunc(Footer(x), 63) == Footer(x)
    ensures Trunc(HeaderFrom(Trunc("<" + x.tag, 255), x.attrs) + ">", 255) == "<" + x.tag + AttrsText(x.attrs) + ">"
  {
    HeaderIsIdeal("<" + x.tag, x.attrs);
  }

  lemma {:induction false} ChildrenAreIdeal(text: string, xs: seq<Xml>, max: nat)
    requires AllFit(xs) && max > 0
    ensures ChildrenFrom(Trunc(text, max - 1), xs, max) == Trunc(text + IdealAll(xs), max - 1)
    decreases xs, 0
  {
    if xs == [] {
      assert text + "" == text;
    } else {
      FormattedIsIdeal(xs[0], CHILD_BUF);
      TruncAppend(text, Ideal(xs[0]), max - 1);
      ChildrenAreIdeal(text + Ideal(xs[0]), xs[1..], max);
      Regroup(text, Ideal(xs[0]), IdealAll(xs[1..]));
    }
  }

  // ----- nodes

  class XmlNode {
    var tag: string
    var attrs: seq<Attr>
    var cdata: string
    var children: seq<XmlNode>
    ghost var Repr: set<object>

    ghost predicate Valid()
      reads this, Repr
      decreases Repr, 0
    {
      && this in Repr
      && Below(children, Repr - {this})
    }

    // The tree that hangs from this node.
    ghost function Tree(): Xml
      requires Valid()
      reads this, Repr
      decreases Repr, 0
    {
      Element(tag, attrs, cdata, Trees(children, Repr - {this}))
    }

    constructor (tag: string)
      ensures Valid() && fresh(Repr)
      ensures Tree() == Element(Trunc(tag, MAX_TAG), [], "", [])
    {
      this.tag, attrs, cdata, children := Trunc(tag, MAX_TAG), [], "", [];
      Repr := {this};
    }

    method SetData(data: string)
      requires Valid()
      modifies this`cdata
      ensures Valid() && Tree() == old(Tree()).(cdata := Trunc(data, MAX_DATA))
    {
      cdata := Trunc(data, MAX_DATA);
    }

    method AddAttr(key: string, val: string)
      requires Valid()
      modifies this`attrs
      ensures Valid()
      ensures Tree() == if |old(attrs)| >= MAX_ATTRS then old(Tree())
                        else old(Tree()).(attrs := old(attrs) + [Attr(Trunc(key, MAX_TAG), Trunc(val, MAX_VAL))])
    {
      if |attrs| >= MAX_ATTRS {
        return;
      }
      attrs := attrs + [Attr(Trunc(key, MAX_TAG), Trunc(val, MAX_VAL))];
    }

    // The value of the first attribute with this key.
    method GetAttr(key: string) returns (val: Option<string>)
      ensures val == Lookup(attrs, key)
    {
      for i := 0 to |attrs|
        invariant Lookup(attrs[i..], key) == Lookup(attrs, key)
      {
        if attrs[i].key == key {
          return Some(attrs[i].val);
        }
        assert attrs[i..][1..] == attrs[i + 1..];
      }
      val := None;
    }

    method AddChild(child: XmlNode)
      requires Valid() && child.Valid() && this !in child.Repr
      modifies this`children, this`Repr
      ensures Valid() && Repr <= old(Repr) + child.Repr
      ensures Tree() == if |old(children)| >= MAX_CHILDREN then old(Tree())
                        else old(Tree()).(children := old(Tree()).children + [old(child.Tree())])
    {
      if |children| >= MAX_CHILDREN {
        return;
      }
      ghost var r := Repr + child.Repr;
      BelowAppends(children, child, Repr - {this}, r - {this});
      children := children + [child];
      Repr := r;
    }

    // The first child with this tag.
    method GetChild(tag: string) returns (child: XmlNode?)
      requires Valid()
      ensures child == null ==> forall c :: c in children ==> c.tag != tag
      ensures child != null ==> exists i :: 0 <= i < |children| && children[i] == child && child.tag == tag
                                            && forall j :: 0 <= j < i ==> children[j].tag != tag
    {
      for i := 0 to |children|
        invariant forall j :: 0 <= j < i ==> children[j].tag != tag
      {
        if children[i].tag == tag {
          return children[i];
        }
      }
      child := null;
    }

    // chat_xml_format: the text, as much of it as fits in max characters with the NUL.
    method Format(max: int) returns (out: string)
      requires Valid()
      ensures out == Formatted(Tree(), max)
      decreases Repr
    {
      if max <= 0 {
        return "";
      }
      var header := Trunc("<" + tag, 255);
      ghost var whole := HeaderFrom(header, attrs);
      for i := 0 to |attrs|
        invariant HeaderFrom(header, attrs[i..]) == whole
      {
        var text := Trunc(AttrText(attrs[i]), 127);
        header := Trunc(header + text, 255);
        assert attrs[i..][1..] == attrs[i + 1..];
      }
      if |children| == 0 && |cdata| == 0 {
        header := Trunc(header + "/>", 255);
        return Trunc(header, max - 1);
      }
      header := Trunc(header + ">", 255);
      out := Trunc(header, max - 1);
      if |cdata| > 0 {
        out := Trunc(out + cdata, max - 1);
      } else {
        assert out + cdata == out;
      }
      out := FormatChildren(out, max);
      var footer := Trunc("</" + tag + ">", 63);
      out := Trunc(out + footer, max - 1);
    }

    method FormatChildren(start: string, max: int) returns (out: string)
      requires Valid() && max > 0
      ensures out == ChildrenFrom(start, Tree().children, max)
      decreases Repr, 0
    {
      out := start;
      ghost var trees, r := Tree().children, Repr - {this};
      for i := 0 to |children|
        invariant Below(children[i..], r)
        invariant ChildrenFrom(out, Trees(children[i..], r), max) == ChildrenFrom(start, trees, max)
      {
        assert children[i..][0] == children[i] && children[i..][1..] == children[i + 1..];
        var text := children[i].Format(CHILD_BUF);
        out := Trunc(out + text, max - 1);
      }
    }
  }

  function Lookup(attrs: seq<Attr>, key: string): Option<string>
  {
    if attrs == [] then None
    else if attrs[0].key == key then Some(attrs[0].val)
    else Lookup(attrs[1..], key)
  }

  lemma {:induction false} BelowAppends(nodes: seq<XmlNode>, child: XmlNode, r: set<object>, r': set<object>)
    requires Below(nodes, r) && r <= r' && child.Valid() && child.Repr <= r'
    ensures Below(nodes + [child], r')
    ensures Trees(nodes + [child], r') == Trees(nodes, r) + [child.Tree()]
    decreases |nodes|
  {
    if nodes == [] {
      assert nodes + [child] == [child];
    } else {
      assert (nodes + [child])[1..] == nodes[1..] + [child];
      BelowAppends(nodes[1..], child, r, r');
    }
  }

  ghost predicate Below(nodes: seq<XmlNode>, r: set<object>)
    reads r
    decreases r, |nodes|
  {
    nodes == [] ||
    (nodes[0] in r && nodes[0].Repr <= r && nodes[0].Valid() && Below(nodes[1..], r))
  }

  ghost function Trees(nodes: seq<XmlNode>, r: set<object>): (t: seq<Xml>)
    requires Below(nodes, r)
    ensures |t| == |nodes|
    reads r
    decreases r, |nodes|
  {
    if nodes == [] then [] else [nodes[0].Tree()] + Trees(nodes[1..], r)
  }
}
