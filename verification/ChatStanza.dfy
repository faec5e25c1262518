/** Message and presence stanzas: building them, and reading their fields back. */
module ChatStanza {
  import opened CStrings
  import opened Sequences
  import opened ChatXml

  // ----- the extractor

  // extract_attr_val: after name=" or else name=', up to the next quote or '>'.
  function ExtractAttr(s: string, name: string, cap: nat): string
    requires cap > 0
  {
    var double := After(s, Trunc(name + "=\"", 63));
    var p := if double.Some? then double else After(s, Trunc(name + "='", 63));
    match p
    case None => ""
    case Some(t) =>
      var len := FindAny(t, "\"'>");
      if len < 0 then "" else Trunc(t[..len], cap - 1)
  }

  // Up to the end that is found in s, as much as the buffer holds.
  function Upto(s: string, end: string, cap: nat): string
    requires cap > 0
  {
    var len := Find(s, end);
    if len < 0 then "" else Trunc(s[..len], cap - 1)
  }

  // extract_tag_cdata: between <name> and the next </name>.
  function ExtractTag(s: string, name: string, cap: nat): string
    requires cap > 0
  {
    match After(s, Trunc("<" + name + ">", 63))
    case None => ""
    case Some(t) => Upto(t, Trunc("</" + name + ">", 63), cap)
  }

  // ----- what the extractor relies on

  predicate Letter(c: char) { 'a' <= c <= 'z' }

  predicate Word(s: string)
  {
    s != "" && |s| <= 31 && forall c :: c in s ==> Letter(c)
  }

  predicate Ends(s: string, t: string)
  {
    |t| <= |s| && s[|s| - |t|..] == t
  }

  // Nothing in the value ends it.
  predicate Clean(v: string) { '\"' !in v && '\'' !in v && '>' !in v }

  // An attribute that a search for name= finds exactly when it is its own.
  predicate GoodAttr(a: Attr, name: string)
  {
    && Word(a.key) && (Ends(a.key, name) ==> a.key == name)
    && Clean(a.val) && !Ends(a.val, name + "=")
  }

  // All attributes are so that come before the one of this name.
  predicate GoodBefore(attrs: seq<Attr>, name: string)
  {
    attrs == [] || attrs[0].key == name || (GoodAttr(attrs[0], name) && GoodBefore(attrs[1..], name))
  }

  predicate IsLeaf(x: Xml)
  {
    Word(x.tag) && x.attrs == [] && x.children == [] && '<' !in x.cdata
  }

  predicate Quoted(s: string) { '\"' in s || '\'' in s }

  // ----- attributes

  lemma AttrSkipped(a: Attr, name: string)
    requires Word(name) && GoodAttr(a, name) && a.key != name
    ensures Find(AttrText(a), name + "=\"") == -1
  {
    hide Find;
    var needle := name + "=\"";
    KeySkipped(a.key, name);
    ValueSkipped(a.val, name);
    var k := KeyPart(a.key);
    assert k[|k| - 1] == '\"' && '\"' !in needle[..|needle| - 1] by {
      assert needle[..|needle| - 1] == name + "=";
    }
    FindAfter(k, ValPart(a.val), needle);
  }

  lemma KeySkipped(key: string, name: string)
    requires Word(name) && Word(key) && (Ends(key, name) ==> key == name) && key != name
    ensures Find(KeyPart(key), name + "=\"") == -1
  {
    hide Find;
    var x := " " + key + "=";
    if |name| <= |key| + 1 {
      KeyDiffers(key, name);
      assert x + ['\"'] == KeyPart(key);
    }
    FindAtBackOnly(x, '\"', name + "=\"");
  }

  lemma KeyDiffers(key: string, name: string)
    requires Word(name) && Word(key) && (Ends(key, name) ==> key == name) && key != name
    requires |name| <= |key| + 1
    ensures KeyPart(key)[|key| + 1 - |name|..] != name + "=\""
  {
    var t := KeyPart(key)[|key| + 1 - |name|..];
    if |name| == |key| + 1 {
      assert t[0] == ' ' && Letter(name[0]);
      assert (name + "=\"")[0] == name[0];
    } else {
      assert t[..|name|] == key[|key| - |name|..];
      assert (name + "=\"")[..|name|] == name;
    }
  }

  lemma ValueSkipped(val: string, name: string)
    requires '\"' !in val && !Ends(val, name + "=")
    ensures Find(ValPart(val), name + "=\"") == -1
  {
    hide Find;
    var needle := name + "=\"";
    if |needle| <= |val| + 1 {
      var t := (val + ['\"'])[|val| + 1 - |needle|..];
      assert t[..|name| + 1] == val[|val| - (|name| + 1)..];
      assert needle[..|name| + 1] == name + "=";
    }
    FindAtBackOnly(val, '\"', needle);
  }

  // Searching a run of attributes for name=" gets past the others to its own value, or past them all.
  lemma {:induction false} AttrFound(attrs: seq<Attr>, name: string, rest: string) returns (t: string)
    requires Word(name) && GoodBefore(attrs, name)
    ensures var r := After(AttrsText(attrs) + rest, name + "=\"");
            match Lookup(attrs, name)
            case Some(v) => r == Some(v + ("\"" + t))
            case None => r == After(rest, name + "=\"")
    decreases |attrs|
  {
    hide Find, After;
    if attrs == [] {
      t := "";
      assert AttrsText(attrs) + rest == rest;
    } else {
      var a := attrs[0];
      var more := AttrsText(attrs[1..]) + rest;
      Regroup(AttrText(a), AttrsText(attrs[1..]), rest);
      if a.key == name {
        t := more;
        OwnAttr(a, more);
      } else {
        t := AttrFound(attrs[1..], name, rest);
        AttrSkipped(a, name);
        NeedleEnd(name);
        AfterSkips(AttrText(a), more, name + "=\"");
      }
    }
  }

  lemma NeedleEnd(name: string)
    requires Word(name)
    ensures var needle := name + "=\""; '\"' !in needle[..|needle| - 1]
    ensures forall c :: c in name + "=\"" ==> c != ' ' && c != '>' && c != '/'
  {
    assert (name + "=\"")[..|name| + 1] == name + "=";
  }

  lemma OwnAttr(a: Attr, more: string)
    requires Word(a.key)
    ensures After(AttrText(a) + more, a.key + "=\"") == Some(a.val + ("\"" + more))
  {
    hide Find, After;
    var needle := a.key + "=\"";
    Regroup(KeyPart(a.key), ValPart(a.val), more);
    Regroup(a.val, "\"", more);
    var after := a.val + ("\"" + more);
    assert KeyPart(a.key) == " " + needle;
    Regroup(" ", needle, after);
    NeedleEnd(a.key);
    assert ' ' !in needle;
    FindWithout(" ", needle, '\"');
    AfterSkips(" ", needle + after, needle);
    AfterMatch(needle, after);
  }

  // A stanza: its opening up to the attributes, and the rest from the closing '>' or '/' on.
  function StanzaText(tag: string, attrs: seq<Attr>, rest: string): string
  {
    ("<" + tag) + (AttrsText(attrs) + rest)
  }

  lemma {:induction false} CharNotInAttrs(attrs: seq<Attr>, c: char)
    requires !Letter(c) && c != ' ' && c != '=' && c != '\"'
    requires forall a :: a in attrs ==> Word(a.key) && c !in a.val
    ensures c !in AttrsText(attrs)
  {
    if attrs != [] {
      CharNotInAttrs(attrs[1..], c);
    }
  }

  // Reading an attribute gives its value cut to the caller's buffer, or nothing when it is absent.
  lemma AttrRead(tag: string, attrs: seq<Attr>, rest: string, name: string, cap: nat)
    requires Word(tag) && Word(name) && cap > 0
    requires GoodBefore(attrs, name) && forall a :: a in attrs ==> Word(a.key) && Clean(a.val)
    requires rest != "" && (rest[0] == '>' || rest[0] == '/')
    requires Lookup(attrs, name).None? ==> !Quoted(rest)
    ensures ExtractAttr(StanzaText(tag, attrs, rest), name, cap) ==
            match Lookup(attrs, name) case Some(v) => Trunc(v, cap - 1) case None => ""
  {
    hide Find, After, FindAny;
    var needle := name + "=\"";
    var s := StanzaText(tag, attrs, rest);
    var t := AttrFound(attrs, name, rest);
    PastOpening(tag, attrs, rest, name);
    match Lookup(attrs, name)
    case Some(v) =>
      LookupIn(attrs, name);
      FindAnyIs(v, "\"" + t, "\"'>");
      assert (v + ("\"" + t))[..|v|] == v;
    case None =>
      NotFound(rest, needle, '\"');
      CharNotInAttrs(attrs, '\'');
      NotFound(s, name + "='", '\'');
  }

  lemma NotFound(s: string, needle: string, c: char)
    requires c in needle && c !in s
    ensures After(s, needle) == None
  {
    FindWithout(s, needle, c);
  }

  lemma {:induction false} LookupIn(attrs: seq<Attr>, name: string)
    requires Lookup(attrs, name).Some?
    ensures exists a :: a in attrs && a.val == Lookup(attrs, name).value
  {
    if attrs[0].key == name {
      assert attrs[0] in attrs;
    } else {
      LookupIn(attrs[1..], name);
    }
  }

  // An attribute search of a stanza gets past its tag.
  lemma PastOpening(tag: string, attrs: seq<Attr>, rest: string, name: string)
    requires Word(tag) && Word(name) && rest != "" && (rest[0] == '>' || rest[0] == '/')
    ensures After(StanzaText(tag, attrs, rest), name + "=\"") == After(AttrsText(attrs) + rest, name + "=\"")
  {
    hide Find, After;
    FindWithout("<" + tag, name + "=\"", '\"');
    OpeningApart(tag, attrs, rest, name);
    AfterSkips("<" + tag, AttrsText(attrs) + rest, name + "=\"");
  }

  lemma OpeningApart(tag: string, attrs: seq<Attr>, rest: string, name: string)
    requires Word(tag) && Word(name) && rest != "" && (rest[0] == '>' || rest[0] == '/')
    ensures Apart("<" + tag, AttrsText(attrs) + rest, name + "=\"")
  {
    NeedleEnd(name);
    var first := (AttrsText(attrs) + rest)[0];
    assert first == if attrs == [] then rest[0] else ' ';
    assert first !in name + "=\"";
  }

  // ----- elements

  function OpenTag(name: string): string { "<" + name + ">" }

  function CloseTag(name: string): string { "</" + name + ">" }

  // The text of the first child of this name that has any.
  function TextOf(leaves: seq<Xml>, name: string): string
  {
    if leaves == [] then ""
    else if leaves[0].tag == name && leaves[0].cdata != "" then leaves[0].cdata
    else TextOf(leaves[1..], name)
  }

  lemma TagApart(a: string, rest: string, name: string)
    requires Word(name) && rest != "" && rest[0] == '<'
    ensures Apart(a, rest, OpenTag(name))
  {
    assert OpenTag(name)[1..] == name + ">";
  }

  // A search for <name> does not stop in </tag>, in <tag/>, or in another element's <tag>.
  lemma TagSkipped(tag: string, name: string, text: string)
    requires Word(tag) && Word(name) && '<' !in text
    ensures Find(CloseTag(tag), OpenTag(name)) == -1
    ensures Find("<" + tag + "/>", OpenTag(name)) == -1
    ensures tag != name ==> Find(OpenTag(tag) + text, OpenTag(name)) == -1
  {
    hide Find;
    var needle := OpenTag(name);
    assert CloseTag(tag) == ['<'] + ("/" + tag + ">");
    FindAtFrontOnly('<', "/" + tag + ">", needle);
    assert CloseTag(tag)[1] == '/' && needle[1] == name[0];
    assert "<" + tag + "/>" == ['<'] + (tag + "/>");
    FindAtFrontOnly('<', tag + "/>", needle);
    WordPrefix(name, tag, "/>");
    assert OpenTag(tag) + text == ['<'] + (tag + (">" + text));
    FindAtFrontOnly('<', tag + (">" + text), needle);
    WordPrefix(name, tag, ">" + text);
  }

  // "<name>" starts "<tag" + y only when the words are the same and y goes on with '>'.
  lemma WordPrefix(name: string, tag: string, y: string)
    requires Word(name) && Word(tag) && y != "" && !Letter(y[0])
    ensures OpenTag(name) <= ['<'] + (tag + y) ==> name == tag && y[0] == '>'
  {
    var s := ['<'] + (tag + y);
    assert s[|tag| + 1] == y[0];
    assert OpenTag(name)[|name| + 1] == '>';
    if |name| < |tag| {
      assert tag[|name|] in tag && s[|name| + 1] == tag[|name|];
    } else if |tag| < |name| {
      assert name[|tag|] in name && OpenTag(name)[|tag| + 1] == name[|tag|];
    } else {
      assert OpenTag(name)[1..|name| + 1] == name && s[1..|name| + 1] == tag;
    }
  }

  lemma LeafText(x: Xml)
    requires x.attrs == [] && x.children == []
    ensures Ideal(x) == if x.cdata == "" then "<" + x.tag + "/>" else (OpenTag(x.tag) + x.cdata) + CloseTag(x.tag)
  {
    assert "<" + x.tag + "" == "<" + x.tag;
    var s := "<" + x.tag + ">" + x.cdata;
    assert s + "" == s;
  }

  // The children and the end of the stanza.
  function Inside(leaves: seq<Xml>, outer: string): string
  {
    IdealAll(leaves) + CloseTag(outer)
  }

  lemma InsideStep(leaves: seq<Xml>, outer: string)
    requires leaves != []
    ensures Inside(leaves, outer) == Ideal(leaves[0]) + Inside(leaves[1..], outer)
  {
    Regroup(Ideal(leaves[0]), IdealAll(leaves[1..]), CloseTag(outer));
  }

  lemma InsideStarts(leaves: seq<Xml>, outer: string)
    ensures Inside(leaves, outer) != "" && Inside(leaves, outer)[0] == '<'
  {
    if leaves != [] {
      InsideStep(leaves, outer);
      assert Ideal(leaves[0])[0] == '<';
    }
  }

  lemma {:induction false} TagFound(leaves: seq<Xml>, name: string, outer: string) returns (t: string)
    requires Word(name) && Word(outer) && forall x :: x in leaves ==> IsLeaf(x)
    ensures var text := TextOf(leaves, name);
            After(Inside(leaves, outer), OpenTag(name)) ==
            if text == "" then None else Some(text + (CloseTag(name) + t))
    decreases |leaves|
  {
    hide Find, After, Ideal;
    t := "";
    if leaves == [] {
      TagSkipped(outer, name, "");
      assert Inside(leaves, outer) == CloseTag(outer);
      NoMatch(CloseTag(outer), OpenTag(name));
    } else {
      var x := leaves[0];
      var more := Inside(leaves[1..], outer);
      InsideStep(leaves, outer);
      InsideStarts(leaves[1..], outer);
      assert IsLeaf(x);
      if x.tag == name && x.cdata != "" {
        t := more;
        OwnLeaf(x, more);
      } else {
        t := TagFound(leaves[1..], name, outer);
        LeafSkipped(x, name, more);
      }
    }
  }

  lemma NoMatch(s: string, needle: string)
    requires Find(s, needle) == -1
    ensures After(s, needle) == None
  {
  }

  lemma OwnLeaf(x: Xml, more: string)
    requires Word(x.tag) && x.attrs == [] && x.children == [] && x.cdata != ""
    ensures After(Ideal(x) + more, OpenTag(x.tag)) == Some(x.cdata + (CloseTag(x.tag) + more))
  {
    hide Find, After;
    LeafText(x);
    hide Ideal;
    Regroup(OpenTag(x.tag) + x.cdata, CloseTag(x.tag), more);
    Regroup(OpenTag(x.tag), x.cdata, CloseTag(x.tag) + more);
    AfterMatch(OpenTag(x.tag), x.cdata + (CloseTag(x.tag) + more));
  }

  lemma LeafSkipped(x: Xml, name: string, more: string)
    requires IsLeaf(x) && Word(name) && (x.tag != name || x.cdata == "")
    requires more != "" && more[0] == '<'
    ensures After(Ideal(x) + more, OpenTag(name)) == After(more, OpenTag(name))
  {
    hide Find, After;
    LeafText(x);
    hide Ideal;
    TagSkipped(x.tag, name, x.cdata);
    if x.cdata == "" {
      TagApart(Ideal(x), more, name);
      AfterSkips(Ideal(x), more, OpenTag(name));
    } else {
      var a, b := OpenTag(x.tag) + x.cdata, CloseTag(x.tag);
      Regroup(a, b, more);
      TagApart(a, b + more, name);
      AfterSkips(a, b + more, OpenTag(name));
      TagApart(b, more, name);
      AfterSkips(b, more, OpenTag(name));
    }
  }

  // The opening of the stanza, closed by '>' or "/>", holds no <name> unless an attribute does.
  lemma OpeningSkipped(tag: string, attrs: seq<Attr>, slash: string, name: string)
    requires Word(tag) && Word(name) && tag != name && (slash == "" || slash == "/")
    requires forall a :: a in attrs ==> Word(a.key) && Find(a.val, OpenTag(name)) == -1
    ensures Find("<" + tag + AttrsText(attrs) + slash + ['>'], OpenTag(name)) == -1
  {
    hide Find;
    var open := "<" + tag;
    var rest := slash + ['>'];
    if slash == "" && attrs == [] {
      assert open + AttrsText(attrs) + slash == open;
      if |name| <= |tag| {
        NotTheTag(tag, name);
      }
      FindAtBackOnly(open, '>', OpenTag(name));
    } else {
      FindWithout(rest, OpenTag(name), '<');
      AttrsHoldNoTag(attrs, rest, name);
      FindWithout(open, OpenTag(name), '>');
      TagStart(open, attrs, rest, name);
      FindAfter(open, AttrsText(attrs) + rest, OpenTag(name));
      Regroup(open, AttrsText(attrs), rest);
      Regroup(open + AttrsText(attrs), slash, ['>']);
    }
  }

  lemma TagStart(open: string, attrs: seq<Attr>, rest: string, name: string)
    requires Word(name) && (if attrs == [] then rest != "" && rest[0] == '/' else true)
    ensures Apart(open, AttrsText(attrs) + rest, OpenTag(name))
  {
    var first := (AttrsText(attrs) + rest)[0];
    assert first == if attrs == [] then rest[0] else ' ';
    assert OpenTag(name)[1..] == name + ">";
  }

  lemma {:induction false} AttrsHoldNoTag(attrs: seq<Attr>, rest: string, name: string)
    requires Word(name) && Find(rest, OpenTag(name)) == -1
    requires forall a :: a in attrs ==> Word(a.key) && Find(a.val, OpenTag(name)) == -1
    ensures Find(AttrsText(attrs) + rest, OpenTag(name)) == -1
    decreases |attrs|
  {
    hide Find;
    if attrs == [] {
      assert AttrsText(attrs) + rest == rest;
    } else {
      var a, more := attrs[0], AttrsText(attrs[1..]) + rest;
      assert a in attrs;
      AttrsHoldNoTag(attrs[1..], rest, name);
      AttrHoldsNoTag(a, name);
      QuoteApart(AttrText(a), more, name);
      FindAfter(AttrText(a), more, OpenTag(name));
      Regroup(AttrText(a), AttrsText(attrs[1..]), rest);
    }
  }

  lemma QuoteApart(a: string, rest: string, name: string)
    requires Word(name) && a != "" && a[|a| - 1] == '\"'
    ensures Apart(a, rest, OpenTag(name))
  {
    var needle := OpenTag(name);
    assert needle[..|needle| - 1] == "<" + name;
  }

  lemma AttrHoldsNoTag(a: Attr, name: string)
    requires Word(name) && Word(a.key) && Find(a.val, OpenTag(name)) == -1
    ensures Find(AttrText(a), OpenTag(name)) == -1
  {
    hide Find;
    var needle := OpenTag(name);
    FindWithout(KeyPart(a.key), needle, '<');
    FindWithout("\"", needle, '<');
    assert needle[1..] == name + ">";
    FindAfter(a.val, "\"", needle);
    QuoteApart(KeyPart(a.key), ValPart(a.val), name);
    FindAfter(KeyPart(a.key), ValPart(a.val), needle);
  }

  lemma NoEndNoTag(attrs: seq<Attr>, name: string)
    requires forall a :: a in attrs ==> '>' !in a.val
    ensures forall a :: a in attrs ==> Find(a.val, OpenTag(name)) == -1
  {
    forall a | a in attrs
      ensures Find(a.val, OpenTag(name)) == -1
    {
      FindWithout(a.val, OpenTag(name), '>');
    }
  }

  lemma NotTheTag(tag: string, name: string)
    requires Word(tag) && Word(name) && tag != name && |name| <= |tag|
    ensures ("<" + tag + ['>'])[|tag| - |name|..] != OpenTag(name)
  {
    var s := "<" + tag + ['>'];
    var t := s[|tag| - |name|..];
    if |name| < |tag| {
      assert t[0] == tag[|tag| - |name| - 1] && Letter(t[0]);
    } else {
      assert t[1..|name| + 1] == tag && OpenTag(name)[1..|name| + 1] == name;
    }
  }

  // ----- whole stanzas

  function Stanza(tag: string, attrs: seq<Attr>, leaves: seq<Xml>): Xml
  {
    Element(tag, attrs, "", leaves)
  }

  function RestOf(leaves: seq<Xml>, tag: string): string
  {
    if leaves == [] then "/>" else ">" + Inside(leaves, tag)
  }

  lemma StanzaIsText(tag: string, attrs: seq<Attr>, leaves: seq<Xml>)
    ensures Ideal(Stanza(tag, attrs, leaves)) == StanzaText(tag, attrs, RestOf(leaves, tag))
  {
    hide IdealAll, AttrsText;
    var x := Stanza(tag, attrs, leaves);
    Regroup("<" + tag, AttrsText(attrs), RestOf(leaves, tag));
    if leaves != [] {
      var header := "<" + tag + AttrsText(attrs);
      assert header + ">" + "" == header + ">";
      Regroup(header + ">", IdealAll(leaves), CloseTag(tag));
      Regroup(header, ">", Inside(leaves, tag));
    }
  }

  ghost predicate Readable(tag: string, attrs: seq<Attr>, leaves: seq<Xml>)
  {
    && Word(tag)
    && (forall a :: a in attrs ==> Word(a.key) && '>' !in a.val)
    && (forall x :: x in leaves ==> IsLeaf(x))
  }

  // Reading an element gives its text cut to the caller's buffer; absent and empty ones read alike.
  lemma TagRead(tag: string, attrs: seq<Attr>, leaves: seq<Xml>, name: string, cap: nat)
    requires Readable(tag, attrs, leaves) && Word(name) && name != tag && cap > 0
    ensures ExtractTag(Ideal(Stanza(tag, attrs, leaves)), name, cap) == Trunc(TextOf(leaves, name), cap - 1)
  {
    hide Find, After, Ideal;
    var needle := OpenTag(name);
    var open := "<" + tag + AttrsText(attrs);
    var s := Ideal(Stanza(tag, attrs, leaves));
    StanzaIsText(tag, attrs, leaves);
    Regroup("<" + tag, AttrsText(attrs), RestOf(leaves, tag));
    assert s == open + RestOf(leaves, tag);
    NoEndNoTag(attrs, name);
    if leaves == [] {
      OpeningSkipped(tag, attrs, "/", name);
      assert s == open + "/" + ['>'];
      NoMatch(s, needle);
    } else {
      OpeningSkipped(tag, attrs, "", name);
      var inside := Inside(leaves, tag);
      InsideStarts(leaves, tag);
      TagApart(open + ">", inside, name);
      assert open + "" + ['>'] == open + ">";
      Regroup(open, ">", inside);
      AfterSkips(open + ">", inside, needle);
      var t := TagFound(leaves, name, tag);
      var text := TextOf(leaves, name);
      if text != "" {
        TextHasNoTags(leaves, name);
        TextEnds(text, name, t);
      }
    }
  }

  lemma {:induction false} TextHasNoTags(leaves: seq<Xml>, name: string)
    requires forall x :: x in leaves ==> IsLeaf(x)
    ensures '<' !in TextOf(leaves, name)
  {
    if leaves != [] {
      assert IsLeaf(leaves[0]);
      TextHasNoTags(leaves[1..], name);
    }
  }

  lemma TextEnds(text: string, name: string, more: string)
    requires Word(name) && '<' !in text
    ensures Find(text + (CloseTag(name) + more), CloseTag(name)) == |text|
    ensures (text + (CloseTag(name) + more))[..|text|] == text
  {
    var needle := CloseTag(name);
    FindWithout(text, needle, '<');
    CloseApart(text, more, name);
    FindAfter(text, needle + more, needle);
    AfterMatch(needle, more);
    assert (needle + more)[0..] == needle + more;
    FindIs(needle + more, needle, 0);
  }

  // ----- exactly when

  // The search has come to the attribute itself: its value comes back exactly when it fits and
  // nothing in it ends a value.
  lemma ReadsOwn(s: string, a: Attr, more: string, cap: nat)
    requires Word(a.key) && cap > 0 && After(s, a.key + "=\"") == Some(a.val + ("\"" + more))
    ensures ExtractAttr(s, a.key, cap) == a.val <==> |a.val| < cap && Clean(a.val)
  {
    hide Find, After, FindAny;
    ValueCut(a.val, more, "\"'>");
    assert forall c :: c in "\"'>" <==> c == '\"' || c == '\'' || c == '>';
  }

  // The search has come to what precedes another attribute: it reads back that one's name.
  lemma ReadsNext(s: string, name: string, g: Attr, more: string, cap: nat)
    requires Word(name) && Word(g.key) && |g.key| + 2 < cap && After(s, name + "=\"") == Some(AttrText(g) + more)
    ensures ExtractAttr(s, name, cap) == " " + g.key + "="
  {
    hide Find, After, FindAny;
    var v := " " + g.key + "=";
    var rest := "\"" + (ValPart(g.val) + more);
    Regroup(KeyPart(g.key), ValPart(g.val), more);
    Regroup(v, "\"", ValPart(g.val) + more);
    assert AttrText(g) + more == v + rest;
    FindAnyIs(v, rest, "\"'>");
    assert (v + rest)[..|v|] == v;
  }

  lemma FirstAttrAt(tag: string, a: Attr, attrs: seq<Attr>, rest: string)
    requires Word(tag) && Word(a.key) && rest != "" && (rest[0] == '>' || rest[0] == '/')
    ensures After(StanzaText(tag, [a] + attrs, rest), a.key + "=\"") ==
            Some(a.val + ("\"" + (AttrsText(attrs) + rest)))
  {
    hide After;
    FirstOfAttrs(a, attrs, rest);
    PastOpening(tag, [a] + attrs, rest, a.key);
    OwnAttr(a, AttrsText(attrs) + rest);
  }

  lemma FirstOfAttrs(a: Attr, attrs: seq<Attr>, rest: string)
    ensures AttrsText([a] + attrs) + rest == AttrText(a) + (AttrsText(attrs) + rest)
  {
    assert ([a] + attrs)[1..] == attrs;
    Regroup(AttrText(a), AttrsText(attrs), rest);
  }

  // The first attribute comes back exactly when it fits and nothing in it ends a value.
  lemma FirstAttrExact(tag: string, a: Attr, attrs: seq<Attr>, rest: string, cap: nat)
    requires Word(tag) && Word(a.key) && cap > 0
    requires rest != "" && (rest[0] == '>' || rest[0] == '/')
    ensures ExtractAttr(StanzaText(tag, [a] + attrs, rest), a.key, cap) == a.val <==> |a.val| < cap && Clean(a.val)
  {
    FirstAttrAt(tag, a, attrs, rest);
    ReadsOwn(StanzaText(tag, [a] + attrs, rest), a, AttrsText(attrs) + rest, cap);
  }

  // A clean attribute is passed over, unless its value ends in name=: then the search stops there.
  lemma PastAttr(f: Attr, name: string, more: string)
    requires Word(name) && name[0] !in name[1..] && Word(f.key) && !Ends(f.key, name) && Clean(f.val)
    ensures After(AttrText(f) + more, name + "=\"") ==
            if Ends(f.val, name + "=") then Some(more) else After(more, name + "=\"")
  {
    hide Find, After;
    var needle := name + "=\"";
    if Ends(f.val, name + "=") {
      StopsInside(f, name, more);
    } else {
      assert !Ends(f.key, name) ==> f.key != name by {
        assert name[0..] == name;
      }
      AttrSkipped(f, name);
      NeedleEnd(name);
      AfterSkips(AttrText(f), more, needle);
    }
  }

  lemma StopsInside(f: Attr, name: string, more: string)
    requires Word(name) && name[0] !in name[1..] && Word(f.key) && !Ends(f.key, name) && Clean(f.val)
    requires Ends(f.val, name + "=")
    ensures After(AttrText(f) + more, name + "=\"") == Some(more)
  {
    hide Find, After;
    var needle := name + "=\"";
    var v := f.val[..|f.val| - |name| - 1];
    var front := KeyPart(f.key) + v;
    EndsInNeedle(f, name, v);
    assert name[0..] == name;
    KeySkipped(f.key, name);
    FindWithout(v, needle, '\"');
    NeedleEnd(name);
    FindAfter(KeyPart(f.key), v, needle);
    NeedleStart(front, name, more);
    AfterSkips(front, needle + more, needle);
    AfterMatch(needle, more);
    Regroup(front, needle, more);
  }

  lemma EndsInNeedle(f: Attr, name: string, v: string)
    requires Ends(f.val, name + "=") && v == f.val[..|f.val| - |name| - 1]
    ensures AttrText(f) == KeyPart(f.key) + v + (name + "=\"")
  {
    assert f.val == v + (name + "=");
    assert ValPart(f.val) == v + (name + "=\"");
    Regroup(KeyPart(f.key), v, name + "=\"");
  }

  lemma NeedleStart(a: string, name: string, more: string)
    requires Word(name) && name[0] !in name[1..]
    ensures Apart(a, (name + "=\"") + more, name + "=\"")
  {
    var needle := name + "=\"";
    assert needle[1..] == name[1..] + "=\"";
    assert (needle + more)[0] == name[0] && name[0] in name;
  }

  lemma ValueCut(v: string, more: string, stops: string)
    requires '\"' in stops
    ensures var len := FindAny(v + ("\"" + more), stops);
            && 0 <= len <= |v|
            && (len == |v| <==> forall c :: c in v ==> c !in stops)
            && (v + ("\"" + more))[..len] <= v
  {
    var t := v + ("\"" + more);
    assert t[|v|] == '\"';
    if forall c :: c in v ==> c !in stops {
      FindAnyIs(v, "\"" + more, stops);
    } else {
      var c :| c in v && c in stops;
      var i :| 0 <= i < |v| && v[i] == c;
      assert t[i] == c;
    }
  }

  // An element search of a stanza gets past its opening.
  lemma PastOpeningTag(tag: string, attrs: seq<Attr>, leaves: seq<Xml>, name: string)
    requires Word(tag) && Word(name) && name != tag && leaves != []
    requires forall a :: a in attrs ==> Word(a.key) && Find(a.val, OpenTag(name)) == -1
    ensures After(Ideal(Stanza(tag, attrs, leaves)), OpenTag(name)) == After(Inside(leaves, tag), OpenTag(name))
  {
    hide Find, After, Ideal;
    var open := "<" + tag + AttrsText(attrs);
    OpeningThen(tag, attrs, leaves);
    InsideStarts(leaves, tag);
    OpeningSkipped(tag, attrs, "", name);
    assert open + "" + ['>'] == open + ">";
    TagApart(open + ">", Inside(leaves, tag), name);
    AfterSkips(open + ">", Inside(leaves, tag), OpenTag(name));
  }

  // The first element comes back exactly when it fits and its text does not close it.
  lemma FirstTagExact(tag: string, attrs: seq<Attr>, x: Xml, leaves: seq<Xml>, cap: nat)
    requires Word(tag) && Word(x.tag) && x.tag != tag && cap > 0
    requires forall a :: a in attrs ==> Word(a.key) && Find(a.val, OpenTag(x.tag)) == -1
    requires x.attrs == [] && x.children == [] && x.cdata != ""
    ensures ExtractTag(Ideal(Stanza(tag, attrs, [x] + leaves)), x.tag, cap) == x.cdata <==>
            |x.cdata| < cap && Find(x.cdata, CloseTag(x.tag)) == -1
  {
    hide Find, After, Ideal;
    var all := [x] + leaves;
    PastOpeningTag(tag, attrs, all, x.tag);
    InsideStep(all, tag);
    assert all[1..] == leaves;
    OwnLeaf(x, Inside(leaves, tag));
    TextCut(x.cdata, x.tag, Inside(leaves, tag));
  }

  // Another element's text may hold <name>: then the search stops in it.
  lemma OtherLeaf(x: Xml, name: string, more: string)
    requires Word(x.tag) && Word(name) && x.tag != name && x.attrs == [] && x.children == []
    requires more != "" && more[0] == '<'
    ensures After(Ideal(x) + more, OpenTag(name)) ==
            match After(x.cdata, OpenTag(name))
            case Some(t) => Some(t + (CloseTag(x.tag) + more))
            case None => After(more, OpenTag(name))
  {
    hide Find, After;
    LeafText(x);
    hide Ideal;
    var needle, text := OpenTag(name), x.cdata;
    TagSkipped(x.tag, name, "");
    if text == "" {
      FindWithout("", needle, '<');
      NoMatch("", needle);
      TagApart(Ideal(x), more, name);
      AfterSkips(Ideal(x), more, needle);
    } else {
      var rest := CloseTag(x.tag) + more;
      Regroup(OpenTag(x.tag) + text, CloseTag(x.tag), more);
      Regroup(OpenTag(x.tag), text, rest);
      assert OpenTag(x.tag) + "" == OpenTag(x.tag);
      EndApart(x.tag, text + rest, name);
      AfterSkips(OpenTag(x.tag), text + rest, needle);
      if After(text, needle).Some? {
        AfterWithin(text, rest, needle);
      } else {
        NoAfter(text, needle);
        TagApart(text, rest, name);
        AfterSkips(text, rest, needle);
        TagApart(CloseTag(x.tag), more, name);
        AfterSkips(CloseTag(x.tag), more, needle);
      }
    }
  }

  lemma NoAfter(s: string, needle: string)
    requires After(s, needle).None?
    ensures Find(s, needle) == -1
  {
  }

  lemma EndApart(tag: string, rest: string, name: string)
    requires Word(tag) && Word(name)
    ensures Apart(OpenTag(tag), rest, OpenTag(name))
  {
    var needle := OpenTag(name);
    assert needle[..|needle| - 1] == "<" + name;
  }

  lemma OpeningThen(tag: string, attrs: seq<Attr>, leaves: seq<Xml>)
    requires leaves != []
    ensures Ideal(Stanza(tag, attrs, leaves)) == "<" + tag + AttrsText(attrs) + ">" + Inside(leaves, tag)
  {
    hide Ideal, Inside, AttrsText;
    StanzaIsText(tag, attrs, leaves);
    Regroup("<" + tag, AttrsText(attrs), RestOf(leaves, tag));
    Regroup("<" + tag + AttrsText(attrs), ">", Inside(leaves, tag));
  }

  lemma TextCut(text: string, name: string, more: string)
    requires Word(name)
    ensures var t := text + (CloseTag(name) + more);
            var len := Find(t, CloseTag(name));
            && 0 <= len <= |text| && t[..len] <= text
            && (len == |text| <==> Find(text, CloseTag(name)) == -1)
  {
    hide Find, CloseTag, Apart;
    var needle := CloseTag(name);
    CloseApart(text, more, name);
    PrefixOfSum(text, needle + more);
    if Find(text, needle) == -1 {
      FindAfter(text, needle + more, needle);
      FindFirst(needle, more);
    } else {
      FindWithin(text, needle + more, needle);
      MatchFits(text, needle);
    }
  }

  lemma CloseApart(a: string, more: string, name: string)
    requires Word(name)
    ensures CloseTag(name) != "" && Apart(a, CloseTag(name) + more, CloseTag(name))
  {
    assert CloseTag(name)[1..] == "/" + name + ">";
  }

  lemma PrefixOfSum(a: string, b: string)
    ensures forall n :: 0 <= n <= |a| ==> (a + b)[..n] <= a
  {
  }

  lemma FindFirst(needle: string, more: string)
    ensures Find(needle + more, needle) == 0
  {
  }
}
