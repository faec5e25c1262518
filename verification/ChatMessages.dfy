/** The two stanzas the bus sends, built by node and parsed back field by field. */
module ChatMessages {
  import opened CStrings
  import opened Sequences
  import opened ChatXml
  import opened ChatStanza

  type Field = Option<string>

  function Text(f: Field): string { if f.Some? then f.value else "" }

  function GivenAttr(key: string, f: Field): seq<Attr>
  {
    match f
    case None => []
    case Some(v) => [Attr(key, Trunc(v, MAX_VAL))]
  }

  function GivenLeaf(tag: string, f: Field): seq<Xml>
  {
    match f
    case None => []
    case Some(v) => [Element(tag, [], Trunc(v, MAX_DATA), [])]
  }

  function MessageAttrs(from: Field, to: Field, kind: Field): seq<Attr>
  {
    GivenAttr("from", from) + GivenAttr("to", to) + GivenAttr("type", kind)
  }

  function MessageTree(from: Field, to: Field, kind: Field, body: Field, stamp: Field): Xml
  {
    Stanza("message", MessageAttrs(from, to, kind), GivenLeaf("body", body) + GivenLeaf("stamp", stamp))
  }

  function PresenceTree(from: Field, to: Field, show: Field, status: Field): Xml
  {
    Stanza("presence", MessageAttrs(from, to, None), GivenLeaf("show", show) + GivenLeaf("status", status))
  }

  method AddField(node: XmlNode, key: string, f: Field)
    requires node.Valid() && |node.Tree().attrs| < MAX_ATTRS && Trunc(key, MAX_TAG) == key
    modifies node`attrs
    ensures node.Valid() && node.Tree() == old(node.Tree()).(attrs := old(node.Tree().attrs) + GivenAttr(key, f))
  {
    if f.Some? {
      node.AddAttr(key, f.value);
    } else {
      assert node.attrs + [] == node.attrs;
    }
  }

  method AddLeaf(node: XmlNode, tag: string, f: Field)
    requires node.Valid() && |node.Tree().children| < MAX_CHILDREN && Trunc(tag, MAX_TAG) == tag
    modifies node`children, node`Repr
    ensures node.Valid() && fresh(node.Repr - old(node.Repr))
    ensures node.Tree() == old(node.Tree()).(children := old(node.Tree().children) + GivenLeaf(tag, f))
  {
    if f.Some? {
      var child := new XmlNode(tag);
      child.SetData(f.value);
      node.AddChild(child);
    } else {
      assert node.Tree().children + [] == node.Tree().children;
    }
  }

  lemma Unit<T>(s: seq<T>)
    ensures [] + s == s && s + [] == s
  {
  }

  method BuildMessage(from: Field, to: Field, kind: Field, body: Field, stamp: Field, max: int) returns (xml: string)
    ensures xml == Formatted(MessageTree(from, to, kind, body, stamp), max)
  {
    hide XmlNode.Valid, XmlNode.Tree, Formatted;
    var msg := new XmlNode("message");
    AddField(msg, "from", from);
    AddField(msg, "to", to);
    AddField(msg, "type", kind);
    AddLeaf(msg, "body", body);
    AddLeaf(msg, "stamp", stamp);
    Unit(GivenAttr("from", from));
    Unit(GivenLeaf("body", body));
    assert msg.Tree() == MessageTree(from, to, kind, body, stamp);
    xml := msg.Format(max);
  }

  method BuildPresence(from: Field, to: Field, show: Field, status: Field, max: int) returns (xml: string)
    ensures xml == Formatted(PresenceTree(from, to, show, status), max)
  {
    hide XmlNode.Valid, XmlNode.Tree, Formatted;
    var pres := new XmlNode("presence");
    AddField(pres, "from", from);
    AddField(pres, "to", to);
    AddLeaf(pres, "show", show);
    AddLeaf(pres, "status", status);
    Unit(GivenAttr("from", from));
    Unit(GivenAttr("from", from) + GivenAttr("to", to));
    Unit(GivenLeaf("show", show));
    assert pres.Tree() == PresenceTree(from, to, show, status);
    xml := pres.Format(max);
  }

  // ----- parsing

  const JID_CAP := 64
  const ROOM_CAP := 32
  const LINE_CAP := 256

  datatype Message = Message(from: string, to: string, kind: string, body: string, stamp: string)

  datatype Presence = Presence(from: string, to: string, show: string, status: string)

  function ParseMessage(xml: string): Option<Message>
  {
    if Find(xml, "<message") < 0 then None
    else Some(Message(ExtractAttr(xml, "from", JID_CAP), ExtractAttr(xml, "to", ROOM_CAP),
                      ExtractAttr(xml, "type", 16),
                      ExtractTag(xml, "body", LINE_CAP), ExtractTag(xml, "stamp", 16)))
  }

  function ParsePresence(xml: string): Option<Presence>
  {
    if Find(xml, "<presence") < 0 then None
    else Some(Presence(ExtractAttr(xml, "from", JID_CAP), ExtractAttr(xml, "to", ROOM_CAP),
                       ExtractTag(xml, "show", 16), ExtractTag(xml, "status", 64)))
  }

  predicate AllClean(from: Field, to: Field, kind: Field)
  {
    Clean(Text(from)) && Clean(Text(to)) && Clean(Text(kind))
  }

  // No value that a search for this name comes to before the attribute itself ends in name=.
  predicate Plain(from: Field, to: Field, kind: Field, name: string)
  {
    (name == "from" && from.Some?) ||
    (!Ends(Text(from), name + "=") &&
     ((name == "to" && to.Some?) ||
      (!Ends(Text(to), name + "=") &&
       ((name == "type" && kind.Some?) || !Ends(Text(kind), name + "=")))))
  }

  predicate Unmistaken(from: Field, to: Field, kind: Field)
  {
    Plain(from, to, kind, "from") && Plain(from, to, kind, "to") && Plain(from, to, kind, "type")
  }

  // Quotes in the text matter only when an attribute is absent and looked for beyond the opening.
  predicate GoodText(f: Field, absent: bool)
  {
    '<' !in Text(f) && (absent ==> !Quoted(Text(f)))
  }

  lemma {:induction false} LookupAppend(a: seq<Attr>, b: seq<Attr>, key: string)
    ensures Lookup(a + b, key) == if Lookup(a, key).Some? then Lookup(a, key) else Lookup(b, key)
  {
    if a == [] {
      assert a + b == b;
    } else {
      assert (a + b)[1..] == a[1..] + b;
      LookupAppend(a[1..], b, key);
    }
  }

  function Stored(f: Field): Field { if f.Some? then Some(Trunc(f.value, MAX_VAL)) else None }

  lemma MessageLookups(from: Field, to: Field, kind: Field)
    ensures var attrs := MessageAttrs(from, to, kind);
            Lookup(attrs, "from") == Stored(from) && Lookup(attrs, "to") == Stored(to) && Lookup(attrs, "type") == Stored(kind)
  {
    var a, b, c := GivenAttr("from", from), GivenAttr("to", to), GivenAttr("type", kind);
    LookupAppend(a + b, c, "from");
    LookupAppend(a, b, "from");
    LookupAppend(a + b, c, "to");
    LookupAppend(a, b, "to");
    LookupAppend(a + b, c, "type");
    LookupAppend(a, b, "type");
  }

  lemma TextsOfPair(tag: string, f: Field, tag': string, f': Field)
    requires tag != tag'
    ensures var leaves := GivenLeaf(tag, f) + GivenLeaf(tag', f');
            TextOf(leaves, tag) == Trunc(Text(f), MAX_DATA) && TextOf(leaves, tag') == Trunc(Text(f'), MAX_DATA)
  {
    var b := GivenLeaf(tag', f');
    assert b == b + [];
    TextOfGiven(tag, f, b, tag);
    TextOfGiven(tag, f, b, tag');
    TextOfGiven(tag', f', [], tag);
    TextOfGiven(tag', f', [], tag');
  }

  lemma TextOfGiven(tag: string, f: Field, rest: seq<Xml>, name: string)
    ensures TextOf(GivenLeaf(tag, f) + rest, name) ==
            if tag == name && Trunc(Text(f), MAX_DATA) != "" then Trunc(Text(f), MAX_DATA) else TextOf(rest, name)
  {
    var s := GivenLeaf(tag, f) + rest;
    if f.None? {
      assert s == rest;
    } else {
      assert s[1..] == rest;
    }
  }

  lemma WordsAreWords()
    ensures Word("message") && Word("presence")
    ensures Word("from") && Word("to") && Word("type")
    ensures Word("body") && Word("stamp") && Word("show") && Word("status")
  {
  }

  lemma AttrsAreGood(from: Field, to: Field, kind: Field, name: string)
    requires AllClean(from, to, kind) && Plain(from, to, kind, name)
    requires name == "from" || name == "to" || name == "type"
    requires forall a :: a in MessageAttrs(from, to, kind) ==> |AttrText(a)| <= 127
    ensures GoodBefore(MessageAttrs(from, to, kind), name)
    ensures forall a :: a in MessageAttrs(from, to, kind) ==> Word(a.key) && Clean(a.val)
  {
    hide Word, Clean, Ends, AttrText, GivenAttr, GoodBefore;
    WordsAreWords();
    var a, b, c := GivenAttr("from", from), GivenAttr("to", to), GivenAttr("type", kind);
    Regroup(a, b, c);
    assert c + [] == c;
    NoneBefore(name);
    if !(name == "from" && from.Some?) && !(name == "to" && to.Some?) {
      GivenBefore("type", kind, [], name);
    }
    if !(name == "from" && from.Some?) {
      GivenBefore("to", to, c, name);
    }
    GivenBefore("from", from, b + c, name);
    GivenClean("from", from);
    GivenClean("to", to);
    GivenClean("type", kind);
  }

  lemma NoneBefore(name: string)
    ensures GoodBefore([], name)
  {
  }

  lemma GivenBefore(key: string, f: Field, rest: seq<Attr>, name: string)
    requires Word(key) && (key == "from" || key == "to" || key == "type")
    requires name == "from" || name == "to" || name == "type"
    requires forall a :: a in GivenAttr(key, f) ==> |AttrText(a)| <= 127
    requires Clean(Text(f))
    requires (f.Some? && key == name) || (!Ends(Text(f), name + "=") && GoodBefore(rest, name))
    ensures GoodBefore(GivenAttr(key, f) + rest, name)
  {
    hide Word, Clean;
    KeysApart(key, name);
    ValuesWhole(key, f);
    hide Ends, AttrText;
    if f.None? {
      assert GivenAttr(key, f) + rest == rest;
    } else {
      var all := GivenAttr(key, f) + rest;
      assert all[0] in GivenAttr(key, f) && all[1..] == rest;
    }
  }

  lemma GivenClean(key: string, f: Field)
    requires Word(key) && Clean(Text(f))
    requires forall a :: a in GivenAttr(key, f) ==> |AttrText(a)| <= 127
    ensures forall a :: a in GivenAttr(key, f) ==> Word(a.key) && Clean(a.val)
  {
    hide Word, Clean;
    ValuesWhole(key, f);
  }

  lemma ValuesWhole(key: string, f: Field)
    ensures forall a :: a in GivenAttr(key, f) && |AttrText(a)| <= 127 ==> a.key == key && a.val == Text(f)
  {
  }

  lemma KeysApart(key: string, name: string)
    requires key == "from" || key == "to" || key == "type"
    requires name == "from" || name == "to" || name == "type"
    ensures Ends(key, name) ==> key == name
  {
  }

  lemma {:induction false} NoQuotesInside(leaves: seq<Xml>, outer: string)
    requires Word(outer) && forall x :: x in leaves ==> IsLeaf(x) && !Quoted(x.cdata)
    ensures !Quoted(Inside(leaves, outer))
    decreases |leaves|
  {
    if leaves == [] {
      assert Inside(leaves, outer) == CloseTag(outer);
    } else {
      NoQuotesInside(leaves[1..], outer);
      InsideStep(leaves, outer);
      assert IsLeaf(leaves[0]);
      LeafText(leaves[0]);
    }
  }

  lemma LeavesAreGood(tag: string, f: Field, absent: bool)
    requires Word(tag) && GoodText(f, absent)
    ensures forall x :: x in GivenLeaf(tag, f) ==> IsLeaf(x) && (absent ==> !Quoted(x.cdata))
  {
    if f.Some? {
      var v := f.value;
      assert forall c :: c in Trunc(v, MAX_DATA) ==> c in v;
    }
  }

  lemma AttrsInTree(tag: string, attrs: seq<Attr>, leaves: seq<Xml>)
    requires Fits(Stanza(tag, attrs, leaves))
    ensures forall a :: a in attrs ==> |AttrText(a)| <= 127
  {
  }

  lemma StanzaBegins(tag: string, attrs: seq<Attr>, leaves: seq<Xml>)
    ensures Find(Ideal(Stanza(tag, attrs, leaves)), "<" + tag) == 0
  {
    StanzaIsText(tag, attrs, leaves);
    var s := Ideal(Stanza(tag, attrs, leaves));
    assert "<" + tag <= s;
  }

  // What one attribute and one element come back as, for either stanza.
  lemma ReadAttr(tag: string, from: Field, to: Field, kind: Field, leaves: seq<Xml>, name: string, cap: nat)
    requires Word(tag) && Fits(Stanza(tag, MessageAttrs(from, to, kind), leaves)) && 0 < cap <= 128
    requires AllClean(from, to, kind) && Plain(from, to, kind, name)
    requires name == "from" || name == "to" || name == "type"
    requires forall x :: x in leaves ==> IsLeaf(x)
    requires Lookup(MessageAttrs(from, to, kind), name).None? ==> forall x :: x in leaves ==> !Quoted(x.cdata)
    ensures ExtractAttr(Ideal(Stanza(tag, MessageAttrs(from, to, kind), leaves)), name, cap) ==
            match Lookup(MessageAttrs(from, to, kind), name) case Some(v) => Trunc(v, cap - 1) case None => ""
  {
    hide Find, After, Ideal, AttrText;
    var attrs := MessageAttrs(from, to, kind);
    AttrsInTree(tag, attrs, leaves);
    hide Fits;
    AttrsAreGood(from, to, kind, name);
    hide MessageAttrs, AllClean, Plain, GoodBefore;
    WordsAreWords();
    StanzaIsText(tag, attrs, leaves);
    var rest := RestOf(leaves, tag);
    if Lookup(attrs, name).None? {
      NoQuotesInside(leaves, tag);
    }
    AttrRead(tag, attrs, rest, name, cap);
  }

  predicate Absent(fs: seq<Field>) { exists f :: f in fs && f.None? }

  lemma TruncTwice(s: string, m: nat, n: nat)
    requires n <= m
    ensures Trunc(Trunc(s, m), n) == Trunc(s, n)
  {
  }

  lemma ReadParties(tag: string, from: Field, to: Field, kind: Field, leaves: seq<Xml>)
    requires Word(tag) && Fits(Stanza(tag, MessageAttrs(from, to, kind), leaves))
    requires AllClean(from, to, kind) && Plain(from, to, kind, "from") && Plain(from, to, kind, "to")
    requires forall x :: x in leaves ==> IsLeaf(x) && (from.None? || to.None? ==> !Quoted(x.cdata))
    ensures var s := Ideal(Stanza(tag, MessageAttrs(from, to, kind), leaves));
            && ExtractAttr(s, "from", JID_CAP) == Trunc(Text(from), 63)
            && ExtractAttr(s, "to", ROOM_CAP) == Trunc(Text(to), 31)
  {
    hide Ideal, Fits, AllClean, Plain, ExtractAttr, MessageAttrs, Quoted;
    MessageLookups(from, to, kind);
    ReadAttr(tag, from, to, kind, leaves, "from", JID_CAP);
    ReadAttr(tag, from, to, kind, leaves, "to", ROOM_CAP);
    TruncTwice(Text(from), MAX_VAL, 63);
    TruncTwice(Text(to), MAX_VAL, 31);
  }

  lemma ReadKind(tag: string, from: Field, to: Field, kind: Field, leaves: seq<Xml>)
    requires Word(tag) && Fits(Stanza(tag, MessageAttrs(from, to, kind), leaves))
    requires AllClean(from, to, kind) && Plain(from, to, kind, "type")
    requires forall x :: x in leaves ==> IsLeaf(x) && (kind.None? ==> !Quoted(x.cdata))
    ensures ExtractAttr(Ideal(Stanza(tag, MessageAttrs(from, to, kind), leaves)), "type", 16) == Trunc(Text(kind), 15)
  {
    hide Ideal, Fits, AllClean, Plain, ExtractAttr, MessageAttrs, Quoted;
    MessageLookups(from, to, kind);
    ReadAttr(tag, from, to, kind, leaves, "type", 16);
    TruncTwice(Text(kind), MAX_VAL, 15);
  }

  lemma ReadTexts(tag: string, attrs: seq<Attr>, tag1: string, f1: Field, cap1: nat, tag2: string, f2: Field, cap2: nat)
    requires Word(tag1) && Word(tag2) && tag1 != tag2 && tag1 != tag && tag2 != tag
    requires 0 < cap1 <= 512 && 0 < cap2 <= 512
    requires Readable(tag, attrs, GivenLeaf(tag1, f1) + GivenLeaf(tag2, f2))
    ensures var s := Ideal(Stanza(tag, attrs, GivenLeaf(tag1, f1) + GivenLeaf(tag2, f2)));
            && ExtractTag(s, tag1, cap1) == Trunc(Text(f1), cap1 - 1)
            && ExtractTag(s, tag2, cap2) == Trunc(Text(f2), cap2 - 1)
  {
    hide Ideal, ExtractTag, Readable;
    var leaves := GivenLeaf(tag1, f1) + GivenLeaf(tag2, f2);
    TagRead(tag, attrs, leaves, tag1, cap1);
    TagRead(tag, attrs, leaves, tag2, cap2);
    TextsOfPair(tag1, f1, tag2, f2);
    TruncTwice(Text(f1), MAX_DATA, cap1 - 1);
    TruncTwice(Text(f2), MAX_DATA, cap2 - 1);
  }

  // Building and parsing a message gives every field back, cut to the parser's buffer for it, and
  // "" for absent ones.
  lemma MessageRoundTrip(from: Field, to: Field, kind: Field, body: Field, stamp: Field, max: nat)
    requires AllClean(from, to, kind) && Unmistaken(from, to, kind)
    requires GoodText(body, Absent([from, to, kind])) && GoodText(stamp, Absent([from, to, kind]))
    requires Fits(MessageTree(from, to, kind, body, stamp))
    requires |Ideal(MessageTree(from, to, kind, body, stamp))| < max
    ensures ParseMessage(Formatted(MessageTree(from, to, kind, body, stamp), max)) ==
            Some(Message(Trunc(Text(from), 63), Trunc(Text(to), 31), Trunc(Text(kind), 15),
                         Trunc(Text(body), 255), Trunc(Text(stamp), 15)))
  {
    hide Find, Ideal, Fits, Formatted, AllClean, Plain, ExtractAttr, ExtractTag, MessageAttrs, Quoted, Absent, Readable;
    var leaves := GivenLeaf("body", body) + GivenLeaf("stamp", stamp);
    var absent := Absent([from, to, kind]);
    FormattedIsIdeal(MessageTree(from, to, kind, body, stamp), max);
    WordsAreWords();
    StanzaBegins("message", MessageAttrs(from, to, kind), leaves);
    LeavesAreGood("body", body, absent);
    LeavesAreGood("stamp", stamp, absent);
    AbsentOnes(from, to, kind);
    ReadParties("message", from, to, kind, leaves);
    ReadKind("message", from, to, kind, leaves);
    Readability("message", from, to, kind, leaves);
    ReadTexts("message", MessageAttrs(from, to, kind), "body", body, LINE_CAP, "stamp", stamp, 16);
  }

  lemma PresenceRoundTrip(from: Field, to: Field, show: Field, status: Field, max: nat)
    requires AllClean(from, to, None) && Plain(from, to, None, "from") && Plain(from, to, None, "to")
    requires GoodText(show, from.None? || to.None?) && GoodText(status, from.None? || to.None?)
    requires Fits(PresenceTree(from, to, show, status))
    requires |Ideal(PresenceTree(from, to, show, status))| < max
    ensures ParsePresence(Formatted(PresenceTree(from, to, show, status), max)) ==
            Some(Presence(Trunc(Text(from), 63), Trunc(Text(to), 31), Trunc(Text(show), 15), Trunc(Text(status), 63)))
  {
    hide Find, Ideal, Fits, Formatted, AllClean, Plain, ExtractAttr, ExtractTag, MessageAttrs, Quoted, Readable;
    var leaves := GivenLeaf("show", show) + GivenLeaf("status", status);
    var absent := from.None? || to.None?;
    FormattedIsIdeal(PresenceTree(from, to, show, status), max);
    WordsAreWords();
    StanzaBegins("presence", MessageAttrs(from, to, None), leaves);
    LeavesAreGood("show", show, absent);
    LeavesAreGood("status", status, absent);
    ReadParties("presence", from, to, None, leaves);
    Readability("presence", from, to, None, leaves);
    ReadTexts("presence", MessageAttrs(from, to, None), "show", show, 16, "status", status, 64);
  }

  lemma AbsentOnes(from: Field, to: Field, kind: Field)
    ensures from.None? || to.None? || kind.None? ==> Absent([from, to, kind])
  {
    var fs := [from, to, kind];
    assert fs[0] in fs && fs[1] in fs && fs[2] in fs;
  }

  lemma Readability(tag: string, from: Field, to: Field, kind: Field, leaves: seq<Xml>)
    requires Word(tag) && AllClean(from, to, kind)
    requires forall x :: x in leaves ==> IsLeaf(x)
    ensures Readable(tag, MessageAttrs(from, to, kind), leaves)
  {
    WordsAreWords();
    CutHasNoEnd(from);
    CutHasNoEnd(to);
    CutHasNoEnd(kind);
  }

  // ----- the sizes the bus uses

  lemma {:induction false} AttrsTextLength(a: seq<Attr>, b: seq<Attr>)
    ensures |AttrsText(a + b)| == |AttrsText(a)| + |AttrsText(b)|
  {
    if a == [] {
      assert a + b == b;
    } else {
      assert (a + b)[1..] == a[1..] + b;
      AttrsTextLength(a[1..], b);
    }
  }

  lemma {:induction false} AllLength(a: seq<Xml>, b: seq<Xml>)
    ensures |IdealAll(a + b)| == |IdealAll(a)| + |IdealAll(b)|
    ensures AllFit(a) && AllFit(b) ==> AllFit(a + b)
  {
    if a == [] {
      assert a + b == b;
    } else {
      assert (a + b)[1..] == a[1..] + b;
      AllLength(a[1..], b);
    }
  }

  lemma GivenAttrLength(key: string, f: Field, n: nat)
    requires |Text(f)| <= n && |key| + n + 4 <= 127
    ensures |AttrsText(GivenAttr(key, f))| <= |key| + n + 4
    ensures forall a :: a in GivenAttr(key, f) ==> |AttrText(a)| <= 127
  {
    if f.Some? {
      assert GivenAttr(key, f)[1..] == [];
    }
  }

  lemma GivenLeafLength(tag: string, f: Field, n: nat)
    requires Word(tag) && |Text(f)| <= n && 2 * |tag| + n + 5 < CHILD_BUF
    ensures |IdealAll(GivenLeaf(tag, f))| <= 2 * |tag| + n + 5
    ensures AllFit(GivenLeaf(tag, f))
  {
    if f.Some? {
      var x := GivenLeaf(tag, f)[0];
      assert Trunc(f.value, MAX_DATA) == f.value;
      LeafText(x);
      assert "<" + x.tag + AttrsText(x.attrs) == "<" + x.tag;
      assert Fits(x);
      assert GivenLeaf(tag, f)[1..] == [];
    }
  }

  lemma MessageFits(from: Field, to: Field, kind: Field, body: Field, stamp: Field)
    requires |Text(from)| <= 63 && |Text(to)| <= 31 && |Text(kind)| <= 15
    requires |Text(body)| <= 255 && |Text(stamp)| <= 15
    ensures Fits(MessageTree(from, to, kind, body, stamp))
    ensures |Ideal(MessageTree(from, to, kind, body, stamp))| < 512
  {
    hide AttrText, AttrsText, IdealAll, Ideal, AllFit, GivenAttr, MessageAttrs, GivenLeaf, Word;
    WordsAreWords();
    PartiesFit(from, to, kind);
    var l, r := GivenLeaf("body", body), GivenLeaf("stamp", stamp);
    GivenLeafLength("body", body, 255);
    GivenLeafLength("stamp", stamp, 15);
    AllLength(l, r);
    StanzaIsText("message", MessageAttrs(from, to, kind), l + r);
  }

  lemma PartiesFit(from: Field, to: Field, kind: Field)
    requires |Text(from)| <= 63 && |Text(to)| <= 31 && |Text(kind)| <= 15
    ensures |AttrsText(MessageAttrs(from, to, kind))| <= 131
    ensures forall a :: a in MessageAttrs(from, to, kind) ==> |AttrText(a)| <= 127
  {
    hide AttrText, AttrsText, GivenAttr;
    var a, b, c := GivenAttr("from", from), GivenAttr("to", to), GivenAttr("type", kind);
    GivenAttrLength("from", from, 63);
    GivenAttrLength("to", to, 31);
    GivenAttrLength("type", kind, 15);
    AttrsTextLength(a, b);
    AttrsTextLength(a + b, c);
  }

  // A message within the field limits of the bus comes back unchanged through its 512-byte buffer.
  lemma MessageUnchanged(from: Field, to: Field, kind: Field, body: Field, stamp: Field)
    requires |Text(from)| <= 63 && |Text(to)| <= 31 && |Text(kind)| <= 15
    requires |Text(body)| <= 255 && |Text(stamp)| <= 15
    requires AllClean(from, to, kind) && Unmistaken(from, to, kind)
    requires GoodText(body, Absent([from, to, kind])) && GoodText(stamp, Absent([from, to, kind]))
    ensures ParseMessage(Formatted(MessageTree(from, to, kind, body, stamp), 512)) ==
            Some(Message(Text(from), Text(to), Text(kind), Text(body), Text(stamp)))
  {
    hide Find, Ideal, Fits, Formatted, AllClean, Plain, ExtractAttr, ExtractTag, MessageAttrs, Quoted, Absent;
    MessageFits(from, to, kind, body, stamp);
    MessageRoundTrip(from, to, kind, body, stamp, 512);
  }

  // The same for presence as the bus sends it: no receiver.
  lemma PresenceFits(from: Field, show: Field, status: Field)
    requires |Text(from)| <= 63 && |Text(show)| <= 15 && |Text(status)| <= 63
    ensures Fits(PresenceTree(from, None, show, status))
    ensures |Ideal(PresenceTree(from, None, show, status))| < 512
  {
    hide AttrText, AttrsText, IdealAll, Ideal, AllFit, GivenAttr, MessageAttrs, GivenLeaf, Word;
    WordsAreWords();
    PartiesFit(from, None, None);
    var l, r := GivenLeaf("show", show), GivenLeaf("status", status);
    GivenLeafLength("show", show, 15);
    GivenLeafLength("status", status, 63);
    AllLength(l, r);
    StanzaIsText("presence", MessageAttrs(from, None, None), l + r);
  }

  lemma PresenceUnchanged(from: Field, show: Field, status: Field)
    requires |Text(from)| <= 63 && |Text(show)| <= 15 && |Text(status)| <= 63
    requires Clean(Text(from)) && !Ends(Text(from), "to=") && GoodText(show, true) && GoodText(status, true)
    ensures ParsePresence(Formatted(PresenceTree(from, None, show, status), 512)) ==
            Some(Presence(Text(from), "", Text(show), Text(status)))
  {
    hide Find, Ideal, Fits, Formatted, ExtractAttr, ExtractTag, MessageAttrs, Quoted;
    PresenceFits(from, show, status);
    assert Plain(from, None, None, "from") && Plain(from, None, None, "to") && AllClean(from, None, None) by {
      assert "to" + "=" == "to=";
    }
    PresenceRoundTrip(from, None, show, status, 512);
  }

  // ----- exactly when a field survives

  // The sender comes back exactly when it has at most 63 characters, none of them a quote or '>'.
  lemma SenderUnchanged(from: string, to: Field, kind: Field, body: Field, stamp: Field, max: nat)
    requires Fits(MessageTree(Some(from), to, kind, body, stamp))
    requires |Ideal(MessageTree(Some(from), to, kind, body, stamp))| < max
    ensures ExtractAttr(Formatted(MessageTree(Some(from), to, kind, body, stamp), max), "from", JID_CAP) == from <==>
            |from| <= 63 && Clean(from)
  {
    hide Ideal, Formatted, ExtractAttr, IdealAll;
    var tree := MessageTree(Some(from), to, kind, body, stamp);
    var leaves := GivenLeaf("body", body) + GivenLeaf("stamp", stamp);
    var a := GivenAttr("from", Some(from))[0];
    var attrs := GivenAttr("to", to) + GivenAttr("type", kind);
    FormattedIsIdeal(tree, max);
    WordsAreWords();
    assert tree.attrs == [a] + attrs;
    assert a in tree.attrs && |AttrText(a)| <= 127;
    StanzaIsText("message", tree.attrs, leaves);
    FirstAttrExact("message", a, attrs, RestOf(leaves, "message"), JID_CAP);
  }

  predicate HoldsTag(f: Field, tag: string) { Find(Text(f), OpenTag(tag)) >= 0 }

  // The body comes back exactly when it has at most 255 characters and no "</body>" among them,
  // unless an attribute holds "<body>".
  lemma BodyUnchanged(from: Field, to: Field, kind: Field, body: string, stamp: Field, max: nat)
    requires !HoldsTag(from, "body") && !HoldsTag(to, "body") && !HoldsTag(kind, "body") && body != ""
    requires Fits(MessageTree(from, to, kind, Some(body), stamp))
    requires |Ideal(MessageTree(from, to, kind, Some(body), stamp))| < max
    ensures ExtractTag(Formatted(MessageTree(from, to, kind, Some(body), stamp), max), "body", LINE_CAP) == body <==>
            |body| <= 255 && Find(body, "</body>") == -1
  {
    hide Formatted, ExtractTag, Find, Ideal, AttrText, Word, MessageAttrs;
    var tree := MessageTree(from, to, kind, Some(body), stamp);
    var x := GivenLeaf("body", Some(body))[0];
    FormattedIsIdeal(tree, max);
    WordsAreWords();
    assert tree.children == [x] + GivenLeaf("stamp", stamp);
    FirstChildFits(tree);
    LeafFits(x, body);
    AttrsInTree("message", tree.attrs, tree.children);
    hide Fits, HoldsTag;
    PartiesHoldNoTag(from, to, kind, "body");
    hide GivenLeaf;
    FirstTagExact("message", tree.attrs, x, GivenLeaf("stamp", stamp), LINE_CAP);
    assert CloseTag("body") == "</body>";
  }

  lemma PartiesHoldNoTag(from: Field, to: Field, kind: Field, tag: string)
    requires !HoldsTag(from, tag) && !HoldsTag(to, tag) && !HoldsTag(kind, tag)
    requires forall a :: a in MessageAttrs(from, to, kind) ==> |AttrText(a)| <= 127
    ensures forall a :: a in MessageAttrs(from, to, kind) ==> Word(a.key) && Find(a.val, OpenTag(tag)) == -1
  {
    hide Find, AttrText, Word;
    WordsAreWords();
    ValuesWhole("from", from);
    ValuesWhole("to", to);
    ValuesWhole("type", kind);
  }

  lemma FirstChildFits(x: Xml)
    requires Fits(x) && x.children != []
    ensures |Ideal(x.children[0])| < CHILD_BUF
  {
  }

  lemma LeafFits(x: Xml, text: string)
    requires x.attrs == [] && x.children == [] && x.cdata == Trunc(text, MAX_DATA) && x.tag != ""
    requires |Ideal(x)| < CHILD_BUF
    ensures x.cdata == text
  {
    LeafText(x);
  }

  lemma CutHasNoEnd(f: Field)
    requires '>' !in Text(f)
    ensures f.Some? ==> '>' !in Trunc(f.value, MAX_VAL)
  {
    if f.Some? {
      assert forall c :: c in Trunc(f.value, MAX_VAL) ==> c in f.value;
    }
  }
}
