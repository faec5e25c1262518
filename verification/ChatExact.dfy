/** Exactly which stanzas survive being built and parsed: the markup is not escaped, so a field may
    be taken for markup around another. */
module ChatExact {
  import opened CStrings
  import opened Sequences
  import opened ChatXml
  import opened ChatStanza
  import opened ChatPairs
  import opened ChatMessages

  // ----- messages

  // The receiver: a sender that ends in to= stops the search before it, at the text " to=".
  predicate ToSurvives(from: string, to: string)
  {
    if Ends(from, "to=") then to == " to=" else |to| <= 31 && Clean(to)
  }

  predicate KindSurvives(from: string, to: string, kind: string)
  {
    if Ends(from, "type=") then kind == " to="
    else if Ends(to, "type=") then kind == " type="
    else |kind| <= 15 && Clean(kind)
  }

  // The body: where it is empty, the search goes on into the stamp.
  predicate BodySurvives(body: string, stamp: string)
  {
    if body != "" then |body| <= 255 && Find(body, "</body>") == -1
    else match After(stamp, "<body>")
      case None => true
      case Some(t) => Find(t, "</body>") <= 0
  }

  // The stamp: a body that holds <stamp> is searched first, up to an end in it; where it holds
  // none, the search reads over the markup behind the body into the stamp.
  predicate StampSurvives(body: string, stamp: string)
  {
    match After(body, "<stamp>")
    case None => |stamp| <= 15 && Find(stamp, "</stamp>") == -1
    case Some(t) =>
      var k := Find(t, "</stamp>");
      if k >= 0 then stamp == Trunc(t[..k], 15)
      else stamp == "" || stamp == Trunc(t + "</body><stamp><", 15)
  }

  predicate Survives(from: string, to: string, kind: string, body: string, stamp: string)
  {
    && |from| <= 63 && Clean(from)
    && ToSurvives(from, to) && KindSurvives(from, to, kind)
    && BodySurvives(body, stamp) && StampSurvives(body, stamp)
  }

  function Parties(from: string, to: string, kind: string): seq<Attr>
  {
    [Attr("from", from), Attr("to", to), Attr("type", kind)]
  }

  function Leaves(body: string, stamp: string): seq<Xml> { Pair("body", body, "stamp", stamp) }

  lemma FirstLetters()
    ensures "to"[0] !in "to"[1..] && "type"[0] !in "type"[1..]
    ensures !Ends("from", "to") && !Ends("from", "type") && !Ends("to", "type")
  {
    assert "to"[1..] == "o" && "type"[1..] == "ype";
    assert "from"[2..] == "om" && "from"[0..] == "from";
  }

  lemma PartiesText(from: string, to: string, kind: string, rest: string)
    ensures AttrsText(Parties(from, to, kind)) + rest ==
            AttrText(Attr("from", from)) + (AttrText(Attr("to", to)) + (AttrText(Attr("type", kind)) + rest))
  {
    hide AttrText;
    FirstOfAttrs(Attr("from", from), [Attr("to", to), Attr("type", kind)], rest);
    FirstOfAttrs(Attr("to", to), [Attr("type", kind)], rest);
    FirstOfAttrs(Attr("type", kind), [], rest);
    assert Parties(from, to, kind) == [Attr("from", from)] + [Attr("to", to), Attr("type", kind)];
    assert [Attr("to", to), Attr("type", kind)] == [Attr("to", to)] + [Attr("type", kind)];
    assert [Attr("type", kind)] == [Attr("type", kind)] + [];
    assert AttrsText([]) + rest == rest;
  }

  // The second of two attributes, and the third of three, where those before are clean.
  lemma SecondAttrExact(s: string, f: Attr, g: Attr, more: string, cap: nat)
    requires Word(g.key) && g.key[0] !in g.key[1..] && Word(f.key) && !Ends(f.key, g.key) && Clean(f.val)
    requires |g.key| + 2 < cap
    requires After(s, g.key + "=\"") == After(AttrText(f) + (AttrText(g) + more), g.key + "=\"")
    ensures ExtractAttr(s, g.key, cap) == g.val <==>
            if Ends(f.val, g.key + "=") then g.val == " " + g.key + "=" else |g.val| < cap && Clean(g.val)
  {
    hide After, ExtractAttr, AttrText, Ends, Clean, Word;
    PastAttr(f, g.key, AttrText(g) + more);
    if Ends(f.val, g.key + "=") {
      ReadsNext(s, g.key, g, more, cap);
    } else {
      OwnAttr(g, more);
      ReadsOwn(s, g, more, cap);
    }
  }

  lemma ThirdAttrExact(s: string, f: Attr, g: Attr, h: Attr, more: string, cap: nat)
    requires Word(h.key) && h.key[0] !in h.key[1..]
    requires Word(f.key) && !Ends(f.key, h.key) && Clean(f.val)
    requires Word(g.key) && !Ends(g.key, h.key) && Clean(g.val)
    requires |g.key| + 2 < cap && |h.key| + 2 < cap
    requires After(s, h.key + "=\"") == After(AttrText(f) + (AttrText(g) + (AttrText(h) + more)), h.key + "=\"")
    ensures ExtractAttr(s, h.key, cap) == h.val <==>
            if Ends(f.val, h.key + "=") then h.val == " " + g.key + "="
            else if Ends(g.val, h.key + "=") then h.val == " " + h.key + "="
            else |h.val| < cap && Clean(h.val)
  {
    hide After, ExtractAttr, AttrText, Ends, Clean, Word;
    PastAttr(f, h.key, AttrText(g) + (AttrText(h) + more));
    if Ends(f.val, h.key + "=") {
      ReadsNext(s, h.key, g, AttrText(h) + more, cap);
    } else {
      SecondAttrExact(s, g, h, more, cap);
    }
  }

  lemma ToExact(from: string, to: string, kind: string, rest: string)
    requires Clean(from) && rest != "" && (rest[0] == '>' || rest[0] == '/')
    ensures ExtractAttr(StanzaText("message", Parties(from, to, kind), rest), "to", ROOM_CAP) == to <==> ToSurvives(from, to)
  {
    hide After, ExtractAttr, AttrText, AttrsText, StanzaText, Ends, Clean, Word;
    WordsAreWords();
    FirstLetters();
    PastOpening("message", Parties(from, to, kind), rest, "to");
    PartiesText(from, to, kind, rest);
    var g := Attr("to", to);
    SecondAttrExact(StanzaText("message", Parties(from, to, kind), rest), Attr("from", from), g,
                AttrText(Attr("type", kind)) + rest, ROOM_CAP);
    assert g.key + "=" == "to=" && " " + g.key + "=" == " to=";
  }

  lemma KindExact(from: string, to: string, kind: string, rest: string)
    requires Clean(from) && Clean(to) && rest != "" && (rest[0] == '>' || rest[0] == '/')
    ensures ExtractAttr(StanzaText("message", Parties(from, to, kind), rest), "type", 16) == kind <==>
            KindSurvives(from, to, kind)
  {
    hide After, ExtractAttr, AttrText, AttrsText, StanzaText, Ends, Clean, Word;
    WordsAreWords();
    FirstLetters();
    PastOpening("message", Parties(from, to, kind), rest, "type");
    PartiesText(from, to, kind, rest);
    var g, h := Attr("to", to), Attr("type", kind);
    ThirdAttrExact(StanzaText("message", Parties(from, to, kind), rest), Attr("from", from), g, h, rest, 16);
    assert h.key + "=" == "type=" && " " + h.key + "=" == " type=" && " " + g.key + "=" == " to=";
  }

  lemma MessageNames()
    ensures Names("message", "body", "stamp")
    ensures OpenTag("body") == "<body>" && CloseTag("body") == "</body>"
    ensures OpenTag("stamp") == "<stamp>" && CloseTag("stamp") == "</stamp>"
  {
  }

  lemma BodyExact(attrs: seq<Attr>, body: string, stamp: string)
    requires forall a :: a in attrs ==> Word(a.key) && '>' !in a.val
    ensures ExtractTag(Ideal(Stanza("message", attrs, Leaves(body, stamp))), "body", LINE_CAP) == body <==>
            BodySurvives(body, stamp)
  {
    hide Find, After, Ideal, ExtractTag, Word, Names, OpenTag, CloseTag;
    MessageNames();
    FirstExact("message", attrs, "body", body, "stamp", stamp, LINE_CAP);
  }

  lemma StampExact(attrs: seq<Attr>, body: string, stamp: string)
    requires forall a :: a in attrs ==> Word(a.key) && '>' !in a.val
    ensures ExtractTag(Ideal(Stanza("message", attrs, Leaves(body, stamp))), "stamp", 16) == stamp <==>
            StampSurvives(body, stamp)
  {
    hide Find, After, Ideal, ExtractTag, Word, Names, OpenTag, CloseTag, Cycle;
    MessageNames();
    SecondExact("message", attrs, "body", body, "stamp", stamp, 16);
    if After(body, "<stamp>").Some? {
      StampCycle(After(body, "<stamp>").value);
    }
  }

  lemma StampCycle(t: string)
    ensures Cycle(t + (CloseTag("body") + OpenTag("stamp")), 15) == Trunc(t + "</body><stamp><", 15)
  {
    var between := CloseTag("body") + OpenTag("stamp");
    assert between == "</body><stamp>" && between + "<" == "</body><stamp><";
    CycleOnce(t, between, 15);
  }

  lemma CycleOnce(t: string, between: string, n: nat)
    requires between != "" && between[0] == '<' && n <= |between| + 1
    ensures Cycle(t + between, n) == Trunc(t + (between + "<"), n)
  {
    var p := t + between;
    Regroup(t, between, "<");
    if n > |p| {
      assert t == "" && p == between && p[..1] == "<";
    }
  }

  // ----- the whole message

  lemma SurvivesIsShort(from: string, to: string, kind: string, body: string, stamp: string)
    requires Survives(from, to, kind, body, stamp)
    ensures |from| <= 63 && |to| <= 31 && |kind| <= 15 && |body| <= 255 && |stamp| <= 15
  {
    hide Find, After;
  }

  lemma ParsedIsShort(xml: string)
    requires ParseMessage(xml).Some?
    ensures var m := ParseMessage(xml).value;
            |m.from| <= 63 && |m.to| <= 31 && |m.kind| <= 15 && |m.body| <= 255 && |m.stamp| <= 15
  {
    hide Find, After, FindAny;
  }

  // A message comes back unchanged through the 512-character buffer exactly when its fields survive.
  lemma MessageExact(from: string, to: string, kind: string, body: string, stamp: string)
    ensures ParseMessage(Formatted(MessageTree(Some(from), Some(to), Some(kind), Some(body), Some(stamp)), 512)) ==
            Some(Message(from, to, kind, body, stamp)) <==>
            Survives(from, to, kind, body, stamp)
  {
    hide Ideal, Fits, Formatted, Survives, ExtractAttr, ExtractTag, Find, MessageTree, Parties, Leaves;
    var tree := MessageTree(Some(from), Some(to), Some(kind), Some(body), Some(stamp));
    if |from| <= 63 && |to| <= 31 && |kind| <= 15 && |body| <= 255 && |stamp| <= 15 {
      MessageFits(Some(from), Some(to), Some(kind), Some(body), Some(stamp));
      FormattedIsIdeal(tree, 512);
      WholeTree(from, to, kind, body, stamp);
      StanzaBegins("message", Parties(from, to, kind), Leaves(body, stamp));
      FieldsExact(from, to, kind, body, stamp);
    } else {
      if Survives(from, to, kind, body, stamp) {
        SurvivesIsShort(from, to, kind, body, stamp);
      }
      if ParseMessage(Formatted(tree, 512)).Some? {
        ParsedIsShort(Formatted(tree, 512));
      }
    }
  }

  lemma WholeTree(from: string, to: string, kind: string, body: string, stamp: string)
    requires |from| <= 63 && |to| <= 31 && |kind| <= 15 && |body| <= 255 && |stamp| <= 15
    ensures MessageTree(Some(from), Some(to), Some(kind), Some(body), Some(stamp)) ==
            Stanza("message", Parties(from, to, kind), Leaves(body, stamp))
  {
  }

  lemma FieldsExact(from: string, to: string, kind: string, body: string, stamp: string)
    ensures var s := Ideal(Stanza("message", Parties(from, to, kind), Leaves(body, stamp)));
            Survives(from, to, kind, body, stamp) <==>
              && ExtractAttr(s, "from", JID_CAP) == from
              && ExtractAttr(s, "to", ROOM_CAP) == to
              && ExtractAttr(s, "type", 16) == kind
              && ExtractTag(s, "body", LINE_CAP) == body
              && ExtractTag(s, "stamp", 16) == stamp
  {
    hide Ideal, ExtractAttr, ExtractTag, StanzaText, BodySurvives, StampSurvives, Ends;
    var attrs, leaves := Parties(from, to, kind), Leaves(body, stamp);
    var rest := RestOf(leaves, "message");
    WordsAreWords();
    StanzaIsText("message", attrs, leaves);
    assert attrs == [Attr("from", from)] + [Attr("to", to), Attr("type", kind)];
    FirstAttrExact("message", Attr("from", from), [Attr("to", to), Attr("type", kind)], rest, JID_CAP);
    if Clean(from) {
      ToExact(from, to, kind, rest);
      if Clean(to) {
        KindExact(from, to, kind, rest);
        if Clean(kind) {
          BodyExact(attrs, body, stamp);
          StampExact(attrs, body, stamp);
        }
      }
    }
  }

  // A sender that ends in to= is enough to lose the receiver.
  lemma ReceiverMisread(kind: string, body: string, stamp: string)
    ensures ParseMessage(Formatted(MessageTree(Some("to="), Some("#btron-hall"), Some(kind), Some(body), Some(stamp)), 512)) !=
            Some(Message("to=", "#btron-hall", kind, body, stamp))
  {
    hide ParseMessage, Formatted, MessageTree;
    MessageExact("to=", "#btron-hall", kind, body, stamp);
    assert "to="[0..] == "to=";
  }
}
