/** Exactly which presence stanzas survive being built and parsed, as the bus sends them: with no
    receiver. */
module ChatPresence {
  import opened CStrings
  import opened Sequences
  import opened ChatXml
  import opened ChatStanza
  import opened ChatPairs
  import opened ChatMessages
  import opened ChatExact

  // What a search comes to in two texts, one after the other.
  function FirstAfter(text1: string, text2: string, needle: string): Option<string>
  {
    if After(text1, needle).Some? then After(text1, needle) else After(text2, needle)
  }

  predicate EndsAtOnce(t: string) { t != "" && t[0] in "\"'>" }

  // No text makes up a receiver.
  predicate NoReceiver(show: string, status: string)
  {
    match FirstAfter(show, status, "to=\"")
    case Some(t) => EndsAtOnce(t)
    case None =>
      match FirstAfter(show, status, "to='")
      case Some(t) => EndsAtOnce(t)
      case None => true
  }

  // A sender that ends in to= keeps the search out of the texts.
  predicate PresenceSurvives(from: string, show: string, status: string)
  {
    && |from| <= 63 && Clean(from)
    && (Ends(from, "to=") || NoReceiver(show, status))
    && FirstSurvives("show", show, status, 16)
    && SecondSurvives("show", show, "status", status, 64)
  }

  // A search for an attribute: a quote at the end, and nothing of the markup.
  predicate Seeks(needle: string)
  {
    && |needle| > 1
    && (needle[|needle| - 1] == '\"' || needle[|needle| - 1] == '\'')
    && '<' !in needle && '>' !in needle
  }

  lemma MarkupHolds(tag: string, needle: string)
    requires Word(tag) && Seeks(needle)
    ensures Find(OpenTag(tag), needle) == -1 && Find(CloseTag(tag), needle) == -1
    ensures Find("<" + tag + "/>", needle) == -1
  {
    hide Find;
    var c := needle[|needle| - 1];
    assert c in needle && !Letter(c);
    FindWithout(OpenTag(tag), needle, c);
    FindWithout(CloseTag(tag), needle, c);
    FindWithout("<" + tag + "/>", needle, c);
  }

  lemma SeeksApart(a: string, rest: string, needle: string)
    requires Seeks(needle) && ((rest != "" && rest[0] in "<>") || (a != "" && a[|a| - 1] == '>'))
    ensures Apart(a, rest, needle)
  {
  }

  // A search that comes to an element stops in its text, or passes over it.
  lemma SeeksInLeaf(x: Xml, needle: string, more: string)
    requires Word(x.tag) && x.attrs == [] && x.children == [] && Seeks(needle)
    requires more != "" && more[0] == '<'
    ensures After(Ideal(x) + more, needle) ==
            match After(x.cdata, needle)
            case Some(t) => Some(t + (CloseTag(x.tag) + more))
            case None => After(more, needle)
  {
    hide Find, After, Seeks, Word;
    LeafText(x);
    hide Ideal;
    var text := x.cdata;
    MarkupHolds(x.tag, needle);
    if text == "" {
      NothingFound(needle);
      SeeksApart(Ideal(x), more, needle);
      SeeksSkip(Ideal(x), more, needle);
    } else {
      var rest := CloseTag(x.tag) + more;
      Regroup(OpenTag(x.tag) + text, CloseTag(x.tag), more);
      Regroup(OpenTag(x.tag), text, rest);
      SeeksApart(OpenTag(x.tag), text + rest, needle);
      SeeksSkip(OpenTag(x.tag), text + rest, needle);
      if After(text, needle).Some? {
        SeeksWithin(text, rest, needle);
      } else {
        NoAfter(text, needle);
        OuterStarts(x.tag);
        SeeksApart(text, rest, needle);
        SeeksSkip(text, rest, needle);
        SeeksApart(CloseTag(x.tag), more, needle);
        SeeksSkip(CloseTag(x.tag), more, needle);
      }
    }
  }

  lemma NothingFound(needle: string)
    requires Seeks(needle)
    ensures After("", needle).None?
  {
  }

  lemma SeeksSkip(a: string, rest: string, needle: string)
    requires Seeks(needle) && Find(a, needle) == -1 && Apart(a, rest, needle)
    ensures After(a + rest, needle) == After(rest, needle)
  {
    AfterSkips(a, rest, needle);
  }

  lemma SeeksWithin(a: string, rest: string, needle: string)
    requires Seeks(needle) && After(a, needle).Some?
    ensures After(a + rest, needle) == Some(After(a, needle).value + rest)
  {
    AfterWithin(a, rest, needle);
  }

  // In the elements of a stanza, from the end of its opening on.
  lemma SeeksInPair(outer: string, tag1: string, text1: string, tag2: string, text2: string, needle: string) returns (rest: string)
    requires Names(outer, tag1, tag2) && Seeks(needle)
    ensures rest != "" && rest[0] == '<' && '>' in rest
    ensures After(">" + Inside(Pair(tag1, text1, tag2, text2), outer), needle) ==
            match FirstAfter(text1, text2, needle)
            case Some(t) => Some(t + rest)
            case None => None
  {
    hide Find, After, Seeks, Ideal, Inside;
    var b := Behind(outer, tag2, text2);
    PairInside(outer, tag1, text1, tag2, text2);
    BehindIs(outer, tag2, text2);
    InsideStarts(Pair(tag1, text1, tag2, text2), outer);
    OneEnd(needle);
    SeeksApart(">", Inside(Pair(tag1, text1, tag2, text2), outer), needle);
    SeeksSkip(">", Inside(Pair(tag1, text1, tag2, text2), outer), needle);
    SeeksInLeaf(Leaf(tag1, text1), needle, b);
    OuterStarts(outer);
    SeeksInLeaf(Leaf(tag2, text2), needle, CloseTag(outer));
    MarkupHolds(outer, needle);
    NoMatch(CloseTag(outer), needle);
    rest := if After(text1, needle).Some? then CloseTag(tag1) + b else CloseTag(tag2) + CloseTag(outer);
    EndHasEnd(tag1, b);
    EndHasEnd(tag2, CloseTag(outer));
  }

  lemma OneEnd(needle: string)
    requires Seeks(needle)
    ensures Find(">", needle) == -1
  {
    FindWithout(">", needle, needle[|needle| - 1]);
  }

  lemma EndHasEnd(tag: string, more: string)
    ensures var s := CloseTag(tag) + more; s != "" && s[0] == '<' && '>' in s
  {
    var s := CloseTag(tag) + more;
    assert s[|tag| + 2] == '>';
  }

  // Nothing is read exactly when what the search comes to begins with the end of a value.
  lemma ReadsNothing(t: string, rest: string, cap: nat)
    requires rest != "" && rest[0] == '<' && '>' in rest && cap > 1
    ensures var len := FindAny(t + rest, "\"'>");
            (if len < 0 then "" else Trunc((t + rest)[..len], cap - 1)) == "" <==> EndsAtOnce(t)
  {
    var s := t + rest;
    var i :| 0 <= i < |rest| && rest[i] == '>';
    assert s[|t| + i] == '>';
    assert s[0] == if t != "" then t[0] else '<';
  }

  lemma SeekersOfTo()
    ensures Seeks("to=\"") && Seeks("to='")
    ensures Trunc("to" + "=\"", 63) == "to=\"" && Trunc("to" + "='", 63) == "to='"
    ensures "to" + "=\"" == "to=\"" && "to" + "=" == "to="
  {
  }

  lemma ReceiverAbsent(from: string, show: string, status: string)
    requires Clean(from)
    ensures ExtractAttr(StanzaText("presence", [Attr("from", from)], RestOf(Pair("show", show, "status", status), "presence")), "to", ROOM_CAP) == "" <==>
            Ends(from, "to=") || NoReceiver(show, status)
  {
    hide Find, After, FindAny, Word, Ends, Seeks, Inside, StanzaText, Clean;
    var leaves := Pair("show", show, "status", status);
    var rest := RestOf(leaves, "presence");
    var s := StanzaText("presence", [Attr("from", from)], rest);
    PresenceNames();
    SeekersOfTo();
    DoubleSearch(from, rest);
    if Ends(from, "to=") {
      BracketFirst(Inside(leaves, "presence"));
    } else {
      var r1 := SeeksInPair("presence", "show", show, "status", status, "to=\"");
      var r2 := SeeksInPair("presence", "show", show, "status", status, "to='");
      SingleSearch(from, rest);
      if FirstAfter(show, status, "to=\"").Some? {
        ReadsNothing(FirstAfter(show, status, "to=\"").value, r1, ROOM_CAP);
      } else if FirstAfter(show, status, "to='").Some? {
        ReadsNothing(FirstAfter(show, status, "to='").value, r2, ROOM_CAP);
      }
    }
  }

  lemma BracketFirst(rest: string)
    ensures FindAny(">" + rest, "\"'>") == 0
  {
  }

  lemma DoubleSearch(from: string, rest: string)
    requires Clean(from) && rest != "" && rest[0] == '>'
    ensures After(StanzaText("presence", [Attr("from", from)], rest), "to=\"") ==
            if Ends(from, "to=") then Some(rest) else After(rest, "to=\"")
  {
    hide Find, After, Word, Ends, StanzaText, Clean, AttrText, AttrsText;
    var f := Attr("from", from);
    WordsAreWords();
    FirstLetters();
    SeekersOfTo();
    PastOpening("presence", [f], rest, "to");
    FirstOfAttrs(f, [], rest);
    assert [f] + [] == [f];
    NoAttrsText(rest);
    ToPast(f, rest);
  }

  lemma NoAttrsText(rest: string)
    ensures AttrsText([]) + rest == rest
  {
  }

  lemma ToPast(f: Attr, rest: string)
    requires f.key == "from" && Clean(f.val)
    ensures After(AttrText(f) + rest, "to=\"") == if Ends(f.val, "to=") then Some(rest) else After(rest, "to=\"")
  {
    hide Find, After, Word, Ends, Clean, AttrText;
    WordsAreWords();
    FirstLetters();
    SeekersOfTo();
    PastAttr(f, "to", rest);
  }

  lemma SingleSearch(from: string, rest: string)
    requires Clean(from) && rest != "" && rest[0] == '>'
    ensures After(StanzaText("presence", [Attr("from", from)], rest), "to='") == After(rest, "to='")
  {
    hide Find, After, Word;
    var f := Attr("from", from);
    WordsAreWords();
    var open := "<" + "presence" + AttrsText([f]);
    Regroup("<" + "presence", AttrsText([f]), rest);
    CharNotInAttrs([f], '\'');
    assert '\'' !in open;
    FindWithout(open, "to='", '\'');
    AfterSkips(open, rest, "to='");
  }

  lemma PresenceNames()
    ensures Names("presence", "show", "status")
    ensures Word("from")
  {
  }

  lemma PresenceIsShort(from: string, show: string, status: string)
    requires PresenceSurvives(from, show, status)
    ensures |from| <= 63 && |show| <= 15 && |status| <= 63
  {
    hide Find, After, Cycle, NoReceiver, Ends;
  }

  lemma ParsedPresenceIsShort(xml: string)
    requires ParsePresence(xml).Some?
    ensures var p := ParsePresence(xml).value; |p.from| <= 63 && |p.show| <= 15 && |p.status| <= 63
  {
    hide Find, After, FindAny;
  }

  lemma WholePresence(from: string, show: string, status: string)
    requires |from| <= 63 && |show| <= 15 && |status| <= 63
    ensures PresenceTree(Some(from), None, Some(show), Some(status)) ==
            Stanza("presence", [Attr("from", from)], Pair("show", show, "status", status))
  {
  }

  lemma PresenceFieldsExact(from: string, show: string, status: string)
    ensures var s := Ideal(Stanza("presence", [Attr("from", from)], Pair("show", show, "status", status)));
            PresenceSurvives(from, show, status) <==>
              && ExtractAttr(s, "from", JID_CAP) == from
              && ExtractAttr(s, "to", ROOM_CAP) == ""
              && ExtractTag(s, "show", 16) == show
              && ExtractTag(s, "status", 64) == status
  {
    hide Ideal, ExtractAttr, ExtractTag, StanzaText, FirstSurvives, SecondSurvives, NoReceiver, Ends;
    var f := Attr("from", from);
    var leaves := Pair("show", show, "status", status);
    PresenceNames();
    StanzaIsText("presence", [f], leaves);
    assert [f] + [] == [f];
    FirstAttrExact("presence", f, [], RestOf(leaves, "presence"), JID_CAP);
    if Clean(from) {
      ReceiverAbsent(from, show, status);
      FirstExact("presence", [f], "show", show, "status", status, 16);
      SecondExact("presence", [f], "show", show, "status", status, 64);
    }
  }

  // A presence comes back unchanged, with no receiver, exactly when its fields survive.
  lemma PresenceExact(from: string, show: string, status: string)
    ensures ParsePresence(Formatted(PresenceTree(Some(from), None, Some(show), Some(status)), 512)) ==
            Some(Presence(from, "", show, status)) <==>
            PresenceSurvives(from, show, status)
  {
    hide Ideal, Fits, Formatted, PresenceSurvives, ExtractAttr, ExtractTag, Find, PresenceTree, Pair;
    var tree := PresenceTree(Some(from), None, Some(show), Some(status));
    if |from| <= 63 && |show| <= 15 && |status| <= 63 {
      PresenceFits(Some(from), Some(show), Some(status));
      FormattedIsIdeal(tree, 512);
      WholePresence(from, show, status);
      StanzaBegins("presence", [Attr("from", from)], Pair("show", show, "status", status));
      PresenceFieldsExact(from, show, status);
    } else {
      if PresenceSurvives(from, show, status) {
        PresenceIsShort(from, show, status);
      }
      if ParsePresence(Formatted(tree, 512)).Some? {
        ParsedPresenceIsShort(Formatted(tree, 512));
      }
    }
  }

  // With a show value such as the four the bus sends, what matters is the sender and the status.
  lemma PlainShow(from: string, show: string, status: string)
    requires Word(show) && |show| <= 15
    ensures PresenceSurvives(from, show, status) <==>
            && |from| <= 63 && Clean(from)
            && (Ends(from, "to=") || NoReceiver("", status))
            && |status| <= 63 && Find(status, "</status>") == -1
  {
    WordHoldsNothing(show);
    WordHoldsNothing("");
    PlainElements(show, status);
    hide Find, After, Word, Clean, Ends, FirstSurvives, SecondSurvives;
    assert FirstAfter(show, status, "to=\"") == FirstAfter("", status, "to=\"");
    assert FirstAfter(show, status, "to='") == FirstAfter("", status, "to='");
  }

  lemma PlainElements(show: string, status: string)
    requires Word(show) && |show| <= 15
    ensures FirstSurvives("show", show, status, 16)
    ensures SecondSurvives("show", show, "status", status, 64) <==> |status| <= 63 && Find(status, "</status>") == -1
  {
    assert show != "";
    PresenceTags();
    WordHoldsNothing(show);
    hide Find, After, Cycle, OpenTag, CloseTag, Word;
  }

  lemma PresenceTags()
    ensures CloseTag("show") == "</show>" && OpenTag("status") == "<status>" && CloseTag("status") == "</status>"
  {
  }

  lemma WordHoldsNothing(word: string)
    requires word == "" || Word(word)
    ensures After(word, "to=\"").None? && After(word, "to='").None? && After(word, "<status>").None?
    ensures Find(word, "</show>") == -1
  {
    hide Find;
    FindWithout(word, "to=\"", '\"');
    FindWithout(word, "to='", '\'');
    FindWithout(word, "</show>", '<');
    FindWithout(word, "<status>", '<');
  }

  // A status is enough to make up a receiver.
  lemma PresenceMisread(show: string)
    requires Word(show) && |show| <= 15
    ensures ParsePresence(Formatted(PresenceTree(Some("a@btron.org"), None, Some(show), Some("to=\"x\"")), 512)) !=
            Some(Presence("a@btron.org", "", show, "to=\"x\""))
  {
    hide Formatted, PresenceTree, ParsePresence, PresenceSurvives;
    PresenceExact("a@btron.org", show, "to=\"x\"");
    PlainShow("a@btron.org", show, "to=\"x\"");
    var status := "to=\"x\"";
    assert status[0..] == status && status[4..] == "x\"";
    assert After(status, "to=\"") == Some("x\"");
    assert "a@btron.org"[8..] == "org";
  }
}
