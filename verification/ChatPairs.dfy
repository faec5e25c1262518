/** Two elements of a stanza, read back by a search whatever their texts hold. */
module ChatPairs {
  import opened CStrings
  import opened Sequences
  import opened ChatXml
  import opened ChatStanza

  function Leaf(tag: string, text: string): Xml { Element(tag, [], text, []) }

  function Pair(tag1: string, text1: string, tag2: string, text2: string): seq<Xml>
  {
    [Leaf(tag1, text1), Leaf(tag2, text2)]
  }

  predicate Names(outer: string, tag1: string, tag2: string)
  {
    && Word(outer) && Word(tag1) && Word(tag2)
    && outer != tag1 && outer != tag2 && tag1 != tag2
  }

  // ----- what the markup does not hold

  // An end tag occurs in no other end tag, in no tag and in no empty element.
  lemma EndSkipped(tag: string, name: string)
    requires Word(tag) && Word(name)
    ensures tag != name ==> Find(CloseTag(tag), CloseTag(name)) == -1
    ensures Find(OpenTag(tag), CloseTag(name)) == -1
    ensures Find("<" + tag + "/>", CloseTag(name)) == -1
  {
    hide Find;
    var needle := CloseTag(name);
    assert tag[0] in tag && Letter(tag[0]);
    EndPrefix(tag, name);
    assert CloseTag(tag) == ['<'] + ("/" + tag + ">");
    FindAtFrontOnly('<', "/" + tag + ">", needle);
    assert OpenTag(tag) == ['<'] + (tag + ">") && OpenTag(tag)[1] == tag[0] && needle[1] == '/';
    FindAtFrontOnly('<', tag + ">", needle);
    assert "<" + tag + "/>" == ['<'] + (tag + "/>") && ("<" + tag + "/>")[1] == tag[0];
    FindAtFrontOnly('<', tag + "/>", needle);
  }

  lemma EndPrefix(tag: string, name: string)
    requires Word(tag) && Word(name)
    ensures CloseTag(name) <= CloseTag(tag) ==> tag == name
  {
    var s, needle := CloseTag(tag), CloseTag(name);
    if |name| < |tag| {
      assert needle[|name| + 2] == '>' && s[|name| + 2] == tag[|name|] && tag[|name|] in tag;
    } else if |name| == |tag| {
      assert needle[2..|name| + 2] == name && s[2..|tag| + 2] == tag;
    }
  }

  lemma EndsApart(a: string, rest: string, name: string)
    requires Word(name)
    requires (rest != "" && rest[0] == '<') || (a != "" && a[|a| - 1] == '>')
    ensures Apart(a, rest, CloseTag(name))
  {
    var needle := CloseTag(name);
    assert needle[1..] == "/" + name + ">";
    assert needle[..|needle| - 1] == "</" + name;
  }

  lemma NoEndIn(a: string, rest: string, name: string)
    requires Word(name) && rest != "" && rest[0] == '<'
    requires Find(a, CloseTag(name)) == -1 && Find(rest, CloseTag(name)) == -1
    ensures Find(a + rest, CloseTag(name)) == -1
  {
    hide Find;
    EndsApart(a, rest, name);
    FindAfter(a, rest, CloseTag(name));
  }

  lemma NoTagIn(tag: string, outer: string, name: string)
    requires Word(tag) && Word(outer) && Word(name)
    ensures After(CloseTag(outer), OpenTag(name)).None?
    ensures After("<" + tag + "/>" + CloseTag(outer), OpenTag(name)).None?
  {
    hide Find;
    TagSkipped(outer, name, "");
    TagSkipped(tag, name, "");
    TagApart("<" + tag + "/>", CloseTag(outer), name);
    FindAfter("<" + tag + "/>", CloseTag(outer), OpenTag(name));
  }

  // ----- the two elements

  // What follows the first element.
  function Behind(outer: string, tag: string, text: string): string { Inside([Leaf(tag, text)], outer) }

  lemma BehindIs(outer: string, tag: string, text: string)
    ensures Behind(outer, tag, text) == Ideal(Leaf(tag, text)) + CloseTag(outer)
    ensures Behind(outer, tag, text) ==
            if text == "" then "<" + tag + "/>" + CloseTag(outer) else OpenTag(tag) + (text + (CloseTag(tag) + CloseTag(outer)))
    ensures Behind(outer, tag, text) != "" && Behind(outer, tag, text)[0] == '<'
  {
    hide Ideal, CloseTag, OpenTag;
    var x := Leaf(tag, text);
    InsideStep([x], outer);
    InsideStarts([x], outer);
    NothingInside(outer);
    LeafText(x);
    Regroup(OpenTag(tag) + text, CloseTag(tag), CloseTag(outer));
    Regroup(OpenTag(tag), text, CloseTag(tag) + CloseTag(outer));
  }

  lemma NothingInside(outer: string)
    ensures Inside([], outer) == CloseTag(outer)
  {
    assert "" + CloseTag(outer) == CloseTag(outer);
  }

  lemma PairInside(outer: string, tag1: string, text1: string, tag2: string, text2: string)
    ensures Inside(Pair(tag1, text1, tag2, text2), outer) == Ideal(Leaf(tag1, text1)) + Behind(outer, tag2, text2)
  {
    hide Ideal, Inside;
    var leaves := Pair(tag1, text1, tag2, text2);
    InsideStep(leaves, outer);
    assert leaves[1..] == [Leaf(tag2, text2)];
  }

  // The first element: where it is empty, the search goes on into the second.
  predicate FirstSurvives(tag1: string, text1: string, text2: string, cap: nat)
  {
    if text1 != "" then |text1| < cap && Find(text1, CloseTag(tag1)) == -1
    else match After(text2, OpenTag(tag1))
      case None => true
      case Some(t) => Find(t, CloseTag(tag1)) <= 0
  }

  lemma FirstExact(outer: string, attrs: seq<Attr>, tag1: string, text1: string, tag2: string, text2: string, cap: nat)
    requires Names(outer, tag1, tag2) && cap > 1
    requires forall a :: a in attrs ==> Word(a.key) && '>' !in a.val
    ensures ExtractTag(Ideal(Stanza(outer, attrs, Pair(tag1, text1, tag2, text2))), tag1, cap) == text1 <==>
            FirstSurvives(tag1, text1, text2, cap)
  {
    hide Find, After, Ideal, Stanza;
    NoEndNoTag(attrs, tag1);
    if text1 != "" {
      assert Pair(tag1, text1, tag2, text2) == [Leaf(tag1, text1)] + [Leaf(tag2, text2)];
      FirstTagExact(outer, attrs, Leaf(tag1, text1), [Leaf(tag2, text2)], cap);
    } else {
      PastOpeningTag(outer, attrs, Pair(tag1, "", tag2, text2), tag1);
      PairInside(outer, tag1, "", tag2, text2);
      BehindIs(outer, tag2, text2);
      LeafSkipped(Leaf(tag1, ""), tag1, Behind(outer, tag2, text2));
      OuterStarts(outer);
      OtherLeaf(Leaf(tag2, text2), tag1, CloseTag(outer));
      NoTagIn(tag2, outer, tag1);
      if After(text2, OpenTag(tag1)).Some? {
        EndBehind(After(text2, OpenTag(tag1)).value, tag2, outer, tag1, cap);
      }
    }
  }

  lemma OuterStarts(outer: string)
    ensures CloseTag(outer) != "" && CloseTag(outer)[0] == '<'
  {
  }

  lemma EndBehind(t: string, tag: string, outer: string, name: string, cap: nat)
    requires Word(tag) && Word(outer) && Word(name) && tag != name && outer != name && cap > 1
    ensures Upto(t + (CloseTag(tag) + CloseTag(outer)), CloseTag(name), cap) == "" <==> Find(t, CloseTag(name)) <= 0
  {
    hide Find, CloseTag;
    var rest := CloseTag(tag) + CloseTag(outer);
    EndSkipped(tag, name);
    EndSkipped(outer, name);
    OuterStarts(outer);
    OuterStarts(tag);
    NoEndIn(CloseTag(tag), CloseTag(outer), name);
    UptoEnd(t, rest, name, cap);
  }

  // Reading up to an end tag that the markup behind does not hold.
  lemma UptoEnd(t: string, rest: string, name: string, cap: nat)
    requires Word(name) && cap > 0 && rest != "" && rest[0] == '<' && Find(rest, CloseTag(name)) == -1
    ensures var k := Find(t, CloseTag(name));
            Upto(t + rest, CloseTag(name), cap) == if k < 0 then "" else Trunc(t[..k], cap - 1)
  {
    hide Find;
    var needle := CloseTag(name);
    var k := Find(t, needle);
    if k < 0 {
      NoEndIn(t, rest, name);
    } else {
      FindWithin(t, rest, needle);
      MatchFits(t, needle);
      assert (t + rest)[..k] == t[..k];
    }
  }

  // The second element: a first one that holds its tag is searched first, up to an end in it; and
  // where it holds none, the search reads over the markup between them, into the second element.
  predicate SecondSurvives(tag1: string, text1: string, tag2: string, text2: string, cap: nat)
    requires cap > 0
  {
    match After(text1, OpenTag(tag2))
    case None => |text2| < cap && Find(text2, CloseTag(tag2)) == -1
    case Some(t) =>
      var k := Find(t, CloseTag(tag2));
      if k >= 0 then text2 == Trunc(t[..k], cap - 1)
      else text2 == "" || text2 == Cycle(t + (CloseTag(tag1) + OpenTag(tag2)), cap - 1)
  }

  lemma SecondExact(outer: string, attrs: seq<Attr>, tag1: string, text1: string, tag2: string, text2: string, cap: nat)
    requires Names(outer, tag1, tag2) && cap > 1
    requires forall a :: a in attrs ==> Word(a.key) && '>' !in a.val
    ensures ExtractTag(Ideal(Stanza(outer, attrs, Pair(tag1, text1, tag2, text2))), tag2, cap) == text2 <==>
            SecondSurvives(tag1, text1, tag2, text2, cap)
  {
    hide Find, After, Ideal, Stanza, Cycle;
    NoEndNoTag(attrs, tag2);
    PastOpeningTag(outer, attrs, Pair(tag1, text1, tag2, text2), tag2);
    PairInside(outer, tag1, text1, tag2, text2);
    BehindIs(outer, tag2, text2);
    OtherLeaf(Leaf(tag1, text1), tag2, Behind(outer, tag2, text2));
    match After(text1, OpenTag(tag2))
    case None => OwnText(outer, tag2, text2, cap);
    case Some(t) => TextBehind(outer, t, tag1, tag2, text2, cap);
  }

  lemma OwnText(outer: string, tag: string, text: string, cap: nat)
    requires Word(outer) && Word(tag) && cap > 1
    ensures var r := match After(Behind(outer, tag, text), OpenTag(tag))
                     case None => "" case Some(t) => Upto(t, CloseTag(tag), cap);
            r == text <==> |text| < cap && Find(text, CloseTag(tag)) == -1
  {
    hide Find, After, Ideal, Inside, Word;
    BehindIs(outer, tag, text);
    if text == "" {
      NoTagIn(tag, outer, tag);
      FindWithout("", CloseTag(tag), '<');
    } else {
      OwnLeaf(Leaf(tag, text), CloseTag(outer));
      TextCut(text, tag, CloseTag(outer));
    }
  }

  lemma TextBehind(outer: string, t: string, tag1: string, tag2: string, text: string, cap: nat)
    requires Names(outer, tag1, tag2) && cap > 1
    ensures var k := Find(t, CloseTag(tag2));
            Upto(t + (CloseTag(tag1) + Behind(outer, tag2, text)), CloseTag(tag2), cap) == text <==>
            if k >= 0 then text == Trunc(t[..k], cap - 1)
            else text == "" || text == Cycle(t + (CloseTag(tag1) + OpenTag(tag2)), cap - 1)
  {
    hide Find, Behind, Cycle, OpenTag, CloseTag;
    var k := Find(t, CloseTag(tag2));
    var rest := CloseTag(tag1) + Behind(outer, tag2, text);
    OuterStarts(tag1);
    OuterStarts(tag2);
    if k >= 0 {
      FindWithin(t, rest, CloseTag(tag2));
      MatchFits(t, CloseTag(tag2));
      assert (t + rest)[..k] == t[..k];
    } else if text == "" {
      EmptyBehind(outer, tag1, tag2);
      assert rest[0] == CloseTag(tag1)[0];
      UptoEnd(t, rest, tag2, cap);
    } else {
      ReadsOver(outer, t, tag1, tag2, text, cap);
    }
  }

  lemma EmptyBehind(outer: string, tag1: string, tag2: string)
    requires Names(outer, tag1, tag2)
    ensures Find(CloseTag(tag1) + Behind(outer, tag2, ""), CloseTag(tag2)) == -1
  {
    hide Find, CloseTag, Word;
    BehindIs(outer, tag2, "");
    EndSkipped(tag1, tag2);
    EndSkipped(tag2, tag2);
    EndSkipped(outer, tag2);
    OuterStarts(outer);
    NoEndIn("<" + tag2 + "/>", CloseTag(outer), tag2);
    NoEndIn(CloseTag(tag1), Behind(outer, tag2, ""), tag2);
  }

  lemma ReadsOver(outer: string, t: string, tag1: string, tag2: string, text: string, cap: nat)
    requires Names(outer, tag1, tag2) && cap > 1 && text != "" && Find(t, CloseTag(tag2)) == -1
    ensures Upto(t + (CloseTag(tag1) + Behind(outer, tag2, text)), CloseTag(tag2), cap) == text <==>
            text == Cycle(t + (CloseTag(tag1) + OpenTag(tag2)), cap - 1)
  {
    hide Find, Behind, Cycle, CloseTag, Word;
    var between := CloseTag(tag1) + OpenTag(tag2);
    var more := text + (CloseTag(tag2) + CloseTag(outer));
    BehindIs(outer, tag2, text);
    EndSkipped(tag1, tag2);
    EndSkipped(tag2, tag2);
    OuterStarts(tag1);
    NoEndIn(CloseTag(tag1), OpenTag(tag2), tag2);
    NoEndIn(t, between, tag2);
    CycleExact(t + between, text, tag2, CloseTag(outer), cap - 1);
    Regroup(CloseTag(tag1), OpenTag(tag2), more);
    Regroup(t, between, more);
  }

  // ----- a text that repeats what precedes it

  // The first n characters of p, p, p and so on.
  function Cycle(p: string, n: nat): (r: string)
    requires p != ""
    ensures |r| == n
  {
    if n <= |p| then p[..n] else p + Cycle(p, n - |p|)
  }

  lemma {:induction false} CycleShift(p: string, n: nat)
    requires p != ""
    ensures (p + Cycle(p, n))[..n] == Cycle(p, n)
  {
    if n > |p| {
      CycleShift(p, n - |p|);
      SliceBehind(p, Cycle(p, n), n);
    }
  }

  lemma SliceBehind(p: string, s: string, n: nat)
    requires |p| <= n <= |p| + |s|
    ensures (p + s)[..n] == p + s[..n - |p|]
  {
  }

  lemma {:induction false} CycleHoldsNoEnd(p: string, n: nat, name: string)
    requires Word(name) && p != "" && p[|p| - 1] == '>' && Find(p, CloseTag(name)) == -1
    ensures Find(Cycle(p, n), CloseTag(name)) == -1
  {
    hide Find, Word;
    if n <= |p| {
      NoEndInPrefix(p, n, CloseTag(name));
    } else {
      CycleHoldsNoEnd(p, n - |p|, name);
      EndsApart(p, Cycle(p, n - |p|), name);
      FindAfter(p, Cycle(p, n - |p|), CloseTag(name));
    }
  }

  lemma NoEndInPrefix(p: string, n: nat, needle: string)
    requires n <= |p| && needle != "" && Find(p, needle) == -1
    ensures Find(p[..n], needle) == -1
  {
    hide Find;
    if Find(p[..n], needle) >= 0 {
      assert p == p[..n] + p[n..];
      FindWithin(p[..n], p[n..], needle);
    }
  }

  // A text that is the first n characters of p and then some of itself is a cycle of p.
  lemma {:induction false} Unrolls(p: string, text: string, m: nat, n: nat, j: nat)
    requires p != "" && m <= |text| && text == Trunc(p + text[..m], n) && j <= |text|
    ensures text[..j] == Cycle(p, j)
    decreases j
  {
    var s := p + text[..m];
    assert text[..j] == s[..j];
    if j > |p| {
      Unrolls(p, text, m, n, j - |p|);
      SliceBehind(p, text[..m], j);
      assert text[..m][..j - |p|] == text[..j - |p|];
    }
  }

  lemma CycleExact(p: string, text: string, name: string, more: string, n: nat)
    requires Word(name) && p != "" && p[|p| - 1] == '>' && Find(p, CloseTag(name)) == -1
    requires n > 0 && text != ""
    ensures Upto(p + (text + (CloseTag(name) + more)), CloseTag(name), n + 1) == text <==> text == Cycle(p, n)
  {
    hide Find, Cycle, CloseTag, Word;
    var needle := CloseTag(name);
    OuterStarts(name);
    var rest := text + (needle + more);
    TextCut(text, name, more);
    var m := Find(rest, needle);
    EndsApart(p, rest, name);
    FindAfter(p, rest, needle);
    SliceBehind(p, rest, |p| + m);
    assert rest[..m] == text[..m];
    if text == Trunc(p + text[..m], n) {
      Unrolls(p, text, m, n, |text|);
      assert text[..|text|] == text;
      CycleHoldsNoEnd(p, |text|, name);
    }
    if text == Cycle(p, n) {
      CycleHoldsNoEnd(p, n, name);
      assert text[..m] == text;
      CycleShift(p, n);
    }
  }
}
