/** UTF-8 (RFC 3629, section 4) as the terminal treats it: cutting off the last character, and the
    width of a text on screen. */
module Utf8 {
  import opened Bits
  import opened Sequences

  type Text = seq<byte>

  predicate Continues(b: byte) { 0x80 <= b < 0xC0 }

  // One well-formed character other than NUL.
  predicate Character(s: Text)
  {
    if |s| == 1 then 0 < s[0] < 0x80
    else if |s| == 2 then 0xC2 <= s[0] < 0xE0 && Continues(s[1])
    else if |s| == 3 then
      && 0xE0 <= s[0] < 0xF0 && Continues(s[1]) && Continues(s[2])
      && (s[0] == 0xE0 ==> s[1] >= 0xA0) && (s[0] == 0xED ==> s[1] < 0xA0)
    else
      && |s| == 4
      && 0xF0 <= s[0] < 0xF5 && Continues(s[1]) && Continues(s[2]) && Continues(s[3])
      && (s[0] == 0xF0 ==> s[1] >= 0x90) && (s[0] == 0xF4 ==> s[1] < 0x90)
  }

  predicate Characters(cs: seq<Text>)
  {
    forall c :: c in cs ==> Character(c)
  }

  function Encoded(cs: seq<Text>): Text
    decreases |cs|
  {
    if cs == [] then [] else Encoded(cs[..|cs| - 1]) + cs[|cs| - 1]
  }

  ghost predicate Valid(t: Text)
  {
    exists cs :: Characters(cs) && Encoded(cs) == t
  }

  lemma {:induction false} EncodedAppend(a: seq<Text>, b: seq<Text>)
    ensures Encoded(a + b) == Encoded(a) + Encoded(b)
    decreases |b|
  {
    if b == [] {
      assert a + b == a;
    } else {
      var init, last := b[..|b| - 1], b[|b| - 1];
      assert (a + b)[..|a + b| - 1] == a + init && (a + b)[|a + b| - 1] == last;
      EncodedAppend(a, init);
      Regroup(Encoded(a), Encoded(init), last);
    }
  }

  lemma ValidAppend(s: Text, t: Text)
    requires Valid(s) && Valid(t)
    ensures Valid(s + t)
  {
    var a :| Characters(a) && Encoded(a) == s;
    var b :| Characters(b) && Encoded(b) == t;
    EncodedAppend(a, b);
    assert Characters(a + b);
  }

  lemma EmptyIsValid()
    ensures Valid([])
  {
    assert Characters([]) && Encoded([]) == [];
  }

  lemma {:induction false} AsciiIsValid(t: Text)
    requires forall b :: b in t ==> 0 < b < 0x80
    ensures Valid(t)
  {
    if t == [] {
      EmptyIsValid();
    } else {
      var n := |t| - 1;
      assert forall b :: b in t[..n] ==> b in t;
      AsciiIsValid(t[..n]);
      var cs :| Characters(cs) && Encoded(cs) == t[..n];
      var more := cs + [[t[n]]];
      assert t[n] in t;
      assert more[..|cs|] == cs && Characters(more);
      assert t == t[..n] + [t[n]];
      assert Encoded(more) == t;
    }
  }

  // ----- backspace

  // Where the scan back from index i stops: at the start, or at a byte that begins a character.
  function Lead(t: Text, i: nat): (k: nat)
    requires i < |t|
    ensures k <= i
  {
    if i > 0 && Continues(t[i]) then Lead(t, i - 1) else i
  }

  function Backspaced(t: Text): Text
  {
    if t == [] then [] else t[..Lead(t, |t| - 1)]
  }

  // Exactly the last character goes.
  lemma BackspaceRemovesOne(cs: seq<Text>)
    requires Characters(cs) && cs != []
    ensures Backspaced(Encoded(cs)) == Encoded(cs[..|cs| - 1])
  {
    BackspacedAppend(Encoded(cs[..|cs| - 1]), cs[|cs| - 1]);
  }

  lemma BackspacedAppend(init: Text, c: Text)
    requires Character(c)
    ensures Backspaced(init + c) == init
  {
    hide Lead;
    var t := init + c;
    assert forall j :: |init| < j < |t| ==> t[j] == c[j - |init|];
    LeadIs(t, |init|, |t| - 1);
    assert t[..|init|] == init;
  }

  lemma {:induction false} LeadIs(t: Text, k: nat, i: nat)
    requires k <= i < |t| && !Continues(t[k]) && forall j :: k < j <= i ==> Continues(t[j])
    ensures Lead(t, i) == k
    decreases i
  {
    if i > k {
      LeadIs(t, k, i - 1);
    }
  }

  lemma BackspaceKeepsValid(t: Text)
    requires Valid(t)
    ensures Valid(Backspaced(t))
  {
    var cs :| Characters(cs) && Encoded(cs) == t;
    if cs != [] {
      BackspaceRemovesOne(cs);
      assert Characters(cs[..|cs| - 1]);
    }
  }

  // ----- width on screen

  // How far the width loop moves on at a byte, and the cells it counts.
  function StepLength(c: byte): nat
  {
    if 0xC0 <= c < 0xE0 then 2 else if 0xE0 <= c < 0xF0 then 3 else 1
  }

  function StepWidth(c: byte): nat { if 0xE0 <= c < 0xF0 then 16 else 8 }

  function PixelWidth(t: Text): nat
    decreases |t|
  {
    if t == [] then 0
    else StepWidth(t[0]) + (if |t| < StepLength(t[0]) then 0 else PixelWidth(t[StepLength(t[0])..]))
  }

  function CharacterWidth(c: Text): nat
  {
    if |c| < 3 then 8 else if |c| == 3 then 16 else 32
  }

  function TotalWidth(cs: seq<Text>): nat
  {
    if cs == [] then 0 else CharacterWidth(cs[0]) + TotalWidth(cs[1..])
  }

  // Characters of one or two bytes take one cell and of three bytes two; those of four bytes take
  // four, because each of their bytes is counted as a cell.
  lemma {:induction false} WidthOfCharacters(cs: seq<Text>)
    requires Characters(cs)
    ensures PixelWidth(Encoded(cs)) == TotalWidth(cs)
    decreases |cs|
  {
    if cs != [] {
      var c, rest := cs[0], Encoded(cs[1..]);
      assert cs == [c] + cs[1..];
      EncodedAppend([c], cs[1..]);
      EncodedOne(c);
      WidthOfCharacters(cs[1..]);
      WidthOfOne(c, rest);
    }
  }

  lemma WidthOfOne(c: Text, rest: Text)
    requires Character(c)
    ensures PixelWidth(c + rest) == CharacterWidth(c) + PixelWidth(rest)
  {
    var t := c + rest;
    assert t[|c|..] == rest;
    if |c| == 4 {
      assert t == [c[0]] + ([c[1]] + ([c[2]] + ([c[3]] + rest)));
      WidthOfByte(c[3], rest);
      WidthOfByte(c[2], [c[3]] + rest);
      WidthOfByte(c[1], [c[2]] + ([c[3]] + rest));
      WidthOfByte(c[0], [c[1]] + ([c[2]] + ([c[3]] + rest)));
    }
  }

  lemma WidthOfByte(b: byte, rest: Text)
    requires StepLength(b) == 1
    ensures PixelWidth([b] + rest) == 8 + PixelWidth(rest)
  {
    assert ([b] + rest)[1..] == rest;
  }

  lemma EncodedOne(c: Text)
    ensures Encoded([c]) == c
  {
    var cs: seq<Text> := [c];
    assert cs[..0] == [] && Encoded(cs[..0]) == [];
  }

  // What the width loop has before it: perhaps the end of a character, then whole ones.
  ghost predicate Tail(t: Text)
  {
    exists k :: 0 <= k <= |t| && Valid(t[k..]) && forall i :: 0 <= i < k ==> Continues(t[i])
  }

  lemma ValidIsTail(t: Text)
    requires Valid(t)
    ensures Tail(t)
  {
    assert t[0..] == t;
  }

  // On well-formed text the loop never steps over the end.
  lemma TailStep(t: Text)
    requires Tail(t) && t != []
    ensures StepLength(t[0]) <= |t| && Tail(t[StepLength(t[0])..])
  {
    var k :| 0 <= k <= |t| && Valid(t[k..]) && forall i :: 0 <= i < k ==> Continues(t[i]);
    if k > 0 {
      assert t[1..][k - 1..] == t[k..];
    } else {
      assert t[0..] == t;
      var c, rest := FirstCharacter(t);
      assert t[0] == c[0];
      assert t[|c|..] == rest;
      if |c| == 4 {
        var u := t[1..];
        assert u[3..] == rest;
        assert forall i :: 0 <= i < 3 ==> u[i] == c[i + 1];
      } else {
        ValidIsTail(rest);
      }
    }
  }

  lemma FirstCharacter(t: Text) returns (c: Text, rest: Text)
    requires Valid(t) && t != []
    ensures Character(c) && Valid(rest) && t == c + rest
  {
    var cs :| Characters(cs) && Encoded(cs) == t;
    c, rest := cs[0], Encoded(cs[1..]);
    assert cs == [c] + cs[1..];
    EncodedAppend([c], cs[1..]);
    EncodedOne(c);
    assert Characters(cs[1..]);
  }

  // No step of the loop goes over the end of the text.
  predicate StepsFit(t: Text)
    decreases |t|
  {
    t == [] || (StepLength(t[0]) <= |t| && StepsFit(t[StepLength(t[0])..]))
  }

  lemma {:induction false} TailStepsFit(t: Text)
    requires Tail(t)
    ensures StepsFit(t)
    decreases |t|
  {
    hide Tail;
    if t != [] {
      TailStep(t);
      TailStepsFit(t[StepLength(t[0])..]);
    }
  }

  lemma ValidStepsFit(t: Text)
    requires Valid(t)
    ensures StepsFit(t)
  {
    ValidIsTail(t);
    TailStepsFit(t);
  }

  // gterm_calc_text_pixel_width, on any bytes over whose end its steps do not take it
  method CalcPixelWidth(t: Text) returns (w: nat)
    requires StepsFit(t)
    ensures w == PixelWidth(t)
  {
    w := 0;
    var i := 0;
    assert t[0..] == t;
    while i < |t|
      invariant i <= |t| && StepsFit(t[i..])
      invariant w + PixelWidth(t[i..]) == PixelWidth(t)
      decreases |t| - i
    {
      var c := t[i];
      assert t[i..][StepLength(c)..] == t[i + StepLength(c)..];
      if c < 0x80 {
        w, i := w + 8, i + 1;
      } else if 0xC0 <= c < 0xE0 {
        w, i := w + 8, i + 2;
      } else if 0xE0 <= c < 0xF0 {
        w, i := w + 16, i + 3;
      } else {
        w, i := w + 8, i + 1;
      }
    }
  }
}
