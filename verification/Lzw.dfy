/** Variable-length-code LZW as GIF89a (section 22 and Appendix F) describes it: a decoder whose
    table is a list of strings, every encoder that agrees with it, and the greedy encoder of
    Appendix F. */
module Lzw {
  import opened Bits

  type Str = seq<byte>

  type MinCode = m: nat | 2 <= m <= 8 witness 2

  const TABLE_SIZE := 4096

  function Clear(m: MinCode): nat { Pow2(m) }

  function Eoi(m: MinCode): nat { Pow2(m) + 1 }

  // The control codes as C has them: 1 << m and the one after.
  lemma ControlCodes(m: MinCode)
    ensures Clear(m) == Shl32(1, m) && Eoi(m) == Clear(m) + 1
  {
    ShiftedOne(m);
  }

  lemma ClearBounds(m: MinCode)
    ensures 4 <= Clear(m) <= 256
  {
    Pow2Monotone(2, m);
    Pow2Monotone(m, 8);
    Pow2Constants();
  }

  function Literals(n: nat): (t: seq<Str>)
    requires n <= 256
    ensures |t| == n
    ensures forall i :: 0 <= i < n ==> t[i] == [i]
  {
    seq(n, i requires 0 <= i < n => [i as byte])
  }

  // The table after a clear code: one string a colour; the two control codes spell nothing.
  function Base(m: MinCode): (t: seq<Str>)
    ensures |t| == Eoi(m) + 1
    ensures Clear(m) <= 256
    ensures forall i :: 0 <= i < Clear(m) ==> t[i] == [i]
    ensures t[Clear(m)] == [] && t[Eoi(m)] == []
  {
    ClearBounds(m);
    Literals(Clear(m)) + [[], []]
  }

  // ----- code widths

  // Bits in a code when n is the largest code that may come: at least w, at most 12.
  function WidthFrom(w: nat, n: nat): (r: nat)
    requires w <= 12
    ensures w <= r <= 12
    decreases 12 - w
  {
    if w == 12 || n < Pow2(w) then w else WidthFrom(w + 1, n)
  }

  function Width(m: MinCode, n: nat): (w: nat)
    ensures m + 1 <= w <= 12
  {
    WidthFrom(m + 1, n)
  }

  lemma {:induction false} WidthFromFits(w: nat, n: nat)
    requires w <= 12 && n < TABLE_SIZE
    ensures n < Pow2(WidthFrom(w, n))
    ensures WidthFrom(w, n) > w ==> Pow2(WidthFrom(w, n) - 1) <= n
    decreases 12 - w
  {
    if w == 12 {
      Pow2Constants();
    } else if n >= Pow2(w) {
      WidthFromFits(w + 1, n);
    }
  }

  // The widths are the least that work: every code up to n fits, and one bit less would not do.
  lemma WidthIsLeast(m: MinCode, n: nat)
    requires n < TABLE_SIZE
    ensures n < Pow2(Width(m, n))
    ensures Width(m, n) > m + 1 ==> Pow2(Width(m, n) - 1) <= n
  {
    WidthFromFits(m + 1, n);
  }

  // The decoder's rule for keeping the width up to date as its table grows by one entry.
  lemma {:induction false} WidthFromGrows(w: nat, n: nat)
    requires w <= 12
    ensures var r := WidthFrom(w, n);
            WidthFrom(w, n + 1) == if n + 1 > Pow2(r) - 1 && r < 12 then r + 1 else r
    decreases 12 - w
  {
    if w < 12 {
      if n < Pow2(w) {
        if n + 1 == Pow2(w) && w + 1 < 12 {
          assert Pow2(w + 1) == 2 * Pow2(w);
        }
      } else {
        WidthFromGrows(w + 1, n);
      }
    }
  }

  lemma WidthGrows(m: MinCode, n: nat)
    ensures var r := Width(m, n);
            Width(m, n + 1) == if n + 1 > Pow2(r) - 1 && r < 12 then r + 1 else r
  {
    WidthFromGrows(m + 1, n);
  }

  lemma WidthAtStart(m: MinCode)
    ensures Width(m, Eoi(m)) == m + 1 && Width(m, Eoi(m) + 1) == m + 1
  {
    ClearBounds(m);
    assert Pow2(m + 1) == 2 * Pow2(m);
  }

  // ----- the dictionary-of-strings decoder

  // The table, and the string the last code spelled ([] right after a clear).
  datatype Dict = Dict(table: seq<Str>, prev: Str)

  function Start(m: MinCode): Dict { Dict(Base(m), []) }

  ghost predicate WellFormed(m: MinCode, d: Dict)
  {
    && Eoi(m) < |d.table| <= TABLE_SIZE
    && Base(m) <= d.table
    && (forall k :: Eoi(m) < k < |d.table| ==> 2 <= |d.table[k]| <= k - Eoi(m) + 1)
    && |d.prev| <= |d.table| - Eoi(m)
    && (d.prev == [] ==> |d.table| == Eoi(m) + 1)
  }

  // What a well-formed stream may send next besides the control codes: an entry of the table, or
  // the entry the decoder is about to make.
  predicate Expected(d: Dict, code: nat)
  {
    if code < |d.table| then d.table[code] != [] else code == |d.table| && d.prev != []
  }

  function Spell(d: Dict, code: nat): (s: Str)
    requires Expected(d, code)
    ensures s != []
  {
    if code < |d.table| then d.table[code] else d.prev + [d.prev[0]]
  }

  // The table learns the previous string and the first byte of this one.
  function Learn(d: Dict, s: Str): Dict
    requires s != []
  {
    if d.prev != [] && |d.table| < TABLE_SIZE
    then Dict(d.table + [d.prev + [s[0]]], s)
    else Dict(d.table, s)
  }

  lemma SpellBounds(m: MinCode, d: Dict, code: nat)
    requires WellFormed(m, d) && Expected(d, code)
    ensures 1 <= |Spell(d, code)| <= |d.table| - Eoi(m) + 1 <= TABLE_SIZE
    ensures code != Clear(m) && code != Eoi(m)
  {
    assert d.table[..Eoi(m) + 1] == Base(m);
    if code < Clear(m) {
      assert d.table[code] == Base(m)[code];
    }
  }

  lemma LearnKeepsWellFormed(m: MinCode, d: Dict, code: nat)
    requires WellFormed(m, d) && Expected(d, code) && code < TABLE_SIZE
    ensures WellFormed(m, Learn(d, Spell(d, code)))
  {
    SpellBounds(m, d, code);
    assert d.table[..Eoi(m) + 1] == Base(m);
    var s := Spell(d, code);
    var e := Learn(d, s);
    assert e.table[..Eoi(m) + 1] == Base(m);
    if code < Clear(m) {
      assert s == Base(m)[code];
    }
  }

  datatype Outcome = Pixels(out: Str) | Malformed

  function Before(s: Str, r: Outcome): Outcome
  {
    match r
    case Pixels(out) => Pixels(s + out)
    case Malformed => Malformed
  }

  // Cuts the bits into codes whose width follows the table and spells them, until `room` bytes
  // are out, the end code comes, or the bits run dry.
  function Decode(m: MinCode, d: Dict, bits: seq<bool>, room: nat): (r: Outcome)
    ensures r.Pixels? ==> |r.out| <= room
    decreases |bits|
  {
    var w := Width(m, |d.table|);
    if room == 0 || |bits| < w then Pixels([])
    else
      var code, rest := Value(bits[..w]), bits[w..];
      if code == Clear(m) then Decode(m, Start(m), rest, room)
      else if code == Eoi(m) then Pixels([])
      else if !Expected(d, code) then Malformed
      else
        var s := Spell(d, code);
        if |s| < room then Before(s, Decode(m, Learn(d, s), rest, room - |s|))
        else Pixels(s[..room])
  }

  // ----- encoders

  datatype Op = ClearTable | Emit(code: nat)

  // An encoder adds the string it has just sent and the byte that follows, so its table is one
  // entry ahead of the decoder's.
  function Add(table: seq<Str>, s: Str, rest: Str): seq<Str>
  {
    if rest == [] || |table| >= TABLE_SIZE then table else table + [s + [rest[0]]]
  }

  // ops is a way to send p: clears anywhere, and each code an entry that p continues with.  The
  // entry need not be the longest one.
  ghost predicate Encodes(m: MinCode, table: seq<Str>, ops: seq<Op>, p: Str)
    decreases |ops|
  {
    if ops == [] then p == []
    else match ops[0]
      case ClearTable => Encodes(m, Base(m), ops[1..], p)
      case Emit(c) =>
        && c < |table| && table[c] != [] && table[c] <= p
        && var rest := p[|table[c]|..];
           Encodes(m, Add(table, table[c], rest), ops[1..], rest)
  }

  // The bits sent, and then the tail: each code is as wide as the largest code in the table needs.
  ghost function Emitted(m: MinCode, table: seq<Str>, ops: seq<Op>, p: Str, tail: seq<bool>): seq<bool>
    requires table != [] && Encodes(m, table, ops, p)
    decreases |ops|
  {
    if ops == [] then tail
    else
      var w := Width(m, |table| - 1);
      match ops[0]
      case ClearTable => Cut(Clear(m), w) + Emitted(m, Base(m), ops[1..], p, tail)
      case Emit(c) =>
        var rest := p[|table[c]|..];
        Cut(c, w) + Emitted(m, Add(table, table[c], rest), ops[1..], rest, tail)
  }

  // The encoder's table is the decoder's and the entry the decoder will make from its next code.
  ghost predicate Ahead(table: seq<Str>, d: Dict, p: Str)
  {
    table == if d.prev != [] && p != [] && |d.table| < TABLE_SIZE
             then d.table + [d.prev + [p[0]]] else d.table
  }

  lemma WidthsAgree(m: MinCode, table: seq<Str>, d: Dict, p: Str)
    requires WellFormed(m, d) && Ahead(table, d, p) && p != []
    ensures |table| > Eoi(m)
    ensures |table| <= TABLE_SIZE
    ensures Width(m, |table| - 1) == Width(m, |d.table|)
  {
    if d.prev == [] {
      WidthAtStart(m);
    } else if |d.table| == TABLE_SIZE {
      WidthIsLeast(m, TABLE_SIZE - 1);
      FullWidth(m, TABLE_SIZE - 1);
      FullWidth(m, TABLE_SIZE);
    }
  }

  lemma FullWidth(m: MinCode, n: nat)
    requires TABLE_SIZE - 1 <= n
    ensures Width(m, n) == 12
  {
    FullWidthFrom(m + 1, n);
  }

  lemma {:induction false} FullWidthFrom(w: nat, n: nat)
    requires w <= 12 && TABLE_SIZE - 1 <= n
    ensures WidthFrom(w, n) == 12
    decreases 12 - w
  {
    if w < 12 {
      Pow2Monotone(w, 11);
      assert Pow2(11) == 2048 by { Pow2Constants(); }
      FullWidthFrom(w + 1, n);
    }
  }

  lemma DecodesClear(m: MinCode, d: Dict, rest: seq<bool>, room: nat)
    requires room > 0
    ensures Decode(m, d, Cut(Clear(m), Width(m, |d.table|)) + rest, room) == Decode(m, Start(m), rest, room)
  {
    var w := Width(m, |d.table|);
    Pow2Monotone(m + 1, w);
    assert Clear(m) < Pow2(m + 1);
    ValueOfCut(Clear(m), w);
    var bits := Cut(Clear(m), w) + rest;
    assert bits[..w] == Cut(Clear(m), w) && bits[w..] == rest;
  }

  lemma DecodesCode(m: MinCode, d: Dict, c: nat, rest: seq<bool>, room: nat)
    requires WellFormed(m, d) && Expected(d, c) && c < Pow2(Width(m, |d.table|)) && room > 0
    ensures var s := Spell(d, c);
            Decode(m, d, Cut(c, Width(m, |d.table|)) + rest, room) ==
            if |s| < room then Before(s, Decode(m, Learn(d, s), rest, room - |s|)) else Pixels(s[..room])
  {
    var w := Width(m, |d.table|);
    SpellBounds(m, d, c);
    ValueOfCut(c, w);
    var bits := Cut(c, w) + rest;
    assert bits[..w] == Cut(c, w) && bits[w..] == rest;
  }

  // The decoder expects each code the encoder sends, spells it alike, and stays one entry behind.
  lemma EmitStep(m: MinCode, table: seq<Str>, d: Dict, c: nat, p: Str, s: Str, rest: Str)
    requires WellFormed(m, d) && Ahead(table, d, p) && p == s + rest
    requires c < |table| && table[c] == s && s != []
    ensures Expected(d, c) && Spell(d, c) == s
    ensures c < Pow2(Width(m, |d.table|))
    ensures WellFormed(m, Learn(d, s))
    ensures Ahead(Add(table, s, rest), Learn(d, s), rest)
  {
    WidthsAgree(m, table, d, p);
    WidthIsLeast(m, |table| - 1);
    assert s[0] == p[0];
    LearnKeepsWellFormed(m, d, c);
  }

  // The decoder undoes every such encoder, whatever follows the data.
  lemma {:induction false} RoundTrip(m: MinCode, table: seq<Str>, d: Dict, ops: seq<Op>, p: Str, tail: seq<bool>)
    requires WellFormed(m, d) && Ahead(table, d, p) && Encodes(m, table, ops, p)
    requires table != []
    ensures Decode(m, d, Emitted(m, table, ops, p, tail), |p|) == Pixels(p)
    decreases |ops|, 1
  {
    if p != [] {
      if ops[0].ClearTable? {
        RoundTrip(m, Base(m), Start(m), ops[1..], p, tail);
        WidthsAgree(m, table, d, p);
        DecodesClear(m, d, Emitted(m, Base(m), ops[1..], p, tail), |p|);
      } else {
        EmitTrip(m, table, d, ops, p, tail);
      }
    }
  }

  lemma {:induction false} EmitTrip(m: MinCode, table: seq<Str>, d: Dict, ops: seq<Op>, p: Str, tail: seq<bool>)
    requires WellFormed(m, d) && Ahead(table, d, p) && Encodes(m, table, ops, p)
    requires table != [] && p != [] && ops[0].Emit?
    ensures Decode(m, d, Emitted(m, table, ops, p, tail), |p|) == Pixels(p)
    decreases |ops|, 0
  {
    hide WellFormed, Decode, Ahead, Learn;
    var c := ops[0].code;
    var s := table[c];
    var rest := p[|s|..];
    PrefixSplit(s, p);
    EmitStep(m, table, d, c, p, s, rest);
    RoundTrip(m, Add(table, s, rest), Learn(d, s), ops[1..], rest, tail);
    WidthsAgree(m, table, d, p);
    CodeTrip(m, d, c, s, rest, Emitted(m, Add(table, s, rest), ops[1..], rest, tail));
  }

  lemma PrefixSplit(s: Str, p: Str)
    requires s <= p
    ensures p == s + p[|s|..]
  {
  }

  lemma CodeTrip(m: MinCode, d: Dict, c: nat, s: Str, rest: Str, more: seq<bool>)
    requires WellFormed(m, d) && Expected(d, c) && c < Pow2(Width(m, |d.table|))
    requires s == Spell(d, c)
    requires rest != [] ==> Decode(m, Learn(d, s), more, |rest|) == Pixels(rest)
    ensures Decode(m, d, Cut(c, Width(m, |d.table|)) + more, |s + rest|) == Pixels(s + rest)
  {
    DecodesCode(m, d, c, more, |s + rest|);
  }

  // ----- the greedy encoder of Appendix F

  // Index of s in the table, or |table|.
  function IndexOf(table: seq<Str>, s: Str): (k: nat)
    ensures k <= |table|
    ensures k < |table| ==> table[k] == s
    ensures forall i :: 0 <= i < k ==> table[i] != s
  {
    if table == [] then 0
    else if table[0] == s then 0
    else 1 + IndexOf(table[1..], s)
  }

  // The current string p[..n] has code k: keep taking one more byte while the table has it.
  function Extend(table: seq<Str>, p: Str, n: nat, k: nat): (c: nat)
    requires 0 < n <= |p| && k < |table| && table[k] == p[..n]
    ensures c < |table| && table[c] != [] && table[c] <= p && n <= |table[c]|
    decreases |p| - n
  {
    if n == |p| then k
    else
      var next := IndexOf(table, p[..n + 1]);
      if next == |table| then k else Extend(table, p, n + 1, next)
  }

  // Every colour is in the table.
  ghost predicate Covers(m: MinCode, table: seq<Str>)
  {
    Base(m) <= table
  }

  predicate Colours(m: MinCode, p: Str)
  {
    forall i :: 0 <= i < |p| ==> p[i] < Clear(m)
  }

  function Longest(m: MinCode, table: seq<Str>, p: Str): (c: nat)
    requires Covers(m, table) && p != [] && Colours(m, p)
    ensures c < |table| && table[c] != [] && table[c] <= p
  {
    assert table[..|Base(m)|] == Base(m);
    assert table[p[0]] == Base(m)[p[0]] == p[..1];
    Extend(table, p, 1, p[0])
  }

  // clears(r) clear codes are sent when r bytes are still to come.
  function Greedy(m: MinCode, table: seq<Str>, p: Str, clears: nat -> nat, now: nat): seq<Op>
    requires Covers(m, table) && Colours(m, p)
    decreases |p|, now
  {
    if p == [] then []
    else if now > 0 then [ClearTable] + Greedy(m, Base(m), p, clears, now - 1)
    else
      var c := Longest(m, table, p);
      var rest := p[|table[c]|..];
      AddCovers(m, table, table[c], rest);
      [Emit(c)] + Greedy(m, Add(table, table[c], rest), rest, clears, clears(|rest|))
  }

  lemma AddCovers(m: MinCode, table: seq<Str>, s: Str, rest: Str)
    requires Covers(m, table)
    ensures Covers(m, Add(table, s, rest))
  {
  }

  lemma {:induction false} GreedyEncodes(m: MinCode, table: seq<Str>, p: Str, clears: nat -> nat, now: nat)
    requires Covers(m, table) && Colours(m, p)
    ensures Encodes(m, table, Greedy(m, table, p, clears, now), p)
    decreases |p|, now
  {
    if p != [] {
      var ops := Greedy(m, table, p, clears, now);
      if now > 0 {
        GreedyEncodes(m, Base(m), p, clears, now - 1);
        assert ops[1..] == Greedy(m, Base(m), p, clears, now - 1);
      } else {
        var c := Longest(m, table, p);
        var rest := p[|table[c]|..];
        AddCovers(m, table, table[c], rest);
        GreedyEncodes(m, Add(table, table[c], rest), rest, clears, clears(|rest|));
        assert ops[1..] == Greedy(m, Add(table, table[c], rest), rest, clears, clears(|rest|));
      }
    }
  }

  // Every string of two bytes or more is in the table without its last byte.
  ghost predicate PrefixClosed(table: seq<Str>)
  {
    forall q :: q in table && |q| > 1 ==> q[..|q| - 1] in table
  }

  lemma {:induction false} PrefixesIn(table: seq<Str>, q: Str, n: nat)
    requires PrefixClosed(table) && q in table && 1 <= n <= |q|
    ensures q[..n] in table
    decreases |q|
  {
    if n == |q| {
      assert q[..n] == q;
    } else {
      PrefixesIn(table, q[..|q| - 1], n);
      assert q[..|q| - 1][..n] == q[..n];
    }
  }

  lemma {:induction false} ExtendIsLongest(table: seq<Str>, p: Str, n: nat, k: nat, q: Str)
    requires 0 < n <= |p| && k < |table| && table[k] == p[..n]
    requires PrefixClosed(table) && q in table && q <= p
    ensures |q| <= |table[Extend(table, p, n, k)]|
    decreases |p| - n
  {
    if n < |p| && |q| > n {
      PrefixesIn(table, q, n + 1);
      assert q[..n + 1] == p[..n + 1];
      var next := IndexOf(table, p[..n + 1]);
      ExtendIsLongest(table, p, n + 1, next, q);
    }
  }

  // The string sent is the longest in the table that the input continues with, so the string the
  // encoder then adds is always new, and the table stays closed.
  lemma LongestIsLongest(m: MinCode, table: seq<Str>, p: Str)
    requires Covers(m, table) && p != [] && Colours(m, p) && PrefixClosed(table)
    ensures var s := table[Longest(m, table, p)];
            var rest := p[|s|..];
            && (forall q :: q in table && q <= p ==> |q| <= |s|)
            && (rest != [] ==> s + [rest[0]] !in table)
            && PrefixClosed(Add(table, s, rest))
  {
    var s := table[Longest(m, table, p)];
    var rest := p[|s|..];
    assert table[..|Base(m)|] == Base(m);
    assert table[p[0]] == Base(m)[p[0]] == p[..1];
    forall q | q in table && q <= p
      ensures |q| <= |s|
    {
      ExtendIsLongest(table, p, 1, p[0], q);
    }
    if rest != [] {
      assert s + [rest[0]] <= p;
      assert (s + [rest[0]])[..|s|] == s;
    }
    AddStaysClosed(table, s, rest);
  }

  lemma AddStaysClosed(table: seq<Str>, s: Str, rest: Str)
    requires PrefixClosed(table) && s in table
    ensures PrefixClosed(Add(table, s, rest))
  {
    if rest != [] {
      assert (s + [rest[0]])[..|s|] == s;
    }
  }

  lemma BaseIsClosed(m: MinCode)
    ensures PrefixClosed(Base(m))
  {
  }

  // Every code sent is for the longest string of the table as it then is, and every entry added
  // is new.
  ghost predicate SendsLongest(m: MinCode, table: seq<Str>, ops: seq<Op>, p: Str)
    decreases |ops|
  {
    if ops == [] then true
    else match ops[0]
      case ClearTable => SendsLongest(m, Base(m), ops[1..], p)
      case Emit(c) =>
        && c < |table| && table[c] <= p
        && var rest := p[|table[c]|..];
           && (forall q :: q in table && q <= p ==> |q| <= |table[c]|)
           && (rest != [] ==> table[c] + [rest[0]] !in table)
           && SendsLongest(m, Add(table, table[c], rest), ops[1..], rest)
  }

  lemma {:induction false} GreedySends(m: MinCode, table: seq<Str>, p: Str, clears: nat -> nat, now: nat)
    requires Covers(m, table) && Colours(m, p) && PrefixClosed(table)
    ensures SendsLongest(m, table, Greedy(m, table, p, clears, now), p)
    decreases |p|, now
  {
    hide PrefixClosed, Longest;
    if p != [] {
      var ops := Greedy(m, table, p, clears, now);
      if now > 0 {
        BaseIsClosed(m);
        GreedySends(m, Base(m), p, clears, now - 1);
        assert ops[1..] == Greedy(m, Base(m), p, clears, now - 1);
      } else {
        var c := Longest(m, table, p);
        var rest := p[|table[c]|..];
        AddCovers(m, table, table[c], rest);
        LongestIsLongest(m, table, p);
        GreedySends(m, Add(table, table[c], rest), rest, clears, clears(|rest|));
        assert ops[1..] == Greedy(m, Add(table, table[c], rest), rest, clears, clears(|rest|));
      }
    }
  }

  lemma GreedySendsLongest(m: MinCode, p: Str, clears: nat -> nat)
    requires Colours(m, p)
    ensures SendsLongest(m, Base(m), Greedy(m, Base(m), p, clears, clears(|p|)), p)
  {
    hide PrefixClosed;
    BaseIsClosed(m);
    GreedySends(m, Base(m), p, clears, clears(|p|));
  }
}
