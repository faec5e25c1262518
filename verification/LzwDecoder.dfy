/** The decoder of include/btron/settings_icon.h: prefix and suffix arrays, a stack that turns
    strings round, and a raw pixel buffer. */
module LzwDecoders {
  import opened Bits
  import opened Lzw
  import opened BitReaders
  import opened Sequences

  // The arrays spell the table: each entry is the entry its prefix names and then its suffix, and
  // a prefix is always an older entry, so following prefixes ends at a colour.
  ghost predicate Linked(m: MinCode, table: seq<Str>, pre: seq<nat>, suf: seq<byte>)
  {
    && Eoi(m) < |table| <= |pre| == |suf|
    && (forall k :: 0 <= k < Clear(m) ==> table[k] == [suf[k]])
    && (forall k :: Eoi(m) < k < |table| ==>
          pre[k] < k && table[pre[k]] != [] && table[k] == table[pre[k]] + [suf[k]])
  }

  lemma LinkedGrows(m: MinCode, table: seq<Str>, pre: seq<nat>, suf: seq<byte>, old_code: nat, c: byte)
    requires Linked(m, table, pre, suf) && |table| < |pre|
    requires old_code < |table| && table[old_code] != []
    ensures Linked(m, table + [table[old_code] + [c]], pre[|table| := old_code], suf[|table| := c])
  {
    ClearBounds(m);
  }

  lemma LinkedAt(m: MinCode, table: seq<Str>, pre: seq<nat>, suf: seq<byte>, cur: nat)
    requires Linked(m, table, pre, suf) && cur < |table| && table[cur] != []
    requires table[Clear(m)] == [] && table[Eoi(m)] == []
    ensures cur < |pre| == |suf|
    ensures Clear(m) <= cur ==>
      && pre[cur] < cur
      && table[pre[cur]] != []
      && table[cur] == table[pre[cur]] + [suf[cur]]
    ensures cur < Clear(m) ==> table[cur] == [suf[cur]]
  {
  }

  class LzwDecoder {
    const m: MinCode
    const total: nat
    const input: BitReader
    const prefix: array<nat>
    const suffix: array<byte>
    const stack: array<byte>
    const raw: array<byte>

    var codeSize: nat
    var codeMask: nat
    var nextCode: nat
    var oldCode: int
    var firstChar: byte
    var stackTop: nat
    var pixelCount: nat
    ghost var dict: Dict

    ghost predicate Buffers()
      reads {}
    {
      && prefix.Length == suffix.Length == TABLE_SIZE
      && stack.Length == TABLE_SIZE + 1
      && total <= raw.Length
      && suffix != stack && suffix != raw && stack != raw
      && input.sub != suffix && input.sub != stack && input.sub != raw
    }

    // The tables agree with the dictionary-of-strings decoder.
    ghost predicate Tables()
      reads `codeSize, `codeMask, `nextCode, `oldCode, `dict, prefix, suffix
    {
      && Buffers()
      && WellFormed(m, dict)
      && nextCode == |dict.table|
      && codeSize == Width(m, nextCode)
      && codeMask == Pow2(codeSize) - 1
      && Linked(m, dict.table, prefix[..], suffix[..])
      && (if dict.prev == [] then oldCode == -1
          else 0 <= oldCode < nextCode && dict.table[oldCode] == dict.prev)
    }

    ghost predicate Valid()
      reads this, prefix, suffix, input, input.st
    {
      && Tables()
      && (dict.prev != [] ==> firstChar == dict.prev[0])
      && input.Valid()
      && pixelCount <= total
      && (pixelCount < total ==> stackTop == 0)
    }

    constructor (m: MinCode, total: nat, input: BitReader,
                 prefix: array<nat>, suffix: array<byte>, stack: array<byte>, raw: array<byte>)
      requires input.Valid()
      requires prefix.Length == suffix.Length == TABLE_SIZE && stack.Length == TABLE_SIZE + 1
      requires total <= raw.Length
      requires suffix != stack && suffix != raw && stack != raw
      requires input.sub != suffix && input.sub != stack && input.sub != raw
      modifies prefix, suffix
      ensures Valid() && dict == Start(m) && pixelCount == 0
      ensures this.m == m && this.total == total && this.input == input
      ensures this.prefix == prefix && this.suffix == suffix && this.stack == stack && this.raw == raw
    {
      ClearBounds(m);
      WidthAtStart(m);
      for i := 0 to Clear(m)
        invariant forall k :: 0 <= k < i ==> suffix[k] == k
      {
        prefix[i] := 0;
        suffix[i] := i;
      }
      this.m, this.total, this.input := m, total, input;
      this.prefix, this.suffix, this.stack, this.raw := prefix, suffix, stack, raw;
      codeSize := m + 1;
      codeMask := Pow2(m + 1) - 1;
      nextCode := Eoi(m) + 1;
      oldCode, firstChar, stackTop, pixelCount := -1, 0, 0, 0;
      dict := Start(m);
    }

    // Pushes the string of a code last byte first.
    method Unwind(code: nat)
      requires Tables() && (dict.prev != [] ==> firstChar == dict.prev[0])
      requires stackTop == 0 && Expected(dict, code)
      modifies `stackTop, `firstChar, stack
      ensures stackTop <= stack.Length
      ensures Reversed(stack[..stackTop]) == Spell(dict, code)
      ensures firstChar == Spell(dict, code)[0]
    {
      hide Linked, Width;
      ghost var s := Spell(dict, code);
      SpellBounds(m, dict, code);
      var cur: int := code;
      if cur >= nextCode {
        stack[stackTop] := firstChar;
        stackTop := stackTop + 1;
        cur := oldCode;
        assert stack[..1] == [firstChar];
      }
      Follow(cur, s);
    }

    // The loop of Unwind: from entry cur on, following prefixes down to a colour.
    method Follow(start: nat, ghost s: Str)
      requires Buffers() && Linked(m, dict.table, prefix[..], suffix[..])
      requires dict.table[Clear(m)] == [] && dict.table[Eoi(m)] == []
      requires start < |dict.table| && dict.table[start] != []
      requires |s| <= TABLE_SIZE && stackTop < |s|
      requires dict.table[start] + Reversed(stack[..stackTop]) == s
      modifies `stackTop, `firstChar, stack
      ensures stackTop <= stack.Length
      ensures Reversed(stack[..stackTop]) == s
      ensures firstChar == s[0]
    {
      hide Linked;
      ghost var table, pre, suf := dict.table, prefix[..], suffix[..];
      var cur := start;
      LinkedAt(m, table, pre, suf, cur);
      while Clear(m) <= cur < TABLE_SIZE
        invariant 0 <= cur < |table| && table[cur] != [] && cur < TABLE_SIZE
        invariant stackTop < |s|
        invariant table[cur] + Reversed(stack[..stackTop]) == s
        decreases cur
      {
        LinkedAt(m, table, pre, suf, cur);
        UnwindStep(table[pre[cur]], suf[cur], stack[..stackTop]);
        Push(suffix[cur]);
        cur := prefix[cur];
      }
      LinkedAt(m, table, pre, suf, cur);
      firstChar := suffix[cur];
      UnwindStep([], suf[cur], stack[..stackTop]);
      Push(firstChar);
    }

    method Push(c: byte)
      requires Buffers() && stackTop < stack.Length
      modifies `stackTop, stack
      ensures stackTop == old(stackTop) + 1
      ensures stack[..stackTop] == old(stack[..stackTop]) + [c]
    {
      stack[stackTop] := c;
      stackTop := stackTop + 1;
    }

    // Pops the string into the pixel buffer, first byte first, as far as the image goes.
    method Flush(ghost s: Str)
      requires Buffers() && pixelCount <= total && stackTop <= stack.Length
      requires Reversed(stack[..stackTop]) == s
      modifies `stackTop, `pixelCount, raw
      ensures var n := if |s| <= total - old(pixelCount) then |s| else total - old(pixelCount);
              && pixelCount == old(pixelCount) + n
              && stackTop == |s| - n
              && raw[..pixelCount] == old(raw[..pixelCount]) + s[..n]
              && raw[pixelCount..] == old(raw[..])[pixelCount..]
    {
      ghost var start := pixelCount;
      ghost var full := stack[..stackTop];
      while stackTop > 0 && pixelCount < total
        invariant start <= pixelCount <= total
        invariant stackTop + (pixelCount - start) == |s|
        invariant forall k :: start <= k < pixelCount ==> raw[k] == s[k - start]
        invariant forall k :: 0 <= k < raw.Length && !(start <= k < pixelCount) ==> raw[k] == old(raw[k])
      {
        ReversedAt(full, pixelCount - start);
        stackTop := stackTop - 1;
        assert stack[stackTop] == full[stackTop];
        raw[pixelCount] := stack[stackTop];
        pixelCount := pixelCount + 1;
      }
    }

    // Learns the entry that this code completes and widens the codes when the next one needs it.
    method Grow(code: nat)
      requires Tables() && Expected(dict, code) && code < TABLE_SIZE
      requires firstChar == Spell(dict, code)[0]
      modifies `codeSize, `codeMask, `nextCode, `oldCode, `dict, prefix, suffix
      ensures Tables()
      ensures dict == Learn(old(dict), Spell(old(dict), code))
    {
      hide WellFormed, Width, Linked;
      ghost var s := Spell(dict, code);
      LearnKeepsWellFormed(m, dict, code);
      if oldCode >= 0 && nextCode < TABLE_SIZE {
        LinkedGrows(m, dict.table, prefix[..], suffix[..], oldCode, firstChar);
        WidthGrows(m, nextCode);
        prefix[nextCode] := oldCode;
        suffix[nextCode] := firstChar;
        nextCode := nextCode + 1;
        if nextCode > codeMask && codeSize < 12 {
          codeSize := codeSize + 1;
          codeMask := Pow2(codeSize) - 1;
        }
      }
      oldCode := code;
      dict := Learn(dict, s);
    }

    // One string: out to the pixel buffer and into the tables.
    method Accept(code: nat)
      requires Valid() && pixelCount < total && Expected(dict, code) && code < TABLE_SIZE
      modifies this, prefix, suffix, stack, raw
      ensures Valid() && dict == Learn(old(dict), Spell(old(dict), code))
      ensures var s, room := Spell(old(dict), code), total - old(pixelCount);
              var n := if |s| <= room then |s| else room;
              && pixelCount == old(pixelCount) + n
              && raw[..pixelCount] == old(raw[..pixelCount]) + s[..n]
              && raw[pixelCount..] == old(raw[..])[pixelCount..]
    {
      hide Linked, Width, WellFormed, Reversed;
      ghost var s := Spell(dict, code);
      Unwind(code);
      Flush(s);
      Grow(code);
    }

    // What has been put out and what the codes to come will put out.
    ghost function Result(): Outcome
      requires Valid()
      reads this, prefix, suffix, raw, input, input.st, input.sub
    {
      Before(raw[..pixelCount], Decode(m, dict, input.Bits(), total - pixelCount))
    }

    // One turn of the decoding loop.
    method Step() returns (more: bool)
      requires Valid() && pixelCount < total && Result().Pixels?
      modifies this, prefix, suffix, stack, raw, input, input.st, input.sub
      ensures pixelCount <= total
      ensures more ==> Valid() && Result() == old(Result()) && |input.Bits()| < old(|input.Bits()|)
      ensures !more ==> Pixels(raw[..pixelCount]) == old(Result())
      ensures old(pixelCount) <= pixelCount && raw[pixelCount..] == old(raw[..])[pixelCount..]
    {
      hide Linked, WellFormed, Decode, Before, Learn;
      ghost var target := Result();
      CodeStep(m, dict, input.Bits(), total - pixelCount, raw[..pixelCount]);
      var code := input.NextCode(codeSize, codeMask);
      if code < 0 || code == Eoi(m) {
        return false;
      }
      Obey(code, target);
      more := true;
    }

    // A clear code or a string.
    method Obey(code: nat, ghost target: Outcome)
      requires Valid() && pixelCount < total && code < TABLE_SIZE
      requires code == Clear(m) || Expected(dict, code)
      requires var room := total - pixelCount;
               target == if code == Clear(m) then Before(raw[..pixelCount], Decode(m, Start(m), input.Bits(), room))
                         else
                           var s := Spell(dict, code);
                           var n := if |s| <= room then |s| else room;
                           Before(raw[..pixelCount] + s[..n], Decode(m, Learn(dict, s), input.Bits(), room - n))
      modifies this, prefix, suffix, stack, raw
      ensures Valid() && Result() == target && input.Bits() == old(input.Bits())
      ensures old(pixelCount) <= pixelCount && raw[pixelCount..] == old(raw[..])[pixelCount..]
    {
      hide Linked, WellFormed, Decode, Before, Learn;
      if code == Clear(m) {
        Reset();
      } else {
        Accept(code);
      }
    }

    // The decoding loop: as many pixels as the dictionary-of-strings decoder finds, and the rest
    // of the buffer as it was.
    method Run()
      requires Valid() && dict == Start(m) && pixelCount == 0
      requires Decode(m, Start(m), input.Bits(), total).Pixels?
      modifies this, prefix, suffix, stack, raw, input, input.st, input.sub
      ensures pixelCount <= raw.Length
      ensures Pixels(raw[..pixelCount]) == old(Decode(m, Start(m), input.Bits(), total))
      ensures raw[pixelCount..] == old(raw[..])[pixelCount..]
    {
      hide Linked, WellFormed, Decode, Before;
      ghost var target := Decode(m, Start(m), input.Bits(), total);
      BeforeNothing(target);
      assert raw[..0] == [] && raw[0..] == old(raw[..])[0..];
      while pixelCount < total
        invariant Valid() && Result() == target
        invariant raw[pixelCount..] == old(raw[..])[pixelCount..]
        decreases |input.Bits()|
      {
        ghost var before := raw[..];
        var more := Step();
        assert raw[pixelCount..] == before[pixelCount..] == old(raw[..])[pixelCount..];
        if !more {
          return;
        }
      }
      FullStep(m, dict, input.Bits(), raw[..pixelCount]);
    }

    method Reset()
      requires Tables()
      modifies `codeSize, `codeMask, `nextCode, `oldCode, `dict
      ensures Tables() && dict == Start(m)
    {
      WidthAtStart(m);
      codeSize := m + 1;
      codeMask := Pow2(codeSize) - 1;
      nextCode := Eoi(m) + 1;
      oldCode := -1;
      dict := Start(m);
      assert dict.table == old(dict.table)[..Eoi(m) + 1];
    }
  }

  lemma BeforeNothing(r: Outcome)
    ensures Before([], r) == r
  {
    if r.Pixels? {
      assert [] + r.out == r.out;
    }
  }

  lemma FullStep(m: MinCode, d: Dict, bits: seq<bool>, out: Str)
    ensures Before(out, Decode(m, d, bits, 0)) == Pixels(out)
  {
    assert out + [] == out;
  }

  // What the next code does to the result, after `out` has been put out.
  lemma CodeStep(m: MinCode, d: Dict, bits: seq<bool>, room: nat, out: Str)
    requires WellFormed(m, d) && room > 0
    ensures var w := Width(m, |d.table|);
            var target := Before(out, Decode(m, d, bits, room));
            if |bits| < w then target == Pixels(out)
            else
              var code, rest := Value(bits[..w]), bits[w..];
              && |rest| < |bits|
              && code < TABLE_SIZE
              && (if code == Clear(m) then target == Before(out, Decode(m, Start(m), rest, room))
                  else if code == Eoi(m) then target == Pixels(out)
                  else target.Pixels? ==>
                    && Expected(d, code)
                    && var s := Spell(d, code);
                       var n := if |s| <= room then |s| else room;
                       target == Before(out + s[..n], Decode(m, Learn(d, s), rest, room - n)))
  {
    var w := Width(m, |d.table|);
    assert out + [] == out;
    if |bits| >= w {
      var code, rest := Value(bits[..w]), bits[w..];
      ValueBound(bits[..w]);
      Pow2Monotone(w, 12);
      Pow2Constants();
      if code != Clear(m) && code != Eoi(m) && Expected(d, code) {
        StringStep(m, d, code, rest, room, out);
      }
    }
  }

  lemma StringStep(m: MinCode, d: Dict, code: nat, rest: seq<bool>, room: nat, out: Str)
    requires Expected(d, code)
    ensures var s := Spell(d, code);
            var n := if |s| <= room then |s| else room;
            Before(out + s[..n], Decode(m, Learn(d, s), rest, room - n)) ==
            Before(out, if |s| < room then Before(s, Decode(m, Learn(d, s), rest, room - |s|)) else Pixels(s[..room]))
  {
    var s := Spell(d, code);
    if |s| < room {
      BeforeTwice(out, s, Decode(m, Learn(d, s), rest, room - |s|));
      assert s[..|s|] == s;
    } else {
      assert out + s[..room] + [] == out + s[..room];
    }
  }

  lemma BeforeTwice(a: Str, b: Str, r: Outcome)
    ensures Before(a, Before(b, r)) == Before(a + b, r)
  {
    if r.Pixels? {
      assert a + (b + r.out) == a + b + r.out;
    }
  }

  lemma UnwindStep(a: Str, x: byte, st: Str)
    ensures (a + [x]) + Reversed(st) == a + Reversed(st + [x])
  {
    ReversedPush(st, x);
  }
}
