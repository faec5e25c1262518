/** Codes of varying width taken from the sub-blocks of a stream, least significant bit first. */
module BitReaders {
  import opened Bits
  import opened IconStreams
  import opened Sequences

  lemma FillBits(buf: nat, n: nat, b: byte)
    requires buf < Pow2(n) && n + 8 <= 32
    ensures var next := BitOr(buf, Shl32(b, n));
            next < Pow2(n + 8) && Cut(next, n + 8) == Cut(buf, n) + Cut(b, 8)
  {
    hide BitOr, Shl32, Cut, Value, Pow2;
    Pow2Constants();
    ValueOfCut(buf, n);
    ValueOfCut(b, 8);
    var bits := Cut(buf, n) + Cut(b, 8);
    OrAppends(Cut(buf, n), Cut(b, 8));
    CutOfValue(bits);
    ValueBound(bits);
  }

  lemma FillStep(buf: nat, n: nat, ahead: seq<byte>)
    requires buf < Pow2(n) && n + 8 <= 32 && ahead != []
    ensures var next := BitOr(buf, Shl32(ahead[0], n));
            && next < Pow2(n + 8)
            && Cut(next, n + 8) + BitsOf(ahead[1..]) == Cut(buf, n) + BitsOf(ahead)
  {
    assert BitsOf(ahead) == Cut(ahead[0], 8) + BitsOf(ahead[1..]);
    hide BitOr, Shl32, Cut, Value, Pow2, BitsOf;
    FillBits(buf, n, ahead[0]);
    Regroup(Cut(buf, n), Cut(ahead[0], 8), BitsOf(ahead[1..]));
  }

  lemma TakeStep(buf: nat, n: nat, w: nat, more: seq<bool>)
    requires buf < Pow2(n) && w <= n
    ensures BitAnd(buf, Pow2(w) - 1) == Value((Cut(buf, n) + more)[..w])
    ensures Cut(Shr(buf, w), n - w) + more == (Cut(buf, n) + more)[w..]
    ensures Shr(buf, w) < Pow2(n - w)
  {
    ValueOfCut(buf, n);
    var bits := Cut(buf, n);
    MaskKeeps(bits, w);
    ShrDrops(bits, w);
    CutOfValue(bits[w..]);
    ValueBound(bits[w..]);
    assert (bits + more)[..w] == bits[..w];
  }

  lemma PayloadOpens(s: seq<byte>)
    ensures Payload(s) == if s == [] || s[0] == 0 || |s[1..]| < s[0] then []
                          else s[1..][..s[0]] + Payload(s[1..][s[0]..])
    ensures s != [] && s[0] != 0 && |s[1..]| >= s[0] ==> Payload(s) != []
  {
  }

  class BitReader {
    const st: IconStream
    const sub: array<byte>
    var subLen: int
    var subPos: nat
    var bitBuf: nat
    var bitCount: nat

    ghost predicate Ready()
      reads `subLen, st
    {
      st.Valid() && sub.Length == 256 && 0 <= subLen <= 255
    }

    ghost predicate Valid()
      reads `subLen, `bitBuf, `bitCount, st
    {
      Ready() && bitBuf < Pow2(bitCount) && bitCount < 20
    }

    // The data bytes not yet shifted in.
    ghost function Ahead(): seq<byte>
      requires Ready()
      reads `subLen, `subPos, st, sub
    {
      (if subPos < subLen then sub[subPos..subLen] else []) + Payload(st.Rest())
    }

    // All the bits not yet taken.
    ghost function Bits(): seq<bool>
      requires Valid()
      reads this, st, sub
    {
      Cut(bitBuf, bitCount) + BitsOf(Ahead())
    }

    constructor (st: IconStream)
      requires st.Valid()
      ensures Valid() && fresh(sub) && this.st == st
      ensures Bits() == BitsOf(Payload(st.Rest()))
    {
      this.st := st;
      sub := new byte[256];
      subLen, subPos := 0, 0;
      bitBuf, bitCount := 0, 0;
      new;
      assert Ahead() == Payload(st.Rest());
      assert Bits() == BitsOf(Ahead());
    }

    // Makes sure the current sub-block has a byte, opening the next one if need be.
    method Refill() returns (ok: bool)
      requires Valid()
      modifies `subLen, `subPos, st, sub
      ensures ok == (old(Ahead()) != [])
      ensures ok ==> Valid() && subPos < subLen && Ahead() == old(Ahead())
    {
      hide Payload;
      if subPos >= subLen {
        ghost var rest := st.Rest();
        PayloadOpens(rest);
        assert Ahead() == Payload(rest);
        subLen := st.Getc();
        if subLen <= 0 {
          return false;
        }
        var got := st.Read(sub, subLen);
        if got != subLen {
          return false;
        }
        subPos := 0;
        assert sub[0..subLen] == rest[1..][..subLen];
      }
      ok := true;
    }

    // Shifts in bytes until w bits are there, if the data has as many.
    method Fill(w: nat) returns (ok: bool)
      requires Valid() && w <= 12
      modifies this, st, sub
      ensures ok == (|old(Bits())| >= w)
      ensures ok ==> Valid() && w <= bitCount && Bits() == old(Bits())
    {
      while bitCount < w
        invariant Valid() && Bits() == old(Bits())
        decreases w - bitCount
      {
        assert |Bits()| == bitCount + 8 * |Ahead()|;
        ok := Refill();
        if !ok {
          return;
        }
        Shift();
      }
      ok := true;
    }

    // The next w-bit code, or -1 when the data runs out.
    method NextCode(w: nat, mask: nat) returns (code: int)
      requires Valid() && w <= 12 && mask == Pow2(w) - 1
      modifies this, st, sub
      ensures |old(Bits())| < w ==> code == -1
      ensures |old(Bits())| >= w ==>
        && Valid()
        && code == Value(old(Bits())[..w])
        && Bits() == old(Bits())[w..]
    {
      var ok := Fill(w);
      if !ok {
        return -1;
      }
      code := Take(w, mask);
    }

    method Take(w: nat, mask: nat) returns (code: nat)
      requires Valid() && w <= bitCount && mask == Pow2(w) - 1
      modifies `bitBuf, `bitCount
      ensures Valid()
      ensures code == Value(old(Bits())[..w]) && Bits() == old(Bits())[w..]
    {
      TakeStep(bitBuf, bitCount, w, BitsOf(Ahead()));
      code := BitAnd(bitBuf, mask);
      bitBuf := Shr(bitBuf, w);
      bitCount := bitCount - w;
    }

    // Puts the next byte of the sub-block above the pending bits.
    method Shift()
      requires Valid() && subPos < subLen && bitCount < 12
      modifies `bitBuf, `bitCount, `subPos
      ensures Valid() && bitCount == old(bitCount) + 8
      ensures Bits() == old(Bits())
    {
      var b := sub[subPos];
      FillStep(bitBuf, bitCount, Ahead());
      bitBuf := BitOr(bitBuf, Shl32(b, bitCount));
      subPos := subPos + 1;
      bitCount := bitCount + 8;
      assert Ahead() == old(Ahead())[1..];
    }
  }
}
