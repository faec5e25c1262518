/** The in-memory byte stream an icon is read from, and the data sub-blocks of GIF89a section 15. */
module IconStreams {
  import opened Bits
  import opened Sequences

  function Drop(s: seq<byte>, n: nat): (r: seq<byte>)
    ensures |r| <= |s|
  {
    if n <= |s| then s[n..] else []
  }

  class IconStream {
    const data: seq<byte>
    var pos: nat

    predicate Valid()
      reads this
    {
      pos <= |data|
    }

    function Rest(): seq<byte>
      requires Valid()
      reads this
    {
      data[pos..]
    }

    constructor (data: seq<byte>)
      ensures Valid() && Rest() == data
      ensures this.data == data
    {
      this.data := data;
      pos := 0;
    }

    // The next byte, or -1 at the end.
    method Getc() returns (c: int)
      requires Valid()
      modifies this
      ensures Valid()
      ensures old(Rest()) == [] ==> c == -1 && Rest() == []
      ensures old(Rest()) != [] ==> c == old(Rest())[0] && Rest() == old(Rest())[1..]
    {
      if pos < |data| {
        c := data[pos];
        pos := pos + 1;
      } else {
        c := -1;
      }
    }

    // Copies up to n bytes to the front of buf and says how many there were.
    method Read(buf: array<byte>, n: nat) returns (got: nat)
      requires Valid() && n <= buf.Length
      modifies this, buf
      ensures Valid()
      ensures got == if n <= |old(Rest())| then n else |old(Rest())|
      ensures buf[..got] == old(Rest())[..got] && buf[got..] == old(buf[got..])
      ensures Rest() == old(Rest())[got..]
    {
      var rem := if pos < |data| then |data| - pos else 0;
      got := if n > rem then rem else n;
      for i := 0 to got
        invariant pos == old(pos)
        invariant forall k :: 0 <= k < i ==> buf[k] == data[pos + k]
        invariant forall k :: i <= k < buf.Length ==> buf[k] == old(buf[k])
      {
        buf[i] := data[pos + i];
      }
      pos := pos + got;
    }

    // Moves forward or back, never past either end.
    method Skip(offset: int)
      requires Valid()
      modifies this
      ensures Valid()
      ensures pos == if old(pos) + offset < 0 then 0
                     else if old(pos) + offset > |data| then |data| else old(pos) + offset
      ensures offset >= 0 ==> Rest() == Drop(old(Rest()), offset)
    {
      if offset < 0 {
        var back := -offset;
        pos := if pos > back then pos - back else 0;
      } else {
        pos := pos + offset;
        if pos > |data| {
          pos := |data|;
        }
      }
    }
  }

  // What a run of sub-blocks carries: up to a zero length, a missing byte or a short block.
  function Payload(s: seq<byte>): seq<byte>
    decreases |s|
  {
    if s == [] || s[0] == 0 || |s[1..]| < s[0] then []
    else s[1..][..s[0]] + Payload(s[1..][s[0]..])
  }

  predicate SubBlocks(blocks: seq<seq<byte>>)
  {
    forall b :: b in blocks ==> 1 <= |b| <= 255
  }

  // Length-prefixed blocks, the zero that ends them, and what comes after.
  function Framed(blocks: seq<seq<byte>>, after: seq<byte>): seq<byte>
    requires SubBlocks(blocks)
  {
    if blocks == [] then [0] + after
    else [|blocks[0]| as byte] + (blocks[0] + Framed(blocks[1..], after))
  }

  // Reading the blocks back gives their bytes, however they were cut.
  lemma {:induction false} PayloadOfFramed(blocks: seq<seq<byte>>, after: seq<byte>)
    requires SubBlocks(blocks)
    ensures Payload(Framed(blocks, after)) == Joined(blocks)
  {
    if blocks != [] {
      PayloadOfFramed(blocks[1..], after);
      PayloadOfBlock(blocks[0], Framed(blocks[1..], after));
    }
  }

  lemma PayloadOfBlock(b: seq<byte>, rest: seq<byte>)
    requires 1 <= |b| <= 255
    ensures Payload([|b| as byte] + (b + rest)) == b + Payload(rest)
  {
    var s := [|b| as byte] + (b + rest);
    assert s[1..] == b + rest;
    assert (b + rest)[..|b|] == b && (b + rest)[|b|..] == rest;
  }

  // Cutting the same bytes in two ways makes no difference to the reader.
  lemma FramingDoesNotMatter(a: seq<seq<byte>>, b: seq<seq<byte>>, after: seq<byte>, after': seq<byte>)
    requires SubBlocks(a) && SubBlocks(b) && Joined(a) == Joined(b)
    ensures Payload(Framed(a, after)) == Payload(Framed(b, after'))
  {
    PayloadOfFramed(a, after);
    PayloadOfFramed(b, after');
  }
}
