/** The T-Kernel ring queue: intrusive next and prev links, seen as one sequence per ring. */
module Queues {

  // The element at index i going round: index |s| is the first again.
  function At(s: seq<Queue>, i: nat): Queue
    requires i <= |s| && s != []
  {
    if i == |s| then s[0] else s[i]
  }

  // s is a whole ring in order: different objects, and the links mutually inverse.
  ghost predicate IsRing(s: seq<Queue>)
    reads s
  {
    && s != []
    && (forall i, j :: 0 <= i < j < |s| ==> s[i] != s[j])
    && (forall i :: 0 <= i < |s| - 1 ==> s[i].next == s[i + 1])
    && (forall i :: 0 < i < |s| ==> s[i].prev == s[i - 1])
    && s[|s| - 1].next == s[0]
    && s[0].prev == s[|s| - 1]
  }

  function Rotated(s: seq<Queue>, k: nat): (r: seq<Queue>)
    requires k <= |s|
    ensures |r| == |s|
  {
    s[k..] + s[..k]
  }

  // A ring has no first element of its own.
  lemma Rotate(s: seq<Queue>, k: nat)
    requires IsRing(s) && k <= |s|
    ensures IsRing(Rotated(s, k))
  {
    var r := Rotated(s, k);
    forall i | 0 <= i < |r|
      ensures r[i] == if i < |s| - k then s[i + k] else s[i + k - |s|]
    {
    }
  }

  lemma RotatedBack(s: seq<Queue>, k: nat, e: Queue)
    requires k <= |s|
    ensures Rotated(Rotated(s, k) + [e], |s| - k) == s[..k] + [e] + s[k..]
  {
  }

  class Queue {
    var next: Queue
    var prev: Queue
    // The field at the offset a search compares.
    var key: int

    constructor (key: int)
      ensures IsRing([this]) && this.key == key
    {
      next, prev := this, this;
      this.key := key;
    }

    method Init()
      modifies `next, `prev
      ensures IsRing([this])
    {
      next := this;
      prev := this;
    }

    method IsEmpty(ghost s: seq<Queue>) returns (b: bool)
      requires IsRing(s) && s[0] == this
      ensures b == (|s| == 1)
    {
      b := next == this;
      assert |s| > 1 ==> s[0].next == s[1];
    }

    // Inserts this entry directly before que: round the ring from que it comes last.
    method InsertBefore(que: Queue, ghost s: seq<Queue>)
      requires IsRing(s) && que == s[0] && this !in s
      modifies `next, `prev, que`prev, que.prev`next
      ensures IsRing(s + [this])
    {
      prev := que.prev;
      next := que;
      que.prev.next := this;
      que.prev := this;
    }

    // Joins the entries this one points at, whoever they are.  Where both are in one ring, whatever
    // lay from the one up to the other is out: this entry itself, if it was a member.
    method Remove(ghost s: seq<Queue>, ghost j: nat)
      modifies prev`next, next`prev
      ensures next == old(next) && prev == old(prev)
      ensures old(next) == this ==> prev.next == old(prev.next) && next.prev == old(next.prev)
      ensures old(next) != this ==> prev.next == next && next.prev == prev
      ensures old(next != this && IsRing(s) && 0 < j <= |s| && prev == s[0] && next == At(s, j)) ==>
        IsRing([s[0]] + s[j..])
    {
      if next != this {
        prev.next := next;
        next.prev := prev;
      }
    }

    // Takes out the entry after this one and returns it, or null when there is none.
    method RemoveNext(ghost s: seq<Queue>) returns (entry: Queue?)
      requires IsRing(s) && s[0] == this
      modifies `next, next.next`prev
      ensures |s| == 1 ==> entry == null && unchanged(this)
      ensures |s| > 1 ==> entry == s[1] && IsRing([this] + s[2..])
    {
      assert |s| > 1 ==> s[0].next == s[1];
      if next == this {
        return null;
      }
      entry := next;
      assert entry.next == At(s, 2);
      next := entry.next;
      entry.next.prev := this;
    }
  }

  function Deleted(s: seq<Queue>, k: nat): seq<Queue>
    requires k < |s|
  {
    s[..k] + s[k + 1..]
  }

  lemma DeletedRoundTheRing(s: seq<Queue>, k: nat)
    requires 0 < k < |s|
    ensures var r := Rotated(s, k - 1);
            r[1] == s[k] && Rotated([r[0]] + r[2..], |s| - k) == Deleted(s, k)
  {
  }

  // Deletes the member at k, and once more right after: the second call changes nothing.
  method RemoveTwice(entry: Queue, ghost s: seq<Queue>, ghost k: nat)
    requires IsRing(s) && 0 < k < |s| && entry == s[k]
    modifies s
    ensures IsRing(Deleted(s, k))
    ensures entry.next == old(entry.next) && entry.prev == old(entry.prev)
  {
    ghost var r := Rotated(s, k - 1);
    Rotate(s, k - 1);
    DeletedRoundTheRing(s, k);
    assert entry == r[1] && entry.prev == r[0] && entry.next == At(r, 2);
    entry.Remove(r, 2);
    ghost var t := [r[0]] + r[2..];
    assert entry.prev == t[0] && entry.next == At(t, 1);
    entry.Remove(t, 1);
    assert [t[0]] + t[1..] == t;
    Rotate(t, |s| - k);
  }

  // Removing an entry that is no member (any more) leaves a ring alone exactly when each of the two
  // entries it still points at is either no member too or still joined to the other one.
  method LateRemove(entry: Queue, ghost s: seq<Queue>)
    requires IsRing(s) && entry !in s && entry.next != entry
    modifies entry.prev`next, entry.next`prev
    ensures IsRing(s) <==>
      old((entry.prev in s ==> entry.prev.next == entry.next) && (entry.next in s ==> entry.next.prev == entry.prev))
  {
    entry.Remove(s, 0);
    if entry.prev in s && old(entry.prev.next) != entry.next {
      var p :| 0 <= p < |s| && s[p] == entry.prev;
      assert old(s[p].next) == At(s, p + 1);
    }
    if entry.next in s && old(entry.next.prev) != entry.prev {
      var q :| 0 <= q < |s| && s[q] == entry.next;
      assert old(s[q].prev) == if q == 0 then s[|s| - 1] else s[q - 1];
    }
  }

  // h, a, b, c: with b out and then a out, removing b again breaks the ring of h and c.
  method LateRemoveBreaks(h: Queue, a: Queue, b: Queue, c: Queue)
    requires IsRing([h, a, b, c])
    modifies h, a, b, c
    ensures !IsRing([h, c]) && h.next == c && c.next == h && c.prev == a
  {
    RingOfFour(h, a, b, c);
    b.Remove([], 0);
    a.Remove([], 0);
    RingOfTwo(h, c);
    b.Remove([], 0);
    assert [h, c][1].prev == a;
  }

  // With b, a and c out, removing b again does no harm although its old neighbours have parted.
  method LateRemoveSpares(h: Queue, a: Queue, b: Queue, c: Queue)
    requires IsRing([h, a, b, c])
    modifies h, a, b, c
    ensures IsRing([h])
  {
    RingOfFour(h, a, b, c);
    b.Remove([], 0);
    a.Remove([], 0);
    c.Remove([], 0);
    assert b.prev == a && b.next == c && c.prev == h;
    b.Remove([], 0);
  }

  lemma RingOfFour(h: Queue, a: Queue, b: Queue, c: Queue)
    requires IsRing([h, a, b, c])
    ensures h.next == a && a.next == b && b.next == c && c.next == h
    ensures h.prev == c && a.prev == h && b.prev == a && c.prev == b
    ensures h != a && h != b && h != c && a != b && a != c && b != c
  {
    var s := [h, a, b, c];
    assert s[0] == h && s[1] == a && s[2] == b && s[3] == c;
  }

  lemma RingOfTwo(h: Queue, c: Queue)
    requires h != c && h.next == c && h.prev == c && c.next == h && c.prev == h
    ensures IsRing([h, c])
  {
  }

  // The ring a removal leaves when both old neighbours are in it is the whole ring exactly if the
  // first has the second next.
  lemma NothingIsCut(s: seq<Queue>, j: nat)
    requires IsRing(s) && 0 < j <= |s|
    ensures [s[0]] + s[j..] == s <==> s[0].next == At(s, j)
  {
    assert s[0].next == At(s, 1);
    if j > 1 {
      assert |[s[0]] + s[j..]| < |s|;
    } else {
      assert [s[0]] + s[1..] == s;
    }
  }

  // Whatever goes in at the head comes out in the same order.
  method FirstInFirstOut(head: Queue, es: seq<Queue>) returns (out: seq<Queue>)
    requires IsRing([head]) && head !in es
    requires forall i, j :: 0 <= i < j < |es| ==> es[i] != es[j]
    modifies head, es
    ensures out == es && IsRing([head])
  {
    assert [head] + es[..0] == [head];
    for i := 0 to |es|
      invariant IsRing([head] + es[..i])
    {
      ghost var s := [head] + es[..i];
      es[i].InsertBefore(head, s);
      assert s + [es[i]] == [head] + es[..i + 1];
    }
    assert es[..|es|] == es;
    out := Drain(head, es);
  }

  method Drain(head: Queue, ghost es: seq<Queue>) returns (out: seq<Queue>)
    requires IsRing([head] + es)
    modifies head, es
    ensures out == es && IsRing([head])
    decreases |es|
  {
    ghost var s := [head] + es;
    assert es != [] ==> s[0].next == s[1] && s[1].next == At(s, 2);
    var e := head.RemoveNext(s);
    if e == null {
      return [];
    }
    assert [head] + s[2..] == [head] + es[1..];
    out := Drain(head, es[1..]);
    out := [e] + out;
  }

  // ----- searches

  // The first index from i on whose key meets the condition, or stop.
  ghost function First(s: seq<Queue>, meets: int -> bool, i: nat, stop: nat): (k: nat)
    requires i <= stop <= |s|
    reads s
    ensures i <= k <= stop
    ensures k < stop ==> meets(s[k].key)
    ensures forall t :: i <= t < k ==> !meets(s[t].key)
    decreases stop - i
  {
    if i == stop || meets(s[i].key) then i else First(s, meets, i + 1, stop)
  }

  // The last index after 0 and below n whose key meets the condition, or 0.
  ghost function LastBelow(s: seq<Queue>, meets: int -> bool, n: nat): (k: nat)
    requires 0 < n <= |s|
    reads s
    ensures k < n
    ensures k > 0 ==> meets(s[k].key)
    ensures forall t :: k < t < n ==> !meets(s[t].key)
  {
    if n == 1 || meets(s[n - 1].key) then n - 1 else LastBelow(s, meets, n - 1)
  }

  // From start's successor on: the first entry before end whose key meets the condition, or end.
  method Search(start: Queue, end: Queue, meets: int -> bool, ghost s: seq<Queue>, ghost stop: nat)
    returns (que: Queue)
    requires IsRing(s) && s[0] == start && 0 < stop <= |s| && At(s, stop) == end
    ensures que == At(s, First(s, meets, 1, stop))
  {
    que := start.next;
    ghost var i := 1;
    assert que == At(s, 1);
    while que != end
      invariant 1 <= i <= stop && que == At(s, i)
      invariant First(s, meets, i, stop) == First(s, meets, 1, stop)
      decreases stop - i
    {
      assert i < stop;
      if meets(que.key) {
        return;
      }
      que, i := que.next, i + 1;
      assert que == At(s, i);
    }
    OnlyAtStop(s, i, stop);
  }

  lemma OnlyAtStop(s: seq<Queue>, i: nat, stop: nat)
    requires IsRing(s) && 1 <= i <= stop <= |s| && At(s, i) == At(s, stop)
    ensures i == stop
  {
  }

  // From start's predecessor back: the last entry after end that meets the condition, or end.
  method SearchRev(start: Queue, end: Queue, meets: int -> bool, ghost s: seq<Queue>, ghost from: nat)
    returns (que: Queue)
    requires IsRing(s) && s[0] == end && 0 < from <= |s| && At(s, from) == start
    ensures que == s[LastBelow(s, meets, from)]
  {
    que := start.prev;
    ghost var i := from - 1;
    assert que == s[i];
    while que != end
      invariant 0 <= i < from && que == s[i]
      invariant LastBelow(s, meets, i + 1) == LastBelow(s, meets, from)
      decreases i
    {
      if meets(que.key) {
        return;
      }
      assert i > 0;
      que, i := que.prev, i - 1;
    }
  }

  // ----- ordered insertion

  ghost predicate Ascending(s: seq<Queue>)
    reads s
  {
    forall i, j :: 1 <= i < j < |s| ==> s[i].key <= s[j].key
  }

  // queue_insert_tpri: before the first entry with a greater key, so behind its equals.
  method InsertByPriority(entry: Queue, head: Queue, ghost s: seq<Queue>) returns (ghost i: nat)
    requires IsRing(s) && s[0] == head && entry !in s
    modifies entry`next, entry`prev, s`next, s`prev
    ensures 1 <= i <= |s| && IsRing(s[..i] + [entry] + s[i..])
    ensures forall t :: 1 <= t < i ==> s[t].key <= entry.key
    ensures i < |s| ==> entry.key < s[i].key
    ensures Ascending(s) ==> Ascending(s[..i] + [entry] + s[i..])
    ensures Ascending(s) ==> forall t :: i <= t < |s| ==> entry.key < s[t].key
  {
    assert s != [];
    hide IsRing, First, Ascending;
    var value := entry.key;
    i := First(s, key => key > value, 1, |s|);
    var que := Search(head, head, key => key > value, s, |s|);
    ghost var r := Rotated(s, i);
    Rotate(s, i);
    entry.InsertBefore(que, r);
    Rotate(r + [entry], |s| - i);
    RotatedBack(s, i, entry);
    InsertedAscending(s, i, entry);
  }

  lemma InsertedAscending(s: seq<Queue>, i: nat, entry: Queue)
    requires 1 <= i <= |s|
    requires forall t :: 1 <= t < i ==> s[t].key <= entry.key
    requires i < |s| ==> entry.key < s[i].key
    ensures Ascending(s) ==> Ascending(s[..i] + [entry] + s[i..])
    ensures Ascending(s) ==> forall t :: i <= t < |s| ==> entry.key < s[t].key
  {
    if Ascending(s) {
      forall t | i <= t < |s|
        ensures entry.key < s[t].key
      {
        assert t > i ==> s[i].key <= s[t].key;
      }
      var r := s[..i] + [entry] + s[i..];
      assert forall t :: 1 <= t < |r| ==> r[t] == if t < i then s[t] else if t == i then entry else s[t - 1];
    }
  }
}
