/** The terminal's scrollback: text split into lines, and the last 300 of them kept. */
module Scrollback {
  import opened Bits
  import opened Sequences

  const MAX_COLS := 256
  const MAX_LINES := 300
  const NEWLINE: byte := 10

  type Text = seq<byte>

  datatype Line = Line(text: Text, colour: nat)

  // ----- what is split off

  // Bytes up to the next newline, at most `room` of them.
  function SegmentLength(t: Text, room: nat): (n: nat)
    ensures n <= |t| && n <= room
    ensures NEWLINE !in t[..n]
    ensures n < |t| && n < room ==> t[n] == NEWLINE
    decreases room
  {
    if t == [] || room == 0 || t[0] == NEWLINE then 0
    else
      var n := SegmentLength(t[1..], room - 1);
      assert t[..n + 1] == [t[0]] + t[1..][..n];
      n + 1
  }

  function Past(t: Text, n: nat): Text
    requires n <= |t|
  {
    if n < |t| && t[n] == NEWLINE then t[n + 1..] else t[n..]
  }

  // The lines a text is split into.
  function Segments(t: Text): seq<Text>
    decreases |t|
  {
    if t == [] then []
    else
      var n := SegmentLength(t, MAX_COLS);
      [t[..n]] + Segments(Past(t, n))
  }

  function WithoutNewlines(t: Text): Text
  {
    if t == [] then [] else (if t[0] == NEWLINE then [] else [t[0]]) + WithoutNewlines(t[1..])
  }

  lemma {:induction false} WithoutNewlinesAppend(a: Text, b: Text)
    ensures WithoutNewlines(a + b) == WithoutNewlines(a) + WithoutNewlines(b)
  {
    if a == [] {
      assert a + b == b;
    } else {
      assert (a + b)[1..] == a[1..] + b;
      WithoutNewlinesAppend(a[1..], b);
    }
  }

  lemma {:induction false} PlainIsUnchanged(a: Text)
    requires NEWLINE !in a
    ensures WithoutNewlines(a) == a
  {
    if a != [] {
      PlainIsUnchanged(a[1..]);
    }
  }

  lemma PastKeepsTheRest(t: Text, n: nat)
    requires n <= |t| && NEWLINE !in t[..n]
    ensures WithoutNewlines(t) == t[..n] + WithoutNewlines(Past(t, n))
  {
    hide WithoutNewlines, Past;
    var a, b := t[..n], t[n..];
    SplitAt(t, n);
    WithoutNewlinesAppend(a, b);
    PlainIsUnchanged(a);
    if b != [] && b[0] == NEWLINE {
      NewlineDrops(b);
    }
  }

  lemma SplitAt(t: Text, n: nat)
    requires n <= |t|
    ensures t == t[..n] + t[n..]
    ensures Past(t, n) == if t[n..] != [] && t[n..][0] == NEWLINE then t[n..][1..] else t[n..]
  {
  }

  lemma NewlineDrops(t: Text)
    requires t != [] && t[0] == NEWLINE
    ensures WithoutNewlines(t) == WithoutNewlines(t[1..])
  {
  }

  // Lines hold no newline and fit the screen, and together they are the text without its newlines.
  lemma {:induction false} SegmentsAreLines(t: Text)
    ensures forall s :: s in Segments(t) ==> NEWLINE !in s && |s| <= 256
    ensures Joined(Segments(t)) == WithoutNewlines(t)
    decreases |t|
  {
    if t != [] {
      hide WithoutNewlines;
      var n := SegmentLength(t, MAX_COLS);
      var rest := Past(t, n);
      SegmentsAreLines(rest);
      PastKeepsTheRest(t, n);
      assert Segments(t)[1..] == Segments(rest);
    }
  }

  // A line is cut short of a newline only when it is full or the text ends, and the lines that
  // follow are those of what is behind it and the one newline that ends it, if any.
  lemma SegmentsEndAtNewlines(t: Text)
    requires t != []
    ensures var s := Segments(t)[0];
            && s == t[..|s|] && (|s| == 256 || |s| == |t| || t[|s|] == NEWLINE)
            && Segments(t)[1..] == Segments(if |s| < |t| && t[|s|] == NEWLINE then t[|s| + 1..] else t[|s|..])
  {
  }

  function Coloured(ts: seq<Text>, colour: nat): (r: seq<Line>)
    ensures |r| == |ts|
    ensures forall i :: 0 <= i < |ts| ==> r[i] == Line(ts[i], colour)
  {
    if ts == [] then [] else [Line(ts[0], colour)] + Coloured(ts[1..], colour)
  }

  // ----- the buffer

  class LineBuffer {
    const lines: array<Text>
    const colours: array<nat>
    var total: nat

    ghost predicate Valid()
      reads this
    {
      lines.Length == colours.Length == MAX_LINES && total <= MAX_LINES
    }

    ghost function Shown(): (s: seq<Line>)
      requires Valid()
      reads this, lines, colours
      ensures |s| == total
    {
      seq(total, i requires 0 <= i < total && Valid() reads this, lines, colours => Line(lines[i], colours[i]))
    }

    constructor ()
      ensures Valid() && Shown() == []
      ensures fresh(lines) && fresh(colours)
    {
      lines := new Text[MAX_LINES](_ => []);
      colours := new nat[MAX_LINES](_ => 0);
      total := 0;
    }

    method Clear()
      requires Valid()
      modifies this
      ensures Valid() && Shown() == []
    {
      total := 0;
    }

    // Drops the oldest line when the buffer is full.
    method MakeRoom()
      requires Valid()
      modifies this, lines, colours
      ensures Valid() && total < MAX_LINES && Shown() == Last(old(Shown()), MAX_LINES - 1)
    {
      if total >= MAX_LINES {
        for i := 0 to MAX_LINES - 1
          modifies lines, colours
          invariant forall k :: 0 <= k < i ==> lines[k] == old(lines[k + 1]) && colours[k] == old(colours[k + 1])
          invariant forall k :: i <= k < MAX_LINES ==> lines[k] == old(lines[k]) && colours[k] == old(colours[k])
        {
          lines[i] := lines[i + 1];
          colours[i] := colours[i + 1];
        }
        total := MAX_LINES - 1;
      }
    }

    method Store(text: Text, colour: nat)
      requires Valid()
      modifies this, lines, colours
      ensures Valid() && Shown() == Last(old(Shown()) + [Line(text, colour)], MAX_LINES)
    {
      MakeRoom();
      ghost var kept := Shown();
      lines[total] := text;
      colours[total] := colour;
      total := total + 1;
      assert Shown()[..total - 1] == kept;
      assert Shown() == kept + [Line(text, colour)];
      LastPush(old(Shown()), Line(text, colour));
    }

    // gterm_append_line
    method AppendLine(text: Text, colour: nat)
      requires Valid()
      modifies this, lines, colours
      ensures Valid() && Shown() == Last(old(Shown()) + Coloured(Segments(text), colour), MAX_LINES)
    {
      hide Segments, Coloured, Last;
      var p := 0;
      ghost var all := old(Shown()) + Coloured(Segments(text), colour);
      assert text[0..] == text;
      while p < |text|
        invariant Valid() && 0 <= p <= |text|
        invariant Last(Shown() + Coloured(Segments(text[p..]), colour), MAX_LINES) == Last(all, MAX_LINES)
        decreases |text| - p
      {
        var start := p;
        p := EndOfSegment(text, start);
        var segment := text[start..p];
        if p < |text| && text[p] == NEWLINE {
          p := p + 1;
        }
        PastIs(text, start, start + |segment|);
        SplitStep(Shown(), text[start..], segment, text[p..], colour);
        Store(segment, colour);
      }
      NothingLeft(Shown(), text, colour);
      LastOfShort(Shown());
    }
  }

  // The inner loop: to the next newline, the end, or the width of the screen.
  method EndOfSegment(text: Text, start: nat) returns (p: nat)
    requires start < |text|
    ensures p == start + SegmentLength(text[start..], MAX_COLS)
    ensures p <= |text| && (p == start ==> text[p] == NEWLINE)
  {
    p := start;
    while p < |text| && text[p] != NEWLINE && p - start < MAX_COLS
      invariant start <= p <= |text| && p - start <= MAX_COLS
      invariant SegmentLength(text[start..], MAX_COLS) ==
                (p - start) + SegmentLength(text[p..], MAX_COLS - (p - start))
    {
      assert text[p..][1..] == text[p + 1..];
      p := p + 1;
    }
  }

  lemma PastIs(text: Text, start: nat, p: nat)
    requires start <= p <= |text|
    ensures text[start..p] == text[start..][..p - start]
    ensures Past(text[start..], p - start) == if p < |text| && text[p] == NEWLINE then text[p + 1..] else text[p..]
  {
  }

  lemma LastPush(shown: seq<Line>, line: Line)
    ensures Last(shown, MAX_LINES - 1) + [line] == Last(shown + [line], MAX_LINES)
  {
  }

  lemma NothingLeft(shown: seq<Line>, text: Text, colour: nat)
    ensures shown + Coloured(Segments(text[|text|..]), colour) == shown
  {
  }

  lemma LastOfShort(shown: seq<Line>)
    requires |shown| <= MAX_LINES
    ensures Last(shown, MAX_LINES) == shown
  {
  }

  lemma SplitStep(shown: seq<Line>, rest: Text, segment: Text, next: Text, colour: nat)
    requires rest != []
    requires segment == rest[..SegmentLength(rest, MAX_COLS)]
    requires next == Past(rest, SegmentLength(rest, MAX_COLS))
    ensures Last(Last(shown + [Line(segment, colour)], MAX_LINES) + Coloured(Segments(next), colour), MAX_LINES)
         == Last(shown + Coloured(Segments(rest), colour), MAX_LINES)
  {
    hide Last;
    var a, b := shown + [Line(segment, colour)], Coloured(Segments(next), colour);
    LastOfLast(a, b, MAX_LINES);
    assert Segments(rest)[1..] == Segments(next);
    assert Coloured(Segments(rest), colour) == [Line(segment, colour)] + b;
    Regroup(shown, [Line(segment, colour)], b);
  }

  // ----- runs of appends

  function Produced(appends: seq<Line>): seq<Line>
  {
    if appends == [] then []
    else Coloured(Segments(appends[0].text), appends[0].colour) + Produced(appends[1..])
  }

  // What AppendLine leaves, call after call.
  function AfterAppends(shown: seq<Line>, appends: seq<Line>): seq<Line>
    decreases |appends|
  {
    if appends == [] then shown
    else AfterAppends(Last(shown + Coloured(Segments(appends[0].text), appends[0].colour), MAX_LINES), appends[1..])
  }

  // After any number of appends the buffer holds the last 300 lines of all that was produced.
  lemma {:induction false} ScrollbackOverRun(shown: seq<Line>, appends: seq<Line>)
    requires |shown| <= MAX_LINES
    ensures AfterAppends(shown, appends) == Last(shown + Produced(appends), MAX_LINES)
    decreases |appends|
  {
    hide Last, Segments, Coloured;
    if appends == [] {
      assert shown + [] == shown;
      LastOfShort(shown);
    } else {
      var a, b := Coloured(Segments(appends[0].text), appends[0].colour), Produced(appends[1..]);
      LastIsShort(shown + a);
      ScrollbackOverRun(Last(shown + a, MAX_LINES), appends[1..]);
      LastOfLast(shown + a, b, MAX_LINES);
      Regroup(shown, a, b);
    }
  }

  lemma LastIsShort(s: seq<Line>)
    ensures |Last(s, MAX_LINES)| <= MAX_LINES
  {
  }
}
