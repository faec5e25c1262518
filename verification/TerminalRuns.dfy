/** What keys do to the input line, and what commands leave on the screen. */
module TerminalRuns {
  import opened Bits
  import opened Utf8
  import opened Sequences
  import opened Scrollback
  import opened LineEditor

  // The bytes of an ASCII text.
  function Ascii(s: string): Text
  {
    seq(|s|, i requires 0 <= i < |s| => Code(s[i]))
  }

  function Code(c: char): byte { if c < 128 as char then c as int else 0 }

  lemma TheTexts()
    ensures PROMPT == Ascii("btron:/> ") && CARET_C == Ascii("^C") && TAB_TEXT == Ascii("    ")
    ensures CLEAR == Ascii("clear") && CLS == Ascii("cls")
  {
  }

  // ----- typing

  function Typing(t: Text): seq<Key>
  {
    if t == [] then [] else [Printable(t[0])] + Typing(t[1..])
  }

  // Typed characters reach the line in order, as long as it has room.
  lemma {:induction false} TypedText(e: Editor, t: Text)
    requires |e.text| + |t| <= 245
    ensures Run(e, Typing(t)) == Editor(e.text + t, e.history, e.index)
    decreases |t|
  {
    if t == [] {
      assert e.text + t == e.text;
    } else {
      TypedOne(e, t[0]);
      RunKey(e, Printable(t[0]), Typing(t[1..]));
      hide Press, Run;
      TypedText(Press(e, Printable(t[0])), t[1..]);
      Regroup(e.text, [t[0]], t[1..]);
      assert [t[0]] + t[1..] == t;
    }
  }

  lemma RunKey(e: Editor, key: Key, keys: seq<Key>)
    ensures Run(e, [key] + keys) == Run(Press(e, key), keys)
  {
    hide Press;
    assert ([key] + keys)[1..] == keys;
  }

  lemma TypedOne(e: Editor, ch: byte)
    ensures Press(e, Printable(ch)) == Editor(if |e.text| < 245 then e.text + [ch] else e.text, e.history, e.index)
  {
  }

  // What does not fit is dropped: the line is the first 245 bytes.
  lemma {:induction false} TypedTooMuch(e: Editor, t: Text)
    requires |e.text| <= 245 < |e.text| + |t|
    ensures Run(e, Typing(t)) == Editor(e.text + t[..245 - |e.text|], e.history, e.index)
    decreases |t|
  {
    var n := 245 - |e.text|;
    var kept, rest := t[..n], t[n..];
    assert t == kept + rest;
    TypingInTwo(kept, rest);
    RunAppend(e, Typing(kept), Typing(rest));
    TypedText(e, kept);
    FullLineStays(Editor(e.text + kept, e.history, e.index), rest);
  }

  lemma {:induction false} TypingInTwo(s: Text, t: Text)
    ensures Typing(s + t) == Typing(s) + Typing(t)
  {
    if s == [] {
      assert s + t == t;
    } else {
      assert (s + t)[1..] == s[1..] + t;
      TypingInTwo(s[1..], t);
    }
  }

  lemma {:induction false} FullLineStays(e: Editor, t: Text)
    requires |e.text| >= 245
    ensures Run(e, Typing(t)) == e
  {
    if t != [] {
      TypedOne(e, t[0]);
      RunKey(e, Printable(t[0]), Typing(t[1..]));
      hide Press, Run;
      FullLineStays(e, t[1..]);
    }
  }

  // The other keys that edit: commits and tabs go in whole or not at all, and two keys empty the
  // line.  None of them touches the history.
  lemma EditingKeys(e: Editor, s: Text)
    ensures Press(e, Commit(s)) == Editor(if |e.text| + |s| < 245 then e.text + s else e.text, e.history, e.index)
    ensures Press(e, Tab) == Editor(if |e.text| < 241 then e.text + Ascii("    ") else e.text, e.history, e.index)
    ensures Press(e, EraseLine) == Editor([], e.history, e.index)
    ensures Press(e, Interrupt) == Editor([], e.history, e.index)
    ensures Press(e, ClearScreen) == e && Press(e, Ignored) == e
  {
    TheTexts();
  }

  // Commits one after another go in like one text.
  lemma {:induction false} CommittedTexts(e: Editor, ss: seq<Text>)
    requires |e.text| + |Joined(ss)| < 245
    ensures Run(e, Committing(ss)) == Editor(e.text + Joined(ss), e.history, e.index)
    decreases |ss|
  {
    if ss == [] {
      assert e.text + [] == e.text;
    } else {
      var s, more := ss[0], Joined(ss[1..]);
      assert |Joined(ss)| == |s| + |more|;
      EditingKeys(e, s);
      RunKey(e, Commit(s), Committing(ss[1..]));
      hide Press, Run;
      CommittedTexts(Press(e, Commit(s)), ss[1..]);
      Regroup(e.text, s, more);
    }
  }

  function Committing(ss: seq<Text>): seq<Key>
  {
    if ss == [] then [] else [Commit(ss[0])] + Committing(ss[1..])
  }

  // Whole characters typed and then taken back one by one leave the line as it was.
  lemma {:induction false} TakenBack(e: Editor, cs: seq<Text>)
    requires Characters(cs)
    ensures Run(Editor(e.text + Encoded(cs), e.history, e.index), Times(Backspace, |cs|)) == e
    decreases |cs|
  {
    if cs == [] {
      assert e.text + Encoded(cs) == e.text;
    } else {
      var init, last := cs[..|cs| - 1], cs[|cs| - 1];
      var f := Editor(e.text + Encoded(cs), e.history, e.index);
      Regroup(e.text, Encoded(init), last);
      BackspacedAppend(e.text + Encoded(init), last);
      assert Times(Backspace, |cs|)[1..] == Times(Backspace, |init|);
      TakenBack(e, init);
    }
  }

  // ----- commands

  // Enter puts a command behind the others, dropping the oldest of 32, and leaves a fresh prompt;
  // an empty line is not remembered.
  lemma EnterRemembers(e: Editor)
    requires |e.text| <= 245 && |e.history| <= 32
    ensures var h := e.history;
            var h' := if e.text == [] then h else (if |h| < 32 then h else h[1..]) + [e.text];
            Press(e, Enter) == Editor([], h', |h'|)
  {
    RecordedIs(e.history, e.text);
    assert e.text[..|e.text|] == e.text;
  }

  // A command typed at a fresh prompt is the newest in the history after Enter.
  lemma TypedCommand(e: Editor, t: Text)
    requires e.text == [] && 0 < |t| <= 245 && |e.history| <= 32
    ensures var f := Run(e, Typing(t) + [Enter]);
            f.text == [] && f.history == (if |e.history| < 32 then e.history else e.history[1..]) + [t]
            && f.index == |f.history|
  {
    RunAppend(e, Typing(t), [Enter]);
    TypedText(e, t);
    assert e.text + t == t;
    var g := Editor(t, e.history, e.index);
    assert [Enter][1..] == [];
    assert Run(g, [Enter]) == Press(g, Enter);
    EnterRemembers(g);
  }

  // ----- the screen

  lemma OneLine(t: Text)
    requires 0 < |t| <= 256 && NEWLINE !in t
    ensures Segments(t) == [t]
  {
    var n := SegmentLength(t, MAX_COLS);
    assert n == |t|;
    assert t[..n] == t && Past(t, n) == [];
  }

  lemma OneAppend(shown: seq<Line>, t: Text, colour: nat)
    requires 0 < |t| <= 256 && NEWLINE !in t && |shown| <= 300
    ensures AfterAppends(shown, [Line(t, colour)]) == Last(shown + [Line(t, colour)], 300)
  {
    hide Segments, Last;
    OneLine(t);
    assert [Line(t, colour)][1..] == [];
    assert Coloured([t], colour) == [Line(t, colour)];
  }

  // Ctrl-C leaves the prompt, the line and ^C in red as the newest line.
  lemma InterruptIsShown(shown: seq<Line>, e: Editor, output: seq<Line>)
    requires |e.text| <= 245 && NEWLINE !in e.text && |shown| <= 300
    ensures var after := ScreenAfter(shown, e, Interrupt, output);
            && after == Last(shown + [Line(Ascii("btron:/> ") + e.text + Ascii("^C"), 0xFFFF_0000)], 300)
            && after != [] && after[|after| - 1] == Line(Ascii("btron:/> ") + e.text + Ascii("^C"), 0xFFFF_0000)
  {
    TheTexts();
    var t := PROMPT + e.text + CARET_C;
    assert NEWLINE !in PROMPT && NEWLINE !in CARET_C;
    OneAppend(shown, t, RED);
  }

  // Enter leaves the prompt and the line in white, and behind it the lines of what the command
  // prints; two commands leave an empty screen.
  lemma CommandIsShown(shown: seq<Line>, e: Editor, output: seq<Line>)
    requires |e.text| <= 245 && NEWLINE !in e.text && |shown| <= 300
    ensures ScreenAfter(shown, e, Enter, output) ==
            if e.text == Ascii("clear") || e.text == Ascii("cls") then []
            else Last(shown + ([Line(Ascii("btron:/> ") + e.text, 0xFFFF_FFFF)] + Produced(output)), 300)
  {
    hide Last, Segments;
    TheTexts();
    var t := PROMPT + e.text;
    assert NEWLINE !in PROMPT;
    ScrollbackOverRun(shown, [Line(t, WHITE)] + output);
    OneLine(t);
    assert ([Line(t, WHITE)] + output)[1..] == output;
    assert Coloured([t], WHITE) == [Line(t, WHITE)];
  }

  // The other keys leave the screen alone, but for the one that clears it.
  lemma OtherKeysOnScreen(shown: seq<Line>, e: Editor, key: Key, output: seq<Line>)
    requires !key.Enter? && !key.Interrupt?
    ensures ScreenAfter(shown, e, key, output) == if key.ClearScreen? then [] else shown
  {
  }
}
