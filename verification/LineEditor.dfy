/** The terminal's input line and command history, key by key. */
module LineEditor {
  import opened Bits
  import opened Utf8
  import opened Sequences
  import Scrollback

  const BUFFER := 257
  const LIMIT := 245   // GTERM_MAX_COLS less the nine bytes of the prompt and 2
  const MAX_HISTORY := 32

  const PROMPT: Text := [98, 116, 114, 111, 110, 58, 47, 62, 32]
  const WHITE := 0xFFFFFFFF
  const RED := 0xFFFF0000
  const CARET_C: Text := [94, 67]
  const TAB_TEXT: Text := [32, 32, 32, 32]
  const CLEAR: Text := [99, 108, 101, 97, 114]
  const CLS: Text := [99, 108, 115]

  // ----- keys and what they do

  datatype Key =
    | Interrupt               // Ctrl-C
    | EraseLine               // Ctrl-U
    | ClearScreen             // Ctrl-L
    | Commit(text: Text)      // the input method takes the key, and may commit a text
    | Enter
    | Backspace
    | Up
    | Down
    | Tab
    | Printable(ch: byte)     // after the shift and caps lock translation
    | Ignored

  datatype Editor = Editor(text: Text, history: seq<Text>, index: int)

  function Recorded(history: seq<Text>, command: Text): seq<Text>
  {
    if command == [] then history else Last(history + [command[..if |command| <= 255 then |command| else 255]], MAX_HISTORY)
  }

  function Press(e: Editor, key: Key): Editor
  {
    match key
    case Interrupt => e.(text := [])
    case EraseLine => e.(text := [])
    case ClearScreen => e
    case Commit(s) => if |e.text| + |s| < LIMIT then e.(text := e.text + s) else e
    case Enter =>
      var history := Recorded(e.history, e.text);
      Editor([], history, |history|)
    case Backspace => e.(text := Backspaced(e.text))
    case Up =>
      if |e.history| > 0 && 0 < e.index <= |e.history|
      then Editor(e.history[e.index - 1], e.history, e.index - 1) else e
    case Down =>
      if 0 <= e.index + 1 < |e.history|
      then Editor(e.history[e.index + 1], e.history, e.index + 1) else Editor([], e.history, |e.history|)
    case Tab => if |e.text| + 4 < LIMIT then e.(text := e.text + TAB_TEXT) else e
    case Printable(ch) => if |e.text| < LIMIT then e.(text := e.text + [ch]) else e
    case Ignored => e
  }

  function Run(e: Editor, keys: seq<Key>): Editor
    decreases |keys|
  {
    if keys == [] then e else Run(Press(e, keys[0]), keys[1..])
  }

  const FRESH := Editor([], [], 0)

  // ----- the invariant

  // Keys as they reach the editor: commits are whole characters, and keys are printable ASCII.
  ghost predicate GoodKey(key: Key)
  {
    (key.Commit? ==> Utf8.Valid(key.text)) && (key.Printable? ==> 32 <= key.ch <= 126)
  }

  ghost predicate GoodText(t: Text)
  {
    |t| <= LIMIT && Utf8.Valid(t)
  }

  ghost predicate Good(e: Editor)
  {
    && GoodText(e.text)
    && |e.history| <= MAX_HISTORY
    && (forall h :: h in e.history ==> GoodText(h) && h != [])
    && 0 <= e.index <= |e.history|
  }

  lemma PressKeepsGood(e: Editor, key: Key)
    requires Good(e) && GoodKey(key)
    ensures Good(Press(e, key))
  {
    EmptyIsValid();
    match key
    case Commit(s) => ValidAppend(e.text, s);
    case Backspace => BackspaceKeepsValid(e.text);
    case Tab =>
      AsciiIsValid(TAB_TEXT);
      ValidAppend(e.text, TAB_TEXT);
    case Printable(ch) =>
      AsciiIsValid([ch]);
      ValidAppend(e.text, [ch]);
    case Enter =>
      assert e.text[..|e.text|] == e.text;
    case _ =>
  }

  // Whatever keys are pressed, the line stays within 245 bytes of well-formed UTF-8, and so does
  // every remembered command, none of which is empty.
  lemma {:induction false} RunKeepsGood(e: Editor, keys: seq<Key>)
    requires Good(e) && forall k :: k in keys ==> GoodKey(k)
    ensures Good(Run(e, keys))
    decreases |keys|
  {
    hide Good, Press;
    if keys != [] {
      assert keys[0] in keys;
      PressKeepsGood(e, keys[0]);
      RunKeepsGood(Press(e, keys[0]), keys[1..]);
    }
  }

  // A command is remembered whole, as the newest, and the next Up brings it back.
  lemma EnteredIsRecalled(e: Editor)
    requires Good(e) && e.text != []
    ensures var f := Press(e, Enter);
            && f.history != [] && f.history[|f.history| - 1] == e.text
            && Press(f, Up).text == e.text
  {
    assert e.text[..|e.text|] == e.text;
  }

  // ----- walking the history

  function Times(key: Key, k: nat): seq<Key>
  {
    if k == 0 then [] else [key] + Times(key, k - 1)
  }

  lemma {:induction false} UpsGoBack(e: Editor, k: nat)
    requires 0 <= e.index <= |e.history|
    ensures var i := if k <= e.index then e.index - k else 0;
            Run(e, Times(Up, k)) == if i == e.index then e else Editor(e.history[i], e.history, i)
    decreases k
  {
    if k > 0 {
      assert Times(Up, k)[1..] == Times(Up, k - 1);
      UpsGoBack(Press(e, Up), k - 1);
    }
  }

  lemma {:induction false} DownsGoForward(e: Editor, k: nat)
    requires 0 <= e.index <= |e.history| && k > 0
    ensures Run(e, Times(Down, k)) ==
            if e.index + k >= |e.history| then Editor([], e.history, |e.history|)
            else Editor(e.history[e.index + k], e.history, e.index + k)
    decreases k
  {
    assert Times(Down, k)[1..] == Times(Down, k - 1);
    if k > 1 {
      DownsGoForward(Press(e, Down), k - 1);
    }
  }

  lemma {:induction false} RunAppend(e: Editor, a: seq<Key>, b: seq<Key>)
    ensures Run(e, a + b) == Run(Run(e, a), b)
    decreases |a|
  {
    if a == [] {
      assert a + b == b;
    } else {
      assert (a + b)[1..] == a[1..] + b;
      RunAppend(Press(e, a[0]), a[1..], b);
    }
  }

  // From a fresh prompt, k Ups show the k-th newest command (or stop at the oldest) and as many
  // Downs bring back the empty prompt.
  lemma UpsAndDowns(e: Editor, k: nat)
    requires e.text == [] && e.index == |e.history|
    ensures var n := |e.history|;
            k > 0 && n > 0 ==> Run(e, Times(Up, k)).text == e.history[if k <= n then n - k else 0]
    ensures Run(e, Times(Up, k) + Times(Down, k)) == e
  {
    UpsGoBack(e, k);
    RunAppend(e, Times(Up, k), Times(Down, k));
    if k > 0 {
      DownsGoForward(Run(e, Times(Up, k)), k);
    }
  }

  // ----- the buffers

  class TerminalInput {
    const buf: array<byte>
    const commands: array<Text>
    const screen: Scrollback.LineBuffer
    var len: nat
    var count: nat
    var index: int

    ghost predicate Buffers()
      reads `len, `count
    {
      screen.lines != commands && buf.Length == BUFFER && commands.Length == MAX_HISTORY && len < BUFFER && count <= MAX_HISTORY
    }

    // len is where the terminating NUL of the buffer is.
    ghost predicate Valid()
      reads this, buf
    {
      Buffers() && buf[len] == 0 && 0 !in buf[..len]
    }

    ghost function State(): Editor
      requires Buffers()
      reads `len, `count, `index, buf, commands
    {
      Editor(buf[..len], commands[..count], index)
    }

    constructor ()
      ensures Valid() && State() == FRESH && screen.Valid() && screen.Shown() == []
    {
      buf := new byte[BUFFER](_ => 0);
      commands := new Text[MAX_HISTORY](_ => []);
      screen := new Scrollback.LineBuffer();
      len, count, index := 0, 0, 0;
    }

    // input_buf[0] = 0, and the length with it
    method Erase()
      requires Buffers()
      modifies `len, buf
      ensures Valid() && State() == old(State()).(text := [])
    {
      buf[0] := 0;
      len := 0;
    }

    // strcat onto the line
    method Concat(s: Text)
      requires Valid() && len + |s| < BUFFER && 0 !in s
      modifies `len, buf
      ensures Valid() && State() == old(State()).(text := old(State()).text + s)
    {
      var n := len;
      for i := 0 to |s|
        modifies buf
        invariant buf[..n] == old(buf[..n]) && buf[n..n + i] == s[..i]
      {
        buf[n + i] := s[i];
      }
      buf[n + |s|] := 0;
      len := n + |s|;
      assert buf[..n] == old(buf[..n]) && buf[n..len] == s;
      assert buf[..len] == buf[..n] + buf[n..len];
    }

    // strncpy of a remembered command over the line, padded with NULs
    method Recall(i: nat)
      requires Buffers() && i < count && |commands[i]| < BUFFER - 1 && 0 !in commands[i]
      modifies `len, `index, buf
      ensures Valid() && State() == Editor(old(commands[i]), old(commands[..count]), i)
    {
      var s := commands[i];
      for k := 0 to BUFFER - 1
        modifies buf
        invariant forall j :: 0 <= j < k ==> buf[j] == if j < |s| then s[j] else 0
      {
        buf[k] := if k < |s| then s[k] else 0;
      }
      len := |s|;
      index := i;
      assert buf[..len] == s;
    }

    method PressBackspace()
      requires Valid()
      modifies `len, buf
      ensures Valid() && State() == Press(old(State()), Backspace)
    {
      ghost var t := buf[..len];
      if len > 0 {
        var prev := len - 1;
        while prev > 0 && 0x80 <= buf[prev] < 0xC0
          invariant 0 <= prev < len && Lead(t, prev) == Lead(t, len - 1)
        {
          prev := prev - 1;
        }
        buf[prev] := 0;
        len := prev;
        assert buf[..len] == t[..prev];
      }
    }

    // The history part of gterm_execute_cmd.
    method Remember()
      requires Valid()
      modifies `count, `index, commands
      ensures Valid()
      ensures State() == old(State()).(history := Recorded(old(State()).history, old(State()).text),
                                       index := |Recorded(old(State()).history, old(State()).text)|)
    {
      hide Recorded;
      var line := buf[..len];
      RecordedIs(commands[..count], line);
      if |line| > 0 {
        var command := line[..if |line| <= 255 then |line| else 255];
        if count < MAX_HISTORY {
          commands[count] := command;
          count := count + 1;
          assert commands[..count] == old(commands[..count]) + [command];
        } else {
          for i := 0 to MAX_HISTORY - 1
            modifies commands
            invariant forall k :: 0 <= k < i ==> commands[k] == old(commands[k + 1])
            invariant forall k :: i <= k < MAX_HISTORY ==> commands[k] == old(commands[k])
          {
            commands[i] := commands[i + 1];
          }
          commands[MAX_HISTORY - 1] := command;
          assert commands[..count] == old(commands[..count])[1..] + [command];
        }
      }
      index := count;
    }

    // One key of handle_gterm_event; output is what the shell prints when the key runs a command.
    method HandleKey(key: Key, output: seq<Scrollback.Line>)
      requires Valid() && Good(State()) && GoodKey(key) && screen.Valid()
      modifies this, buf, commands, screen, screen.lines, screen.colours
      ensures Valid() && Good(State()) && State() == Press(old(State()), key)
      ensures screen.Valid() && screen.Shown() == ScreenAfter(old(screen.Shown()), old(State()), key, output)
    {
      hide GoodText, Good, GoodKey, Press, ScreenAfter, Scrollback.LineBuffer.Shown;
      PressKeepsGood(State(), key);
      if key.Enter? {
        RunCommand(output);
      } else if key.Interrupt? || key.ClearScreen? {
        HandleScreen(key, output);
      } else {
        HandleLine(key);
        OnlyTheLine(screen.Shown(), old(State()), key, output);
      }
    }

    // The keys that touch the scrollback but run nothing.
    method HandleScreen(key: Key, ghost output: seq<Scrollback.Line>)
      requires Valid() && screen.Valid() && (key.Interrupt? || key.ClearScreen?)
      modifies this, buf, screen, screen.lines, screen.colours
      ensures Valid() && State() == Press(old(State()), key)
      ensures screen.Valid() && screen.Shown() == ScreenAfter(old(screen.Shown()), old(State()), key, output)
    {
      if key.Interrupt? {
        Print([Scrollback.Line(PROMPT + buf[..len] + CARET_C, RED)]);
        Erase();
      } else {
        screen.Clear();
      }
    }

    // The keys that only edit the line or walk the history.
    method HandleLine(key: Key)
      requires Valid() && Good(State()) && GoodKey(key)
      requires !key.Enter? && !key.Interrupt? && !key.ClearScreen?
      modifies this, buf
      ensures Valid() && State() == Press(old(State()), key)
    {
      hide GoodText, Good, Recorded, Backspaced;
      GoodFits(State());
      match key
      case EraseLine =>
        Erase();
      case Commit(s) =>
        HandleCommit(s);
      case Backspace =>
        PressBackspace();
      case Up =>
        if count > 0 && index > 0 {
          Recall(index - 1);
        }
      case Down =>
        if index < count - 1 {
          Recall(index + 1);
        } else {
          index := count;
          Erase();
        }
      case Tab =>
        if len + 4 < LIMIT {
          Concat(TAB_TEXT);
        }
      case Printable(ch) =>
        if len < LIMIT {
          Concat([ch]);
        }
      case Ignored =>
    }

    method HandleCommit(s: Text)
      requires Valid() && Utf8.Valid(s)
      modifies `len, buf
      ensures Valid() && State() == Press(old(State()), Commit(s))
    {
      assert buf[..len] + [] == buf[..len];
      if |s| > 0 && len + |s| < LIMIT {
        NoNul(s);
        Concat(s);
      }
    }

    // gterm_execute_cmd, and the empty line after it
    method RunCommand(output: seq<Scrollback.Line>)
      requires Valid() && screen.Valid()
      modifies this, buf, commands, screen, screen.lines, screen.colours
      ensures Valid() && State() == Press(old(State()), Enter)
      ensures screen.Valid() && screen.Shown() == ScreenAfter(old(screen.Shown()), old(State()), Enter, output)
    {
      hide Recorded, Scrollback.AfterAppends;
      var line := buf[..len];
      var echo := [Scrollback.Line(PROMPT + line, WHITE)];
      Print(echo);
      Remember();
      if line == CLEAR || line == CLS {
        screen.Clear();
      } else {
        Print(output);
        AppendsCompose(old(screen.Shown()), echo, output);
      }
      Erase();
    }

    method Print(output: seq<Scrollback.Line>)
      requires screen.Valid()
      modifies screen, screen.lines, screen.colours
      ensures screen.Valid() && screen.Shown() == Scrollback.AfterAppends(old(screen.Shown()), output)
    {
      assert output[0..] == output;
      for i := 0 to |output|
        invariant screen.Valid()
        invariant Scrollback.AfterAppends(screen.Shown(), output[i..]) == Scrollback.AfterAppends(old(screen.Shown()), output)
      {
        assert output[i..][1..] == output[i + 1..];
        screen.AppendLine(output[i].text, output[i].colour);
      }
    }
  }

  lemma RecordedIs(history: seq<Text>, line: Text)
    requires |history| <= MAX_HISTORY
    ensures var command := line[..if |line| <= 255 then |line| else 255];
            Recorded(history, line) == if line == [] then history
                                       else if |history| < MAX_HISTORY then history + [command]
                                       else history[1..] + [command]
  {
  }

  lemma OnlyTheLine(shown: seq<Scrollback.Line>, e: Editor, key: Key, output: seq<Scrollback.Line>)
    requires !key.Enter? && !key.Interrupt? && !key.ClearScreen?
    ensures ScreenAfter(shown, e, key, output) == shown
  {
  }

  lemma {:induction false} AppendsCompose(shown: seq<Scrollback.Line>, a: seq<Scrollback.Line>, b: seq<Scrollback.Line>)
    ensures Scrollback.AfterAppends(Scrollback.AfterAppends(shown, a), b) == Scrollback.AfterAppends(shown, a + b)
    decreases |a|
  {
    if a == [] {
      assert a + b == b;
    } else {
      assert (a + b)[1..] == a[1..] + b;
      var first := Scrollback.Coloured(Scrollback.Segments(a[0].text), a[0].colour);
      AppendsCompose(Last(shown + first, Scrollback.MAX_LINES), a[1..], b);
    }
  }

  // What a key leaves on the scrollback.
  function ScreenAfter(shown: seq<Scrollback.Line>, e: Editor, key: Key, output: seq<Scrollback.Line>): seq<Scrollback.Line>
  {
    match key
    case Interrupt => Scrollback.AfterAppends(shown, [Scrollback.Line(PROMPT + e.text + CARET_C, RED)])
    case ClearScreen => []
    case Enter =>
      if e.text == CLEAR || e.text == CLS then []
      else Scrollback.AfterAppends(shown, [Scrollback.Line(PROMPT + e.text, WHITE)] + output)
    case _ => shown
  }

  lemma NoNul(t: Text)
    requires Utf8.Valid(t)
    ensures 0 !in t
  {
    var cs :| Characters(cs) && Encoded(cs) == t;
    NoNulIn(cs);
  }

  lemma {:induction false} NoNulIn(cs: seq<Text>)
    requires Characters(cs)
    ensures 0 !in Encoded(cs)
    decreases |cs|
  {
    if cs != [] {
      NoNulIn(cs[..|cs| - 1]);
      assert Character(cs[|cs| - 1]);
    }
  }

  lemma GoodFits(e: Editor)
    requires Good(e)
    ensures |e.text| <= LIMIT && 0 <= e.index <= |e.history| <= MAX_HISTORY
    ensures forall i :: 0 <= i < |e.history| ==> |e.history[i]| <= LIMIT && 0 !in e.history[i]
  {
    forall i | 0 <= i < |e.history|
      ensures |e.history[i]| <= LIMIT && 0 !in e.history[i]
    {
      assert e.history[i] in e.history;
      NoNul(e.history[i]);
    }
  }
}
