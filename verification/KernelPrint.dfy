/** Numbers on the kernel console: digits put into a buffer backwards, padded, and sent in reverse;
    and the width field of a conversion in a format. */
module KernelPrint {
  import opened Sequences

  const BUF := 32

  predicate Base(b: nat) { b == 10 || b == 16 }

  function DigitChar(d: nat): (c: char)
    requires d < 16
    ensures c == "0123456789ABCDEF"[d]
  {
    if d < 10 then '0' + d as char else 'A' + (d - 10) as char
  }

  function DigitValue(c: char): nat
  {
    if '0' <= c <= '9' then c as int - '0' as int
    else if 'A' <= c <= 'F' then c as int - 'A' as int + 10 else 0
  }

  // The digits of n, most significant first.
  function Digits(n: nat, b: nat): (s: string)
    requires Base(b)
    ensures s != ""
    decreases n
  {
    if n < b then [DigitChar(n)]
    else
      assert n / b < n;
      Digits(n / b, b) + [DigitChar(n % b)]
  }

  function ValueOf(s: string, b: nat): nat
    requires Base(b)
  {
    if s == "" then 0
    else if b == 10 then 10 * ValueOf(s[..|s| - 1], b) + DigitValue(s[|s| - 1])
    else 16 * ValueOf(s[..|s| - 1], b) + DigitValue(s[|s| - 1])
  }

  lemma DigitRead(d: nat)
    requires d < 16
    ensures DigitValue(DigitChar(d)) == d && (DigitChar(d) == '0' <==> d == 0)
  {
  }

  lemma ValueOfAppend(s: string, c: char, b: nat)
    requires Base(b)
    ensures ValueOf(s + [c], b) == (if b == 10 then 10 * ValueOf(s, b) else 16 * ValueOf(s, b)) + DigitValue(c)
  {
    hide DigitValue;
    assert (s + [c])[..|s|] == s;
  }

  lemma Split(n: nat, b: nat)
    requires Base(b)
    ensures (if b == 10 then 10 * (n / b) else 16 * (n / b)) + n % b == n
    ensures n >= b ==> 0 < n / b < n
  {
    if b == 10 {
      assert 10 * (n / 10) + n % 10 == n;
    } else {
      assert 16 * (n / 16) + n % 16 == n;
    }
  }

  // Reading the digits back gives the number, and only zero begins with a zero.
  lemma {:induction false} DigitsRead(n: nat, b: nat)
    requires Base(b)
    ensures ValueOf(Digits(n, b), b) == n
    ensures Digits(n, b)[0] == '0' ==> n == 0
    decreases n
  {
    hide DigitChar, DigitValue, ValueOf;
    if n < b {
      DigitRead(n);
      OneDigit(n, b);
    } else {
      Split(n, b);
      DigitsRead(n / b, b);
      DigitRead(n % b);
      ValueOfAppend(Digits(n / b, b), DigitChar(n % b), b);
    }
  }

  lemma OneDigit(n: nat, b: nat)
    requires Base(b) && n < b
    ensures ValueOf([DigitChar(n)], b) == DigitValue(DigitChar(n))
  {
    hide DigitChar, DigitValue;
    var s: string := [DigitChar(n)];
    assert s[..0] == "";
    assert ValueOf("", b) == 0;
  }

  // At most k digits exactly for the numbers below b to the k.
  function Power(b: nat, k: nat): nat
    requires Base(b)
  {
    if k == 0 then 1 else if b == 10 then 10 * Power(b, k - 1) else 16 * Power(b, k - 1)
  }

  lemma {:induction false} DigitCount(n: nat, b: nat, k: nat)
    requires Base(b) && k > 0
    ensures |Digits(n, b)| <= k <==> n < Power(b, k)
    decreases n
  {
    if n < b {
      AtLeastBase(b, k);
    } else if k == 1 {
      assert Power(b, 1) == b;
    } else {
      DigitCount(n / b, b, k - 1);
    }
  }

  lemma {:induction false} AtLeastBase(b: nat, k: nat)
    requires Base(b) && k > 0
    ensures Power(b, k) >= b
  {
    if k > 1 {
      AtLeastBase(b, k - 1);
    }
  }

  lemma WordDigits(n: nat, b: nat)
    requires Base(b) && n < 0x1_0000_0000
    ensures |Digits(n, b)| <= if b == 10 then 10 else 8
  {
    DigitCount(n, b, if b == 10 then 10 else 8);
    if b == 10 {
      assert Power(10, 5) == 100000;
      assert Power(10, 10) == 10000000000;
    } else {
      assert Power(16, 4) == 65536;
      assert Power(16, 8) == 0x1_0000_0000;
    }
  }

  function Repeat(c: char, n: int): (s: string)
    ensures |s| == if n < 0 then 0 else n
  {
    if n <= 0 then "" else Repeat(c, n - 1) + [c]
  }

  function Printed(num: nat, b: nat, width: int, pad: char): string
    requires Base(b)
  {
    Repeat(pad, width - |Digits(num, b)|) + Digits(num, b)
  }

  // print_num; the buffer has 32 places.
  method PrintNum(num: nat, b: nat, width: int, pad: char) returns (out: string)
    requires num < 0x1_0000_0000 && Base(b) && width <= BUF
    ensures out == Printed(num, b, width, pad)
  {
    hide Digits, Reversed, Repeat;
    WordDigits(num, b);
    NoPad(pad, Digits(num, b));
    var buf := new char[BUF];
    var i := PutDigits(buf, num, b);
    ghost var n := i;
    assert buf[..i] == buf[..n];
    while i < width
      invariant n <= i <= BUF && (i <= width || i == n)
      invariant Reversed(buf[..i]) == Repeat(pad, i - n) + Digits(num, b)
    {
      buf[i] := pad;
      i := i + 1;
      assert buf[..i] == buf[..i - 1] + [pad];
      ReversedPush(buf[..i - 1], pad);
      PadStep(pad, i - n, Digits(num, b));
    }
    out := Send(buf, i);
  }

  lemma NoPad(pad: char, digits: string)
    ensures forall n :: n <= 0 ==> Repeat(pad, n) + digits == digits
  {
  }

  lemma PadStep(pad: char, n: nat, digits: string)
    requires n > 0
    ensures [pad] + (Repeat(pad, n - 1) + digits) == Repeat(pad, n) + digits
  {
    RepeatFront(pad, n);
  }

  lemma {:induction false} RepeatFront(c: char, n: nat)
    requires n > 0
    ensures Repeat(c, n) == [c] + Repeat(c, n - 1)
  {
    if n > 1 {
      RepeatFront(c, n - 1);
    }
  }

  // The digits still to be put out.
  function Left(n: nat, b: nat): string
    requires Base(b)
  {
    if n == 0 then "" else Digits(n, b)
  }

  lemma LeftStep(n: nat, b: nat, sent: string)
    requires Base(b) && n > 0
    ensures n / b < n && n % b < b
    ensures Left(n, b) + sent == Left(n / b, b) + ([DigitChar(n % b)] + sent)
  {
    if n < b {
      assert n / b == 0 && n % b == n;
    }
    assert Left(n, b) == Left(n / b, b) + [DigitChar(n % b)];
  }

  method PutDigits(buf: array<char>, num: nat, b: nat) returns (i: nat)
    requires Base(b) && |Digits(num, b)| <= buf.Length
    modifies buf
    ensures i == |Digits(num, b)| && Reversed(buf[..i]) == Digits(num, b)
  {
    hide Digits, DigitChar;
    i := 0;
    if num == 0 {
      ZeroDigit(b);
      buf[0] := '0';
      i := 1;
      assert buf[..1] == "" + ['0'];
      ReversedPush("", '0');
      return;
    }
    var rest := num;
    assert buf[..0] == "";
    while rest > 0
      invariant 0 <= rest && i <= |Digits(num, b)|
      invariant Left(rest, b) + Reversed(buf[..i]) == Digits(num, b)
      decreases rest
    {
      LeftStep(rest, b, Reversed(buf[..i]));
      ReversedPush(buf[..i], DigitChar(rest % b));
      i := PutDigit(buf, i, DigitChar(rest % b), Digits(num, b), Left(rest, b));
      rest := rest / b;
    }
  }

  lemma ZeroDigit(b: nat)
    requires Base(b)
    ensures Digits(0, b) == "0"
  {
  }

  method PutDigit(buf: array<char>, i: nat, c: char, ghost all: string, ghost left: string) returns (j: nat)
    requires i < buf.Length && left != "" && left + Reversed(buf[..i]) == all
    modifies buf
    ensures j == i + 1 <= |all| && buf[..j] == old(buf[..i]) + [c]
  {
    assert |all| == |left| + i;
    buf[i] := c;
    j := i + 1;
  }

  method Send(buf: array<char>, n: nat) returns (out: string)
    requires n <= buf.Length
    ensures out == Reversed(buf[..n])
  {
    out := "";
    var j := n - 1;
    while j >= 0
      invariant -1 <= j < n
      invariant out + Reversed(buf[..j + 1]) == Reversed(buf[..n])
    {
      assert buf[..j + 1][..j] == buf[..j];
      out := out + [buf[j]];
      j := j - 1;
    }
  }

  // What is printed is padding and then the digits, and it fills the width or just holds them.
  lemma PrintedShape(num: nat, b: nat, width: int, pad: char)
    requires Base(b)
    ensures var s, n := Printed(num, b, width, pad), |Digits(num, b)|;
            && |s| == (if width > n then width else n)
            && (forall i :: 0 <= i < |s| - n ==> s[i] == pad)
            && ValueOf(s[|s| - n..], b) == num
  {
    var s, n := Printed(num, b, width, pad), |Digits(num, b)|;
    DigitsRead(num, b);
    assert s[|s| - n..] == Digits(num, b);
    AllPad(pad, width - n);
  }

  lemma {:induction false} AllPad(c: char, n: int)
    ensures forall i :: 0 <= i < |Repeat(c, n)| ==> Repeat(c, n)[i] == c
    decreases if n < 0 then 0 else n
  {
    if n > 0 {
      AllPad(c, n - 1);
    }
  }

  // ----- the width field of a conversion

  predicate IsDigit(c: char) { '0' <= c <= '9' }

  function DigitRun(s: string): (n: nat)
    ensures n <= |s|
  {
    if s != "" && IsDigit(s[0]) then 1 + DigitRun(s[1..]) else 0
  }

  lemma DigitStep(s: string, c: char)
    requires IsDigit(c)
    ensures ValueOf(s + [c], 10) == ValueOf(s, 10) * 10 + (c as int - '0' as int)
  {
    hide ValueOf;
    ValueOfAppend(s, c, 10);
  }

  // kprintf after a '%': a zero asks for zero padding, and the digits that follow are the width.
  method ParseWidth(fmt: string, start: nat) returns (width: nat, pad: char, p: nat)
    requires start <= |fmt|
    ensures pad == if start < |fmt| && fmt[start] == '0' then '0' else ' '
    ensures var q := if pad == '0' then start + 1 else start;
            p == q + DigitRun(fmt[q..]) && width == ValueOf(fmt[q..p], 10)
  {
    width, pad, p := 0, ' ', start;
    if p < |fmt| && fmt[p] == '0' {
      pad := '0';
      p := p + 1;
    }
    ghost var q := p;
    assert fmt[q..p] == "" && ValueOf("", 10) == 0;
    hide ValueOf;
    while p < |fmt| && IsDigit(fmt[p])
      invariant q <= p <= |fmt| && p - q + DigitRun(fmt[p..]) == DigitRun(fmt[q..])
      invariant width == ValueOf(fmt[q..p], 10)
    {
      assert fmt[p..][1..] == fmt[p + 1..];
      assert fmt[q..p + 1] == fmt[q..p] + [fmt[p]];
      DigitStep(fmt[q..p], fmt[p]);
      width := width * 10 + (fmt[p] as int - '0' as int);
      p := p + 1;
    }
  }

  lemma {:induction false} DecimalDigits(n: nat)
    ensures forall c :: c in Digits(n, 10) ==> IsDigit(c)
    decreases n
  {
    if n >= 10 {
      DecimalDigits(n / 10);
    }
  }

  lemma {:induction false} RunOf(s: string, rest: string)
    requires forall c :: c in s ==> IsDigit(c)
    requires rest != "" ==> !IsDigit(rest[0])
    ensures DigitRun(s + rest) == |s|
    decreases |s|
  {
    if s == "" {
      assert s + rest == rest;
    } else {
      assert s[0] in s && forall c :: c in s[1..] ==> c in s;
      assert (s + rest)[1..] == s[1..] + rest;
      RunOf(s[1..], rest);
    }
  }

  // A width written out in decimal is read as that width, and its first digit asks for no zero
  // padding unless the width is zero.
  lemma WidthFieldRead(w: nat, rest: string)
    requires rest != "" ==> !IsDigit(rest[0])
    ensures var field := Digits(w, 10);
            && DigitRun(field + rest) == |field|
            && ValueOf((field + rest)[..|field|], 10) == w
            && (field[0] == '0' ==> w == 0)
  {
    DecimalDigits(w);
    RunOf(Digits(w, 10), rest);
    DigitsRead(w, 10);
    assert (Digits(w, 10) + rest)[..|Digits(w, 10)|] == Digits(w, 10);
  }

  lemma DigitsAreTen(c: char)
    ensures IsDigit(c) <==> c in "0123456789"
  {
    var tens := "0123456789";
    if IsDigit(c) {
      var d := c as int - '0' as int;
      assert c == DigitChar(d) == tens[d];
    }
  }

  // In front of a conversion letter the width is read whole, and the letter is what comes next.
  lemma ConversionRead(w: nat, letter: char, rest: string)
    requires letter in "sdiuxXpc%"
    ensures var fmt, field := Digits(w, 10) + ([letter] + rest), Digits(w, 10);
            && DigitRun(fmt) == |field| && ValueOf(fmt[..|field|], 10) == w
            && fmt[DigitRun(fmt)] == letter
  {
    WidthFieldRead(w, [letter] + rest);
  }
}
