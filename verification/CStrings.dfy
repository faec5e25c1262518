/** The C string functions the chat code uses, on strings without their terminating NUL. */
module CStrings {

  datatype Option<T> = None | Some(value: T)

  // strncpy, strncat and snprintf into a buffer all keep the first n characters.
  function Trunc(s: string, n: nat): (r: string)
    ensures |r| == (if |s| <= n then |s| else n) && r <= s
  {
    if |s| <= n then s else s[..n]
  }

  lemma TruncAppend(a: string, b: string, n: nat)
    ensures Trunc(Trunc(a, n) + b, n) == Trunc(a + b, n)
  {
  }

  lemma Tails(s: string)
    ensures s[0..] == s
    ensures forall i :: 1 <= i <= |s| ==> s[i..] == s[1..][i - 1..]
  {
  }

  // strstr: where needle first occurs in hay, or -1.
  function Find(hay: string, needle: string): (k: int)
    ensures -1 <= k <= |hay|
    ensures k >= 0 ==> needle <= hay[k..]
    ensures forall i :: 0 <= i <= |hay| && (k < 0 || i < k) ==> !(needle <= hay[i..])
  {
    Tails(hay);
    if needle <= hay then 0
    else if hay == "" then -1
    else
      var k := Find(hay[1..], needle);
      if k < 0 then -1 else k + 1
  }

  // strpbrk: where a character of `stops` first occurs in s, or -1.
  function FindAny(s: string, stops: string): (k: int)
    ensures -1 <= k < |s|
    ensures k >= 0 ==> s[k] in stops
    ensures forall i :: 0 <= i < |s| && (k < 0 || i < k) ==> s[i] !in stops
  {
    if s == "" then -1
    else if s[0] in stops then 0
    else
      var k := FindAny(s[1..], stops);
      if k < 0 then -1 else k + 1
  }

  lemma FindIs(hay: string, needle: string, k: nat)
    requires k <= |hay| && needle <= hay[k..]
    requires forall i :: 0 <= i < k ==> !(needle <= hay[i..])
    ensures Find(hay, needle) == k
  {
  }

  lemma FindAnyIs(v: string, rest: string, stops: string)
    requires forall c :: c in v ==> c !in stops
    requires rest != "" && rest[0] in stops
    ensures FindAny(v + rest, stops) == |v|
  {
    var s := v + rest;
    assert s[|v|] == rest[0];
    assert forall i :: 0 <= i < |v| ==> s[i] in v;
  }

  function Shifted(k: int, n: nat): int { if k < 0 then -1 else k + n }

  // A match cannot run over from a into rest when rest begins with a character that a match can
  // only begin with, or a ends with one that a match can only end with.
  predicate Apart(a: string, rest: string, needle: string)
    requires needle != ""
  {
    || rest == "" || rest[0] !in needle[1..]
    || a == "" || a[|a| - 1] !in needle[..|needle| - 1]
  }

  lemma {:induction false} FindAfter(a: string, rest: string, needle: string)
    requires needle != "" && Find(a, needle) == -1 && Apart(a, rest, needle)
    ensures Find(a + rest, needle) == Shifted(Find(rest, needle), |a|)
    decreases |a|
  {
    if a == "" {
      assert a + rest == rest;
    } else {
      NoOverrun(a, rest, needle);
      assert (a + rest)[1..] == a[1..] + rest;
      FindAfter(a[1..], rest, needle);
    }
  }

  lemma NoOverrun(a: string, rest: string, needle: string)
    requires a != "" && needle != "" && Apart(a, rest, needle)
    ensures needle <= a + rest ==> needle <= a
  {
    if |needle| > |a| {
      assert needle[|a|] in needle[1..];
      assert needle[|a| - 1] in needle[..|needle| - 1];
      assert (a + rest)[|a| - 1] == a[|a| - 1];
      assert rest != "" ==> (a + rest)[|a|] == rest[0];
    } else {
      assert (a + rest)[..|needle|] == a[..|needle|];
    }
  }

  // What follows the first match, if there is one.
  function After(s: string, needle: string): Option<string>
  {
    var k := Find(s, needle);
    if k < 0 then None else Some(s[k + |needle|..])
  }

  lemma AfterSkips(a: string, rest: string, needle: string)
    requires needle != "" && Find(a, needle) == -1 && Apart(a, rest, needle)
    ensures After(a + rest, needle) == After(rest, needle)
  {
    hide Find;
    FindAfter(a, rest, needle);
    var k := Find(rest, needle);
    if k >= 0 {
      MatchFits(rest, needle);
      SliceTail(a, rest, k + |needle|);
    }
  }

  // What occurs in a occurs there first when more follows.
  lemma FindWithin(a: string, rest: string, needle: string)
    requires needle != "" && Find(a, needle) >= 0
    ensures Find(a + rest, needle) == Find(a, needle)
  {
    hide Find;
    var k, s := Find(a, needle), a + rest;
    assert s[k..] == a[k..] + rest;
    var i := Find(s, needle);
    assert needle <= s[k..];
    if i < k {
      MatchIsWithin(a, rest, needle, i);
    }
  }

  lemma MatchIsWithin(a: string, rest: string, needle: string, i: nat)
    requires i + |needle| <= |a| && needle <= (a + rest)[i..]
    ensures needle <= a[i..]
  {
    assert (a + rest)[i..][..|needle|] == a[i..][..|needle|];
  }

  lemma AfterWithin(a: string, rest: string, needle: string)
    requires needle != "" && After(a, needle).Some?
    ensures After(a + rest, needle) == Some(After(a, needle).value + rest)
  {
    hide Find;
    FindWithin(a, rest, needle);
    MatchFits(a, needle);
    SliceSum(a, rest, Find(a, needle) + |needle|);
  }

  lemma SliceSum(a: string, rest: string, n: nat)
    requires n <= |a|
    ensures (a + rest)[n..] == a[n..] + rest
  {
  }

  lemma MatchFits(s: string, needle: string)
    requires Find(s, needle) >= 0
    ensures Find(s, needle) + |needle| <= |s|
  {
  }

  lemma SliceTail(a: string, rest: string, n: nat)
    requires n <= |rest|
    ensures (a + rest)[|a| + n..] == rest[n..]
  {
  }

  lemma AfterMatch(needle: string, rest: string)
    ensures After(needle + rest, needle) == Some(rest)
  {
    assert (needle + rest)[0..] == needle + rest;
  }

  lemma {:induction false} FindWithout(hay: string, needle: string, c: char)
    requires c in needle && c !in hay
    ensures Find(hay, needle) == -1
    decreases |hay|
  {
    PrefixHas(hay, needle, c);
    if hay != "" {
      FindWithout(hay[1..], needle, c);
    }
  }

  lemma PrefixHas(hay: string, needle: string, c: char)
    requires c in needle
    ensures needle <= hay ==> c in hay
  {
  }

  // A needle that begins with c occurs in c + x only at the front when c is not in x.
  lemma FindAtFrontOnly(c: char, x: string, needle: string)
    requires needle != "" && needle[0] == c && c !in x
    ensures Find([c] + x, needle) == if needle <= [c] + x then 0 else -1
  {
    assert ([c] + x)[1..] == x;
    FindWithout(x, needle, c);
  }

  // A needle that ends with c occurs in x + c only at the back when c is not in x.
  lemma {:induction false} FindAtBackOnly(x: string, c: char, needle: string)
    requires needle != "" && needle[|needle| - 1] == c && c !in x
    requires |needle| <= |x| + 1 ==> (x + [c])[|x| + 1 - |needle|..] != needle
    ensures Find(x + [c], needle) == -1
    decreases |x|
  {
    var s := x + [c];
    if |needle| <= |x| {
      assert s[|needle| - 1] in x;
    } else if |needle| == |x| + 1 {
      assert s[0..] == s;
    }
    if x != "" {
      assert s[1..] == x[1..] + [c];
      if |needle| <= |x| {
        assert s[1..][|x| - |needle|..] == s[|x| + 1 - |needle|..];
      }
      FindAtBackOnly(x[1..], c, needle);
    } else {
      assert Find(s[1..], needle) == -1;
    }
  }
}
