/** The nick generator: a prefix and a role picked by a 32-bit counter that moves on by 19. */
module NickNames {
  import opened CStrings

  const UINT_RANGE := 0x1_0000_0000

  const PREFIXES: seq<string> := [
    "Cyber", "Retro", "Neon", "Matrix", "Tron", "Bit", "Quantum", "Pixel", "Solar", "Hyper", "Silicon",
    "Vector", "Micro", "B-Free", "T-Kernel", "Alpha", "Voxel", "Shadow", "Data"]

  const ROLES: seq<string> := [
    "Samurai", "Hacker", "Pilot", "Monk", "Ninja", "Walker", "Ronin", "Knight", "Wizard", "Courier", "Guru",
    "Sensei", "Daemon", "Crafter", "Operator", "Agent", "Runner", "Voyager"]

  function PrefixAt(i: nat): string requires i < 19 { PREFIXES[i] }

  function RoleAt(i: nat): string requires i < 18 { ROLES[i] }

  function NickFor(counter: nat): string
  {
    PrefixAt((counter + 7) % UINT_RANGE % 19) + "-" + RoleAt((counter + 13) % UINT_RANGE % 18)
  }

  class NickGenerator {
    var counter: nat

    ghost predicate Valid()
      reads this
    {
      counter < UINT_RANGE
    }

    constructor ()
      ensures Valid() && counter == 0
    {
      counter := 0;
    }

    // seed stands for the start value: the clock xor 0x5A5A when hosted, 0x5A5A otherwise.
    method Generate(seed: nat, maxLen: nat) returns (nick: string)
      requires Valid() && seed < UINT_RANGE && maxLen > 0
      modifies this
      ensures Valid()
      ensures var c := if old(counter) == 0 then seed else old(counter);
              nick == Trunc(NickFor(c), maxLen - 1) && counter == (c + 19) % UINT_RANGE
    {
      hide PrefixAt, RoleAt, Trunc;
      if counter == 0 {
        counter := seed;
      }
      var p := (counter + 7) % UINT_RANGE % 19;
      var r := (counter + 13) % UINT_RANGE % 18;
      nick := Trunc(PrefixAt(p) + "-" + RoleAt(r), maxLen - 1);
      counter := (counter + 19) % UINT_RANGE;
    }

    // The nick a new client gets: the one it prefers, or a generated one.
    method Choose(preferred: Option<string>, seed: nat) returns (nick: string)
      requires Valid() && seed < UINT_RANGE
      modifies this
      ensures Valid()
      ensures preferred.Some? && preferred.value != "" ==> nick == Trunc(preferred.value, 31) && counter == old(counter)
      ensures preferred.None? || preferred.value == "" ==>
        nick == Trunc(NickFor(if old(counter) == 0 then seed else old(counter)), 31)
    {
      if preferred.Some? && |preferred.value| > 0 {
        nick := Trunc(preferred.value, 31);
      } else {
        nick := Generate(seed, 32);
      }
    }
  }

  // The role that begins with these two letters.
  function RoleWith(a: char, b: char): int
  {
    match a
    case 'S' => if b == 'a' then 0 else 11
    case 'H' => 1
    case 'P' => 2
    case 'M' => 3
    case 'N' => 4
    case 'W' => if b == 'a' then 5 else 8
    case 'R' => if b == 'o' then 6 else 16
    case 'K' => 7
    case 'C' => if b == 'o' then 9 else 13
    case 'G' => 10
    case 'D' => 12
    case 'O' => 14
    case 'A' => 15
    case 'V' => 17
    case _ => -1
  }

  lemma RoleHasItsLetters(i: nat)
    requires i < 18
    ensures |RoleAt(i)| >= 2 && RoleWith(RoleAt(i)[0], RoleAt(i)[1]) == i
  {
  }

  lemma RolesDiffer(i: nat, j: nat)
    requires i < 18 && j < 18
    ensures RoleAt(i) == RoleAt(j) <==> i == j
  {
    hide RoleAt, RoleWith;
    RoleHasItsLetters(i);
    RoleHasItsLetters(j);
  }

  lemma NoWrap(x: nat)
    requires x < UINT_RANGE
    ensures x % UINT_RANGE == x
  {
  }

  lemma Indices(c: nat, j: nat)
    requires c + 19 * j + 13 < UINT_RANGE
    ensures (c + 19 * j + 7) % UINT_RANGE % 19 == (c + 7) % 19
    ensures (c + 19 * j + 13) % UINT_RANGE % 18 == (c + 13 + j) % 18
  {
    NoWrap(c + 19 * j + 7);
    NoWrap(c + 19 * j + 13);
    Turns19(c + 7, j);
    Turns18(c + 13 + j, j);
    assert c + 19 * j + 7 == c + 7 + 19 * j && c + 19 * j + 13 == c + 13 + j + 18 * j;
  }

  lemma {:induction false} Turns19(x: nat, j: nat)
    ensures (x + 19 * j) % 19 == x % 19
  {
    if j > 0 {
      Turns19(x, j - 1);
    }
  }

  lemma {:induction false} Turns18(x: nat, j: nat)
    ensures (x + 18 * j) % 18 == x % 18
  {
    if j > 0 {
      Turns18(x, j - 1);
    }
  }

  lemma EighteenApart(a: nat, j: nat, k: nat)
    requires j <= k
    ensures (a + j) % 18 == (a + k) % 18 <==> (k - j) % 18 == 0
  {
    var x, d := a + j, k - j;
    assert (x + d) % 18 == (x % 18 + d % 18) % 18;
  }

  lemma AfterHead(head: string, a: string, b: string)
    ensures head + a == head + b <==> a == b
  {
    assert (head + a)[|head|..] == a;
    assert (head + b)[|head|..] == b;
  }

  // Until the counter wraps, generated nicks all have the prefix of the first and run through the
  // 18 roles in turn: two of them are equal exactly when they are a multiple of 18 calls apart.
  lemma NicksRepeat(c: nat, j: nat, k: nat)
    requires j <= k && c + 19 * k + 13 < UINT_RANGE
    ensures NickFor(c + 19 * j) == NickFor(c + 19 * k) <==> (k - j) % 18 == 0
  {
    hide PrefixAt, RoleAt;
    Indices(c, j);
    Indices(c, k);
    var a, b := (c + 13 + j) % 18, (c + 13 + k) % 18;
    EighteenApart(c + 13, j, k);
    RolesDiffer(a, b);
    AfterHead(PrefixAt((c + 7) % 19) + "-", RoleAt(a), RoleAt(b));
  }

  // In front of the hyphen stands a prefix and behind it a role; a build without a clock begins
  // with these two.
  lemma NickParts(counter: nat)
    requires counter + 13 < UINT_RANGE
    ensures NickFor(counter) == PrefixAt((counter + 7) % 19) + "-" + RoleAt((counter + 13) % 18)
  {
    hide PrefixAt, RoleAt;
    NoWrap(counter + 7);
    NoWrap(counter + 13);
  }

  lemma FirstNicks()
    ensures NickFor(0x5A5A) == "T-Kernel-Crafter" && NickFor(0x5A5A + 19) == "T-Kernel-Operator"
  {
    hide PrefixAt, RoleAt, NickFor;
    NickParts(0x5A5A);
    NickParts(0x5A5A + 19);
    TheirParts();
    assert "T-Kernel" + "-" == "T-Kernel-";
    assert "T-Kernel-" + "Crafter" == "T-Kernel-Crafter" && "T-Kernel-" + "Operator" == "T-Kernel-Operator";
  }

  lemma TheirParts()
    ensures PrefixAt(14) == "T-Kernel" && RoleAt(13) == "Crafter" && RoleAt(14) == "Operator"
  {
  }
}
