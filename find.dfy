/**
 * `Find` of superpermutations.go: the shift sequence, the output length, and
 * the mirrored writes that fill the output from both ends toward the middle.
 *
 * The specification functions come first (ShiftSpec, Seeded, Rotate, Filled,
 * FindSpec), then the lemmas about them, then the methods that run the
 * source's loops over arrays and are proved to compute them.
 */
module Builder {
  import opened Factorials

  // ---------------------------------------------------------------------------
  // Sizes
  // ---------------------------------------------------------------------------

  /** The sum of a sequence, folded from its right end so that a prefix grows by its last element. */
  function Sum(s: seq<nat>): nat
  {
    if s == [] then 0 else Sum(s[..|s| - 1]) + s[|s| - 1]
  }

  /** 1! + 2! + ... + n!. */
  function OutLen(n: nat): nat
  {
    if n == 0 then 0 else OutLen(n - 1) + Fact(n)
  }

  /** `shifts`: n!/2 entries in the shift sequence. */
  function Shifts(n: nat): nat
  {
    Fact(n) / 2
  }

  /** 2!/2 + 3!/2 + ... + n!/2: how far the front cursor advances in total. */
  function ShiftTotal(n: nat): nat
  {
    if n < 2 then 0 else ShiftTotal(n - 1) + Fact(n) / 2
  }

  // ---------------------------------------------------------------------------
  // The shift sequence
  // ---------------------------------------------------------------------------

  /** `interval` for block size i: n!/i!, a whole number because i! divides n!. */
  function Interval(n: nat, i: nat): (m: nat)
    requires i <= n
    ensures m >= 1 && Fact(n) == Fact(i) * m
  {
    FactDivides(i, n);
    Fact(n) / Fact(i)
  }

  /** `initial` for block size i: the first entry that block size increments. */
  function Initial(n: nat, i: nat): (a: int)
    requires 2 <= i <= n
    ensures a >= 0
  {
    FactEven(n);
    2 * (Shifts(n) - 1) / Fact(i)
  }

  /** k lies on the progression a, a + (a + 1), a + 2 (a + 1), ... */
  predicate OnProgression(a: int, k: int)
    requires a >= 0
  {
    a <= k && (k - a) % (a + 1) == 0
  }

  /** Whether block size i increments entry j. */
  predicate Hit(n: nat, i: nat, j: int)
    requires 2 <= i <= n
  {
    OnProgression(Initial(n, i), j)
  }

  /** How many of the block sizes 2, ..., i increment entry j. */
  function Hits(n: nat, j: int, i: nat): nat
    requires i <= n
  {
    if i < 2 then 0 else Hits(n, j, i - 1) + (if Hit(n, i, j) then 1 else 0)
  }

  /**
   * The shift sequence: n!/2 entries, entry j counting the block sizes
   * 2, ..., n whose progression passes through j.
   */
  function ShiftSpec(n: nat): (s: seq<nat>)
    ensures |s| == Shifts(n)
  {
    seq(Shifts(n), j => Hits(n, j, n))
  }

  // ---------------------------------------------------------------------------
  // The output
  // ---------------------------------------------------------------------------

  /** Reads the same forwards and backwards. */
  predicate IsPalindrome(s: seq<char>)
  {
    forall p :: 0 <= p < |s| ==> s[p] == s[|s| - 1 - p]
  }

  /** One write pair: v at p and at its mirror |out| - 1 - p. It keeps a palindrome a palindrome. */
  function Mirror(out: seq<char>, p: int, v: char): (r: seq<char>)
    requires 0 <= p < |out|
    ensures |r| == |out|
    ensures IsPalindrome(out) ==> IsPalindrome(r)
  {
    out[p := v][|out| - 1 - p := v]
  }

  /** `make([]rune, outlen)`: every slot holds the zero rune. */
  function Blank(len: nat): (r: seq<char>)
    ensures |r| == len && IsPalindrome(r)
  {
    seq(len, _ => '\0')
  }

  /** The output after the seed loop has stored value[0 .. k-1] at the front and, reversed, at the back. */
  function Seeded(value: seq<char>, outlen: nat, k: nat): (r: seq<char>)
    requires k <= |value| <= outlen
    ensures |r| == outlen && IsPalindrome(r)
  {
    if k == 0 then Blank(outlen)
    else Mirror(Seeded(value, outlen, k - 1), k - 1, value[k - 1])
  }

  /**
   * The first i passes of the inner fill loop for one shift entry inc at cursor
   * cur: pass i copies the symbol at cur - n + i to cur + inc - i - 1 and to its mirror.
   */
  function Rotate(out: seq<char>, n: nat, cur: nat, inc: nat, i: nat): (r: seq<char>)
    requires n <= cur && cur + inc <= |out| && i <= inc
    ensures |r| == |out|
    ensures IsPalindrome(out) ==> IsPalindrome(r)
  {
    if i == 0 then out
    else
      var o := Rotate(out, n, cur, inc, i - 1);
      Mirror(o, cur + inc - i, o[cur - n + i - 1])
  }

  /** One more pass of the inner loop is one more mirrored write. */
  lemma RotateNext(out: seq<char>, n: nat, cur: nat, inc: nat, i: nat)
    requires n <= cur && cur + inc <= |out| && i < inc
    ensures Rotate(out, n, cur, inc, i + 1)
      == Mirror(Rotate(out, n, cur, inc, i), cur + inc - i - 1, Rotate(out, n, cur, inc, i)[cur - n + i])
  {
  }

  /** The output after the fill loop has processed shift entries 0 .. k-1. */
  function Filled(seed: seq<char>, n: nat, shifts: seq<nat>, k: nat): (r: seq<char>)
    requires k <= |shifts| && n + Sum(shifts) <= |seed|
    ensures |r| == |seed|
    ensures IsPalindrome(seed) ==> IsPalindrome(r)
  {
    if k == 0 then seed
    else
      SumStep(shifts, k - 1);
      SumPrefixAtMost(shifts, k);
      Rotate(Filled(seed, n, shifts, k - 1), n, n + Sum(shifts[..k - 1]), shifts[k - 1], shifts[k - 1])
  }

  /**
   * What `Find` returns: a palindrome of length 1! + ... + n!, made only of
   * symbols of the input.
   */
  function FindSpec(value: seq<char>): (r: seq<char>)
    requires |value| <= 20
    ensures |r| == OutLen(|value|)
    ensures IsPalindrome(r)
  {
    var n := |value|;
    var shifts := ShiftSpec(n);
    ShiftSum(n);
    CursorFits(n);
    assert shifts[..|shifts|] == shifts;
    Filled(Seeded(value, OutLen(n), n), n, shifts, |shifts|)
  }

  // ---------------------------------------------------------------------------
  // Lemmas: sums
  // ---------------------------------------------------------------------------

  /** A prefix grows by the next element. */
  lemma SumStep(s: seq<nat>, k: nat)
    requires k < |s|
    ensures Sum(s[..k + 1]) == Sum(s[..k]) + s[k]
  {
    assert s[..k + 1][..k] == s[..k];
  }

  /** With non-negative entries a prefix sums to no more than the whole. */
  lemma {:induction false} SumPrefixAtMost(s: seq<nat>, k: nat)
    requires k <= |s|
    ensures Sum(s[..k]) <= Sum(s)
    decreases |s| - k
  {
    if k < |s| {
      SumStep(s, k);
      SumPrefixAtMost(s, k + 1);
    } else {
      assert s[..k] == s;
    }
  }

  /** The front cursor never passes the end: n + ShiftTotal(n) <= 1! + ... + n!. */
  lemma {:induction false} CursorFits(n: nat)
    ensures n + ShiftTotal(n) <= OutLen(n)
  {
    if n >= 2 {
      CursorFits(n - 1);
      FactEven(n);
    } else if n == 1 {
      assert OutLen(1) == 1;
    }
  }

  /** The two cursors between them reach every position: 1! + ... + n! <= 2 (n + ShiftTotal(n)). */
  lemma {:induction false} CursorCovers(n: nat)
    ensures OutLen(n) <= 2 * (n + ShiftTotal(n))
  {
    if n >= 2 {
      CursorCovers(n - 1);
      FactEven(n);
    } else if n == 1 {
      assert OutLen(1) == 1;
    }
  }

  // ---------------------------------------------------------------------------
  // Lemmas: the shift sequence
  // ---------------------------------------------------------------------------

  /** Each block size increments an entry at most once, so no entry exceeds n - 1. */
  lemma {:induction false} HitsAtMost(n: nat, j: int, i: nat)
    requires 1 <= i <= n
    ensures Hits(n, j, i) <= i - 1
  {
    if i >= 2 {
      HitsAtMost(n, j, i - 1);
    }
  }

  /** Every entry of the shift sequence lies in 0 .. n-1. */
  lemma ShiftEntriesBounded(n: nat)
    ensures forall j :: 0 <= j < |ShiftSpec(n)| ==> ShiftSpec(n)[j] <= n - 1
  {
    forall j | 0 <= j < |ShiftSpec(n)|
      ensures ShiftSpec(n)[j] <= n - 1
    {
      if n >= 1 {
        HitsAtMost(n, j, n);
      }
    }
  }

  /** Block size i starts at n!/i! - 1, one short of its interval. */
  lemma InitialValue(n: nat, i: nat)
    requires 2 <= i <= n
    ensures Initial(n, i) == Interval(n, i) - 1
  {
    FactEven(n);
    FactEven(i);
    var m := Interval(n, i);
    HalfOfEven(Fact(n));
    assert 2 * (Shifts(n) - 1) == Fact(i) * m - 2;
    InitialArith(Fact(i), m);
  }

  lemma HalfOfEven(x: int)
    requires x % 2 == 0
    ensures 2 * (x / 2 - 1) == x - 2
  {
  }

  lemma InitialArith(f: int, m: int)
    requires f >= 2 && m >= 1
    ensures (f * m - 2) / f == m - 1
  {
    assert f * m == f * (m - 1) + f;
    DivUnique(f * m - 2, f, m - 1, f - 2);
  }

  /** Entry j is hit by block size i exactly when j % interval is interval - 1. */
  lemma HitIff(n: nat, i: nat, j: int)
    requires 2 <= i <= n && j >= 0
    ensures Hit(n, i, j) <==> j % Interval(n, i) == Interval(n, i) - 1
  {
    InitialValue(n, i);
    ModShift(j, Interval(n, i));
  }

  /** Being on the progression m - 1, 2m - 1, ... is having remainder m - 1. */
  lemma ModShift(j: int, m: int)
    requires m >= 1 && j >= 0
    ensures OnProgression(m - 1, j) <==> j % m == m - 1
  {
    if OnProgression(m - 1, j) {
      var q := (j - (m - 1)) / m;
      assert j - (m - 1) == m * q;
      NonNegQuotient(j - (m - 1), m);
      DivUnique(j, m, q, m - 1);
    }
    if j % m == m - 1 {
      var q := j / m;
      assert j == m * q + (m - 1);
      NonNegQuotient(j, m);
      DivUnique(j - (m - 1), m, q, 0);
    }
  }

  lemma NonNegQuotient(x: int, m: int)
    requires m >= 1 && x >= 0
    ensures x / m >= 0
  {
    var q := x / m;
    assert x == m * q + x % m;
    if q < 0 {
      MulStep(m, q, 0);
    }
  }

  /** Entries 0 .. J-1 hit by block size i. */
  function CountHits(n: nat, i: nat, J: nat): nat
    requires 2 <= i <= n
  {
    if J == 0 then 0 else CountHits(n, i, J - 1) + (if Hit(n, i, J - 1) then 1 else 0)
  }

  /** Of the first J entries, block size i hits J / interval. */
  lemma {:induction false} CountHitsValue(n: nat, i: nat, J: nat)
    requires 2 <= i <= n
    ensures CountHits(n, i, J) == J / Interval(n, i)
  {
    if J > 0 {
      CountHitsValue(n, i, J - 1);
      HitIff(n, i, J - 1);
      DivStep(J - 1, Interval(n, i));
    }
  }

  /** Stepping x by one moves x / m on exactly when x % m was m - 1. */
  lemma DivStep(x: nat, m: nat)
    requires m >= 1
    ensures (x + 1) / m == x / m + (if x % m == m - 1 then 1 else 0)
  {
    var q, r := x / m, x % m;
    assert x == m * q + r;
    if r == m - 1 {
      DivUnique(x + 1, m, q + 1, 0);
    } else {
      DivUnique(x + 1, m, q, r + 1);
    }
  }

  /** Block size i increments exactly i!/2 entries of the sequence. */
  lemma BlockHitCount(n: nat, i: nat)
    requires 2 <= i <= n
    ensures CountHits(n, i, Shifts(n)) == Fact(i) / 2
  {
    CountHitsValue(n, i, Shifts(n));
    FactEven(i);
    HalfBlocks(Fact(i), Interval(n, i));
  }

  lemma HalfBlocks(f: int, m: int)
    requires f >= 2 && f % 2 == 0 && m >= 1
    ensures (f * m / 2) / m == f / 2
  {
    var h := f / 2;
    assert f * m == 2 * (h * m);
    DivUnique(f * m, 2, h * m, 0);
    DivUnique(h * m, m, h, 0);
  }

  /** The first J entries of the sequence after block sizes 2, ..., i. */
  function HitsBelow(n: nat, J: nat, i: nat): nat
    requires i <= n
  {
    if J == 0 then 0 else HitsBelow(n, J - 1, i) + Hits(n, J - 1, i)
  }

  /** Adding block size i adds what it hits. */
  lemma {:induction false} HitsBelowStep(n: nat, J: nat, i: nat)
    requires 2 <= i <= n
    ensures HitsBelow(n, J, i) == HitsBelow(n, J, i - 1) + CountHits(n, i, J)
  {
    if J > 0 {
      HitsBelowStep(n, J - 1, i);
    }
  }

  lemma {:induction false} HitsBelowNone(n: nat, J: nat, i: nat)
    requires i < 2 && i <= n
    ensures HitsBelow(n, J, i) == 0
  {
    if J > 0 {
      HitsBelowNone(n, J - 1, i);
    }
  }

  lemma {:induction false} HitsBelowTotal(n: nat, i: nat)
    requires i <= n
    ensures HitsBelow(n, Shifts(n), i) == ShiftTotal(i)
  {
    if i < 2 {
      HitsBelowNone(n, Shifts(n), i);
    } else {
      HitsBelowTotal(n, i - 1);
      HitsBelowStep(n, Shifts(n), i);
      BlockHitCount(n, i);
    }
  }

  lemma {:induction false} ShiftPrefixSum(n: nat, J: nat)
    requires J <= Shifts(n)
    ensures Sum(ShiftSpec(n)[..J]) == HitsBelow(n, J, n)
  {
    if J > 0 {
      ShiftPrefixSum(n, J - 1);
      SumStep(ShiftSpec(n), J - 1);
    }
  }

  /** The entries of the shift sequence add up to 2!/2 + ... + n!/2. */
  lemma ShiftSum(n: nat)
    ensures Sum(ShiftSpec(n)) == ShiftTotal(n)
  {
    ShiftPrefixSum(n, Shifts(n));
    HitsBelowTotal(n, n);
    assert ShiftSpec(n)[..Shifts(n)] == ShiftSpec(n);
  }

  // ---------------------------------------------------------------------------
  // Lemmas: the output holds symbols of the input
  // ---------------------------------------------------------------------------

  /** Every position within lo of either end holds a symbol of value. */
  ghost predicate EndsFrom(out: seq<char>, value: seq<char>, lo: int)
  {
    forall p :: 0 <= p < |out| && (p < lo || |out| - lo <= p) ==> out[p] in value
  }

  /** Every position in [lo, hi), and its mirror, holds a symbol of value. */
  ghost predicate Spans(out: seq<char>, value: seq<char>, lo: int, hi: int)
  {
    forall p :: 0 <= p < |out| && (lo <= p < hi || |out| - hi <= p < |out| - lo) ==> out[p] in value
  }

  lemma Extend(out: seq<char>, value: seq<char>, lo: int, hi: int)
    requires 0 <= lo <= hi <= |out|
    requires EndsFrom(out, value, lo) && Spans(out, value, lo, hi)
    ensures EndsFrom(out, value, hi)
  {
    forall p | 0 <= p < |out| && (p < hi || |out| - hi <= p)
      ensures out[p] in value
    {
    }
  }

  lemma {:induction false} SeededEnds(value: seq<char>, outlen: nat, k: nat)
    requires k <= |value| <= outlen
    ensures EndsFrom(Seeded(value, outlen, k), value, k)
  {
    if k > 0 {
      SeededEnds(value, outlen, k - 1);
    }
  }

  lemma {:induction false} RotateEnds(out: seq<char>, value: seq<char>, n: nat, cur: nat, inc: nat, i: nat)
    requires n <= cur && cur + inc <= |out| && i <= inc <= n
    requires EndsFrom(out, value, cur)
    ensures EndsFrom(Rotate(out, n, cur, inc, i), value, cur)
    ensures Spans(Rotate(out, n, cur, inc, i), value, cur + inc - i, cur + inc)
  {
    if i > 0 {
      RotateEnds(out, value, n, cur, inc, i - 1);
      var o := Rotate(out, n, cur, inc, i - 1);
      assert o[cur - n + i - 1] in value;
    }
  }

  lemma {:induction false} FilledEnds(seed: seq<char>, value: seq<char>, n: nat, shifts: seq<nat>, k: nat)
    requires k <= |shifts| && n + Sum(shifts) <= |seed|
    requires forall j :: 0 <= j < |shifts| ==> shifts[j] <= n
    requires EndsFrom(seed, value, n)
    ensures EndsFrom(Filled(seed, n, shifts, k), value, n + Sum(shifts[..k]))
  {
    if k > 0 {
      SumStep(shifts, k - 1);
      SumPrefixAtMost(shifts, k);
      FilledEnds(seed, value, n, shifts, k - 1);
      var cur := n + Sum(shifts[..k - 1]);
      var inc := shifts[k - 1];
      var prev := Filled(seed, n, shifts, k - 1);
      var next := Rotate(prev, n, cur, inc, inc);
      assert Filled(seed, n, shifts, k) == next;
      assert n + Sum(shifts[..k]) == cur + inc;
      RotateEnds(prev, value, n, cur, inc, inc);
      Extend(next, value, cur, cur + inc);
    }
  }

  /** Every symbol of Find's output is a symbol of its input. */
  lemma FindSpecSymbols(value: seq<char>)
    requires |value| <= 20
    ensures forall p :: 0 <= p < |FindSpec(value)| ==> FindSpec(value)[p] in value
  {
    var n := |value|;
    var shifts := ShiftSpec(n);
    ShiftSum(n);
    CursorFits(n);
    CursorCovers(n);
    ShiftEntriesBounded(n);
    assert shifts[..|shifts|] == shifts;
    SeededEnds(value, OutLen(n), n);
    FilledEnds(Seeded(value, OutLen(n), n), value, n, shifts, |shifts|);
  }

  // ---------------------------------------------------------------------------
  // Small cases, evaluated
  // ---------------------------------------------------------------------------

  /** One symbol: no shifts, the output is the symbol itself. */
  lemma FindOne()
    ensures FindSpec("a") == "a"
  {
    assert ShiftSpec(1) == [];
    assert Seeded("a", 1, 1) == "a";
  }

  /** Two symbols: one shift of one, giving "aba". */
  lemma FindTwo()
    ensures FindSpec("ab") == "aba"
  {
    assert Fact(2) == 2 && Shifts(2) == 1;
    assert Initial(2, 2) == 0;
    assert ShiftSpec(2) == [1];
    assert OutLen(2) == 3;
    assert Seeded("ab", 3, 1) == "a\0a";
    assert Seeded("ab", 3, 2) == "aba";
    assert [1][..0] == [];
    assert Sum([1]) == 1;
    assert Filled("aba", 2, [1], 1) == "aba";
  }

  /** Three symbols: shifts 1, 1, 2, giving "abcabacba", which holds all six orderings. */
  lemma FindThree()
    ensures FindSpec("abc") == "abcabacba"
  {
    ShiftsThree();
    SeedThree();
    FillThree();
    assert OutLen(3) == 9;
  }

  lemma SeedThree()
    ensures Seeded("abc", 9, 3) == "abc\0\0\0cba"
  {
    assert Seeded("abc", 9, 1) == "a\0\0\0\0\0\0\0a";
    assert Seeded("abc", 9, 2) == "ab\0\0\0\0\0ba";
  }

  lemma FillThree()
    ensures Sum([1, 1, 2]) == 4
    ensures Filled("abc\0\0\0cba", 3, [1, 1, 2], 3) == "abcabacba"
  {
    assert [1, 1, 2][..2] == [1, 1];
    assert [1, 1][..1] == [1];
    assert [1][..0] == [];
    var seed := "abc\0\0\0cba";
    assert Filled(seed, 3, [1, 1, 2], 1) == "abca\0acba";
    assert Filled(seed, 3, [1, 1, 2], 2) == "abcabacba";
  }

  lemma ShiftsThree()
    ensures ShiftSpec(3) == [1, 1, 2]
  {
    assert Fact(3) == 6;
    assert Shifts(3) == 3;
    assert Initial(3, 2) == 2;
    assert Initial(3, 3) == 0;
  }

  // ---------------------------------------------------------------------------
  // The methods
  // ---------------------------------------------------------------------------

  /** The first phase of `Find`: the shift sequence built in place, one pass per block size. */
  method ShiftSequence(length: nat) returns (sequence: array<int>)
    requires length <= 20
    ensures sequence[..] == ShiftSpec(length)
  {
    var shifts := Factorial(length).value / 2;
    assert shifts == Shifts(length);
    sequence := new int[shifts](_ => 0);
    var i := 2;
    while i <= length
      invariant 2 <= i <= length + 1 || i == 2
      invariant forall k :: 0 <= k < shifts ==> sequence[k] == Hits(length, k, i - 1)
    {
      MarkBlock(sequence, length, shifts, i);
      i := i + 1;
    }
    if length >= 2 {
      assert i == length + 1;
    } else {
      assert shifts == 0;
    }
    assert sequence[..] == ShiftSpec(length);
  }

  /** One pass of the shift-sequence loop: block size i adds one to every entry on its progression. */
  method MarkBlock(sequence: array<int>, length: nat, shifts: int, i: nat)
    requires 2 <= i <= length <= 20 && shifts == Shifts(length) == sequence.Length
    modifies sequence
    ensures forall k :: 0 <= k < shifts ==>
      sequence[k] == old(sequence[k]) + (if Hit(length, i, k) then 1 else 0)
  {
    var initial := 2 * (shifts - 1) / Factorial(i).value;
    var interval := initial + 1;
    assert initial == Initial(length, i);
    var j := initial;
    while j < shifts
      invariant OnProgression(initial, j)
      invariant forall k :: 0 <= k < shifts ==>
        sequence[k] == old(sequence[k]) + (if k < j && Hit(length, i, k) then 1 else 0)
      decreases shifts - j
    {
      HitGap(initial, j);
      sequence[j] := sequence[j] + 1;
      j := j + interval;
    }
  }

  /** Past one point of the progression, the next is a + 1 further on and none lies between. */
  lemma HitGap(a: int, j: int)
    requires a >= 0 && OnProgression(a, j)
    ensures OnProgression(a, j + (a + 1))
    ensures forall k :: j < k < j + (a + 1) ==> !OnProgression(a, k)
  {
    var m := a + 1;
    var q := (j - a) / m;
    assert j - a == m * q;
    DivUnique(j + m - a, m, q + 1, 0);
    forall k | j < k < j + m
      ensures !OnProgression(a, k)
    {
      DivUnique(k - a, m, q, k - j);
    }
  }

  /** The output length of `Find`: 1! + ... + n!. */
  method OutputLength(length: nat) returns (outlen: nat)
    requires length <= 20
    ensures outlen == OutLen(length)
  {
    outlen := 0;
    for i := 1 to length + 1
      invariant outlen == OutLen(i - 1)
    {
      outlen := outlen + Factorial(i).value;
    }
  }

  /**
   * The fill loop of `Find` on an already seeded output: for each shift entry
   * inc, copy the inc symbols that start n positions behind the cursor to just
   * past it, and each also to its mirror position, then advance the cursor by inc.
   */
  method FillOutput(out: array<char>, n: nat, sequence: array<int>, ghost shifts: seq<nat>)
    requires sequence[..] == shifts
    requires n + Sum(shifts) <= out.Length
    modifies out
    ensures out[..] == Filled(old(out[..]), n, shifts, |shifts|)
  {
    ghost var seed := out[..];

    var cur := n;
    for k := 0 to sequence.Length
      invariant cur == n + Sum(shifts[..k])
      invariant out[..] == Filled(seed, n, shifts, k)
    {
      var inc := sequence[k];
      SumStep(shifts, k);
      SumPrefixAtMost(shifts, k + 1);
      ShiftBlock(out, n, cur, inc);
      cur := cur + inc;
    }
  }

  /** The inner fill loop of `Find` for one shift entry inc at cursor cur. */
  method ShiftBlock(out: array<char>, n: nat, cur: nat, inc: nat)
    requires n <= cur && cur + inc <= out.Length
    modifies out
    ensures out[..] == Rotate(old(out[..]), n, cur, inc, inc)
  {
    var outlen := out.Length;
    ghost var before := out[..];
    for i := 0 to inc
      invariant out[..] == Rotate(before, n, cur, inc, i)
    {
      ghost var o := out[..];
      out[cur + inc - i - 1] := out[cur - n + i];
      out[outlen - cur - inc + i] := out[cur - n + i];
      assert out[..] == Mirror(o, cur + inc - i - 1, o[cur - n + i]);
      RotateNext(before, n, cur, inc, i);
    }
  }

  /**
   * `Find`: seed the output with the input at the front and reversed at the
   * back, then walk the shift sequence, each entry inc copying inc symbols from
   * n positions behind the cursor to just past it (and to the mirror position).
   * Every index written or read is within the array.
   */
  method Find(value: seq<char>) returns (r: seq<char>)
    requires |value| <= 20
    ensures r == FindSpec(value)
  {
    var length := |value|;
    var sequence := ShiftSequence(length);
    var outlen := OutputLength(length);
    ghost var shifts := ShiftSpec(length);
    ShiftSum(length);
    CursorFits(length);
    assert shifts[..|shifts|] == shifts;

    var out := SeedOutput(value, outlen);
    FillOutput(out, length, sequence, shifts);
    r := out[..];
  }

  /** The seeding loop of `Find`: a blank output with value written at the front and, reversed, at the back. */
  method SeedOutput(value: seq<char>, outlen: nat) returns (out: array<char>)
    requires |value| <= outlen
    ensures fresh(out) && out[..] == Seeded(value, outlen, |value|)
  {
    out := new char[outlen](_ => '\0');
    for i := 0 to |value|
      invariant out[..] == Seeded(value, outlen, i)
    {
      out[i] := value[i];
      out[outlen - i - 1] := value[i];
    }
  }
}
