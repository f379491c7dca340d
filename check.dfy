/**
 * `Check` of superpermutations.go: build the table `ps` of all orderings of the
 * input, then look every slot up in the candidate string.
 *
 * The goroutines are run one after the other, in bucket order; the suffix
 * array is replaced by a plain substring test (`Found`), which answers what
 * `len(index.Lookup(p, 1)) != 0` answers.
 */
module Verifier {
  import opened Factorials
  import opened Orderings
  import opened Distribution
  import opened Builder

  // ---------------------------------------------------------------------------
  // What a superpermutation is
  // ---------------------------------------------------------------------------

  /** p occurs as a contiguous block of text. */
  predicate Occurs(p: seq<char>, text: seq<char>)
  {
    exists i | 0 <= i <= |text| :: OccursAt(p, text, i)
  }

  /** p occurs in text starting at position i. */
  predicate OccursAt(p: seq<char>, text: seq<char>, i: int)
  {
    0 <= i && i + |p| <= |text| && text[i..i + |p|] == p
  }

  /** text contains every ordering of the symbols as a contiguous block. */
  ghost predicate IsSuperpermutation(symbols: seq<char>, text: seq<char>)
  {
    forall p :: multiset(p) == multiset(symbols) ==> Occurs(p, text)
  }

  /** `len(index.Lookup(p, 1)) != 0`: the lookup reports nothing for an empty pattern. */
  predicate Found(p: seq<char>, text: seq<char>)
  {
    |p| > 0 && Occurs(p, text)
  }

  // ---------------------------------------------------------------------------
  // The table and the verdict
  // ---------------------------------------------------------------------------

  /**
   * The table `ps` once every generating callback has run. With one symbol,
   * the callback's `permutations` of the empty remainder yields nothing, so
   * the single slot keeps its empty initial value.
   */
  function Slots(input: seq<char>): (ps: seq<seq<char>>)
    requires |input| >= 1
    ensures |ps| == Fact(|input|)
  {
    if |input| == 1 then [[]]
    else
      PermutationsCount(input);
      Permutations(input)
  }

  /**
   * The verdict `Check` returns: each bucket [start, end] of the slots hands
   * `ps[start:end]` to the lookup loop, so the slots start .. end-1 must be found.
   */
  predicate CheckSpec(input: seq<char>, text: seq<char>)
    requires 1 <= |input| <= 20
  {
    var ps := Slots(input);
    var bs := Buckets(|ps|);
    BucketsFound(ps, text, bs, |bs|)
  }

  /** The slots start .. end-1 of each of the first b buckets are found. */
  predicate BucketsFound(ps: seq<seq<char>>, text: seq<char>, bs: seq<Bucket>, b: int)
    requires 0 <= b <= |bs|
    requires forall c :: 0 <= c < |bs| ==> 0 <= bs[c].start <= bs[c].end < |ps|
  {
    forall c, k :: 0 <= c < b && bs[c].start <= k < bs[c].end ==> Found(ps[k], text)
  }

  lemma BucketsFoundStep(ps: seq<seq<char>>, text: seq<char>, bs: seq<Bucket>, b: int)
    requires 0 <= b < |bs|
    requires forall c :: 0 <= c < |bs| ==> 0 <= bs[c].start <= bs[c].end < |ps|
    ensures BucketsFound(ps, text, bs, b + 1) ==
      (BucketsFound(ps, text, bs, b) && forall k :: bs[b].start <= k < bs[b].end ==> Found(ps[k], text))
  {
  }

  /** The verdict the source means to return: every ordering of the input is found. */
  predicate CheckIntended(input: seq<char>, text: seq<char>)
  {
    var ps := Permutations(input);
    forall k :: 0 <= k < |ps| ==> Found(ps[k], text)
  }

  /** k is the inclusive end of one of the buckets the lookup phase hands out. */
  predicate BucketEnd(count: int, k: int)
    requires count >= 1
  {
    exists c :: 0 <= c < |Buckets(count)| && Buckets(count)[c].end == k
  }

  // ---------------------------------------------------------------------------
  // The method
  // ---------------------------------------------------------------------------

  /** The first `bound` slots of table are those of slots; the rest are still empty. */
  ghost predicate FilledTo(table: seq<seq<char>>, slots: seq<seq<char>>, bound: int)
  {
    |table| == |slots| && forall j :: 0 <= j < |table| ==> table[j] == if j < bound then slots[j] else []
  }

  lemma FillStep(table: seq<seq<char>>, slots: seq<seq<char>>, m: int)
    requires FilledTo(table, slots, m) && 0 <= m < |table|
    ensures FilledTo(table[m := slots[m]], slots, m + 1)
  {
  }

  /**
   * The generating callback for leading position `current`: the block of
   * (n-1)! slots from current * (n-1)! on receives input[current] followed by
   * each ordering of the remaining symbols, in order.
   */
  method FillLead(ps: array<seq<char>>, input: seq<char>, current: int)
    requires 1 <= |input| <= 20 && 0 <= current < |input|
    requires FilledTo(ps[..], Slots(input), current * Fact(|input| - 1))
    modifies ps
    ensures FilledTo(ps[..], Slots(input), (current + 1) * Fact(|input| - 1))
  {
    ghost var slots := Slots(input);
    var inc := current * Factorial(|input| - 1).value;
    var rest := GeneratePermutations(Splice(input, current));
    if |input| == 1 {
      PermutationsBase(Splice(input, current));
      FillStep(ps[..], slots, 0);
      assert ps[..][0 := slots[0]] == ps[..];
    } else {
      PermutationsCount(Splice(input, current));
    }
    for i := 0 to |rest|
      invariant FilledTo(ps[..], slots, inc + i)
    {
      SlotEntry(input, current, i, inc + i, rest);
      FillStep(ps[..], slots, inc + i);
      ps[inc + i] := [input[current]] + rest[i];
    }
    NextBlock(current, Fact(|input| - 1));
  }

  /** Slot m = current * (n-1)! + i of the table holds input[current] before the i-th ordering of the rest. */
  lemma SlotEntry(input: seq<char>, current: nat, i: nat, m: int, rest: seq<seq<char>>)
    requires 2 <= |input| && current < |input| && i < Fact(|input| - 1)
    requires m == current * Fact(|input| - 1) + i
    requires rest == Permutations(Splice(input, current))
    ensures 0 <= m < |Slots(input)| && i < |rest|
    ensures Slots(input)[m] == [input[current]] + rest[i]
  {
    UpToBlock(input, |input|, current, i, m);
    assert Slots(input) == Permutations(input) == PermutationsUpTo(input, |input|);
  }

  lemma NextBlock(k: int, f: int)
    ensures (k + 1) * f == k * f + f
  {
  }

  /**
   * The lookup callback for the bucket [start, end]: it walks ps[start:end]
   * and reports whether every slot it saw was found.
   */
  method LookupRange(ps: array<seq<char>>, text: seq<char>, start: int, end: int) returns (found: bool)
    requires 0 <= start <= end <= ps.Length
    ensures found == forall k :: start <= k < end ==> Found(ps[k], text)
  {
    found := true;
    for k := start to end
      invariant found == forall k' :: start <= k' < k ==> Found(ps[k'], text)
    {
      if !Found(ps[k], text) {
        found := false;
      }
    }
  }

  /**
   * `Check`: fill `ps` one leading symbol at a time, then run the lookup
   * callback over every bucket of the slots; any miss turns the status false.
   */
  method Check(input: seq<char>, superpermutation: seq<char>) returns (status: bool)
    requires 1 <= |input| <= 20
    ensures status == CheckSpec(input, superpermutation)
  {
    var ps := GenerateSlots(input);
    status := LookupSlots(ps, superpermutation);
  }

  /** The generating phase of `Check`: one callback per leading position fills its block of slots. */
  method GenerateSlots(input: seq<char>) returns (ps: array<seq<char>>)
    requires 1 <= |input| <= 20
    ensures fresh(ps) && ps[..] == Slots(input)
  {
    var length := |input|;
    ps := new seq<char>[Factorial(length).value](_ => []);
    var leads := Distribute(length);
    SmallCountSingletons(length);
    for b := 0 to |leads|
      invariant FilledTo(ps[..], Slots(input), b * Fact(length - 1))
    {
      FillLead(ps, input, leads[b].start);
    }
    FactStep(length);
    assert ps[..] == Slots(input);
  }

  /** The lookup phase of `Check`: one callback per bucket of the slots, any miss clears the status. */
  method LookupSlots(ps: array<seq<char>>, superpermutation: seq<char>) returns (status: bool)
    requires ps.Length >= 1
    ensures status == BucketsFound(ps[..], superpermutation, Buckets(ps.Length), |Buckets(ps.Length)|)
  {
    status := true;
    var ranges := Distribute(ps.Length);
    for b := 0 to |ranges|
      invariant status == BucketsFound(ps[..], superpermutation, ranges, b)
    {
      var found := LookupRange(ps, superpermutation, ranges[b].start, ranges[b].end);
      BucketsFoundStep(ps[..], superpermutation, ranges, b);
      if !found {
        status := false;
      }
    }
  }

  // ---------------------------------------------------------------------------
  // The check as intended
  // ---------------------------------------------------------------------------

  /** Every slot of the first b buckets, bucket ends included, is found. */
  predicate InclusiveFound(ps: seq<seq<char>>, text: seq<char>, bs: seq<Bucket>, b: int)
    requires 0 <= b <= |bs|
    requires forall c :: 0 <= c < |bs| ==> 0 <= bs[c].start <= bs[c].end < |ps|
  {
    forall c, k :: 0 <= c < b && bs[c].start <= k <= bs[c].end ==> Found(ps[k], text)
  }

  /**
   * `Check` with both defects repaired: the table is `permutations(input)`
   * itself, so a single symbol gets its one ordering, and every bucket is
   * walked up to and including its end.
   */
  method CheckCorrected(input: seq<char>, superpermutation: seq<char>) returns (status: bool)
    requires 1 <= |input| <= 20
    ensures status == CheckIntended(input, superpermutation)
  {
    var ps := GeneratePermutations(input);
    PermutationsCount(input);
    var ranges := Distribute(|ps|);
    status := true;
    for b := 0 to |ranges|
      invariant status == InclusiveFound(ps, superpermutation, ranges, b)
    {
      var found := LookupInclusive(ps, superpermutation, ranges[b].start, ranges[b].end);
      if !found {
        status := false;
      }
    }
    InclusiveCoversAll(ps, superpermutation);
  }

  /** The lookup callback walking ps[start:end+1]. */
  method LookupInclusive(ps: seq<seq<char>>, text: seq<char>, start: int, end: int) returns (found: bool)
    requires 0 <= start <= end < |ps|
    ensures found == forall k :: start <= k <= end ==> Found(ps[k], text)
  {
    found := true;
    for k := start to end + 1
      invariant found == forall k' :: start <= k' < k ==> Found(ps[k'], text)
    {
      if !Found(ps[k], text) {
        found := false;
      }
    }
  }

  /** Since the buckets tile the slots, finding every bucket in full is finding every slot. */
  lemma InclusiveCoversAll(ps: seq<seq<char>>, text: seq<char>)
    requires |ps| >= 1
    ensures InclusiveFound(ps, text, Buckets(|ps|), |Buckets(|ps|)|) <==>
      forall k :: 0 <= k < |ps| ==> Found(ps[k], text)
  {
    var bs := Buckets(|ps|);
    if InclusiveFound(ps, text, bs, |bs|) {
      forall k | 0 <= k < |ps|
        ensures Found(ps[k], text)
      {
        var c := BucketOf(|ps|, k);
      }
    }
  }

  // ---------------------------------------------------------------------------
  // What the verdict means
  // ---------------------------------------------------------------------------

  /** Checking every ordering, as intended, is exactly recognising a superpermutation. */
  lemma CheckIntendedIsSuperpermutation(input: seq<char>, text: seq<char>)
    requires |input| >= 1
    ensures CheckIntended(input, text) <==> IsSuperpermutation(input, text)
  {
    var ps := Permutations(input);
    if CheckIntended(input, text) {
      forall p | multiset(p) == multiset(input)
        ensures Occurs(p, text)
      {
        PermutationsExactly(input, p);
        var k :| 0 <= k < |ps| && ps[k] == p;
        assert Found(ps[k], text);
      }
    }
    if IsSuperpermutation(input, text) {
      forall k | 0 <= k < |ps|
        ensures Found(ps[k], text)
      {
        PermutationsRearrange(input, ps[k]);
        assert Occurs(ps[k], text);
      }
    }
  }

  /** The check as written never rejects a genuine superpermutation. */
  lemma SuperpermutationPasses(input: seq<char>, text: seq<char>)
    requires 1 <= |input| <= 20
    requires IsSuperpermutation(input, text)
    ensures CheckSpec(input, text)
  {
    var ps := Slots(input);
    var bs := Buckets(|ps|);
    if |input| == 1 {
      SmallCountSingletons(1);
    } else {
      forall c, k | 0 <= c < |bs| && bs[c].start <= k < bs[c].end
        ensures Found(ps[k], text)
      {
        PermutationsRearrange(input, ps[k]);
        assert Occurs(ps[k], text);
      }
    }
  }

  /**
   * The lookup phase skips exactly the bucket ends: the check as written holds
   * when every slot that is not the last of its bucket is found.
   */
  lemma CheckSkipsBucketEnds(input: seq<char>, text: seq<char>)
    requires 1 <= |input| <= 20
    ensures CheckSpec(input, text) <==>
      forall k :: 0 <= k < Fact(|input|) && !BucketEnd(Fact(|input|), k) ==> Found(Slots(input)[k], text)
  {
    var ps := Slots(input);
    var bs := Buckets(|ps|);
    BucketsOrdered(|ps|);
    if CheckSpec(input, text) {
      forall k | 0 <= k < |ps| && !BucketEnd(|ps|, k)
        ensures Found(ps[k], text)
      {
        var c := BucketOf(|ps|, k);
        assert bs[c].end != k;
      }
    }
    if forall k :: 0 <= k < |ps| && !BucketEnd(|ps|, k) ==> Found(ps[k], text) {
      forall c, k | 0 <= c < |bs| && bs[c].start <= k < bs[c].end
        ensures Found(ps[k], text)
      {
        InsideIsNotEnd(|ps|, c, k);
      }
    }
  }

  /** A slot strictly before the end of its bucket is no bucket's end. */
  lemma InsideIsNotEnd(count: int, c: int, k: int)
    requires count >= 1 && 0 <= c < |Buckets(count)|
    requires Buckets(count)[c].start <= k < Buckets(count)[c].end
    ensures !BucketEnd(count, k)
  {
    var bs := Buckets(count);
    BucketsOrdered(count);
    forall d | 0 <= d < |bs|
      ensures bs[d].end != k
    {
      if d > c {
        assert bs[d].start <= bs[d].end;
      }
    }
  }

  /** Up to four symbols there are at most 24 slots, every bucket is a single slot, and nothing is looked up. */
  lemma SmallInputsPass(input: seq<char>, text: seq<char>)
    requires 1 <= |input| <= 4
    ensures CheckSpec(input, text)
  {
    var n := |input|;
    if n == 1 {
    } else if n == 2 {
      assert Fact(n) == 2 * Fact(1);
    } else if n == 3 {
      assert Fact(n) == 3 * Fact(2);
    } else {
      assert Fact(n) == 4 * Fact(3);
    }
    assert Fact(n) <= 24;
    SmallCountSingletons(Fact(|input|));
  }

  /** "abcabcabc" lacks "cba", yet the check as written accepts it for "abc"; the intended check does not. */
  lemma CheckAcceptsNonSuperpermutation()
    ensures CheckSpec("abc", "abcabcabc")
    ensures !IsSuperpermutation("abc", "abcabcabc")
    ensures !CheckIntended("abc", "abcabcabc")
  {
    SmallInputsPass("abc", "abcabcabc");
    RepeatLacksReverse('a', 'b', 'c');
    assert multiset("cba") == multiset("abc");
    CheckIntendedIsSuperpermutation("abc", "abcabcabc");
  }

  /** Three distinct symbols repeated three times never show them in reverse. */
  lemma RepeatLacksReverse(x: char, y: char, z: char)
    requires x != y && y != z && x != z
    ensures !Occurs([z, y, x], [x, y, z, x, y, z, x, y, z])
  {
    var text := [x, y, z, x, y, z, x, y, z];
    forall i | 0 <= i <= |text|
      ensures !OccursAt([z, y, x], text, i)
    {
      if i + 3 <= |text| {
        assert text[i..i + 3][0] == text[i] && text[i..i + 3][1] == text[i + 1];
        if i == 0 || i == 3 || i == 6 {
          assert text[i] == x;
        } else if i == 1 || i == 4 {
          assert text[i] == y;
        } else {
          assert text[i + 1] == x;
        }
      }
    }
  }

  /** What `Find` builds for one, two and three symbols is a superpermutation of them. */
  lemma FindIsSuperpermutationSmall()
    ensures IsSuperpermutation("a", FindSpec("a"))
    ensures IsSuperpermutation("ab", FindSpec("ab"))
    ensures IsSuperpermutation("abc", FindSpec("abc"))
  {
    FindOne();
    FindTwo();
    FindThree();
    OneSymbol();
    TwoSymbols();
    ThreeSymbols();
  }

  lemma OneSymbol()
    ensures IsSuperpermutation("a", "a")
  {
    forall p | multiset(p) == multiset("a")
      ensures Occurs(p, "a")
    {
      PermutationsExactly("a", p);
      PermutationsBase("a");
      assert p == "a";
      assert OccursAt(p, "a", 0);
    }
  }

  lemma TwoSymbols()
    ensures IsSuperpermutation("ab", "aba")
  {
    OrderingsOfTwo('a', 'b');
  }

  lemma OrderingsOfTwo(x: char, y: char)
    ensures IsSuperpermutation([x, y], [x, y, x])
  {
    var text := [x, y, x];
    var ps := Permutations([x, y]);
    PermutationsOfTwo(x, y);
    assert OccursAt(ps[0], text, 0) && OccursAt(ps[1], text, 1);
    assert forall k :: 0 <= k < 2 ==> Found(ps[k], text);
    CheckIntendedIsSuperpermutation([x, y], text);
  }

  lemma ThreeSymbols()
    ensures IsSuperpermutation("abc", "abcabacba")
  {
    OrderingsOfThree('a', 'b', 'c');
  }

  lemma OrderingsOfThree(x: char, y: char, z: char)
    ensures IsSuperpermutation([x, y, z], [x, y, z, x, y, x, z, y, x])
  {
    var text := [x, y, z, x, y, x, z, y, x];
    var ps := Permutations([x, y, z]);
    PermutationsOfThree(x, y, z);
    assert OccursAt(ps[0], text, 0) && OccursAt(ps[1], text, 5) && OccursAt(ps[2], text, 4);
    assert OccursAt(ps[3], text, 1) && OccursAt(ps[4], text, 2) && OccursAt(ps[5], text, 6);
    assert forall k :: 0 <= k < 6 ==> Found(ps[k], text);
    CheckIntendedIsSuperpermutation([x, y, z], text);
  }
}
