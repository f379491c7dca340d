/**
 * `splice` and `permutations` of superpermutations.go: permutations are
 * enumerated by recursive head-removal, block by block, one block per choice
 * of leading symbol.
 */
module Orderings {
  import opened Factorials

  /** `splice`: a fresh copy of s without its element at index. */
  function Splice<T>(s: seq<T>, index: int): (r: seq<T>)
    requires 0 <= index < |s|
    ensures |r| == |s| - 1
  {
    s[..index] + s[index + 1..]
  }

  /**
   * What `splice` leaves: the elements before index in place, those after it
   * moved down by one, so exactly one copy of s[index] is gone.
   */
  lemma SpliceContents<T>(s: seq<T>, index: int)
    requires 0 <= index < |s|
    ensures forall k :: 0 <= k < |s| - 1 ==> Splice(s, index)[k] == if k < index then s[k] else s[k + 1]
    ensures multiset(Splice(s, index)) == multiset(s) - multiset{s[index]}
  {
    var before, after := s[..index], s[index + 1..];
    assert s == before + [s[index]] + after;
    assert multiset(s) == multiset(before) + multiset{s[index]} + multiset(after);
    assert multiset(Splice(s, index)) == multiset(before) + multiset(after);
  }

  /** Every sequence of ps with x in front. */
  function Prepend<T>(x: T, ps: seq<seq<T>>): (r: seq<seq<T>>)
    ensures |r| == |ps|
    ensures forall i :: 0 <= i < |ps| ==> r[i] == [x] + ps[i]
  {
    if ps == [] then [] else Prepend(x, ps[..|ps| - 1]) + [[x] + ps[|ps| - 1]]
  }

  /**
   * `permutations`: a one-element input is its own only permutation; any other
   * input (the empty one included) gets one block per position, in order.
   */
  function Permutations<T>(s: seq<T>): seq<seq<T>>
    decreases |s|, 1, 0
  {
    if |s| == 1 then [s] else PermutationsUpTo(s, |s|)
  }

  /** The blocks for the leading positions 0 .. c-1, as the outer loop has appended them. */
  function PermutationsUpTo<T>(s: seq<T>, c: nat): seq<seq<T>>
    requires c <= |s|
    decreases |s|, 0, c
  {
    if c == 0 then []
    else PermutationsUpTo(s, c - 1) + Prepend(s[c - 1], Permutations(Splice(s, c - 1)))
  }

  /**
   * `permutations` as the Go code runs it: recursion on the spliced input and
   * append-accumulation in two nested loops.
   */
  method GeneratePermutations<T>(input: seq<T>) returns (p: seq<seq<T>>)
    ensures p == Permutations(input)
    decreases |input|
  {
    if |input| == 1 {
      return [input];
    }
    p := [];
    for i := 0 to |input|
      invariant p == PermutationsUpTo(input, i)
    {
      var head := input[i];
      var rest := GeneratePermutations(Splice(input, i));
      for k := 0 to |rest|
        invariant p == PermutationsUpTo(input, i) + Prepend(head, rest[..k])
      {
        assert rest[..k + 1][..k] == rest[..k];
        p := p + [[head] + rest[k]];
      }
      assert rest[..|rest|] == rest;
    }
  }

  /** A one-symbol input yields itself; the empty input yields no permutation at all. */
  lemma PermutationsBase<T>(s: seq<T>)
    requires |s| <= 1
    ensures |s| == 0 ==> Permutations(s) == []
    ensures |s| == 1 ==> Permutations(s) == [s]
  {
  }

  /** A non-empty input has exactly |s|! permutations. */
  lemma {:induction false} PermutationsCount<T>(s: seq<T>)
    requires |s| >= 1
    ensures |Permutations(s)| == Fact(|s|)
    decreases |s|, 1
  {
    if |s| > 1 {
      UpToCount(s, |s|);
      FactStep(|s|);
    }
  }

  lemma {:induction false} UpToCount<T>(s: seq<T>, c: nat)
    requires 2 <= |s| && c <= |s|
    ensures |PermutationsUpTo(s, c)| == c * Fact(|s| - 1)
    decreases |s|, 0, c
  {
    if c > 0 {
      UpToCount(s, c - 1);
      PermutationsCount(Splice(s, c - 1));
      assert c * Fact(|s| - 1) == (c - 1) * Fact(|s| - 1) + Fact(|s| - 1);
    }
  }

  /**
   * The layout: for a leading position k and a rank i below (|s|-1)!, entry
   * k*(|s|-1)! + i is s[k] followed by the i-th permutation of Splice(s, k).
   * In particular the k-th block of (|s|-1)! entries all begin with s[k].
   */
  lemma PermutationsBlock<T>(s: seq<T>, k: nat, i: nat)
    requires 2 <= |s| && k < |s| && i < Fact(|s| - 1)
    ensures |Permutations(s)| == Fact(|s|) && |Permutations(Splice(s, k))| == Fact(|s| - 1)
    ensures k * Fact(|s| - 1) + i < Fact(|s|)
    ensures Permutations(s)[k * Fact(|s| - 1) + i] == [s[k]] + Permutations(Splice(s, k))[i]
  {
    var j := k * Fact(|s| - 1) + i;
    UpToBlock(s, |s|, k, i, j);
    assert Permutations(s) == PermutationsUpTo(s, |s|);
    PermutationsCount(s);
    PermutationsCount(Splice(s, k));
  }

  lemma {:induction false} UpToBlock<T>(s: seq<T>, c: nat, k: nat, i: nat, j: nat)
    requires 2 <= |s| && k < c <= |s| && i < Fact(|s| - 1) && j == k * Fact(|s| - 1) + i
    ensures i < |Permutations(Splice(s, k))|
    ensures j < |PermutationsUpTo(s, c)|
    ensures PermutationsUpTo(s, c)[j] == [s[k]] + Permutations(Splice(s, k))[i]
  {
    PermutationsCount(Splice(s, k));
    if k < c - 1 {
      UpToBlock(s, c - 1, k, i, j);
      UpToKeepsEarlier(s, c, j);
    } else {
      UpToLastBlock(s, c, k, i, j);
    }
  }

  /** Appending a block leaves the entries already there in place. */
  lemma UpToKeepsEarlier<T>(s: seq<T>, c: nat, j: nat)
    requires 1 <= c <= |s| && j < |PermutationsUpTo(s, c - 1)|
    ensures j < |PermutationsUpTo(s, c)| && PermutationsUpTo(s, c)[j] == PermutationsUpTo(s, c - 1)[j]
  {
    var before := PermutationsUpTo(s, c - 1);
    var block := Prepend(s[c - 1], Permutations(Splice(s, c - 1)));
    assert PermutationsUpTo(s, c) == before + block;
  }

  /** The entries of the block appended for position k = c - 1. */
  lemma UpToLastBlock<T>(s: seq<T>, c: nat, k: nat, i: nat, j: nat)
    requires 2 <= |s| && 1 <= c <= |s| && k == c - 1 && i < Fact(|s| - 1) && j == k * Fact(|s| - 1) + i
    ensures i < |Permutations(Splice(s, k))|
    ensures j < |PermutationsUpTo(s, c)|
    ensures PermutationsUpTo(s, c)[j] == [s[k]] + Permutations(Splice(s, k))[i]
  {
    var before := PermutationsUpTo(s, k);
    var block := Prepend(s[k], Permutations(Splice(s, k)));
    assert PermutationsUpTo(s, c) == before + block;
    PermutationsCount(Splice(s, k));
    UpToCount(s, k);
    assert (before + block)[|before| + i] == block[i];
  }

  /** Soundness: every entry of Permutations(s) is a rearrangement of s. */
  lemma {:induction false} PermutationsRearrange<T>(s: seq<T>, p: seq<T>)
    requires p in Permutations(s)
    ensures multiset(p) == multiset(s) && |p| == |s|
    decreases |s|, 1
  {
    if |s| != 1 {
      UpToRearrange(s, |s|, p);
    }
    assert |multiset(p)| == |p|;
  }

  lemma {:induction false} UpToRearrange<T>(s: seq<T>, c: nat, p: seq<T>)
    requires c <= |s| && p in PermutationsUpTo(s, c)
    ensures multiset(p) == multiset(s)
    decreases |s|, 0, c
  {
    if p in PermutationsUpTo(s, c - 1) {
      UpToRearrange(s, c - 1, p);
    } else {
      var block := Prepend(s[c - 1], Permutations(Splice(s, c - 1)));
      var i :| 0 <= i < |block| && block[i] == p;
      var q := Permutations(Splice(s, c - 1))[i];
      PermutationsRearrange(Splice(s, c - 1), q);
      SpliceContents(s, c - 1);
      assert p == [s[c - 1]] + q;
    }
  }

  /** Completeness: every rearrangement of a non-empty s is among Permutations(s). */
  lemma {:induction false} PermutationsComplete<T>(s: seq<T>, p: seq<T>)
    requires |s| >= 1 && multiset(p) == multiset(s)
    ensures p in Permutations(s)
    decreases |s|
  {
    assert |p| == |s| by {
      assert |multiset(p)| == |p| && |multiset(s)| == |s|;
    }
    assert p[0] in multiset(s);
    var k :| 0 <= k < |s| && s[k] == p[0];
    if |s| == 1 {
      assert p == [p[0]] == s;
    } else {
      var rest := Splice(s, k);
      SpliceContents(s, k);
      assert p == [p[0]] + p[1..];
      assert multiset(p[1..]) == multiset(rest) by {
        assert multiset(p) == multiset{p[0]} + multiset(p[1..]);
      }
      PermutationsComplete(rest, p[1..]);
      var i :| 0 <= i < |Permutations(rest)| && Permutations(rest)[i] == p[1..];
      UpToHasBlock(s, |s|, k, i);
    }
  }

  lemma {:induction false} UpToHasBlock<T>(s: seq<T>, c: nat, k: nat, i: nat)
    requires k < c <= |s| && i < |Permutations(Splice(s, k))|
    ensures [s[k]] + Permutations(Splice(s, k))[i] in PermutationsUpTo(s, c)
  {
    var before := PermutationsUpTo(s, c - 1);
    var block := Prepend(s[c - 1], Permutations(Splice(s, c - 1)));
    assert PermutationsUpTo(s, c) == before + block;
    if k < c - 1 {
      UpToHasBlock(s, c - 1, k, i);
    } else {
      assert block[i] == [s[k]] + Permutations(Splice(s, k))[i];
      assert (before + block)[|before| + i] == block[i];
    }
  }

  /** For a non-empty input, membership in Permutations(s) is exactly being a rearrangement of s. */
  lemma PermutationsExactly<T>(s: seq<T>, p: seq<T>)
    requires |s| >= 1
    ensures p in Permutations(s) <==> multiset(p) == multiset(s)
  {
    if p in Permutations(s) {
      PermutationsRearrange(s, p);
    }
    if multiset(p) == multiset(s) {
      PermutationsComplete(s, p);
    }
  }

  /** No element occurs twice. */
  ghost predicate Distinct<T>(xs: seq<T>)
  {
    forall a, b :: 0 <= a < b < |xs| ==> xs[a] != xs[b]
  }

  /** With pairwise distinct symbols, the generated permutations are pairwise distinct. */
  lemma {:induction false} PermutationsDistinct<T>(s: seq<T>)
    requires Distinct(s)
    ensures Distinct(Permutations(s))
    decreases |s|, 1
  {
    if |s| != 1 {
      UpToDistinct(s, |s|);
    }
  }

  lemma {:induction false} UpToDistinct<T>(s: seq<T>, c: nat)
    requires Distinct(s) && c <= |s|
    ensures Distinct(PermutationsUpTo(s, c))
    decreases |s|, 0, c
  {
    if c > 0 {
      var before := PermutationsUpTo(s, c - 1);
      var rest := Splice(s, c - 1);
      var block := Prepend(s[c - 1], Permutations(rest));
      assert PermutationsUpTo(s, c) == before + block;
      UpToDistinct(s, c - 1);
      SpliceDistinct(s, c - 1);
      PermutationsDistinct(rest);
      PrependDistinct(s[c - 1], Permutations(rest));
      UpToLeading(s, c - 1);
      forall a, b | 0 <= a < |before| && 0 <= b < |block|
        ensures before[a] != block[b]
      {
        assert before[a] in before;
        var j :| 0 <= j < c - 1 && before[a][0] == s[j];
        assert block[b][0] == s[c - 1];
      }
      AppendDistinct(before, block);
    }
  }

  /** Putting the same element in front keeps distinct sequences distinct. */
  lemma PrependDistinct<T>(x: T, ps: seq<seq<T>>)
    requires Distinct(ps)
    ensures Distinct(Prepend(x, ps))
  {
    var r := Prepend(x, ps);
    forall a, b | 0 <= a < b < |r|
      ensures r[a] != r[b]
    {
      assert r[a][1..] == ps[a] && r[b][1..] == ps[b];
    }
  }

  /** Two duplicate-free sequences with no element in common join into one. */
  lemma AppendDistinct<U>(xs: seq<U>, ys: seq<U>)
    requires Distinct(xs) && Distinct(ys)
    requires forall a, b :: 0 <= a < |xs| && 0 <= b < |ys| ==> xs[a] != ys[b]
    ensures Distinct(xs + ys)
  {
    forall a, b | 0 <= a < b < |xs + ys|
      ensures (xs + ys)[a] != (xs + ys)[b]
    {
      if b >= |xs| && a < |xs| {
        assert (xs + ys)[b] == ys[b - |xs|];
      }
    }
  }

  /** Every entry of the first c blocks is non-empty and starts with one of s[0], ..., s[c-1]. */
  lemma {:induction false} UpToLeading<T>(s: seq<T>, c: nat)
    requires c <= |s|
    ensures forall p :: p in PermutationsUpTo(s, c) ==> |p| >= 1 && exists j :: 0 <= j < c && p[0] == s[j]
  {
    if c > 0 {
      var before := PermutationsUpTo(s, c - 1);
      var block := Prepend(s[c - 1], Permutations(Splice(s, c - 1)));
      assert PermutationsUpTo(s, c) == before + block;
      UpToLeading(s, c - 1);
      forall p | p in before + block
        ensures |p| >= 1 && exists j :: 0 <= j < c && p[0] == s[j]
      {
        if p !in before {
          var i :| 0 <= i < |block| && block[i] == p;
          assert p[0] == s[c - 1];
        }
      }
    }
  }

  /** Removing one element keeps the others pairwise distinct. */
  lemma SpliceDistinct<T>(s: seq<T>, index: int)
    requires 0 <= index < |s| && Distinct(s)
    ensures Distinct(Splice(s, index))
  {
    SpliceContents(s, index);
  }

  /** Two elements give both orders, the input's own first. */
  lemma PermutationsOfTwo<T>(x: T, y: T)
    ensures Permutations([x, y]) == [[x, y], [y, x]]
  {
    var s := [x, y];
    assert Splice(s, 0) == [y] && Splice(s, 1) == [x];
    PermutationsBase([y]);
    PermutationsBase([x]);
    assert [x] + [y] == [x, y] && [y] + [x] == [y, x];
    assert Prepend(x, [[y]]) == [[x, y]];
    assert Prepend(y, [[x]]) == [[y, x]];
    assert PermutationsUpTo(s, 1) == [] + Prepend(x, [[y]]);
    assert PermutationsUpTo(s, 2) == PermutationsUpTo(s, 1) + Prepend(y, [[x]]);
  }

  /** Three elements give the six orders, grouped by their leading element. */
  lemma PermutationsOfThree<T>(x: T, y: T, z: T)
    ensures Permutations([x, y, z]) == [[x, y, z], [x, z, y], [y, x, z], [y, z, x], [z, x, y], [z, y, x]]
  {
    var s := [x, y, z];
    ThreeBlock(s, 0, x, y, z);
    ThreeBlock(s, 1, y, x, z);
    ThreeBlock(s, 2, z, x, y);
    assert PermutationsUpTo(s, 1) == [] + [[x, y, z], [x, z, y]];
    assert PermutationsUpTo(s, 2) == PermutationsUpTo(s, 1) + [[y, x, z], [y, z, x]];
    assert PermutationsUpTo(s, 3) == PermutationsUpTo(s, 2) + [[z, x, y], [z, y, x]];
  }

  /** The block for leading position k of a three-element input. */
  lemma ThreeBlock<T>(s: seq<T>, k: nat, h: T, a: T, b: T)
    requires |s| == 3 && k < 3 && s[k] == h
    requires Splice(s, k) == [a, b]
    ensures Prepend(s[k], Permutations(Splice(s, k))) == [[h, a, b], [h, b, a]]
  {
    PermutationsOfTwo(a, b);
    PrependTwo(h, [a, b], [b, a]);
  }

  lemma PrependTwo<T>(h: T, a: seq<T>, b: seq<T>)
    requires |a| == 2 && |b| == 2
    ensures Prepend(h, [a, b]) == [[h, a[0], a[1]], [h, b[0], b[1]]]
  {
    assert [h] + a == [h, a[0], a[1]];
    assert [h] + b == [h, b[0], b[1]];
  }
}
