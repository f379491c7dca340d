# superpermutations — a Dafny model

`superpermutations.go` builds and checks superpermutations. A superpermutation
of a set of symbols is a string that contains every ordering of those symbols
as a contiguous block.

- `Find(value)` builds such a string for the symbols of `value`. It first
  computes a *shift sequence* of n!/2 entries: block size i adds one to every
  n!/i!-th entry. It then writes `value` at both ends of an output buffer of
  length 1! + ... + n!. Finally it walks the shift sequence and copies
  symbols forward, each write paired with a write at the mirror position.
- `Check(input, s)` enumerates every ordering of `input` into a table `ps`.
  There is one callback per leading symbol, and each callback fills one
  block of (n-1)! slots. `Check` then hands the slots out in buckets and
  looks each slot up in a suffix array of `s`.
- `permutations` and `splice` produce the orderings by removing the head
  recursively.
- `distribute` cuts a count into at most 32 contiguous buckets, which differ
  in size by at most one.
- `factorial` is a table lookup of 0! .. 20!.

The model has one module per concern:

- `Factorials` (factorial.dfy) models `factorial`.
- `Orderings` (permutations.dfy) models `splice` and `permutations`.
- `Distribution` (distribute.dfy) models the bucket arithmetic of `distribute`.
- `Builder` (find.dfy) models `Find`.
- `Verifier` (check.dfy) models `Check`.

Code that mutates a buffer is modelled as methods over arrays. The shift
sequence, the output buffer and the table `ps` are arrays, and their loops
are `while`/`for` loops with invariants. Each method is proved equal to a
specification function, and the promised properties are proved about that
function.

- Symbols are `char`s, and each symbol is one byte.
- A Go panic becomes a precondition: a factorial past 20, or `distribute` of
  zero, which divides by zero. The exception is `factorial` itself, which
  returns an `Outcome` so that its faulty guard can be seen.
- For two symbols the code gives `"aba"`. Some descriptions of the program
  give `"abba"`, which is not what the code does; the model follows the code.
- Some descriptions say that a count of zero launches no buckets. The code
  divides by zero instead, so the model follows the code with a
  precondition.

## Model

| member | source | states |
|---|---|---|
| Factorials.TableIsFactorial | superpermutations.go:133 | entry a of the literal table is a! for every a from 0 to 20 |
| Factorials.TableFitsInt64 | superpermutations.go:131-133 | the table stops at the largest factorial that fits a 64-bit int: 20! fits and 21! does not |
| Factorials.FactorialAsWritten | superpermutations.go:132-138 | as written: a! for 0 <= a <= 20; a = 21 passes the guard and fails on the index; a > 21 fails the guard |
| Factorials.Factorial | superpermutations.go:132-138 | corrected guard: succeeds exactly for 0 <= a <= 20, returns a!, and every a > 20 is refused by the guard |
| Factorials.GuardOffByOne | superpermutations.go:134-137 | the two guards disagree on exactly one input, 21 |
| Orderings.Splice | superpermutations.go:141-146 | the result is one element shorter than the input |
| Orderings.SpliceContents | superpermutations.go:141-146 | elements before index stay in place and later ones move down by one; the multiset loses exactly one copy of s[index] |
| Orderings.GeneratePermutations | superpermutations.go:88-101 | the nested append loops with recursion return exactly Permutations(input) |
| Orderings.PermutationsBase | superpermutations.go:88-101 | a one-element input is its own only ordering; the empty input yields no orderings at all |
| Orderings.PermutationsCount | superpermutations.go:88-101 | a non-empty input of n elements has exactly n! orderings |
| Orderings.PermutationsBlock | superpermutations.go:94-98 | entry k*(n-1)! + i is s[k] followed by the i-th ordering of Splice(s, k), which is the layout Check relies on |
| Orderings.PermutationsExactly | superpermutations.go:88-101 | p is generated if and only if p is a rearrangement of the input (sound and complete) |
| Orderings.PermutationsDistinct | superpermutations.go:88-101 | with pairwise distinct symbols, no ordering is generated twice |
| Orderings.PermutationsOfTwo | superpermutations.go:88-101 | two elements give [x,y] then [y,x] |
| Orderings.PermutationsOfThree | superpermutations.go:88-101 | three elements give the six orders, grouped by leading element in input order |
| Distribution.Buckets | superpermutations.go:105-129 | min(32, count) buckets, each an inclusive range inside [0, count) |
| Distribution.Distribute | superpermutations.go:105-129 | the counting loop produces exactly Buckets(count), in launch order |
| Distribution.BucketsTile | superpermutations.go:103-121 | the buckets tile [0, count) in order; the first count % b buckets get one extra unit, so sizes differ by at most one |
| Distribution.BucketOf | superpermutations.go:108-121 | every index lies in exactly one bucket |
| Distribution.SmallCountSingletons | superpermutations.go:108-120 | up to 32 units, bucket i is the single index i |
| Builder.ShiftSequence | superpermutations.go:13-23 | the array built in place equals ShiftSpec(n): entry j counts the block sizes whose progression passes j |
| Builder.MarkBlock | superpermutations.go:18-22 | one pass adds one to exactly the entries on block size i's progression and leaves the rest unchanged |
| Builder.HitIff | superpermutations.go:18-21 | block size i increments entry j if and only if j mod (n!/i!) is n!/i! - 1 |
| Builder.BlockHitCount | superpermutations.go:17-22 | block size i increments exactly i!/2 entries |
| Builder.ShiftEntriesBounded | superpermutations.go:17-22 | every shift is at most n - 1, so a copy never reads beyond the last n symbols |
| Builder.ShiftSum | superpermutations.go:13-23 | the shifts sum to 2!/2 + ... + n!/2 |
| Builder.OutputLength | superpermutations.go:26-29 | the output length is 1! + ... + n! |
| Builder.CursorFits | superpermutations.go:39-46 | the front cursor n + sum of shifts stays within the output |
| Builder.CursorCovers | superpermutations.go:26-46 | the two cursors meet: the output is at most twice n + sum of shifts |
| Builder.SeedOutput | superpermutations.go:30-36 | the seeding loop leaves value at the front, reversed at the back, and blanks between |
| Builder.ShiftBlock | superpermutations.go:41-44 | one inner fill loop equals Rotate: each pass is one write paired with its mirror |
| Builder.FillOutput | superpermutations.go:38-46 | the fill loop over the shift sequence equals the fold Filled of the seeded output |
| Builder.Find | superpermutations.go:11-49 | Find returns FindSpec(value) |
| Builder.FindSpec | superpermutations.go:11-49 | the output has length 1! + ... + n! and reads the same backwards |
| Builder.FindSpecSymbols | superpermutations.go:11-49 | every output symbol is a symbol of the input |
| Builder.FindOne | superpermutations.go:11-49 | Find("a") is "a" |
| Builder.FindTwo | superpermutations.go:11-49 | Find("ab") is "aba" |
| Builder.FindThree | superpermutations.go:11-49 | Find("abc") is "abcabacba" |
| Verifier.FindIsSuperpermutationSmall | superpermutations.go:10-11 | for one, two and three symbols, Find's output contains every ordering |
| Verifier.FillLead | superpermutations.go:59-64 | the generating callback for leading position c fills exactly slots c*(n-1)! .. (c+1)*(n-1)! - 1 and leaves later slots empty |
| Verifier.SlotEntry | superpermutations.go:60-62 | slot c*(n-1)! + i receives input[c] followed by the i-th ordering of the rest |
| Verifier.GenerateSlots | superpermutations.go:55-64 | the generating phase leaves ps equal to Slots(input); for one symbol that is the single empty slot |
| Verifier.LookupRange | superpermutations.go:77-81 | the lookup callback reports whether every slot of ps[start:end] is found |
| Verifier.LookupSlots | superpermutations.go:74-82 | the lookup phase's status is true exactly when every bucket's start..end-1 slots are found |
| Verifier.Check | superpermutations.go:52-85 | Check returns CheckSpec: the verdict of the code as written |
| Verifier.CheckSkipsBucketEnds | superpermutations.go:76-77 | Check holds if and only if every slot that is not the last slot of its bucket is found |
| Verifier.SuperpermutationPasses | superpermutations.go:52-85 | a genuine superpermutation always passes Check |
| Verifier.SmallInputsPass | superpermutations.go:76-77 | for 1 to 4 symbols every bucket is a single slot, so Check accepts any string |
| Verifier.CheckAcceptsNonSuperpermutation | superpermutations.go:76-77 | Check accepts "abcabcabc" for "abc", which lacks "cba" |
| Verifier.CheckCorrected | superpermutations.go:52-85 | with the full table and inclusive bucket ends, the status is true exactly when every ordering is found |
| Verifier.LookupInclusive | superpermutations.go:76-81 | the corrected callback reports whether every slot of ps[start:end+1] is found |
| Verifier.InclusiveCoversAll | superpermutations.go:76-82 | finding every full bucket is the same as finding every slot |
| Verifier.CheckIntendedIsSuperpermutation | superpermutations.go:51 | the corrected verdict holds if and only if the string is a superpermutation of the input |

## Left out

- Goroutines and `sync.WaitGroup` are left out. The callbacks run one after the other, in bucket order. Their writes go to disjoint slots, so the order does not change the table. The unsynchronised writes of `status = false` are not modelled.
- The suffix array is replaced by a plain substring test. `index.Lookup(p, 1)` is non-empty exactly when p is a non-empty block of the string, and an empty pattern finds nothing.
- `Find` ranges over the runes of a Go string but indexes bytes. The model takes one symbol per byte, so multi-byte UTF-8 input is not modelled.
- 64-bit overflow is not modelled, because it cannot happen: every input is at most 20 symbols, so 1! + ... + 20! and every slot index stay below 2^63.
- Verifier.FindIsSuperpermutationSmall: the doc comment of `Find` promises a superpermutation for every input. The model proves this only for one, two and three symbols. For n symbols it proves the length, the palindrome shape and the symbol set.
- Builder.FindOne, Builder.FindTwo, Builder.FindThree: four and more symbols are not evaluated.

## Findings

| source | as written | input that shows it | evidently intended | confidence | as-written member | corrected member |
|---|---|---|---|---|---|---|
| superpermutations.go:76-77 | the lookup callback walks `ps[start:end]`, but `distribute` hands out inclusive ends, so the last slot of each bucket is never looked up; with one symbol `permutations` of the empty remainder also leaves slot 0 empty | `Check("abc", "abcabcabc")` returns true though "cba" does not occur; for up to 4 symbols every bucket is a single slot and any string passes | walk `ps[start:end+1]` over a table holding every ordering, so the verdict is "is a superpermutation" | high (proved; not executed) | Verifier.CheckAcceptsNonSuperpermutation | Verifier.CheckCorrected |
| superpermutations.go:134 | the guard `a > len(f)` lets a = 21 through to `f[21]` | `factorial(21)` panics with an index error instead of the guard's message | `a >= len(f)`, refusing every a past the table | high (proved; not executed) | Factorials.FactorialAsWritten | Factorials.Factorial |
