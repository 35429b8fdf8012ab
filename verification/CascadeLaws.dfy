/** What Cascade does, in terms of its inputs alone (shared/bb84/protocol.py): which
    positions share a block in each pass, which bit each pass flips, and in what order. */
module CascadeLaws {
  import opened Bits
  import opened Cascade

  // ----- block sizes and blocks -----

  /** The one integer that is `max(2, int(0.73 / qber))`, without dividing. */
  ghost predicate FirstSize(qber: real, s: nat) {
    if 0.73 < 3.0 * qber then s == 2 else Times(s, qber) <= 0.73 < Times(s + 1, qber)
  }

  function Times(s: nat, q: real): real {
    s as real * q
  }

  lemma TimesAtMost(s: nat, q: real, x: real)
    requires q > 0.0
    ensures Times(s, q) <= x <==> s as real <= x / q
  {
    QuotientBelow(s as real, x / q, q);
    assert x / q * q == x;
  }

  lemma QuotientBelow(x: real, y: real, f: real)
    requires f > 0.0
    ensures x <= y <==> x * f <= y * f
  {
    if x <= y {
      ProductMonotone(x, y, f);
    } else {
      ProductMonotone(y, x, f);
    }
  }

  lemma ProductMonotone(x: real, y: real, f: real)
    requires f > 0.0
    ensures x < y ==> x * f < y * f
  {
    assert x < y ==> (y - x) * f > 0.0;
  }

  lemma TimesThree(q: real)
    ensures Times(3, q) == 3.0 * q
  {
  }

  lemma FirstSizeOf(qber: real)
    requires qber > 0.0
    ensures FirstSize(qber, InitialBlockSize(qber))
  {
    var s := InitialBlockSize(qber);
    TimesThree(qber);
    TimesAtMost(3, qber, 0.73);
    TimesAtMost(s, qber, 0.73);
    TimesAtMost(s + 1, qber, 0.73);
  }

  lemma FirstSizeUnique(qber: real, s: nat, t: nat)
    requires qber > 0.0 && FirstSize(qber, s) && FirstSize(qber, t)
    ensures s == t
  {
    TimesAtMost(s, qber, 0.73);
    TimesAtMost(s + 1, qber, 0.73);
    TimesAtMost(t, qber, 0.73);
    TimesAtMost(t + 1, qber, 0.73);
  }

  function Least(x: nat, y: nat): (m: nat)
    ensures m <= x && m <= y && (m == x || m == y)
  {
    if x < y then x else y
  }

  // ----- which positions share a block -----

  /** Where block number `t` starts. */
  function Start(t: nat, s: nat): nat {
    t * s
  }

  /** Block number `t` of an order cut into blocks of size `s`. */
  function Cut(order: seq<nat>, s: nat, t: nat): (block: seq<nat>)
    requires Start(t, s) <= |order|
  {
    order[Start(t, s)..Least(Start(t, s) + s, |order|)]
  }

  lemma StartLaw(t: nat, s: nat)
    ensures Start(0, s) == 0
    ensures t > 0 ==> Start(t, s) == Start(t - 1, s) + s
  {
  }

  lemma CutShift(order: seq<nat>, s: nat, u: nat)
    requires s + u <= |order|
    ensures order[s..][u..Least(u + s, |order| - s)] == order[s + u..Least(s + u + s, |order|)]
  {
    var v := Least(u + s, |order| - s);
    assert Least(s + u + s, |order|) == s + v;
    SliceOfRest(order, s, u, v);
  }

  lemma SliceOfRest(order: seq<nat>, s: nat, u: nat, v: nat)
    requires u <= v && s + v <= |order|
    ensures order[s..][u..v] == order[s + u..s + v]
  {
  }

  ghost predicate ChunkIs(order: seq<nat>, s: nat, t: nat)
    requires s > 0
  {
    var blocks := Chunks(order, s);
    && (t < |blocks| <==> Start(t, s) < |order|)
    && (t < |blocks| ==> Start(t, s) <= |order| && blocks[t] == Cut(order, s, t))
  }

  lemma {:induction false} ChunksAre(order: seq<nat>, s: nat, t: nat)
    requires s > 0
    ensures ChunkIs(order, s, t)
    decreases |order|
  {
    StartLaw(t, s);
    if t == 0 {
      FirstChunk(order, s);
    } else if |order| > s {
      ChunksAre(order[s..], s, t - 1);
      NextChunk(order, s, t);
    }
  }

  lemma FirstChunk(order: seq<nat>, s: nat)
    requires s > 0
    ensures ChunkIs(order, s, 0)
  {
    StartLaw(0, s);
  }

  lemma NextChunk(order: seq<nat>, s: nat, t: nat)
    requires 0 < s < |order| && t > 0 && ChunkIs(order[s..], s, t - 1)
    ensures ChunkIs(order, s, t)
  {
    var u := Start(t - 1, s);
    StartLaw(t, s);
    assert Chunks(order, s) == [order[..s]] + Chunks(order[s..], s);
    if s + u < |order| {
      CutShift(order, s, u);
    }
  }

  lemma QuotientIs(i: nat, s: nat, t: nat)
    requires s > 0
    ensures i / s == t <==> Start(t, s) <= i < Start(t, s) + s
  {
    var q := i / s;
    assert i == q * s + i % s;
    if q < t {
      MultiplyMonotone(q + 1, t, s);
    } else if t < q {
      MultiplyMonotone(t + 1, q, s);
    }
  }

  ghost predicate Together(blocks: seq<seq<nat>>, p: nat, q: nat) {
    exists t :: 0 <= t < |blocks| && p in blocks[t] && q in blocks[t]
  }

  lemma InCut(order: seq<nat>, s: nat, t: nat, i: nat)
    requires s > 0 && Distinct(order) && i < |order| && Start(t, s) < |order|
    ensures order[i] in Cut(order, s, t) <==> i / s == t
  {
    QuotientIs(i, s, t);
    var lo, hi := Start(t, s), Least(Start(t, s) + s, |order|);
    if i / s == t {
      assert Cut(order, s, t)[i - lo] == order[i];
    }
  }

  /** Two entries of an order fall into one block exactly if their places have the same
      quotient by the block size. */
  lemma TogetherIff(order: seq<nat>, s: nat, i: nat, j: nat)
    requires s > 0 && Distinct(order) && i < |order| && j < |order|
    ensures Together(Chunks(order, s), order[i], order[j]) <==> i / s == j / s
  {
    var blocks := Chunks(order, s);
    if i / s == j / s {
      var t := i / s;
      QuotientIs(i, s, t);
      ChunksAre(order, s, t);
      InCut(order, s, t, i);
      InCut(order, s, t, j);
    }
    if Together(blocks, order[i], order[j]) {
      var t :| 0 <= t < |blocks| && order[i] in blocks[t] && order[j] in blocks[t];
      ChunksAre(order, s, t);
      InCut(order, s, t, i);
      InCut(order, s, t, j);
    }
  }

  /** The order of a pass: positions as they are first, then as drawn. */
  ghost predicate IsOrder(order: seq<nat>, pass: nat, n: nat, perms: seq<seq<nat>>)
    requires pass < 4 && |perms| == 3
  {
    if pass == 0 then |order| == n && forall i :: 0 <= i < n ==> order[i] == i else order == perms[pass - 1]
  }

  /** The block size of a pass: the first size, doubled every time, at most `n`. */
  function SizeIn(pass: nat, s: nat, n: nat): (size: nat) {
    Least(if pass == 0 then s else if pass == 1 then 2 * s else if pass == 2 then 4 * s else 8 * s, n)
  }

  lemma OrderOf(pass: nat, n: nat, perms: seq<seq<nat>>)
    requires pass < 4 && ValidPermutations(perms, n)
    ensures IsOrder(PassOrder(pass, n, perms), pass, n, perms)
  {
  }

  lemma SizeOf(initial: nat, pass: nat, n: nat)
    requires initial > 0 && n > 0 && pass < 4
    ensures BlockSize(initial, pass, n) == SizeIn(pass, initial, n)
  {
    assert Pow2(0) == 1 && Pow2(1) == 2 && Pow2(2) == 4 && Pow2(3) == 8;
  }

  /** Every pass: the two entries at places `i` and `j` of its order share a block exactly
      if the places have the same quotient by its size. */
  lemma PassBlocksAre(qber: real, pass: nat, n: nat, perms: seq<seq<nat>>, s: nat, order: seq<nat>, i: nat, j: nat)
    requires qber > 0.0 && FirstSize(qber, s) && pass < 4 && n > 0 && ValidPermutations(perms, n)
    requires IsOrder(order, pass, n, perms) && i < n && j < n
    ensures |order| == n && SizeIn(pass, s, n) > 0
    ensures Together(PassBlocks(pass, n, InitialBlockSize(qber), perms), order[i], order[j]) <==>
            i / SizeIn(pass, s, n) == j / SizeIn(pass, s, n)
  {
    FirstSizeOf(qber);
    FirstSizeUnique(qber, s, InitialBlockSize(qber));
    OrderOf(pass, n, perms);
    SizeOf(s, pass, n);
    assert order == PassOrder(pass, n, perms);
    TogetherIff(order, SizeIn(pass, s, n), i, j);
  }

  // ----- which bit a block loses -----

  /** The places `lo..hi` of the block whose bits differ. */
  ghost function WrongBetween(a: seq<Bit>, c: seq<Bit>, block: seq<nat>, lo: nat, hi: nat): set<nat>
    requires |a| == |c| && Within(block, |a|) && hi <= |block|
  {
    set i: nat | lo <= i < hi && a[block[i]] != c[block[i]]
  }

  ghost predicate OddBetween(a: seq<Bit>, c: seq<Bit>, block: seq<nat>, lo: nat, hi: nat)
    requires |a| == |c| && Within(block, |a|) && hi <= |block|
  {
    |WrongBetween(a, c, block, lo, hi)| % 2 == 1
  }

  lemma {:induction false} ErrorsBetween(a: seq<Bit>, c: seq<Bit>, block: seq<nat>, lo: nat, hi: nat)
    requires |a| == |c| && Within(block, |a|) && lo <= hi <= |block|
    ensures Errors(a, c, block[lo..hi]) == |WrongBetween(a, c, block, lo, hi)|
    decreases hi - lo
  {
    var w := WrongBetween(a, c, block, lo, hi);
    if lo == hi {
      assert w == {};
    } else {
      var v := WrongBetween(a, c, block, lo + 1, hi);
      ErrorsBetween(a, c, block, lo + 1, hi);
      assert block[lo..hi][1..] == block[lo + 1..hi];
      assert lo !in v;
      assert w == if a[block[lo]] != c[block[lo]] then v + {lo} else v;
    }
  }

  lemma OddIsMismatch(a: seq<Bit>, c: seq<Bit>, block: seq<nat>, lo: nat, hi: nat)
    requires |a| == |c| && Within(block, |a|) && lo <= hi <= |block|
    ensures OddBetween(a, c, block, lo, hi) <==> Parity(a, block[lo..hi]) != Parity(c, block[lo..hi])
  {
    ErrorsBetween(a, c, block, lo, hi);
    ParityMismatch(a, c, block[lo..hi]);
  }

  lemma OddHalf(a: seq<Bit>, c: seq<Bit>, block: seq<nat>, lo: nat, mid: nat, hi: nat)
    requires |a| == |c| && Within(block, |a|) && lo <= mid <= hi <= |block|
    requires OddBetween(a, c, block, lo, hi) && !OddBetween(a, c, block, lo, mid)
    ensures OddBetween(a, c, block, mid, hi)
  {
    assert WrongBetween(a, c, block, lo, hi) == WrongBetween(a, c, block, lo, mid) + WrongBetween(a, c, block, mid, hi);
  }

  /** Half of an interval of places: the left one, shorter if the length is odd, if it holds
      an odd number of errors, else the right one. */
  ghost predicate Halves(a: seq<Bit>, c: seq<Bit>, block: seq<nat>, from: (nat, nat), to: (nat, nat))
    requires |a| == |c| && Within(block, |a|)
  {
    && from.0 < from.1 <= |block|
    && var mid := (from.0 + from.1) / 2;
       to == if OddBetween(a, c, block, from.0, mid) then (from.0, mid) else (mid, from.1)
  }

  ghost predicate HalvesAt(a: seq<Bit>, c: seq<Bit>, block: seq<nat>, intervals: seq<(nat, nat)>, k: nat)
    requires |a| == |c| && Within(block, |a|) && k + 1 < |intervals|
  {
    Halves(a, c, block, intervals[k], intervals[k + 1])
  }

  /** The search that starts with the places `lo..hi` and halves them ends at place `f`. */
  ghost predicate SearchEnds(a: seq<Bit>, c: seq<Bit>, block: seq<nat>, lo: nat, hi: nat, f: nat)
    requires |a| == |c| && Within(block, |a|)
  {
    exists intervals: seq<(nat, nat)> :: Search(a, c, block, lo, hi, f, intervals)
  }

  ghost predicate Search(a: seq<Bit>, c: seq<Bit>, block: seq<nat>, lo: nat, hi: nat, f: nat, intervals: seq<(nat, nat)>)
    requires |a| == |c| && Within(block, |a|)
  {
    && |intervals| > 0 && intervals[0] == (lo, hi) && intervals[|intervals| - 1] == (f, f + 1)
    && forall k: nat :: k + 1 < |intervals| ==> HalvesAt(a, c, block, intervals, k)
  }

  lemma SearchFrom(a: seq<Bit>, c: seq<Bit>, block: seq<nat>, lo: nat, hi: nat, next: (nat, nat), f: nat)
    requires |a| == |c| && Within(block, |a|) && Halves(a, c, block, (lo, hi), next)
    requires SearchEnds(a, c, block, next.0, next.1, f)
    ensures SearchEnds(a, c, block, lo, hi, f)
  {
    var intervals: seq<(nat, nat)> :| Search(a, c, block, next.0, next.1, f, intervals);
    var longer := [(lo, hi)] + intervals;
    forall k: nat | k + 1 < |longer| ensures HalvesAt(a, c, block, longer, k) {
      if k > 0 {
        assert HalvesAt(a, c, block, intervals, k - 1);
      }
    }
    assert Search(a, c, block, lo, hi, f, longer);
  }

  lemma SearchOne(a: seq<Bit>, c: seq<Bit>, block: seq<nat>, f: nat)
    requires |a| == |c| && Within(block, |a|)
    ensures SearchEnds(a, c, block, f, f + 1, f)
  {
    assert Search(a, c, block, f, f + 1, f, [(f, f + 1)]);
  }

  lemma {:induction false} SearchFlips(a: seq<Bit>, c: seq<Bit>, block: seq<nat>, lo: nat, hi: nat) returns (f: nat)
    requires |a| == |c| && Within(block, |a|) && lo < hi <= |block| && OddBetween(a, c, block, lo, hi)
    ensures lo <= f < hi && SearchEnds(a, c, block, lo, hi, f)
    ensures BinarySearch(a, c, block[lo..hi]) == c[block[f] := a[block[f]]]
    decreases hi - lo
  {
    if hi == lo + 1 {
      f := lo;
      SearchOne(a, c, block, lo);
    } else {
      var mid := (lo + hi) / 2;
      SearchSplits(a, c, block, lo, mid, hi);
      if OddBetween(a, c, block, lo, mid) {
        f := SearchFlips(a, c, block, lo, mid);
        SearchFrom(a, c, block, lo, hi, (lo, mid), f);
      } else {
        OddHalf(a, c, block, lo, mid, hi);
        f := SearchFlips(a, c, block, mid, hi);
        SearchFrom(a, c, block, lo, hi, (mid, hi), f);
      }
    }
  }

  lemma SearchSplits(a: seq<Bit>, c: seq<Bit>, block: seq<nat>, lo: nat, mid: nat, hi: nat)
    requires |a| == |c| && Within(block, |a|) && lo + 1 < hi <= |block| && mid == (lo + hi) / 2
    ensures BinarySearch(a, c, block[lo..hi]) ==
            BinarySearch(a, c, if OddBetween(a, c, block, lo, mid) then block[lo..mid] else block[mid..hi])
  {
    var part := block[lo..hi];
    assert part[..|part| / 2] == block[lo..mid] && part[|part| / 2..] == block[mid..hi];
    OddIsMismatch(a, c, block, lo, mid);
  }

  /** What a block of positions turns into: with an even number of errors it stays; with an
      odd number the bit where the search ends becomes Alice's and the others stay. */
  ghost predicate BlockLaw(a: seq<Bit>, c: seq<Bit>, r: seq<Bit>, block: seq<nat>)
    requires |a| == |c| == |r| && Within(block, |a|)
  {
    if OddBetween(a, c, block, 0, |block|) then
      exists f: nat :: f < |block| && SearchEnds(a, c, block, 0, |block|, f) &&
        forall i: nat :: i < |block| ==> r[block[i]] == if i == f then a[block[i]] else c[block[i]]
    else forall i: nat :: i < |block| ==> r[block[i]] == c[block[i]]
  }

  lemma OddNotEmpty(a: seq<Bit>, c: seq<Bit>, block: seq<nat>)
    requires |a| == |c| && Within(block, |a|) && OddBetween(a, c, block, 0, |block|)
    ensures |block| > 0
  {
    var i :| i in WrongBetween(a, c, block, 0, |block|);
  }

  lemma CorrectBlockLaw(a: seq<Bit>, c: seq<Bit>, block: seq<nat>)
    requires |a| == |c| && Within(block, |a|) && Distinct(block)
    ensures BlockLaw(a, c, CorrectBlock(a, c, block), block)
  {
    assert block[0..|block|] == block;
    OddIsMismatch(a, c, block, 0, |block|);
    if OddBetween(a, c, block, 0, |block|) {
      OddNotEmpty(a, c, block);
      var f := SearchFlips(a, c, block, 0, |block|);
    }
  }

  // ----- what a pass does -----

  ghost predicate AgreeOn(c: seq<Bit>, d: seq<Bit>, block: seq<nat>)
    requires |c| == |d| && Within(block, |c|)
  {
    forall i: nat :: i < |block| ==> c[block[i]] == d[block[i]]
  }

  lemma OddLocal(a: seq<Bit>, c: seq<Bit>, d: seq<Bit>, block: seq<nat>, lo: nat, hi: nat)
    requires |a| == |c| == |d| && Within(block, |a|) && hi <= |block| && AgreeOn(c, d, block)
    ensures OddBetween(a, c, block, lo, hi) <==> OddBetween(a, d, block, lo, hi)
  {
    assert WrongBetween(a, c, block, lo, hi) == WrongBetween(a, d, block, lo, hi);
  }

  lemma SearchLocal(a: seq<Bit>, c: seq<Bit>, d: seq<Bit>, block: seq<nat>, lo: nat, hi: nat, f: nat)
    requires |a| == |c| == |d| && Within(block, |a|) && AgreeOn(c, d, block) && SearchEnds(a, c, block, lo, hi, f)
    ensures SearchEnds(a, d, block, lo, hi, f)
  {
    var intervals: seq<(nat, nat)> :| Search(a, c, block, lo, hi, f, intervals);
    forall k: nat | k + 1 < |intervals| ensures HalvesAt(a, d, block, intervals, k) {
      assert HalvesAt(a, c, block, intervals, k);
      OddLocal(a, c, d, block, intervals[k].0, (intervals[k].0 + intervals[k].1) / 2);
    }
    assert Search(a, d, block, lo, hi, f, intervals);
  }

  /** The law of a block only looks at the block. */
  lemma BlockLawLocal(a: seq<Bit>, c: seq<Bit>, d: seq<Bit>, r: seq<Bit>, q: seq<Bit>, block: seq<nat>)
    requires |a| == |c| == |d| == |r| == |q| && Within(block, |a|) && AgreeOn(c, d, block) && AgreeOn(r, q, block)
    requires BlockLaw(a, c, r, block)
    ensures BlockLaw(a, d, q, block)
  {
    OddLocal(a, c, d, block, 0, |block|);
    if OddBetween(a, c, block, 0, |block|) {
      var f: nat :| f < |block| && SearchEnds(a, c, block, 0, |block|, f) &&
        forall i: nat :: i < |block| ==> r[block[i]] == if i == f then a[block[i]] else c[block[i]];
      SearchLocal(a, c, d, block, 0, |block|, f);
    }
  }

  lemma {:induction false} PassLaw(a: seq<Bit>, c: seq<Bit>, blocks: seq<seq<nat>>, t: nat)
    requires |a| == |c| && AllWithin(blocks, |a|) && Distinct(Flatten(blocks)) && t < |blocks|
    ensures BlockLaw(a, c, Pass(a, c, blocks), blocks[t])
    decreases |blocks|
  {
    var head, rest := blocks[0], blocks[1..];
    assert Flatten(blocks) == head + Flatten(rest);
    DistinctParts(head, Flatten(rest));
    var c1 := CorrectBlock(a, c, head);
    CorrectBlockEffect(a, c, head);
    if t == 0 {
      CorrectBlockLaw(a, c, head);
      PassEffect(a, c1, rest);
      assert AgreeOn(c1, Pass(a, c, blocks), head);
      BlockLawLocal(a, c, c, c1, Pass(a, c, blocks), head);
    } else {
      PassLaw(a, c1, rest, t - 1);
      BlockInFlatten(rest, t - 1);
      assert AgreeOn(c1, c, rest[t - 1]);
      BlockLawLocal(a, c1, c, Pass(a, c, blocks), Pass(a, c, blocks), rest[t - 1]);
    }
  }

  /** One pass over an order cut into blocks of size `s`: every block obeys its law. */
  ghost predicate PassObeys(a: seq<Bit>, c: seq<Bit>, r: seq<Bit>, order: seq<nat>, s: nat)
    requires |a| == |c| == |r| && Within(order, |a|)
  {
    forall t: nat :: CutObeys(a, c, r, order, s, t)
  }

  ghost predicate CutObeys(a: seq<Bit>, c: seq<Bit>, r: seq<Bit>, order: seq<nat>, s: nat, t: nat)
    requires |a| == |c| == |r| && Within(order, |a|)
  {
    Start(t, s) < |order| ==> BlockLaw(a, c, r, Cut(order, s, t))
  }

  lemma CutObeysIts(a: seq<Bit>, c: seq<Bit>, order: seq<nat>, s: nat, t: nat)
    requires |a| == |c| && IsPermutation(order, |a|) && s > 0
    requires AllWithin(Chunks(order, s), |a|) && Flatten(Chunks(order, s)) == order
    ensures CutObeys(a, c, Pass(a, c, Chunks(order, s)), order, s, t)
  {
    ChunksAre(order, s, t);
    if Start(t, s) < |order| {
      PassLaw(a, c, Chunks(order, s), t);
    }
  }

  lemma PassObeysIts(a: seq<Bit>, c: seq<Bit>, order: seq<nat>, s: nat)
    requires |a| == |c| && IsPermutation(order, |a|) && s > 0
    ensures AllWithin(Chunks(order, s), |a|) && PassObeys(a, c, Pass(a, c, Chunks(order, s)), order, s)
  {
    ChunksWithin(order, s, |a|);
    FlattenChunks(order, s);
    forall t: nat ensures CutObeys(a, c, Pass(a, c, Chunks(order, s)), order, s, t) {
      CutObeysIts(a, c, order, s, t);
    }
  }

  // ----- the whole correction -----

  lemma StepObeys(a: seq<Bit>, b: seq<Bit>, s: nat, perms: seq<seq<nat>>, pass: nat, order: seq<nat>)
    requires |a| == |b| > 0 && ValidPermutations(perms, |a|) && s > 0 && pass < 4
    requires IsOrder(order, pass, |a|, perms)
    ensures IsPermutation(order, |a|)
    ensures PassObeys(a, AfterPasses(a, b, s, perms, pass), AfterPasses(a, b, s, perms, pass + 1), order, SizeIn(pass, s, |a|))
  {
    OrderOf(pass, |a|, perms);
    assert order == PassOrder(pass, |a|, perms);
    SizeOf(s, pass, |a|);
    NextPass(a, b, s, perms, pass);
    PassObeysIts(a, AfterPasses(a, b, s, perms, pass), order, SizeIn(pass, s, |a|));
  }

  /** The correction on the inputs alone: with a positive estimate, four passes in turn from
      Bob's string, over the positions in order and then over the three permutations, with
      block sizes s, 2s, 4s and 8s up to the length; otherwise Bob's string. Each pass is
      determined by its law, so this determines the result. */
  lemma CascadeObeys(a: seq<Bit>, b: seq<Bit>, qber: real, perms: seq<seq<nat>>, s: nat, natural: seq<nat>)
    returns (c1: seq<Bit>, c2: seq<Bit>, c3: seq<Bit>)
    requires |a| == |b| > 0 && ValidPermutations(perms, |a|) && qber > 0.0 && FirstSize(qber, s)
    requires |natural| == |a| && forall i :: 0 <= i < |a| ==> natural[i] == i
    ensures |c1| == |c2| == |c3| == |a|
    ensures PassObeys(a, b, c1, natural, Least(s, |a|))
    ensures PassObeys(a, c1, c2, perms[0], Least(2 * s, |a|))
    ensures PassObeys(a, c2, c3, perms[1], Least(4 * s, |a|))
    ensures PassObeys(a, c3, Reconcile(a, b, qber, perms), perms[2], Least(8 * s, |a|))
  {
    FirstSizeOf(qber);
    FirstSizeUnique(qber, s, InitialBlockSize(qber));
    c1, c2, c3 := AfterPasses(a, b, s, perms, 1), AfterPasses(a, b, s, perms, 2), AfterPasses(a, b, s, perms, 3);
    StepObeys(a, b, s, perms, 0, natural);
    StepObeys(a, b, s, perms, 1, perms[0]);
    StepObeys(a, b, s, perms, 2, perms[1]);
    StepObeys(a, b, s, perms, 3, perms[2]);
  }

  // ----- two errors -----

  /** The order puts `p` and `q` into different blocks of size `s`. */
  ghost predicate Parted(order: seq<nat>, s: nat, p: nat, q: nat)
    requires s > 0
  {
    exists i: nat, j: nat :: i < |order| && j < |order| && order[i] == p && order[j] == q && i / s != j / s
  }

  lemma PlaceOf(order: seq<nat>, n: nat, p: nat) returns (i: nat)
    requires IsPermutation(order, n) && p < n
    ensures i < n && order[i] == p
  {
    PermutationCovers(order, n);
    assert p in Elements(order);
    i :| i < n && order[i] == p;
  }

  lemma PartedIff(order: seq<nat>, s: nat, n: nat, p: nat, q: nat)
    requires IsPermutation(order, n) && s > 0 && p < n && q < n
    ensures Parted(order, s, p, q) <==> Separates(Chunks(order, s), p, q)
  {
    var i := PlaceOf(order, n, p);
    var j := PlaceOf(order, n, q);
    TogetherIff(order, s, i, j);
    forall k: nat, l: nat | k < n && l < n && order[k] == p && order[l] == q ensures k == i && l == j {
    }
    assert Separates(Chunks(order, s), p, q) <==> !Together(Chunks(order, s), p, q);
  }

  lemma SeparatesIff(n: nat, s: nat, perms: seq<seq<nat>>, p: nat, q: nat, pass: nat, order: seq<nat>)
    requires n > 0 && s > 0 && ValidPermutations(perms, n) && p < n && q < n && pass < 4
    requires IsOrder(order, pass, n, perms)
    ensures Separates(PassBlocks(pass, n, s, perms), p, q) <==> Parted(order, SizeIn(pass, s, n), p, q)
  {
    OrderOf(pass, n, perms);
    assert order == PassOrder(pass, n, perms);
    SizeOf(s, pass, n);
    PartedIff(order, SizeIn(pass, s, n), n, p, q);
  }

  lemma SeparatedIff(n: nat, s: nat, perms: seq<seq<nat>>, p: nat, q: nat)
    requires n > 0 && s > 0 && ValidPermutations(perms, n) && p < n && q < n
    ensures SeparatedWithin(n, s, perms, p, q, PASSES) <==>
            || p / Least(s, n) != q / Least(s, n)
            || Parted(perms[0], Least(2 * s, n), p, q)
            || Parted(perms[1], Least(4 * s, n), p, q)
            || Parted(perms[2], Least(8 * s, n), p, q)
  {
    var natural := Identity(n);
    SeparatesIff(n, s, perms, p, q, 0, natural);
    SeparatesIff(n, s, perms, p, q, 1, perms[0]);
    SeparatesIff(n, s, perms, p, q, 2, perms[1]);
    SeparatesIff(n, s, perms, p, q, 3, perms[2]);
    NaturalParted(natural, Least(s, n), p, q);
    SeparatedSteps(n, s, perms, p, q);
  }

  lemma SeparatedSteps(n: nat, s: nat, perms: seq<seq<nat>>, p: nat, q: nat)
    requires n > 0 && s > 0 && ValidPermutations(perms, n)
    ensures SeparatedWithin(n, s, perms, p, q, PASSES) <==>
            || Separates(PassBlocks(0, n, s, perms), p, q)
            || Separates(PassBlocks(1, n, s, perms), p, q)
            || Separates(PassBlocks(2, n, s, perms), p, q)
            || Separates(PassBlocks(3, n, s, perms), p, q)
  {
    SeparatedStep(n, s, perms, p, q, 0);
    SeparatedStep(n, s, perms, p, q, 1);
    SeparatedStep(n, s, perms, p, q, 2);
    SeparatedStep(n, s, perms, p, q, 3);
  }

  lemma NaturalParted(natural: seq<nat>, s: nat, p: nat, q: nat)
    requires s > 0 && p < |natural| && q < |natural| && forall i :: 0 <= i < |natural| ==> natural[i] == i
    ensures Parted(natural, s, p, q) <==> p / s != q / s
  {
    assert natural[p] == p && natural[q] == q;
  }

  /** For two errors the exact condition on the inputs: Alice's string comes out if and only
      if some pass puts the two positions into different blocks, that is, at places with
      different quotients by its block size. */
  lemma TwoErrorsCorrectedIff(a: seq<Bit>, b: seq<Bit>, qber: real, perms: seq<seq<nat>>, p: nat, q: nat, s: nat)
    requires |a| == |b| > 0 && ValidPermutations(perms, |a|) && qber > 0.0 && FirstSize(qber, s)
    requires p != q && Wrong(a, b) == {p, q}
    ensures s >= 2 && p < |a| && q < |a|
    ensures Reconcile(a, b, qber, perms) == a <==>
            || p / Least(s, |a|) != q / Least(s, |a|)
            || Parted(perms[0], Least(2 * s, |a|), p, q)
            || Parted(perms[1], Least(4 * s, |a|), p, q)
            || Parted(perms[2], Least(8 * s, |a|), p, q)
  {
    FirstSizeOf(qber);
    FirstSizeUnique(qber, s, InitialBlockSize(qber));
    assert p in Wrong(a, b) && q in Wrong(a, b);
    SeparatedIff(|a|, s, perms, p, q);
    TwoErrorsSeparated(a, b, qber, perms, p, q);
  }
}
