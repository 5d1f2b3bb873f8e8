/** The run-length folder (`collapse_multiple` and `get_count`): each maximal run of
    adjacent pointer moves or cell adds/subtracts of one kind becomes a single op whose
    count is the LENGTH of the run. The counts the run's ops carried are ignored, so
    folding an already folded program resets its counts to 1. */
module Folder {
  import opened Ops

  /** The end of the run of kind `k` that starts at `i`: the first index at or after `i`
      that holds another kind, or `|s|`. */
  function RunEnd(s: seq<Op>, i: nat, k: Kind): (j: nat)
    requires i <= |s|
    ensures i <= j <= |s|
    decreases |s| - i
  {
    if i < |s| && KindOf(s[i]) == k then RunEnd(s, i + 1, k) else i
  }

  /** The run is all of kind `k` and cannot be extended. */
  lemma {:induction false} RunEndMaximal(s: seq<Op>, i: nat, k: Kind)
    requires i <= |s|
    ensures forall m :: i <= m < RunEnd(s, i, k) ==> KindOf(s[m]) == k
    ensures RunEnd(s, i, k) == |s| || KindOf(s[RunEnd(s, i, k)]) != k
    decreases |s| - i
  {
    if i < |s| && KindOf(s[i]) == k {
      RunEndMaximal(s, i + 1, k);
    }
  }

  /** The folded form of `s[i..]`. */
  function FoldFrom(s: seq<Op>, i: nat): seq<Op>
    requires i <= |s|
    decreases |s| - i
  {
    if i == |s| then []
    else if s[i].Foldable() then
      var j := RunEnd(s, i + 1, KindOf(s[i]));
      [WithCount(s[i], j - i)] + FoldFrom(s, j)
    else
      [s[i]] + FoldFrom(s, i + 1)
  }

  function Fold(s: seq<Op>): seq<Op> {
    FoldFrom(s, 0)
  }

  /** `get_count`: the peekable iterator is `input` read from index `pos`. The op that
      started the run has already been taken, so the count starts at 1; every following op
      with the discriminant of `op` is taken and counted. */
  method GetCount(input: seq<Op>, pos: nat, op: Op) returns (count: nat, next: nat)
    requires pos <= |input|
    ensures pos <= next <= |input| && count == next - pos + 1
    ensures forall m :: pos <= m < next ==> KindOf(input[m]) == KindOf(op)
    ensures next == |input| || KindOf(input[next]) != KindOf(op)
    ensures next == RunEnd(input, pos, KindOf(op))
  {
    count, next := 1, pos;
    while next < |input| && KindOf(input[next]) == KindOf(op)
      invariant pos <= next <= |input|
      invariant count == next - pos + 1
      invariant forall m :: pos <= m < next ==> KindOf(input[m]) == KindOf(op)
      invariant RunEnd(input, next, KindOf(op)) == RunEnd(input, pos, KindOf(op))
    {
      next := next + 1;
      count := count + 1;
    }
  }

  /** `collapse_multiple`. */
  method CollapseMultiple(input: seq<Op>) returns (folded: seq<Op>)
    ensures folded == Fold(input)
  {
    folded := [];
    var pos := 0;
    while pos < |input|
      invariant pos <= |input|
      invariant folded + FoldFrom(input, pos) == Fold(input)
    {
      var e := input[pos];
      ghost var start := pos;
      pos := pos + 1;
      var ne: Op;
      if e.Foldable() {
        // The source's four arms differ only in the constructor they pass and rebuild.
        var count;
        count, pos := GetCount(input, pos, WithCount(e, 0));
        ne := WithCount(e, count);
      } else {
        ne := e;
      }
      assert folded + FoldFrom(input, start) == (folded + [ne]) + FoldFrom(input, pos) by {
        FoldFromStep(input, start, pos, ne);
        AppendAssoc(folded, [ne], FoldFrom(input, pos));
      }
      folded := folded + [ne];
    }
  }

  /** One turn of the `collapse_multiple` loop: the op it pushes heads the folded form. */
  lemma {:induction false} FoldFromStep(s: seq<Op>, i: nat, next: nat, op: Op)
    requires i < |s|
    requires s[i].Foldable() ==> next == RunEnd(s, i + 1, KindOf(s[i])) && op == WithCount(s[i], next - i)
    requires !s[i].Foldable() ==> next == i + 1 && op == s[i]
    ensures next <= |s| && FoldFrom(s, i) == [op] + FoldFrom(s, next)
  {
  }

  // ---------------------------------------------------------------------------------
  // Run-length expansion, the inverse of folding

  function Repeat(op: Op, n: nat): (r: seq<Op>)
    ensures |r| == n && forall k :: 0 <= k < n ==> r[k] == op
  {
    if n == 0 then [] else [op] + Repeat(op, n - 1)
  }

  /** What one op stands for in unit ops: `count` copies for a foldable op, itself otherwise. */
  function Unfold(op: Op): seq<Op> {
    if op.Foldable() then Repeat(WithCount(op, 1), op.count) else [op]
  }

  function Expand(s: seq<Op>): seq<Op> {
    if s == [] then [] else Unfold(s[0]) + Expand(s[1..])
  }

  /** Every foldable op has count 1, as the lexer produces them. */
  predicate UnitCounts(s: seq<Op>) {
    forall k :: 0 <= k < |s| ==> s[k].Foldable() ==> s[k].count == 1
  }

  /** No two adjacent ops are the same foldable kind. */
  predicate MaximalRuns(s: seq<Op>) {
    forall k :: 0 <= k < |s| - 1 ==> s[k].Foldable() ==> KindOf(s[k]) != KindOf(s[k + 1])
  }

  /** Every foldable op has a count of at least 1. */
  predicate PositiveCounts(s: seq<Op>) {
    forall k :: 0 <= k < |s| ==> s[k].Foldable() ==> s[k].count >= 1
  }

  lemma {:induction false} ExpandCons(op: Op, t: seq<Op>)
    ensures Expand([op] + t) == Unfold(op) + Expand(t)
  {
    assert ([op] + t)[0] == op;
    assert ([op] + t)[1..] == t;
  }

  lemma {:induction false} SameKindUnit(a: Op, b: Op)
    requires a.Foldable() && KindOf(a) == KindOf(b) && b.count == 1
    ensures b == WithCount(a, 1)
  {
  }

  /** A run of unit ops of one kind is `Repeat` of the unit op. */
  lemma {:induction false} RunIsRepeat(s: seq<Op>, i: nat, j: nat)
    requires i < j <= |s| && s[i].Foldable() && UnitCounts(s)
    requires forall m :: i <= m < j ==> KindOf(s[m]) == KindOf(s[i])
    ensures Repeat(WithCount(s[i], 1), j - i) == s[i..j]
  {
    forall m | i <= m < j ensures s[m] == WithCount(s[i], 1) {
      SameKindUnit(s[i], s[m]);
    }
  }

  /** A folded run stands for the run it came from. */
  lemma {:induction false} UnfoldRun(s: seq<Op>, i: nat, j: nat)
    requires i < |s| && UnitCounts(s) && s[i].Foldable() && j == RunEnd(s, i + 1, KindOf(s[i]))
    ensures Unfold(WithCount(s[i], j - i)) == s[i..j]
  {
    var u := WithCount(s[i], j - i);
    assert WithCount(u, 1) == WithCount(s[i], 1);
    RunEndMaximal(s, i + 1, KindOf(s[i]));
    RunIsRepeat(s, i, j);
  }

  lemma {:induction false} ExpandFoldRun(s: seq<Op>, i: nat, j: nat)
    requires i < |s| && UnitCounts(s) && s[i].Foldable() && j == RunEnd(s, i + 1, KindOf(s[i]))
    requires Expand(FoldFrom(s, j)) == s[j..]
    ensures Expand(FoldFrom(s, i)) == s[i..]
  {
    var u := WithCount(s[i], j - i);
    FoldFromStep(s, i, j, u);
    ExpandCons(u, FoldFrom(s, j));
    UnfoldRun(s, i, j);
    assert s[i..] == s[i..j] + s[j..];
  }

  lemma {:induction false} ExpandFoldOther(s: seq<Op>, i: nat)
    requires i < |s| && !s[i].Foldable()
    requires Expand(FoldFrom(s, i + 1)) == s[i + 1..]
    ensures Expand(FoldFrom(s, i)) == s[i..]
  {
    FoldFromStep(s, i, i + 1, s[i]);
    ExpandCons(s[i], FoldFrom(s, i + 1));
    assert s[i..] == [s[i]] + s[i + 1..];
  }

  lemma {:induction false} ExpandFoldFrom(s: seq<Op>, i: nat)
    requires i <= |s| && UnitCounts(s)
    ensures Expand(FoldFrom(s, i)) == s[i..]
    decreases |s| - i
  {
    if i < |s| {
      if s[i].Foldable() {
        var j := RunEnd(s, i + 1, KindOf(s[i]));
        ExpandFoldFrom(s, j);
        ExpandFoldRun(s, i, j);
      } else {
        ExpandFoldFrom(s, i + 1);
        ExpandFoldOther(s, i);
      }
    }
  }

  /** Round trip: on unit-count input, expanding the folded program gives the input back. */
  lemma {:induction false} FoldRoundTrip(s: seq<Op>)
    requires UnitCounts(s)
    ensures Expand(Fold(s)) == s
  {
    ExpandFoldFrom(s, 0);
  }

  lemma {:induction false} RunEndShift(a: seq<Op>, b: seq<Op>, i: nat, k: Kind)
    requires i <= |b|
    ensures RunEnd(a + b, |a| + i, k) == |a| + RunEnd(b, i, k)
    decreases |b| - i
  {
    if i < |b| {
      assert (a + b)[|a| + i] == b[i];
      if KindOf(b[i]) == k {
        RunEndShift(a, b, i + 1, k);
      }
    }
  }

  lemma {:induction false} ShiftRun(a: seq<Op>, b: seq<Op>, i: nat, j: nat)
    requires i < |b| && b[i].Foldable() && j == RunEnd(b, i + 1, KindOf(b[i]))
    requires FoldFrom(a + b, |a| + j) == FoldFrom(b, j)
    ensures FoldFrom(a + b, |a| + i) == FoldFrom(b, i)
  {
    var ab, at := a + b, |a| + i;
    assert ab[at] == b[i];
    RunEndShift(a, b, i + 1, KindOf(b[i]));
    assert RunEnd(ab, at + 1, KindOf(ab[at])) == |a| + j;
    FoldFromStep(ab, at, |a| + j, WithCount(b[i], j - i));
    FoldFromStep(b, i, j, WithCount(b[i], j - i));
  }

  lemma {:induction false} ShiftOther(a: seq<Op>, b: seq<Op>, i: nat)
    requires i < |b| && !b[i].Foldable()
    requires FoldFrom(a + b, |a| + i + 1) == FoldFrom(b, i + 1)
    ensures FoldFrom(a + b, |a| + i) == FoldFrom(b, i)
  {
    var ab, at := a + b, |a| + i;
    assert ab[at] == b[i];
    FoldFromStep(ab, at, at + 1, b[i]);
    FoldFromStep(b, i, i + 1, b[i]);
  }

  /** Folding does not look behind the position it starts from. */
  lemma {:induction false} FoldFromShift(a: seq<Op>, b: seq<Op>, i: nat)
    requires i <= |b|
    ensures FoldFrom(a + b, |a| + i) == FoldFrom(b, i)
    decreases |b| - i
  {
    if i == |b| {
      assert FoldFrom(a + b, |a| + i) == [];
    } else if b[i].Foldable() {
      var j := RunEnd(b, i + 1, KindOf(b[i]));
      FoldFromShift(a, b, j);
      ShiftRun(a, b, i, j);
    } else {
      FoldFromShift(a, b, i + 1);
      ShiftOther(a, b, i);
    }
  }

  /** A run of `n` copies of a foldable op, followed by another kind, folds to one op of count `n`. */
  lemma {:induction false} FoldRepeat(u: Op, n: nat, t: seq<Op>)
    requires u.Foldable() && n >= 1
    requires t == [] || KindOf(t[0]) != KindOf(u)
    ensures Fold(Repeat(u, n) + t) == [WithCount(u, n)] + Fold(t)
  {
    var x := Repeat(u, n) + t;
    var j := RunEnd(x, 1, KindOf(u));
    assert forall m :: 0 <= m < n ==> x[m] == u;
    assert n < |x| ==> x[n] == t[0];
    RunEndMaximal(x, 1, KindOf(u));
    assert j == n;
    FoldFromShift(Repeat(u, n), t, 0);
  }

  lemma {:induction false} FoldCons(op: Op, t: seq<Op>)
    requires !op.Foldable()
    ensures Fold([op] + t) == [op] + Fold(t)
  {
    assert ([op] + t)[0] == op;
    FoldFromShift([op], t, 0);
  }

  lemma {:induction false} ExpandHead(r: seq<Op>)
    requires r != [] && PositiveCounts(r)
    ensures Expand(r) != [] && KindOf(Expand(r)[0]) == KindOf(r[0])
  {
    assert Unfold(r[0]) != [];
    assert Expand(r)[0] == Unfold(r[0])[0];
  }

  /** The other half of the round trip: a program with maximal runs and positive counts is
      what folding its expansion gives back. */
  lemma {:induction false} FoldExpand(r: seq<Op>)
    requires MaximalRuns(r) && PositiveCounts(r)
    ensures Fold(Expand(r)) == r
  {
    if r == [] {
      assert Expand(r) == [];
    } else {
      var t := Expand(r[1..]);
      assert MaximalRuns(r[1..]) && PositiveCounts(r[1..]) by {
        forall k | 0 <= k < |r[1..]| ensures r[1..][k] == r[k + 1] { }
      }
      FoldExpand(r[1..]);
      if |r| > 1 {
        ExpandHead(r[1..]);
        assert r[1..][0] == r[1];
      }
      if r[0].Foldable() {
        FoldRepeat(WithCount(r[0], 1), r[0].count, t);
        assert WithCount(WithCount(r[0], 1), r[0].count) == r[0];
      } else {
        FoldCons(r[0], t);
      }
      assert r == [r[0]] + r[1..];
    }
  }

  lemma {:induction false} FoldFromShape(s: seq<Op>, i: nat)
    requires i <= |s|
    ensures |FoldFrom(s, i)| <= |s| - i
    ensures i < |s| ==> |FoldFrom(s, i)| > 0 && KindOf(FoldFrom(s, i)[0]) == KindOf(s[i])
    ensures PositiveCounts(FoldFrom(s, i)) && MaximalRuns(FoldFrom(s, i))
    decreases |s| - i
  {
    if i < |s| {
      var next := if s[i].Foldable() then RunEnd(s, i + 1, KindOf(s[i])) else i + 1;
      if s[i].Foldable() {
        RunEndMaximal(s, i + 1, KindOf(s[i]));
      }
      FoldFromShape(s, next);
    }
  }

  /** The folded program is no longer than the input, every count is at least 1 (whatever
      the input counts were), and runs are maximal: no two adjacent ops share a foldable kind. */
  lemma {:induction false} FoldShape(s: seq<Op>)
    ensures |Fold(s)| <= |s|
    ensures PositiveCounts(Fold(s))
    ensures MaximalRuns(Fold(s))
  {
    FoldFromShape(s, 0);
  }

  /** The ops that are not foldable, in order. */
  function Others(s: seq<Op>): (r: seq<Op>)
    ensures forall k :: 0 <= k < |r| ==> !r[k].Foldable()
  {
    if s == [] then [] else (if s[0].Foldable() then [] else [s[0]]) + Others(s[1..])
  }

  lemma {:induction false} OthersCons(op: Op, t: seq<Op>)
    ensures Others([op] + t) == (if op.Foldable() then [] else [op]) + Others(t)
  {
    assert ([op] + t)[0] == op;
    assert ([op] + t)[1..] == t;
  }

  lemma {:induction false} OthersSkipRun(s: seq<Op>, i: nat, j: nat)
    requires i <= j <= |s|
    requires forall m :: i <= m < j ==> s[m].Foldable()
    ensures Others(s[i..]) == Others(s[j..])
    decreases j - i
  {
    if i < j {
      assert s[i..][1..] == s[i + 1..];
      OthersSkipRun(s, i + 1, j);
    }
  }

  lemma {:induction false} OthersFoldFrom(s: seq<Op>, i: nat)
    requires i <= |s|
    ensures Others(FoldFrom(s, i)) == Others(s[i..])
    decreases |s| - i
  {
    if i < |s| {
      assert s[i..][1..] == s[i + 1..];
      if s[i].Foldable() {
        var j := RunEnd(s, i + 1, KindOf(s[i]));
        OthersCons(WithCount(s[i], j - i), FoldFrom(s, j));
        OthersFoldFrom(s, j);
        RunEndMaximal(s, i + 1, KindOf(s[i]));
        OthersSkipRun(s, i + 1, j);
      } else {
        OthersCons(s[i], FoldFrom(s, i + 1));
        OthersFoldFrom(s, i + 1);
      }
    }
  }

  /** `Output`, `Input`, `LoopStart` and `LoopEnd` pass through unchanged, in order, and
      none is merged or dropped. */
  lemma {:induction false} FoldKeepsOthers(s: seq<Op>)
    ensures Others(Fold(s)) == Others(s)
  {
    OthersFoldFrom(s, 0);
  }

  // ---------------------------------------------------------------------------------
  // Folding an already folded program

  function ResetCounts(s: seq<Op>): (r: seq<Op>)
    ensures |r| == |s|
  {
    if s == [] then []
    else [if s[0].Foldable() then WithCount(s[0], 1) else s[0]] + ResetCounts(s[1..])
  }

  lemma {:induction false} FoldFromMaximal(s: seq<Op>, i: nat)
    requires i <= |s| && MaximalRuns(s)
    ensures FoldFrom(s, i) == ResetCounts(s[i..])
    decreases |s| - i
  {
    if i < |s| {
      assert s[i..][0] == s[i];
      assert s[i..][1..] == s[i + 1..];
      if s[i].Foldable() {
        assert RunEnd(s, i + 1, KindOf(s[i])) == i + 1;
      }
      FoldFromMaximal(s, i + 1);
    }
  }

  /** On a program whose runs are already maximal, folding only resets every count to 1. */
  lemma {:induction false} FoldOfMaximal(s: seq<Op>)
    requires MaximalRuns(s)
    ensures Fold(s) == ResetCounts(s)
  {
    FoldFromMaximal(s, 0);
  }

  /** Folding twice resets the counts of the first fold to 1, so it equals folding once
      exactly when the first fold produced no run longer than one. */
  lemma {:induction false} Refold(s: seq<Op>)
    ensures Fold(Fold(s)) == ResetCounts(Fold(s))
    ensures Fold(Fold(s)) == Fold(s) <==> UnitCounts(Fold(s))
  {
    FoldShape(s);
    FoldOfMaximal(Fold(s));
    ResetCountsFixed(Fold(s));
  }

  lemma {:induction false} ResetCountsFixed(s: seq<Op>)
    ensures ResetCounts(s) == s <==> UnitCounts(s)
  {
    if s != [] {
      ResetCountsFixed(s[1..]);
      var r := ResetCounts(s);
      assert r[0] == (if s[0].Foldable() then WithCount(s[0], 1) else s[0]);
      assert r[1..] == ResetCounts(s[1..]);
      if UnitCounts(s) {
        assert UnitCounts(s[1..]) by {
          forall k | 0 <= k < |s[1..]| ensures s[1..][k].Foldable() ==> s[1..][k].count == 1 {
            assert s[1..][k] == s[k + 1];
          }
        }
        assert r == [r[0]] + r[1..];
        assert s == [s[0]] + s[1..];
      }
      if r == s {
        assert UnitCounts(s[1..]);
        forall k | 0 <= k < |s| ensures s[k].Foldable() ==> s[k].count == 1 {
          if k > 0 {
            assert s[k] == s[1..][k - 1];
          }
        }
      }
    }
  }

  /** Folding `>>>` and then folding the result gives `>` (count 1), not `>>>` (count 3). */
  lemma {:induction false} FoldIsNotIdempotent()
    ensures Fold([IncrPointer(1), IncrPointer(1), IncrPointer(1)]) == [IncrPointer(3)]
    ensures Fold([IncrPointer(3)]) == [IncrPointer(1)]
  {
    var s := [IncrPointer(1), IncrPointer(1), IncrPointer(1)];
    assert RunEnd(s, 1, KIncrPointer) == 3;
    assert RunEnd([IncrPointer(3)], 1, KIncrPointer) == 1;
  }
}
