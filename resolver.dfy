/** The bracket resolver (`set_jump_targets`): a single pass over the program, in place,
    with a stack of the indices of the `[` still waiting for their `]`. A `]` pops the most
    recent one and the pair is made to point at each other. A `]` with nothing to pop is
    fatal ("found unpaired brackets"); a `[` still on the stack at the end is NOT an error
    and keeps whatever target it had. */
module Resolver {
  import opened Ops

  /** The bracket depth just before index `n`: the `[` in `s[..n]` minus the `]`. */
  function Depth(s: seq<Op>, n: nat): int
    requires n <= |s|
  {
    if n == 0 then 0
    else Depth(s, n - 1) + (if s[n - 1].LoopStart? then 1 else if s[n - 1].LoopEnd? then -1 else 0)
  }

  /** No prefix closes more loops than it opens: the resolver never meets a `]` with an
      empty stack. */
  ghost predicate NoUnmatchedClose(s: seq<Op>) {
    forall n :: 0 <= n <= |s| ==> Depth(s, n) >= 0
  }

  ghost predicate Balanced(s: seq<Op>) {
    NoUnmatchedClose(s) && Depth(s, |s|) == 0
  }

  /** The `[` at `j` and the `]` at `t` match: after `j` the depth stays above its level
      before `j` up to `t`, where the `]` brings it back. */
  ghost predicate Matches(s: seq<Op>, j: nat, t: nat) {
    j < t < |s| && s[j].LoopStart? && s[t].LoopEnd? &&
    Depth(s, t) == Depth(s, j) + 1 &&
    forall k :: j < k <= t ==> Depth(s, k) > Depth(s, j)
  }

  /** The `[` at `j` is never closed: the depth stays above its level to the end. */
  ghost predicate Unclosed(s: seq<Op>, j: nat) {
    j < |s| && s[j].LoopStart? && forall k :: j < k <= |s| ==> Depth(s, k) > Depth(s, j)
  }

  /** What the resolver leaves at index `j` of `r`, resolving `s`. */
  ghost predicate ResolvedAt(s: seq<Op>, r: seq<Op>, j: nat)
    requires |r| == |s| && j < |s|
  {
    && (!s[j].IsLoop() ==> r[j] == s[j])
    && (s[j].LoopStart? ==>
          (Unclosed(s, j) && r[j] == s[j]) ||
          (r[j].LoopStart? && Matches(s, j, r[j].target) && r[r[j].target] == LoopEnd(j)))
    && (s[j].LoopEnd? ==>
          r[j].LoopEnd? && Matches(s, r[j].target, j) && r[r[j].target] == LoopStart(j))
  }

  /** `r` is the resolution of `s`: same length, non-brackets unchanged, every matched pair
      pointing at each other, every unclosed `[` untouched. */
  ghost predicate Resolution(s: seq<Op>, r: seq<Op>) {
    |r| == |s| && forall j :: 0 <= j < |s| ==> ResolvedAt(s, r, j)
  }

  // ---------------------------------------------------------------------------------
  // The state of the scan before index `i`

  /** The pending stack holds, bottom to top, the `[` of `s[..i]` not yet closed: the one at
      height `m` was opened at depth `m`, and the depth has stayed above `m` since. */
  ghost predicate StackOk(s: seq<Op>, loops: seq<nat>, i: nat)
    requires i <= |s|
  {
    && (forall k :: 0 <= k <= i ==> Depth(s, k) >= 0)
    && |loops| == Depth(s, i)
    && (forall m :: 0 <= m < |loops| ==> loops[m] < i && s[loops[m]].LoopStart? && Depth(s, loops[m]) == m)
    && (forall m, k :: 0 <= m < |loops| && loops[m] < k <= i ==> Depth(s, k) > m)
    && (forall m1, m2 :: 0 <= m1 < m2 < |loops| ==> loops[m1] < loops[m2])
  }

  /** Index `j < i` of `r` is done: a pending `[` is untouched, every other bracket is paired. */
  ghost predicate DoneAt(s: seq<Op>, r: seq<Op>, loops: seq<nat>, i: nat, j: nat)
    requires |r| == |s| && j < i <= |s|
  {
    && (!s[j].IsLoop() ==> r[j] == s[j])
    && (s[j].LoopStart? && j in loops ==> r[j] == s[j])
    && (s[j].LoopStart? && j !in loops ==>
          r[j].LoopStart? && r[j].target < i && Matches(s, j, r[j].target) && r[r[j].target] == LoopEnd(j))
    && (s[j].LoopEnd? ==>
          r[j].LoopEnd? && r[j].target !in loops && Matches(s, r[j].target, j) && r[r[j].target] == LoopStart(j))
  }

  ghost predicate ScanOk(s: seq<Op>, r: seq<Op>, loops: seq<nat>, i: nat)
    requires i <= |s|
  {
    && |r| == |s|
    && StackOk(s, loops, i)
    && (forall j :: i <= j < |s| ==> r[j] == s[j])
    && (forall j :: 0 <= j < i ==> DoneAt(s, r, loops, i, j))
  }

  lemma {:induction false} SkipStep(s: seq<Op>, r: seq<Op>, loops: seq<nat>, i: nat)
    requires i < |s| && !s[i].IsLoop() && ScanOk(s, r, loops, i)
    ensures ScanOk(s, r, loops, i + 1)
  {
    assert Depth(s, i + 1) == Depth(s, i);
    var next := i + 1;
    forall j | 0 <= j < next ensures DoneAt(s, r, loops, next, j) {
      if j < i {
        assert DoneAt(s, r, loops, i, j);
      }
    }
  }

  lemma {:induction false} PushStep(s: seq<Op>, r: seq<Op>, loops: seq<nat>, i: nat)
    requires i < |s| && s[i].LoopStart? && ScanOk(s, r, loops, i)
    ensures ScanOk(s, r, loops + [i], i + 1)
  {
    var loops' := loops + [i];
    PushStack(s, loops, i);
    var next := i + 1;
    forall j | 0 <= j < next ensures DoneAt(s, r, loops', next, j) {
      if j < i {
        assert DoneAt(s, r, loops, i, j);
        assert j in loops ==> j in loops';
        assert j in loops' && j != i ==> j in loops;
      } else {
        assert j in loops';
      }
    }
  }

  lemma {:induction false} PushStack(s: seq<Op>, loops: seq<nat>, i: nat)
    requires i < |s| && s[i].LoopStart? && StackOk(s, loops, i)
    ensures StackOk(s, loops + [i], i + 1)
  {
    var pushed := loops + [i];
    assert Depth(s, i + 1) == |pushed|;
    assert forall m :: 0 <= m < |loops| ==> pushed[m] == loops[m];
    PushedAbove(s, loops, i);
  }

  /** Every pending `[`, the pushed one included, stays open through `i + 1`. */
  lemma {:induction false} PushedAbove(s: seq<Op>, loops: seq<nat>, i: nat)
    requires i < |s| && s[i].LoopStart? && StackOk(s, loops, i)
    ensures forall m, k :: 0 <= m < |loops| + 1 && (loops + [i])[m] < k <= i + 1 ==> Depth(s, k) > m
  {
    var pushed := loops + [i];
    assert Depth(s, i + 1) == |pushed|;
    forall m, k | 0 <= m < |pushed| && pushed[m] < k <= i + 1
      ensures Depth(s, k) > m
    {
      if m < |loops| && k <= i {
        assert pushed[m] == loops[m];
      }
    }
  }

  lemma {:induction false} PopStack(s: seq<Op>, loops: seq<nat>, i: nat)
    requires i < |s| && s[i].LoopEnd? && |loops| > 0 && StackOk(s, loops, i)
    ensures StackOk(s, loops[..|loops| - 1], i + 1)
    ensures Matches(s, loops[|loops| - 1], i)
  {
    assert Depth(s, i + 1) == Depth(s, i) - 1;
  }

  lemma {:induction false} PopStep(s: seq<Op>, r: seq<Op>, loops: seq<nat>, i: nat)
    requires i < |s| && s[i].LoopEnd? && |loops| > 0 && ScanOk(s, r, loops, i)
    ensures var start := loops[|loops| - 1];
            ScanOk(s, r[i := LoopEnd(start)][start := LoopStart(i)], loops[..|loops| - 1], i + 1)
  {
    var start := loops[|loops| - 1];
    var loops' := loops[..|loops| - 1];
    var r' := r[i := LoopEnd(start)][start := LoopStart(i)];
    PopStack(s, loops, i);
    assert start !in loops' by {
      forall m | 0 <= m < |loops'| ensures loops'[m] != start {
        assert loops[m] < loops[|loops| - 1];
      }
    }
    var next := i + 1;
    forall j | 0 <= j < next ensures DoneAt(s, r', loops', next, j) {
      if j == i {
      } else if j == start {
      } else {
        assert DoneAt(s, r, loops, i, j);
        assert j in loops' ==> j in loops;
        assert j in loops && j != start ==> j in loops';
      }
    }
  }

  lemma {:induction false} PopEmpty(s: seq<Op>, loops: seq<nat>, i: nat)
    requires i < |s| && s[i].LoopEnd? && |loops| == 0 && StackOk(s, loops, i)
    ensures !NoUnmatchedClose(s)
  {
    assert Depth(s, i + 1) < 0;
  }

  lemma {:induction false} FinishScan(s: seq<Op>, r: seq<Op>, loops: seq<nat>)
    requires ScanOk(s, r, loops, |s|)
    ensures NoUnmatchedClose(s) && Resolution(s, r)
  {
    forall j | 0 <= j < |s| ensures ResolvedAt(s, r, j) {
      assert DoneAt(s, r, loops, |s|, j);
      if s[j].LoopStart? && j in loops {
        var m :| 0 <= m < |loops| && loops[m] == j;
        assert Unclosed(s, j);
      }
    }
  }

  /** `set_jump_targets`. `ok` is false where the source panics. */
  method SetJumpTargets(a: array<Op>) returns (ok: bool)
    modifies a
    ensures ok <==> NoUnmatchedClose(old(a[..]))
    ensures ok ==> Resolution(old(a[..]), a[..])
  {
    ghost var s := a[..];
    var loops: seq<nat> := [];
    var i := 0;
    while i < a.Length
      invariant 0 <= i <= a.Length && ScanOk(s, a[..], loops, i)
    {
      match a[i] {
        case LoopStart(_) =>
          PushStep(s, a[..], loops, i);
          loops := loops + [i];
        case LoopEnd(_) =>
          if |loops| == 0 {
            PopEmpty(s, loops, i);
            return false;
          }
          PopStep(s, a[..], loops, i);
          var start := loops[|loops| - 1];
          loops := loops[..|loops| - 1];
          a[i] := LoopEnd(start);
          a[start] := LoopStart(i);
        case _ =>
          SkipStep(s, a[..], loops, i);
      }
      i := i + 1;
    }
    FinishScan(s, a[..], loops);
    ok := true;
  }

  // ---------------------------------------------------------------------------------
  // Properties of the pairing

  /** Right after a matching `]` the depth is back to where it was before the `[`. */
  lemma {:induction false} MatchReturns(s: seq<Op>, j: nat, t: nat)
    requires Matches(s, j, t)
    ensures t + 1 <= |s| && Depth(s, t + 1) == Depth(s, j)
  {
  }

  /** A `[` has at most one matching `]`, a `]` at most one matching `[`, and an unclosed
      `[` has none. */
  lemma {:induction false} MatchUnique(s: seq<Op>, j: nat, t: nat, j': nat, t': nat)
    ensures Matches(s, j, t) && Matches(s, j, t') ==> t == t'
    ensures Matches(s, j, t) && Matches(s, j', t) ==> j == j'
    ensures Unclosed(s, j) ==> !Matches(s, j, t)
  {
    if Matches(s, j, t) {
      MatchReturns(s, j, t);
    }
    if Matches(s, j, t') {
      MatchReturns(s, j, t');
    }
  }

  /** Pairs are properly nested: a loop that opens inside another closes inside it too. */
  lemma {:induction false} MatchesNest(s: seq<Op>, j: nat, t: nat, j': nat, t': nat)
    requires Matches(s, j, t) && Matches(s, j', t') && j < j' < t
    ensures t' < t
  {
    MatchReturns(s, j, t);
  }

  /** There is one resolution of a program. */
  lemma {:induction false} ResolutionUnique(s: seq<Op>, r1: seq<Op>, r2: seq<Op>)
    requires Resolution(s, r1) && Resolution(s, r2)
    ensures r1 == r2
  {
    forall j | 0 <= j < |s| ensures r1[j] == r2[j] {
      assert ResolvedAt(s, r1, j) && ResolvedAt(s, r2, j);
      if s[j].LoopEnd? {
        MatchUnique(s, r1[j].target, j, r2[j].target, j);
      } else if s[j].LoopStart? {
        MatchUnique(s, j, r1[j].target, j, r2[j].target);
        MatchUnique(s, j, r2[j].target, j, r1[j].target);
      }
    }
  }

  /** With balanced brackets every `[` is paired: each `[` at `j` points forward to a `]`
      that points back at `j`, and each `]` points back to a `[` that points at it. */
  lemma {:induction false} BalancedPairing(s: seq<Op>, r: seq<Op>)
    requires Balanced(s) && Resolution(s, r)
    ensures forall j :: 0 <= j < |r| && r[j].LoopStart? ==>
      j < r[j].target < |r| && r[r[j].target] == LoopEnd(j)
    ensures forall t :: 0 <= t < |r| && r[t].LoopEnd? ==>
      r[t].target < t && r[r[t].target] == LoopStart(t)
  {
    forall j | 0 <= j < |r| && r[j].LoopStart?
      ensures j < r[j].target < |r| && r[r[j].target] == LoopEnd(j)
    {
      assert ResolvedAt(s, r, j);
      assert Depth(s, j) >= 0 && Depth(s, |s|) == 0;
    }
    forall t | 0 <= t < |r| && r[t].LoopEnd?
      ensures r[t].target < t && r[r[t].target] == LoopStart(t)
    {
      assert ResolvedAt(s, r, t);
    }
  }

  /** When every target the input carries is an index of it (the lexer gives 0), so is every
      target of the resolution: the emitter can look each of them up. */
  lemma {:induction false} ResolvedTargetsInRange(s: seq<Op>, r: seq<Op>)
    requires Resolution(s, r)
    requires forall j :: 0 <= j < |s| && s[j].IsLoop() ==> s[j].target < |s|
    ensures forall j :: 0 <= j < |r| && r[j].IsLoop() ==> r[j].target < |r|
  {
    forall j | 0 <= j < |r| && r[j].IsLoop() ensures r[j].target < |r| {
      assert ResolvedAt(s, r, j);
    }
  }
}
