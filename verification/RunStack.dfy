/** The stack of pending runs of the merge sort: the rule that decides what to merge next, the
    invariants it restores on the whole stack, and the cost of all merges it ever asks for. */
module RunStack {
  import opened Wrappers

  /** A pending run: `len` elements from `start`.  The top of the stack is the last element. */
  datatype Run = Run(start: nat, len: nat)

  /** The rule that picks the next pair of runs to merge. */
  function Collapse(runs: seq<Run>): (r: Option<nat>)
    ensures r.Some? ==> r.value + 1 < |runs|
  {
    var n := |runs|;
    if && n >= 2
       && (|| runs[n - 1].start == 0
           || runs[n - 2].len <= runs[n - 1].len
           || (n >= 3 && runs[n - 3].len <= runs[n - 2].len + runs[n - 1].len)
           || (n >= 4 && runs[n - 4].len <= runs[n - 3].len + runs[n - 2].len))
    then
      if n >= 3 && runs[n - 3].len < runs[n - 1].len then Some(n - 3) else Some(n - 2)
    else None
  }

  /** Replaces `runs[r]` and `runs[r + 1]` by the run that covers both. */
  function MergePair(runs: seq<Run>, r: nat): (m: seq<Run>)
    requires r + 1 < |runs|
    ensures |m| == |runs| - 1
  {
    runs[..r] + [Run(runs[r + 1].start, runs[r + 1].len + runs[r].len)] + runs[r + 2..]
  }

  /** Both documented invariants at position `i` of the stack. */
  ghost predicate BalancedAt(runs: seq<Run>, i: nat)
    requires 0 < i < |runs|
  {
    && runs[i - 1].len > runs[i].len
    && (i >= 2 ==> runs[i - 2].len > runs[i - 1].len + runs[i].len)
  }

  /** The invariants hold at every position below `n`. */
  ghost predicate BalancedBelow(runs: seq<Run>, n: int)
    requires n <= |runs|
  {
    forall i {:trigger BalancedAt(runs, i)} :: 0 < i < n ==> BalancedAt(runs, i)
  }

  ghost predicate Balanced(runs: seq<Run>) {
    BalancedBelow(runs, |runs|)
  }

  /** What holds between merges: the top two positions may be out of balance. */
  ghost predicate NearlyBalanced(runs: seq<Run>) {
    BalancedBelow(runs, |runs| - 2)
  }

  lemma PushKeepsNearly(runs: seq<Run>, top: Run)
    requires Balanced(runs)
    ensures NearlyBalanced(runs + [top])
  {
    var p := runs + [top];
    forall i | 0 < i < |p| - 2
      ensures BalancedAt(p, i)
    {
      assert BalancedAt(runs, i);
    }
  }

  lemma MergeKeepsNearly(runs: seq<Run>)
    requires NearlyBalanced(runs) && Collapse(runs).Some?
    ensures NearlyBalanced(MergePair(runs, Collapse(runs).value))
  {
    var m := MergePair(runs, Collapse(runs).value);
    forall i | 0 < i < |m| - 2
      ensures BalancedAt(m, i)
    {
      assert BalancedAt(runs, i);
    }
  }

  /** The claim of the source: looking at the top four runs is enough to restore both invariants on
      the whole stack. */
  lemma NoneMeansBalanced(runs: seq<Run>)
    requires NearlyBalanced(runs) && Collapse(runs) == None
    ensures Balanced(runs)
  {
  }

  /** The rule without its fourth clause, as in the faulty TimSort implementations. */
  function CollapseTopThree(runs: seq<Run>): (r: Option<nat>)
    ensures r.Some? ==> r.value + 1 < |runs|
  {
    var n := |runs|;
    if && n >= 2
       && (|| runs[n - 1].start == 0
           || runs[n - 2].len <= runs[n - 1].len
           || (n >= 3 && runs[n - 3].len <= runs[n - 2].len + runs[n - 1].len))
    then
      if n >= 3 && runs[n - 3].len < runs[n - 1].len then Some(n - 3) else Some(n - 2)
    else None
  }

  /** Without the fourth clause a balanced stack can be left unbalanced: pushing 30 on the balanced
      stack 120, 80, 25, 20 settles as 120, 80, 45, 30 and 120 <= 80 + 45. */
  lemma TopThreeIsNotEnough()
    ensures var s := [Run(165, 120), Run(85, 80), Run(60, 25), Run(40, 20)];
            var p := s + [Run(10, 30)];
            && Balanced(s)
            && CollapseTopThree(p) == Some(2)
            && CollapseTopThree(MergePair(p, 2)) == None
            && !Balanced(MergePair(p, 2))
  {
    var s := [Run(165, 120), Run(85, 80), Run(60, 25), Run(40, 20)];
    var p := s + [Run(10, 30)];
    assert p[3].len == 20 && p[2].len == 25 && p[4].len == 30;
    var m := MergePair(p, 2);
    assert m == [Run(165, 120), Run(85, 80), Run(40, 45), Run(10, 30)];
    assert !BalancedAt(m, 2);
  }

  // -----------------------------------------------------------------------------------------
  // Depth of the stack

  ghost function Fib(n: nat): nat {
    if n < 2 then n else Fib(n - 1) + Fib(n - 2)
  }

  ghost function Pow2(n: nat): (r: nat)
    ensures r >= 1
  {
    if n == 0 then 1 else 2 * Pow2(n - 1)
  }

  ghost function TotalLen(runs: seq<Run>): nat {
    if runs == [] then 0 else TotalLen(runs[..|runs| - 1]) + runs[|runs| - 1].len
  }

  ghost predicate NonEmptyRuns(runs: seq<Run>) {
    forall i :: 0 <= i < |runs| ==> runs[i].len > 0
  }

  /** The run `d` places below the top is at least as long as the Fibonacci numbers demand. */
  lemma {:induction false} DepthBound(runs: seq<Run>, d: nat)
    requires Balanced(runs) && NonEmptyRuns(runs) && d < |runs|
    ensures runs[|runs| - 1 - d].len >= Fib(d + 3) - 1
  {
    var i := |runs| - d;
    if d >= 2 {
      DepthBound(runs, d - 1);
      DepthBound(runs, d - 2);
      assert BalancedAt(runs, i + 1);
    } else if d == 1 {
      DepthBound(runs, 0);
      assert BalancedAt(runs, i);
      assert Fib(4) == Fib(3) + Fib(2) && Fib(3) == Fib(2) + Fib(1);
    } else {
      assert Fib(3) == Fib(2) + Fib(1) && Fib(2) == Fib(1) + Fib(0);
    }
  }

  lemma Pow2Zero()
    ensures Pow2(0) == 1
  {
  }

  lemma HalfStep(k: nat)
    requires k >= 2
    ensures Pow2(k / 2) == 2 * Pow2((k - 2) / 2)
  {
    assert (k - 2) / 2 == k / 2 - 1;
  }

  lemma {:induction false} FibGrows(k: nat)
    ensures Fib(k + 2) >= Pow2(k / 2)
    ensures Fib(k + 1) <= Fib(k + 2)
  {
    hide Pow2;
    if k == 0 {
      Pow2Zero();
      assert Fib(2) == Fib(1) + Fib(0);
    } else if k == 1 {
      Pow2Zero();
      assert Fib(3) == Fib(2) + Fib(1) && Fib(2) == Fib(1) + Fib(0);
    } else {
      FibGrows(k - 1);
      FibGrows(k - 2);
      assert Fib(k + 2) == Fib(k + 1) + Fib(k) >= 2 * Fib(k);
      HalfStep(k);
    }
  }

  lemma {:induction false} RunWithinTotal(runs: seq<Run>, i: nat)
    requires i < |runs|
    ensures runs[i].len <= TotalLen(runs)
    decreases |runs|
  {
    if i < |runs| - 1 { RunWithinTotal(runs[..|runs| - 1], i); }
  }

  /** The stack is logarithmic in the number of elements it covers. */
  lemma StackIsLogarithmic(runs: seq<Run>)
    requires Balanced(runs) && NonEmptyRuns(runs)
    ensures Pow2(|runs| / 2) <= TotalLen(runs) + 1
  {
    if runs != [] {
      DepthBound(runs, |runs| - 1);
      RunWithinTotal(runs, 0);
      FibGrows(|runs|);
    }
  }

  ghost function Log2(n: nat): (e: nat)
    requires n > 0
    ensures Pow2(e) <= n < Pow2(e + 1)
  {
    if n == 1 then 0 else 1 + Log2(n / 2)
  }

  lemma {:induction false} Pow2Monotone(a: nat, b: nat)
    requires a <= b
    ensures Pow2(a) <= Pow2(b)
    decreases b
  {
    if a < b { Pow2Monotone(a, b - 1); }
  }

  /** A new run on a balanced stack never lands higher than twice the logarithm. */
  lemma PushHeight(runs: seq<Run>, total: nat)
    requires Balanced(runs) && NonEmptyRuns(runs) && TotalLen(runs) <= total
    ensures |runs| + 1 <= 2 * (Log2(total + 1) + 1)
  {
    StackIsLogarithmic(runs);
    if |runs| / 2 > Log2(total + 1) { Pow2Monotone(Log2(total + 1) + 1, |runs| / 2); }
  }

  // -----------------------------------------------------------------------------------------
  // Cost of the merges

  /** Every element weighs its height in the stack. */
  ghost function Weight(runs: seq<Run>): nat {
    if runs == [] then 0 else Weight(runs[..|runs| - 1]) + |runs| * runs[|runs| - 1].len
  }

  /** What the elements of the top run may still owe while a further merge is due. */
  ghost function Credit(runs: seq<Run>): nat {
    if Collapse(runs).Some? || (|runs| == 1 && runs[0].start == 0) then runs[|runs| - 1].len else 0
  }

  lemma OneLower(n: nat, a: nat, b: nat)
    ensures n * (a + b) + a == n * b + (n + 1) * a
  {
  }

  lemma MergeTopWeight(runs: seq<Run>)
    requires |runs| >= 2
    ensures var m := MergePair(runs, |runs| - 2);
            Weight(m) + runs[|runs| - 1].len == Weight(runs) && TotalLen(m) == TotalLen(runs)
  {
    var n := |runs|;
    var m := MergePair(runs, n - 2);
    assert m[..n - 2] == runs[..n - 2] == runs[..n - 1][..n - 2];
    assert Weight(m) == Weight(runs[..n - 2]) + (n - 1) * (runs[n - 1].len + runs[n - 2].len);
    assert Weight(runs) == Weight(runs[..n - 2]) + (n - 1) * runs[n - 2].len + n * runs[n - 1].len;
    OneLower(n - 1, runs[n - 1].len, runs[n - 2].len);
  }

  lemma MergeUnderWeight(runs: seq<Run>)
    requires |runs| >= 3
    ensures var m := MergePair(runs, |runs| - 3);
            && Weight(m) + runs[|runs| - 1].len + runs[|runs| - 2].len == Weight(runs)
            && TotalLen(m) == TotalLen(runs)
  {
    var n := |runs|;
    var top := runs[n - 1];
    var m := MergePair(runs, n - 3);
    assert m[..n - 2] == MergePair(runs[..n - 1], n - 3);
    MergeTopWeight(runs[..n - 1]);
    assert Weight(m) == Weight(m[..n - 2]) + (n - 1) * top.len;
    assert Weight(runs) == Weight(runs[..n - 1]) + n * top.len;
    OneLower(n - 1, top.len, 0);
  }

  /** A merge is paid for by the drop in weight and by credit that the next merge will restore. */
  lemma MergeIsPaid(runs: seq<Run>)
    requires Collapse(runs).Some?
    ensures var r := Collapse(runs).value;
            var m := MergePair(runs, r);
            runs[r].len + runs[r + 1].len + 3 * Weight(m) + Credit(runs) <= 3 * Weight(runs) + Credit(m)
  {
    var n, r := |runs|, Collapse(runs).value;
    var m := MergePair(runs, r);
    if r == n - 3 {
      MergeUnderWeight(runs);
    } else {
      MergeTopWeight(runs);
      if runs[n - 2].len > runs[n - 1].len {
        assert m[n - 2].len == runs[n - 2].len + runs[n - 1].len;
        assert n >= 3 ==> m[n - 3] == runs[n - 3];
        assert n >= 4 ==> m[n - 4] == runs[n - 4];
      }
    }
  }

  lemma Higher(a: nat, b: nat, n: nat)
    requires a <= b
    ensures a * n <= b * n
  {
  }

  lemma PushIsPaid(runs: seq<Run>, top: Run, height: nat)
    requires |runs| + 1 <= height
    ensures Weight(runs + [top]) <= Weight(runs) + height * top.len
    ensures TotalLen(runs + [top]) == TotalLen(runs) + top.len
  {
    assert (runs + [top])[..|runs|] == runs;
    Higher(|runs| + 1, height, top.len);
  }
}
