/** What a flat list of operands and binary operators means: the tree whose
    root is the last operator of least priority, evaluated left to right; and
    why a pair of stacks computes it (riscv/interactive.cc, lines 626-642). */
module Precedence {
  import opened Wrappers
  import opened Powers
  import opened ParseExpr

  /** The last operator of least priority among ops[lo..hi]: operators
      associate to the left. */
  function Root(ops: seq<char>, lo: nat, hi: nat): (r: nat)
    requires lo < hi <= |ops|
    ensures lo <= r < hi
  {
    if hi == lo + 1 then lo
    else
      var r := Root(ops, lo, hi - 1);
      if Priority(ops[hi - 1]) <= Priority(ops[r]) then hi - 1 else r
  }

  lemma {:induction false} RootSpec(ops: seq<char>, lo: nat, hi: nat)
    requires lo < hi <= |ops|
    ensures var r := Root(ops, lo, hi);
            && (forall i :: lo <= i < r ==> Priority(ops[i]) >= Priority(ops[r]))
            && (forall i :: r < i < hi ==> Priority(ops[i]) > Priority(ops[r]))
  {
    hide Priority;
    if hi > lo + 1 { RootSpec(ops, lo, hi - 1); }
  }

  function Combine(op: char, l: Evaluated, r: Evaluated): Evaluated {
    match l
    case Err(e) => Err(e)
    case Ok(a) =>
      match r
      case Err(e) => Err(e)
      case Ok(b) => ApplyBinary(op, a, b)
  }

  /** The value of operands lo to hi - 1, joined by ops[lo..hi - 1]. */
  function Eval(vals: seq<Evaluated>, ops: seq<char>, lo: nat, hi: nat): Evaluated
    requires lo < hi <= |vals| == |ops| + 1
    decreases hi - lo
  {
    if hi == lo + 1 then vals[lo]
    else
      var r := Root(ops, lo, hi - 1);
      Combine(ops[r], Eval(vals, ops, lo, r + 1), Eval(vals, ops, r + 1, hi))
  }

  lemma RootIs(ops: seq<char>, lo: nat, hi: nat, p: nat)
    requires lo <= p < hi <= |ops|
    requires forall i :: lo <= i < p ==> Priority(ops[i]) >= Priority(ops[p])
    requires forall i :: p < i < hi ==> Priority(ops[i]) > Priority(ops[p])
    ensures Root(ops, lo, hi) == p
  {
    hide Priority;
    RootSpec(ops, lo, hi);
  }

  // ---- the stacks

  /** marks are the positions of the stacked operators.  They cut operands a
      to m - 1 into segments; segment t runs from Lo to Hi. */
  function Lo(a: nat, marks: seq<nat>, t: nat): nat
    requires t <= |marks|
  {
    if t == 0 then a else marks[t - 1] + 1
  }

  function Hi(marks: seq<nat>, t: nat, m: nat): nat
    requires t <= |marks|
  {
    if t == |marks| then m else marks[t] + 1
  }

  /** Of the operators from a to k - 1, those after a stacked one bind tighter
      than it, and those before it, back to the previous stacked one, at least
      as tight. */
  ghost predicate Ordered(ops: seq<char>, a: nat, k: int, marks: seq<nat>) {
    && k <= |ops|
    && (forall s, t :: 0 <= s < t < |marks| ==> marks[s] < marks[t])
    && (forall t {:trigger OrderedAt(ops, a, k, marks, t)} :: 0 <= t < |marks| ==> OrderedAt(ops, a, k, marks, t))
  }

  /** Every operator strictly between positions p and k binds tighter than p's. */
  ghost predicate Looser(ops: seq<char>, p: nat, k: int)
    requires p < |ops|
  {
    forall i :: p < i < k && i < |ops| ==> Priority(ops[i]) > Priority(ops[p])
  }

  /** Every operator from lo to hi - 1 binds at least as tight as p. */
  ghost predicate Tight(ops: seq<char>, lo: nat, hi: int, p: int) {
    forall i :: lo <= i < hi && i < |ops| ==> Priority(ops[i]) >= p
  }

  /** The first segments have the values in the buffer. */
  ghost predicate Holds(vals: seq<Evaluated>, ops: seq<char>, m: nat, marks: seq<nat>, buffer: seq<u64>)
    requires |buffer| <= |marks| + 1
  {
    forall t :: 0 <= t < |buffer| ==> SegmentIs(vals, ops, Lo(0, marks, t), Hi(marks, t, m), buffer[t])
  }

  ghost predicate SegmentIs(vals: seq<Evaluated>, ops: seq<char>, lo: nat, hi: nat, v: u64) {
    lo < hi <= |vals| == |ops| + 1 && Eval(vals, ops, lo, hi) == Ok(v)
  }

  predicate OnStack(ops: seq<char>, marks: seq<nat>, stack: seq<char>) {
    |stack| == |marks| && forall t :: 0 <= t < |marks| ==> marks[t] < |ops| && stack[t] == ops[marks[t]]
  }

  /** m operands read, the last of them on the buffer. */
  ghost predicate AfterValue(vals: seq<Evaluated>, ops: seq<char>, m: nat, marks: seq<nat>, buffer: seq<u64>,
                             stack: seq<char>) {
    && |vals| == |ops| + 1 && 0 < m && |buffer| == |marks| + 1
    && Ordered(ops, 0, m - 1, marks) && OnStack(ops, marks, stack) && Holds(vals, ops, m, marks, buffer)
  }

  /** m operands and m operators read, the last of them on the stack. */
  ghost predicate BeforeValue(vals: seq<Evaluated>, ops: seq<char>, m: nat, marks: seq<nat>, buffer: seq<u64>,
                              stack: seq<char>) {
    && |vals| == |ops| + 1 && |buffer| == |marks| && Lo(0, marks, |marks|) == m
    && Ordered(ops, 0, m, marks) && OnStack(ops, marks, stack) && Holds(vals, ops, m, marks, buffer)
  }

  lemma PushValue(vals: seq<Evaluated>, ops: seq<char>, m: nat, marks: seq<nat>, buffer: seq<u64>,
                  stack: seq<char>, v: u64)
    requires BeforeValue(vals, ops, m, marks, buffer, stack) && m < |vals| && vals[m] == Ok(v)
    ensures AfterValue(vals, ops, m + 1, marks, buffer + [v], stack)
  {
    assert SegmentIs(vals, ops, m, m + 1, v);
    hide Priority, Ordered, OnStack, SegmentIs;
  }

  lemma PushOperator(vals: seq<Evaluated>, ops: seq<char>, m: nat, marks: seq<nat>, buffer: seq<u64>, stack: seq<char>)
    requires AfterValue(vals, ops, m, marks, buffer, stack) && m <= |ops|
    requires Tight(ops, Lo(0, marks, |marks|), m - 1, Priority(ops[m - 1]))
    requires TopBelow(ops, marks, Priority(ops[m - 1]))
    ensures BeforeValue(vals, ops, m, marks + [m - 1], buffer, stack + [ops[m - 1]])
  {
    OrderedPush(ops, m, marks);
    HoldsPush(vals, ops, m, marks, buffer);
    hide Priority, Holds, Ordered;
  }

  lemma HoldsPush(vals: seq<Evaluated>, ops: seq<char>, m: nat, marks: seq<nat>, buffer: seq<u64>)
    requires 0 < m && |buffer| == |marks| + 1 && Holds(vals, ops, m, marks, buffer)
    ensures Holds(vals, ops, m, marks + [m - 1], buffer)
  {
    hide SegmentIs;
    forall t | 0 <= t < |buffer|
      ensures SegmentIs(vals, ops, Lo(0, marks + [m - 1], t), Hi(marks + [m - 1], t, m), buffer[t])
    {
      assert SegmentIs(vals, ops, Lo(0, marks, t), Hi(marks, t, m), buffer[t]);
    }
  }

  predicate TopBelow(ops: seq<char>, marks: seq<nat>, p: int) {
    marks == [] || (marks[|marks| - 1] < |ops| && Priority(ops[marks[|marks| - 1]]) < p)
  }

  lemma OrderedPush(ops: seq<char>, m: nat, marks: seq<nat>)
    requires 0 < m <= |ops| && Ordered(ops, 0, m - 1, marks)
    requires Tight(ops, Lo(0, marks, |marks|), m - 1, Priority(ops[m - 1]))
    requires TopBelow(ops, marks, Priority(ops[m - 1]))
    ensures Ordered(ops, 0, m, marks + [m - 1])
  {
    hide Priority, Looser, Tight;
    var marks' := marks + [m - 1];
    forall t | 0 <= t < |marks'| ensures OrderedAt(ops, 0, m, marks', t) {
      OrderedPushAt(ops, m, marks, t);
    }
    forall t | 0 <= t < |marks| ensures marks[t] < m - 1 { BelowTop(ops, m, marks, t); }
  }

  ghost predicate OrderedAt(ops: seq<char>, a: nat, k: int, marks: seq<nat>, t: nat) {
    && t < |marks| && a <= marks[t] < k && marks[t] < |ops| && Looser(ops, marks[t], k)
    && Tight(ops, Lo(a, marks, t), marks[t], Priority(ops[marks[t]]))
  }

  lemma OrderedPushAt(ops: seq<char>, m: nat, marks: seq<nat>, t: nat)
    requires 0 < m <= |ops| && Ordered(ops, 0, m - 1, marks) && t <= |marks|
    requires Tight(ops, Lo(0, marks, |marks|), m - 1, Priority(ops[m - 1]))
    requires TopBelow(ops, marks, Priority(ops[m - 1]))
    ensures OrderedAt(ops, 0, m, marks + [m - 1], t)
  {
    hide Priority, Looser, Tight;
    if t < |marks| {
      assert OrderedAt(ops, 0, m - 1, marks, t);
      assert Lo(0, marks + [m - 1], t) == Lo(0, marks, t);
      BelowTop(ops, m, marks, t);
      LooserNext(ops, marks[t], m);
    } else {
      LooserNone(ops, m - 1);
    }
  }

  lemma BelowTop(ops: seq<char>, m: nat, marks: seq<nat>, t: nat)
    requires 0 < m <= |ops| && Ordered(ops, 0, m - 1, marks) && t < |marks|
    requires TopBelow(ops, marks, Priority(ops[m - 1]))
    ensures marks[t] < m - 1 && Priority(ops[marks[t]]) < Priority(ops[m - 1])
  {
    hide Priority, Tight, Looser;
    assert OrderedAt(ops, 0, m - 1, marks, t);
    assert OrderedAt(ops, 0, m - 1, marks, |marks| - 1);
    if t < |marks| - 1 { LooserAt(ops, marks[t], m - 1, marks[|marks| - 1]); }
  }

  lemma LooserAt(ops: seq<char>, p: nat, k: int, i: nat)
    requires p < i < k && i < |ops| && Looser(ops, p, k)
    ensures Priority(ops[i]) > Priority(ops[p])
  {
    hide Priority;
  }

  lemma LooserNext(ops: seq<char>, p: nat, m: nat)
    requires p < m - 1 < |ops| && Looser(ops, p, m - 1) && Priority(ops[m - 1]) > Priority(ops[p])
    ensures Looser(ops, p, m)
  {
    hide Priority;
  }

  lemma LooserNone(ops: seq<char>, p: nat)
    requires p < |ops|
    ensures Looser(ops, p, p + 1)
  {
  }

  /** Applying the top operator merges the last two segments. */
  lemma MergeTop(vals: seq<Evaluated>, ops: seq<char>, m: nat, marks: seq<nat>, buffer: seq<u64>, stack: seq<char>,
                 p: int)
    requires AfterValue(vals, ops, m, marks, buffer, stack) && marks != []
    requires Tight(ops, Lo(0, marks, |marks|), m - 1, p) && p <= Priority(stack[|marks| - 1])
    ensures var n, lo := |marks| - 1, Lo(0, marks, |marks| - 1);
            && lo < m <= |vals|
            && Eval(vals, ops, lo, m) == ApplyBinary(stack[n], buffer[n], buffer[n + 1])
            && Tight(ops, lo, m - 1, p)
  {
    hide Priority, ApplyBinary, Eval;
    var n := |marks| - 1;
    var lo := Lo(0, marks, n);
    assert SegmentIs(vals, ops, lo, marks[n] + 1, buffer[n]);
    assert SegmentIs(vals, ops, marks[n] + 1, m, buffer[n + 1]);
    assert OrderedAt(ops, 0, m - 1, marks, n);
    hide Holds, Ordered;
    TightAcross(ops, lo, m - 1, marks[n], p);
    EvalAt(vals, ops, lo, m, marks[n]);
  }

  lemma TightAcross(ops: seq<char>, lo: nat, k: nat, r: nat, p: int)
    requires lo <= r < k <= |ops| && Looser(ops, r, k) && Tight(ops, lo, r, Priority(ops[r]))
    requires Tight(ops, r + 1, k, p) && p <= Priority(ops[r])
    ensures Root(ops, lo, k) == r && Tight(ops, lo, k, p)
  {
    hide Priority;
    RootIs(ops, lo, k, r);
  }

  lemma EvalAt(vals: seq<Evaluated>, ops: seq<char>, lo: nat, hi: nat, r: nat)
    requires lo + 1 < hi <= |vals| == |ops| + 1 && r == Root(ops, lo, hi - 1)
    ensures lo <= r < hi - 1
    ensures Eval(vals, ops, lo, hi) == Combine(ops[r], Eval(vals, ops, lo, r + 1), Eval(vals, ops, r + 1, hi))
  {
    hide Priority, Root, Combine;
  }

  lemma PopMerged(vals: seq<Evaluated>, ops: seq<char>, m: nat, marks: seq<nat>, buffer: seq<u64>,
                  stack: seq<char>, v: u64)
    requires AfterValue(vals, ops, m, marks, buffer, stack) && marks != []
    requires SegmentIs(vals, ops, Lo(0, marks, |marks| - 1), m, v)
    ensures var n := |marks| - 1;
            && AfterValue(vals, ops, m, marks[..n], buffer[..n] + [v], stack[..n])
            && Lo(0, marks[..n], n) == Lo(0, marks, n)
  {
    var n := |marks| - 1;
    OrderedPop(ops, m, marks);
    HoldsPop(vals, ops, m, marks, buffer, v);
    hide Priority, SegmentIs, Holds, Ordered;
  }

  lemma OrderedPop(ops: seq<char>, m: nat, marks: seq<nat>)
    requires 0 < m && marks != [] && Ordered(ops, 0, m - 1, marks)
    ensures Ordered(ops, 0, m - 1, marks[..|marks| - 1])
  {
    hide Priority, Looser, Tight;
    var marks', k := marks[..|marks| - 1], m - 1;
    forall t | 0 <= t < |marks'|
      ensures OrderedAt(ops, 0, k, marks', t)
    {
      assert Lo(0, marks', t) == Lo(0, marks, t) && marks'[t] == marks[t];
      assert OrderedAt(ops, 0, m - 1, marks, t);
    }
  }

  lemma HoldsPop(vals: seq<Evaluated>, ops: seq<char>, m: nat, marks: seq<nat>, buffer: seq<u64>, v: u64)
    requires |buffer| == |marks| + 1 && marks != [] && Holds(vals, ops, m, marks, buffer)
    requires SegmentIs(vals, ops, Lo(0, marks, |marks| - 1), m, v)
    ensures var n := |marks| - 1; Holds(vals, ops, m, marks[..n], buffer[..n] + [v])
  {
    hide SegmentIs;
    var n := |marks| - 1;
    var marks', buffer' := marks[..n], buffer[..n] + [v];
    forall t | 0 <= t < |buffer'| ensures SegmentIs(vals, ops, Lo(0, marks', t), Hi(marks', t, m), buffer'[t]) {
      assert SegmentIs(vals, ops, Lo(0, marks, t), Hi(marks, t, m), buffer[t]);
    }
  }

  // ---- errors

  predicate FineAt(vals: seq<Evaluated>, ops: seq<char>, a: nat, marks: seq<nat>, t: nat) {
    t < |marks| && FineSegment(vals, ops, Lo(a, marks, t), marks[t] + 1)
  }

  predicate FineSegment(vals: seq<Evaluated>, ops: seq<char>, lo: nat, hi: nat) {
    lo < hi <= |vals| == |ops| + 1 && Eval(vals, ops, lo, hi).Ok?
  }

  /** The segments before the last are fine, the last one is not, and no
      operator around it binds into it. */
  ghost predicate FirstFailure(vals: seq<Evaluated>, ops: seq<char>, a: nat, b: nat, marks: seq<nat>, hi: nat,
                               e: Error) {
    var lo := Lo(a, marks, |marks|);
    && a <= lo < hi <= b <= |vals| == |ops| + 1
    && Eval(vals, ops, lo, hi) == Err(e)
    && (hi < b ==> Tight(ops, lo, hi - 1, Priority(ops[hi - 1])))
    && Ordered(ops, a, hi - 1, marks)
    && (forall t {:trigger FineAt(vals, ops, a, marks, t)} :: 0 <= t < |marks| ==> FineAt(vals, ops, a, marks, t))
  }

  /** The first operand or operator to fail decides the result. */
  lemma {:induction false} FirstError(vals: seq<Evaluated>, ops: seq<char>, a: nat, b: nat, marks: seq<nat>,
                                      hi: nat, e: Error)
    requires FirstFailure(vals, ops, a, b, marks, hi, e)
    ensures Fails(vals, ops, a, b, e)
    decreases b - a
  {
    hide *;
    FailureBounds(vals, ops, a, b, marks, hi, e);
    if marks != [] || hi < b {
      var r := Root(ops, a, b - 1);
      RootOfFailure(vals, ops, a, b, marks, hi, e, r);
      if r >= hi - 1 {
        NarrowRight(vals, ops, a, b, marks, hi, e, r + 1);
        FirstError(vals, ops, a, r + 1, marks, hi, e);
        LeftFails(vals, ops, a, b, r, e);
      } else {
        var later := DropFirst(vals, ops, a, b, marks, hi, e, r);
        FirstError(vals, ops, r + 1, b, later, hi, e);
        RightFails(vals, ops, a, b, r, e);
      }
    }
  }

  predicate Fails(vals: seq<Evaluated>, ops: seq<char>, a: nat, b: nat, e: Error) {
    a < b <= |vals| == |ops| + 1 && Eval(vals, ops, a, b) == Err(e)
  }

  lemma LeftFails(vals: seq<Evaluated>, ops: seq<char>, a: nat, b: nat, r: nat, e: Error)
    requires a + 1 < b <= |vals| == |ops| + 1 && r == Root(ops, a, b - 1) && Fails(vals, ops, a, r + 1, e)
    ensures Fails(vals, ops, a, b, e)
  {
    hide ApplyBinary, Priority, Root;
  }

  lemma RightFails(vals: seq<Evaluated>, ops: seq<char>, a: nat, b: nat, r: nat, e: Error)
    requires a + 1 < b <= |vals| == |ops| + 1 && r == Root(ops, a, b - 1)
    requires Eval(vals, ops, a, r + 1).Ok? && Fails(vals, ops, r + 1, b, e)
    ensures Fails(vals, ops, a, b, e)
  {
    hide ApplyBinary, Priority, Root;
  }

  lemma FailureBounds(vals: seq<Evaluated>, ops: seq<char>, a: nat, b: nat, marks: seq<nat>, hi: nat, e: Error)
    requires FirstFailure(vals, ops, a, b, marks, hi, e)
    ensures a < b <= |vals| == |ops| + 1 && hi <= b
    ensures if marks == [] && hi == b then Fails(vals, ops, a, b, e) else a + 1 < b
  {
    var k := hi - 1;
    if marks != [] { assert OrderedAt(ops, a, k, marks, |marks| - 1); }
    hide Priority, Eval, FineSegment, Tight, Looser;
  }

  lemma NarrowRight(vals: seq<Evaluated>, ops: seq<char>, a: nat, b: nat, marks: seq<nat>, hi: nat, e: Error, b': nat)
    requires FirstFailure(vals, ops, a, b, marks, hi, e) && hi <= b' <= b
    ensures FirstFailure(vals, ops, a, b', marks, hi, e)
  {
    hide Priority, Eval, FineSegment, Tight, Ordered;
  }

  /** The root lies to the right of the failing segment, or is the first
      stacked operator. */
  lemma RootOfFailure(vals: seq<Evaluated>, ops: seq<char>, a: nat, b: nat, marks: seq<nat>, hi: nat, e: Error, r: nat)
    requires FirstFailure(vals, ops, a, b, marks, hi, e) && (marks != [] || hi < b)
    requires a + 1 < b && r == Root(ops, a, b - 1)
    ensures r >= hi - 1 || (marks != [] && r == marks[0])
  {
    hide Priority, ApplyBinary, Eval, FineSegment, FineAt, Root, OrderedAt, Looser, Tight;
    RootSpec(ops, a, b - 1);
    var lo, k := Lo(a, marks, |marks|), hi - 1;
    if lo <= r < k {
      if marks == [] {
        TightAt(ops, lo, k, Priority(ops[k]), r);
      } else {
        TopLooser(ops, a, k, marks, |marks| - 1, r);
      }
    } else if r < lo {
      var t := SegmentOf(marks, r);
      SegmentTight(ops, a, k, marks, t, r);
      if r == marks[t] && t > 0 { TopLooser(ops, a, k, marks, 0, r); }
    }
  }

  lemma TightAt(ops: seq<char>, lo: nat, k: int, p: int, i: nat)
    requires Tight(ops, lo, k, p) && lo <= i < k && i < |ops|
    ensures Priority(ops[i]) >= p
  {
  }

  lemma TopLooser(ops: seq<char>, a: nat, k: int, marks: seq<nat>, t: nat, i: nat)
    requires Ordered(ops, a, k, marks) && t < |marks| && marks[t] < i < k
    ensures a <= marks[t] < |ops| && i < |ops| && Priority(ops[i]) > Priority(ops[marks[t]])
  {
    hide Priority, Looser, Tight;
    assert OrderedAt(ops, a, k, marks, t);
    LooserAt(ops, marks[t], k, i);
  }

  lemma SegmentTight(ops: seq<char>, a: nat, k: int, marks: seq<nat>, t: nat, i: nat)
    requires Ordered(ops, a, k, marks) && t < |marks| && Lo(a, marks, t) <= i <= marks[t]
    ensures a <= marks[t] < k && marks[t] < |ops| && Priority(ops[i]) >= Priority(ops[marks[t]])
  {
    hide Priority, Looser, Tight;
    assert OrderedAt(ops, a, k, marks, t);
    if i < marks[t] { TightAt(ops, Lo(a, marks, t), marks[t], Priority(ops[marks[t]]), i); }
  }

  lemma {:induction false} SegmentOf(marks: seq<nat>, r: nat) returns (t: nat)
    requires marks != [] && r <= marks[|marks| - 1]
    ensures t < |marks| && r <= marks[t] && (t > 0 ==> marks[t - 1] < r)
  {
    var n := |marks| - 1;
    if n == 0 || marks[n - 1] < r {
      t := n;
    } else {
      t := SegmentOf(marks[..n], r);
    }
  }

  lemma DropFirst(vals: seq<Evaluated>, ops: seq<char>, a: nat, b: nat, marks: seq<nat>, hi: nat, e: Error, r: nat)
    returns (later: seq<nat>)
    requires FirstFailure(vals, ops, a, b, marks, hi, e) && marks != [] && r == marks[0]
    ensures FirstFailure(vals, ops, r + 1, b, later, hi, e)
    ensures a < r + 1 < b && Eval(vals, ops, a, r + 1).Ok?
  {
    later := marks[1..];
    hide Priority, Eval, FineSegment, Tight;
    assert FineAt(vals, ops, a, marks, 0);
    IsFine(vals, ops, a, marks[0] + 1);
    LastAfterFirst(ops, a, hi - 1, marks);
    OrderedDrop(ops, a, hi - 1, marks);
    hide Ordered;
    FineDrop(vals, ops, a, marks);
  }

  lemma LastAfterFirst(ops: seq<char>, a: nat, k: int, marks: seq<nat>)
    requires Ordered(ops, a, k, marks) && marks != []
    ensures marks[0] + 1 <= Lo(a, marks, |marks|) == Lo(marks[0] + 1, marks[1..], |marks| - 1)
  {
    hide OrderedAt;
  }

  lemma FineDrop(vals: seq<Evaluated>, ops: seq<char>, a: nat, marks: seq<nat>)
    requires marks != [] && forall t {:trigger FineAt(vals, ops, a, marks, t)} :: 0 <= t < |marks| ==>
               FineAt(vals, ops, a, marks, t)
    ensures var a', marks' := marks[0] + 1, marks[1..];
            forall t {:trigger FineAt(vals, ops, a', marks', t)} :: 0 <= t < |marks'| ==>
              FineAt(vals, ops, a', marks', t)
  {
    hide FineSegment;
    var a', marks' := marks[0] + 1, marks[1..];
    forall t | 0 <= t < |marks'| ensures FineAt(vals, ops, a', marks', t) {
      assert FineAt(vals, ops, a, marks, t + 1);
    }
  }

  lemma IsFine(vals: seq<Evaluated>, ops: seq<char>, lo: nat, hi: nat)
    requires FineSegment(vals, ops, lo, hi)
    ensures lo < hi <= |vals| == |ops| + 1 && Eval(vals, ops, lo, hi).Ok?
  {
  }

  lemma OrderedDrop(ops: seq<char>, a: nat, k: int, marks: seq<nat>)
    requires Ordered(ops, a, k, marks) && marks != []
    ensures Ordered(ops, marks[0] + 1, k, marks[1..])
  {
    hide Priority, Looser, Tight;
    var marks', a' := marks[1..], marks[0] + 1;
    forall t | 0 <= t < |marks'|
      ensures OrderedAt(ops, a', k, marks', t)
    {
      assert OrderedAt(ops, a, k, marks, t + 1);
    }
  }

  lemma FineFromHolds(vals: seq<Evaluated>, ops: seq<char>, m: nat, marks: seq<nat>, buffer: seq<u64>, marks': seq<nat>)
    requires marks' <= marks && |marks'| <= |buffer| <= |marks| + 1 && Holds(vals, ops, m, marks, buffer)
    ensures forall t {:trigger FineAt(vals, ops, 0, marks', t)} :: 0 <= t < |marks'| ==> FineAt(vals, ops, 0, marks', t)
  {
    hide Eval;
    forall t | 0 <= t < |marks'| ensures FineAt(vals, ops, 0, marks', t) {
      assert SegmentIs(vals, ops, Lo(0, marks, t), Hi(marks, t, m), buffer[t]);
    }
  }

  lemma OperandError(vals: seq<Evaluated>, ops: seq<char>, m: nat, marks: seq<nat>, buffer: seq<u64>,
                     stack: seq<char>, e: Error)
    requires BeforeValue(vals, ops, m, marks, buffer, stack) && m < |vals| && vals[m] == Err(e)
    ensures Eval(vals, ops, 0, |vals|) == Err(e)
  {
    assert Eval(vals, ops, m, m + 1) == Err(e);
    hide Eval, Priority, FineSegment, OrderedAt, SegmentIs, OnStack;
    FineFromHolds(vals, ops, m, marks, buffer, marks);
    assert FirstFailure(vals, ops, 0, |vals|, marks, m + 1, e);
    FirstError(vals, ops, 0, |vals|, marks, m + 1, e);
  }

  lemma OperatorError(vals: seq<Evaluated>, ops: seq<char>, m: nat, marks: seq<nat>, buffer: seq<u64>,
                      stack: seq<char>, e: Error)
    requires AfterValue(vals, ops, m, marks, buffer, stack) && marks != [] && m <= |vals|
    requires var lo := Lo(0, marks, |marks| - 1);
             && lo < m && Eval(vals, ops, lo, m) == Err(e)
             && (m < |vals| ==> Tight(ops, lo, m - 1, Priority(ops[m - 1])))
    ensures Eval(vals, ops, 0, |vals|) == Err(e)
  {
    var n := |marks| - 1;
    OperatorFailure(vals, ops, m, marks, buffer, stack, e);
    hide Eval, FirstFailure, AfterValue;
    FirstError(vals, ops, 0, |vals|, marks[..n], m, e);
  }

  lemma OperatorFailure(vals: seq<Evaluated>, ops: seq<char>, m: nat, marks: seq<nat>, buffer: seq<u64>,
                        stack: seq<char>, e: Error)
    requires AfterValue(vals, ops, m, marks, buffer, stack) && marks != [] && m <= |vals|
    requires var lo := Lo(0, marks, |marks| - 1);
             && lo < m && Eval(vals, ops, lo, m) == Err(e)
             && (m < |vals| ==> Tight(ops, lo, m - 1, Priority(ops[m - 1])))
    ensures FirstFailure(vals, ops, 0, |vals|, marks[..|marks| - 1], m, e)
  {
    hide Eval, Priority, FineSegment, OrderedAt, SegmentIs, OnStack, Tight;
    var n := |marks| - 1;
    FineFromHolds(vals, ops, m, marks, buffer, marks[..n]);
    OrderedPop(ops, m, marks);
    assert Lo(0, marks[..n], n) == Lo(0, marks, n);
    hide Holds, Ordered;
  }

  /** Reducing to priority p keeps the stacks in order and the last segment
      tight, or fails as the whole expression does. */
  lemma {:induction false} ReduceStack(
      vals: seq<Evaluated>, ops: seq<char>, m: nat, marks: seq<nat>, buffer: seq<u64>, stack: seq<char>, p: int)
    returns (marks': seq<nat>)
    requires AfterValue(vals, ops, m, marks, buffer, stack) && m <= |vals| && Operators(stack)
    requires Tight(ops, Lo(0, marks, |marks|), m - 1, p) && (m < |vals| ==> p == Priority(ops[m - 1]))
    ensures match Reduce(p, buffer, stack)
            case Err(e) => Eval(vals, ops, 0, |vals|) == Err(e)
            case Ok(t) =>
              && AfterValue(vals, ops, m, marks', t.buffer, t.ops)
              && Tight(ops, Lo(0, marks', |marks'|), m - 1, p)
              && (marks' == [] || Priority(t.ops[|marks'| - 1]) < p)
    decreases |stack|
  {
    SameHeight(vals, ops, m, marks, buffer, stack);
    marks' := marks;
    if stack != [] && p <= Priority(stack[|stack| - 1]) {
      var e, marks1, buffer1, stack1 := ReduceStep(vals, ops, m, marks, buffer, stack, p);
      hide AfterValue, Eval, Priority, Tight, ApplyBinary, Reduce, Operators;
      if e == None {
        marks' := ReduceStack(vals, ops, m, marks1, buffer1, stack1, p);
      }
    } else {
      ReduceOnce(p, buffer, stack);
      hide Eval, Priority, Tight, ApplyBinary, Reduce, Operators, Holds, Ordered;
    }
  }

  /** One operator applied. */
  lemma ReduceStep(vals: seq<Evaluated>, ops: seq<char>, m: nat, marks: seq<nat>, buffer: seq<u64>,
                   stack: seq<char>, p: int)
    returns (e: Option<Error>, marks': seq<nat>, buffer': seq<u64>, stack': seq<char>)
    requires AfterValue(vals, ops, m, marks, buffer, stack) && m <= |vals| && Operators(stack)
    requires Tight(ops, Lo(0, marks, |marks|), m - 1, p) && (m < |vals| ==> p == Priority(ops[m - 1]))
    requires stack != [] && p <= Priority(stack[|stack| - 1])
    ensures |buffer| == |stack| + 1
    ensures match e
            case Some(er) => Reduce(p, buffer, stack) == Err(er) && Eval(vals, ops, 0, |vals|) == Err(er)
            case None =>
              && AfterValue(vals, ops, m, marks', buffer', stack') && Operators(stack') && |stack'| < |stack|
              && Tight(ops, Lo(0, marks', |marks'|), m - 1, p) && |buffer'| == |stack'| + 1
              && Reduce(p, buffer, stack) == Reduce(p, buffer', stack')
  {
    SameHeight(vals, ops, m, marks, buffer, stack);
    ReduceOnce(p, buffer, stack);
    hide AfterValue, Eval, Priority, Tight, ApplyBinary, Reduce, Operators;
    var n := |marks| - 1;
    e, marks', buffer', stack' := None, marks[..n], buffer[..n], stack[..n];
    MergeTop(vals, ops, m, marks, buffer, stack, p);
    match ApplyBinary(stack[n], buffer[n], buffer[n + 1]) {
      case Err(er) =>
        OperatorError(vals, ops, m, marks, buffer, stack, er);
        e := Some(er);
      case Ok(v) =>
        PopMerged(vals, ops, m, marks, buffer, stack, v);
        buffer' := buffer' + [v];
    }
  }

  lemma ReduceOnce(p: int, buffer: seq<u64>, ops: seq<char>)
    requires |buffer| == |ops| + 1 && Operators(ops)
    ensures ops == [] || p > Priority(ops[|ops| - 1]) ==> Reduce(p, buffer, ops) == Ok(Stacks(buffer, ops))
    ensures ops != [] && p <= Priority(ops[|ops| - 1]) ==>
              var n := |ops| - 1;
              Operators(ops[..n])
              && Reduce(p, buffer, ops) == match ApplyBinary(ops[n], buffer[n], buffer[n + 1])
                                           case Err(e) => Err(e)
                                           case Ok(v) => Reduce(p, buffer[..n] + [v], ops[..n])
  {
    hide Priority, ApplyBinary;
  }

  lemma SameHeight(vals: seq<Evaluated>, ops: seq<char>, m: nat, marks: seq<nat>, buffer: seq<u64>, stack: seq<char>)
    requires AfterValue(vals, ops, m, marks, buffer, stack)
    ensures |buffer| == |marks| + 1 == |stack| + 1 && |vals| == |ops| + 1 && m > 0
  {
  }
}
