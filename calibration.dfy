/** Bridge calibrations: an equation holds a test value and operands; it can
    be resolved when some choice of operators between the operands,
    evaluated strictly left to right, yields the test value. The operators
    are `+`, `*` and, when allowed, decimal concatenation. */
module Calibration {
  import opened Decimal

  datatype CalibrationEquation = CalibrationEquation(testValue: nat, operands: seq<nat>)

  datatype Op = Add | Mul | Cat

  /** `int(str(a) + str(b))`. */
  function Concat(a: nat, b: nat): nat {
    ValueOf(NatToString(a) + NatToString(b))
  }

  function Apply(op: Op, acc: nat, x: nat): nat {
    match op
    case Add => acc + x
    case Mul => acc * x
    case Cat => Concat(acc, x)
  }

  /** Left-to-right value of `acc op[0] ops[0] op[1] ops[1] ...`. */
  function Evaluate(acc: nat, ops: seq<nat>, choice: seq<Op>): nat
    requires |choice| == |ops|
    decreases |ops|
  {
    if ops == [] then acc else Evaluate(Apply(choice[0], acc, ops[0]), ops[1..], choice[1..])
  }

  ghost predicate Allowed(choice: seq<Op>, allowConcat: bool) {
    forall k :: 0 <= k < |choice| ==> allowConcat || choice[k] != Cat
  }

  /** Some allowed choice of operators makes the operands evaluate to the
      test value. */
  ghost predicate Resolvable(test: nat, acc: nat, ops: seq<nat>, allowConcat: bool) {
    exists choice :: |choice| == |ops| && Allowed(choice, allowConcat) && Evaluate(acc, ops, choice) == test
  }

  /** The search tree: from `acc`, try each operator on the next operand. */
  ghost predicate Reachable(test: nat, acc: nat, ops: seq<nat>, allowConcat: bool)
    decreases |ops|
  {
    if ops == [] then acc == test
    else
      Reachable(test, acc + ops[0], ops[1..], allowConcat)
      || Reachable(test, acc * ops[0], ops[1..], allowConcat)
      || (allowConcat && Reachable(test, Concat(acc, ops[0]), ops[1..], allowConcat))
  }

  /** A queue entry: the accumulator and the operands still to use. */
  type Entry = (nat, seq<nat>)

  ghost predicate AnyReachable(test: nat, q: seq<Entry>, allowConcat: bool) {
    exists k :: 0 <= k < |q| && Reachable(test, q[k].0, q[k].1, allowConcat)
  }

  function Pow4(n: nat): (r: nat)
    ensures r >= 1
  {
    if n == 0 then 1 else 4 * Pow4(n - 1)
  }

  /** Each entry weighs 4 to the number of its remaining operands. */
  function Weight(q: seq<Entry>): nat {
    if q == [] then 0 else Pow4(|q[0].1|) + Weight(q[1..])
  }

  /** The worklist search: pops the front entry; with no operand left it
      succeeds when the accumulator is the test value; otherwise it pushes
      to the front, in this order, the sum, the product and (when allowed)
      the concatenation with the next operand, so the concatenation is
      tried first. An empty queue means no choice works. */
  method EquationCanBeResolved(eq: CalibrationEquation, allowConcat: bool) returns (resolved: bool)
    requires |eq.operands| >= 1
    ensures resolved == Reachable(eq.testValue, eq.operands[0], eq.operands[1..], allowConcat)
    ensures |eq.operands| == 1 ==> (resolved <==> eq.operands[0] == eq.testValue)
  {
    var test := eq.testValue;
    var q: seq<Entry> := [(eq.operands[0], eq.operands[1..])];
    assert q[0] == (eq.operands[0], eq.operands[1..]);
    while q != []
      invariant AnyReachable(test, q, allowConcat) == Reachable(test, eq.operands[0], eq.operands[1..], allowConcat)
      decreases Weight(q)
    {
      var acc, rest := q[0].0, q[0].1;
      ghost var q0 := q;
      q := q[1..];
      PopFront(test, q0, allowConcat);
      if rest == [] {
        if acc == test {
          return true;
        }
        continue;
      }
      var next := rest[0];
      var tail := rest[1..];
      var children := [(acc * next, tail), (acc + next, tail)];
      if allowConcat {
        children := [(Concat(acc, next), tail)] + children;
      }
      ChildrenReachable(test, acc, rest, allowConcat, children);
      ChildrenWeight(rest, children);
      AnyAppend(test, children, q, allowConcat);
      WeightAppend(children, q);
      q := children + q;
    }
    return false;
  }

  lemma {:induction false} PopFront(test: nat, q: seq<Entry>, allowConcat: bool)
    requires q != []
    ensures AnyReachable(test, q, allowConcat)
            == (Reachable(test, q[0].0, q[0].1, allowConcat) || AnyReachable(test, q[1..], allowConcat))
    ensures Weight(q) == Pow4(|q[0].1|) + Weight(q[1..])
  {
    if AnyReachable(test, q, allowConcat) {
      var k :| 0 <= k < |q| && Reachable(test, q[k].0, q[k].1, allowConcat);
      if k > 0 {
        assert q[1..][k - 1] == q[k];
      }
    }
    if AnyReachable(test, q[1..], allowConcat) {
      var k :| 0 <= k < |q[1..]| && Reachable(test, q[1..][k].0, q[1..][k].1, allowConcat);
      assert q[k + 1] == q[1..][k];
    }
  }

  /** The pushed entries are reachable exactly when the popped one is. */
  lemma {:induction false} ChildrenReachable(test: nat, acc: nat, rest: seq<nat>, allowConcat: bool, children: seq<Entry>)
    requires rest != []
    requires children == (if allowConcat then [(Concat(acc, rest[0]), rest[1..])] else [])
                         + [(acc * rest[0], rest[1..]), (acc + rest[0], rest[1..])]
    ensures AnyReachable(test, children, allowConcat) == Reachable(test, acc, rest, allowConcat)
  {
    var n := |children|;
    assert children[n - 1] == (acc + rest[0], rest[1..]);
    assert children[n - 2] == (acc * rest[0], rest[1..]);
    if allowConcat {
      assert children[0] == (Concat(acc, rest[0]), rest[1..]);
    }
  }

  /** Each child has one operand fewer, so three children weigh less than
      their parent. */
  lemma {:induction false} ChildrenWeight(rest: seq<nat>, children: seq<Entry>)
    requires rest != [] && 1 <= |children| <= 3
    requires forall k :: 0 <= k < |children| ==> children[k].1 == rest[1..]
    ensures Weight(children) < Pow4(|rest|)
  {
    var w := Pow4(|rest| - 1);
    assert Pow4(|rest|) == 4 * w;
    assert Weight(children[|children|..]) == 0;
    assert forall k :: 0 <= k < |children| ==> Pow4(|children[k].1|) == w;
    if |children| == 3 {
      assert Weight(children) == w + Weight(children[1..]);
      assert Weight(children[1..]) == w + Weight(children[2..]);
      assert Weight(children[2..]) == w + Weight(children[3..]);
    } else if |children| == 2 {
      assert Weight(children) == w + Weight(children[1..]);
      assert Weight(children[1..]) == w + Weight(children[2..]);
    } else {
      assert Weight(children) == w + Weight(children[1..]);
    }
  }

  lemma {:induction false} AnyAppend(test: nat, a: seq<Entry>, b: seq<Entry>, allowConcat: bool)
    ensures AnyReachable(test, a + b, allowConcat)
            == (AnyReachable(test, a, allowConcat) || AnyReachable(test, b, allowConcat))
  {
    if AnyReachable(test, a + b, allowConcat) {
      var k :| 0 <= k < |a + b| && Reachable(test, (a + b)[k].0, (a + b)[k].1, allowConcat);
      if k >= |a| {
        assert (a + b)[k] == b[k - |a|];
      } else {
        assert (a + b)[k] == a[k];
      }
    }
    if AnyReachable(test, a, allowConcat) {
      var k :| 0 <= k < |a| && Reachable(test, a[k].0, a[k].1, allowConcat);
      assert (a + b)[k] == a[k];
    }
    if AnyReachable(test, b, allowConcat) {
      var k :| 0 <= k < |b| && Reachable(test, b[k].0, b[k].1, allowConcat);
      assert (a + b)[|a| + k] == b[k];
    }
  }

  lemma {:induction false} WeightAppend(a: seq<Entry>, b: seq<Entry>)
    ensures Weight(a + b) == Weight(a) + Weight(b)
  {
    if a != [] {
      assert (a + b)[1..] == a[1..] + b;
      WeightAppend(a[1..], b);
    } else {
      assert a + b == b;
    }
  }

  /** The search tree and the choices of operators agree: an equation is
      reachable exactly when some allowed choice of operators resolves it. */
  lemma {:induction false} ReachableIffResolvable(test: nat, acc: nat, ops: seq<nat>, allowConcat: bool)
    ensures Reachable(test, acc, ops, allowConcat) <==> Resolvable(test, acc, ops, allowConcat)
    decreases |ops|
  {
    if ops == [] {
      var none: seq<Op> := [];
      assert Evaluate(acc, ops, none) == acc;
      assert Allowed(none, allowConcat);
    } else {
      var x, rest := ops[0], ops[1..];
      ReachableIffResolvable(test, acc + x, rest, allowConcat);
      ReachableIffResolvable(test, acc * x, rest, allowConcat);
      ReachableIffResolvable(test, Concat(acc, x), rest, allowConcat);
      if Resolvable(test, acc, ops, allowConcat) {
        FirstChoice(test, acc, ops, allowConcat);
      }
      if Reachable(test, acc, ops, allowConcat) {
        var op := if Reachable(test, acc + x, rest, allowConcat) then Add
                  else if Reachable(test, acc * x, rest, allowConcat) then Mul
                  else Cat;
        ExtendChoice(test, acc, ops, allowConcat, op);
      }
    }
  }

  /** A resolving choice resolves, after its first operator, the rest of
      the operands from the accumulator that operator gives. */
  lemma {:induction false} FirstChoice(test: nat, acc: nat, ops: seq<nat>, allowConcat: bool)
    requires ops != [] && Resolvable(test, acc, ops, allowConcat)
    ensures || Resolvable(test, Apply(Add, acc, ops[0]), ops[1..], allowConcat)
            || Resolvable(test, Apply(Mul, acc, ops[0]), ops[1..], allowConcat)
            || (allowConcat && Resolvable(test, Apply(Cat, acc, ops[0]), ops[1..], allowConcat))
  {
    var choice :| |choice| == |ops| && Allowed(choice, allowConcat) && Evaluate(acc, ops, choice) == test;
    var tail := choice[1..];
    assert Allowed(tail, allowConcat) by {
      forall k | 0 <= k < |tail| ensures allowConcat || tail[k] != Cat {
        assert tail[k] == choice[k + 1];
      }
    }
    assert allowConcat || choice[0] != Cat;
    assert Evaluate(Apply(choice[0], acc, ops[0]), ops[1..], tail) == test;
  }

  /** An allowed operator followed by a choice resolving the rest gives a
      choice resolving all the operands. */
  lemma {:induction false} ExtendChoice(test: nat, acc: nat, ops: seq<nat>, allowConcat: bool, op: Op)
    requires ops != [] && (allowConcat || op != Cat)
    requires Resolvable(test, Apply(op, acc, ops[0]), ops[1..], allowConcat)
    ensures Resolvable(test, acc, ops, allowConcat)
  {
    var tail :| |tail| == |ops| - 1 && Allowed(tail, allowConcat) && Evaluate(Apply(op, acc, ops[0]), ops[1..], tail) == test;
    var choice := [op] + tail;
    assert choice[1..] == tail;
    assert Allowed(choice, allowConcat) by {
      forall k | 0 <= k < |choice| ensures allowConcat || choice[k] != Cat {
        if k > 0 {
          assert choice[k] == tail[k - 1];
        }
      }
    }
    assert Evaluate(acc, ops, choice) == test;
  }

  /** Allowing concatenation only adds choices. */
  lemma {:induction false} ConcatOnlyAdds(test: nat, acc: nat, ops: seq<nat>)
    ensures Reachable(test, acc, ops, false) ==> Reachable(test, acc, ops, true)
    decreases |ops|
  {
    if ops != [] {
      ConcatOnlyAdds(test, acc + ops[0], ops[1..]);
      ConcatOnlyAdds(test, acc * ops[0], ops[1..]);
    }
  }

  /** Concatenation shifts the first number left by the digits of the second. */
  lemma {:induction false} ConcatValue(a: nat, b: nat)
    ensures Concat(a, b) == a * Pow10(NumDigits(b)) + b
  {
    ValueOfAppend(NatToString(a), NatToString(b));
    ValueOfNatToString(a);
    ValueOfNatToString(b);
    NatToStringLength(b);
  }

  ghost predicate Resolved(eq: CalibrationEquation, allowConcat: bool)
    requires |eq.operands| >= 1
  {
    Reachable(eq.testValue, eq.operands[0], eq.operands[1..], allowConcat)
  }

  /** Sum of the test values of the equations resolved with the given operators. */
  ghost function SumResolved(eqs: seq<CalibrationEquation>, allowConcat: bool): nat
    requires forall k :: 0 <= k < |eqs| ==> |eqs[k].operands| >= 1
  {
    if eqs == [] then 0
    else
      var last := eqs[|eqs| - 1];
      SumResolved(eqs[..|eqs| - 1], allowConcat) + (if Resolved(last, allowConcat) then last.testValue else 0)
  }

  /** Tries each equation with `+` and `*`, and only when that fails with
      concatenation too; the second sum counts both kinds. */
  method Solve(eqs: seq<CalibrationEquation>) returns (sumTestValues: nat, sumWithConcat: nat)
    requires forall k :: 0 <= k < |eqs| ==> |eqs[k].operands| >= 1
    ensures sumTestValues == SumResolved(eqs, false)
    ensures sumWithConcat == SumResolved(eqs, true)
    ensures sumTestValues <= sumWithConcat
  {
    sumTestValues, sumWithConcat := 0, 0;
    for i := 0 to |eqs|
      invariant sumTestValues == SumResolved(eqs[..i], false)
      invariant sumWithConcat == SumResolved(eqs[..i], true)
      invariant sumTestValues <= sumWithConcat
    {
      var eq := eqs[i];
      assert eqs[..i + 1][..i] == eqs[..i] && eqs[..i + 1][i] == eq;
      ConcatOnlyAdds(eq.testValue, eq.operands[0], eq.operands[1..]);
      var plain := EquationCanBeResolved(eq, false);
      if plain {
        sumTestValues := sumTestValues + eq.testValue;
        sumWithConcat := sumWithConcat + eq.testValue;
      } else {
        var withConcat := EquationCanBeResolved(eq, true);
        if withConcat {
          sumWithConcat := sumWithConcat + eq.testValue;
        }
      }
    }
    assert eqs[..|eqs|] == eqs;
  }
}
