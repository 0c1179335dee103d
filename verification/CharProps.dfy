/** unicode_prop_ops: set expressions in postfix form, evaluated on a stack of four sets. */
module CharProps {
  import opened RegexSyntax
  import opened CharSets

  datatype Expr =
    | Leaf(points: seq<nat>)
    | Binary(op: SetOp, left: Expr, right: Expr)
    | Not(arg: Expr)

  /** What the generated tables guarantee. */
  ghost predicate GoodLeaves(e: Expr)
  {
    match e
    case Leaf(points) => IsSet(points) && forall k :: 0 <= k < |points| ==> points[k] <= UINT32_MAX
    case Binary(_, x, y) => GoodLeaves(x) && GoodLeaves(y)
    case Not(x) => GoodLeaves(x)
  }

  /** The set that an expression means. */
  predicate In(e: Expr, c: nat)
  {
    match e
    case Leaf(points) => InPoints(points, c)
    case Binary(op, x, y) => Apply(op, In(x, c), In(y, c))
    case Not(x) => c < UINT32_MAX && !In(x, c)
  }

  /** POP_GC, POP_PROP and POP_CASE push a set from the tables. */
  datatype PropOp = PUSH(points: seq<nat>) | OP(op: SetOp) | INVERT

  const STACK_MAX: nat := 4

  function Postfix(e: Expr): seq<PropOp>
  {
    match e
    case Leaf(points) => [PUSH(points)]
    case Binary(op, x, y) => Postfix(x) + Postfix(y) + [OP(op)]
    case Not(x) => Postfix(x) + [INVERT]
  }

  /** The stack places an expression takes; a binary operation uses one for its result. */
  function Need(e: Expr): (n: nat)
    ensures n >= 1
  {
    match e
    case Leaf(_) => 1
    case Not(x) => Need(x)
    case Binary(_, x, y) =>
      var both := if Need(x) > 1 + Need(y) then Need(x) else 1 + Need(y);
      if both > 3 then both else 3
  }

  datatype Outcome = Stack(es: seq<Expr>) | Aborted

  /** One instruction on a stack of expressions; the asserts of the source that can fail. */
  function StepOp(p: PropOp, es: seq<Expr>): Outcome
  {
    match p
    case PUSH(points) => if |es| < STACK_MAX then Stack(es + [Leaf(points)]) else Aborted
    case OP(op) =>
      var n := |es|;
      if 2 <= n < STACK_MAX then Stack(es[..n - 2] + [Binary(op, es[n - 2], es[n - 1])]) else Aborted
    case INVERT =>
      var n := |es|;
      if n >= 1 then Stack(es[..n - 1] + [Not(es[n - 1])]) else Aborted
  }

  function RunOps(prog: seq<PropOp>, es: seq<Expr>): Outcome
  {
    if prog == [] then Stack(es)
    else
      match StepOp(prog[0], es)
      case Aborted => Aborted
      case Stack(es') => RunOps(prog[1..], es')
  }

  /** Running the postfix form of an expression pushes the expression. */
  lemma {:induction false} PostfixRuns(e: Expr, rest: seq<PropOp>, es: seq<Expr>)
    requires |es| + Need(e) <= STACK_MAX
    ensures RunOps(Postfix(e) + rest, es) == RunOps(rest, es + [e])
    decreases e
  {
    match e {
      case Leaf(points) =>
        assert (Postfix(e) + rest)[1..] == rest;
      case Not(x) =>
        assert Postfix(e) + rest == Postfix(x) + ([INVERT] + rest);
        PostfixRuns(x, [INVERT] + rest, es);
        assert ([INVERT] + rest)[1..] == rest;
        assert (es + [x])[..|es|] == es;
      case Binary(op, x, y) =>
        var tail := [OP(op)] + rest;
        assert Postfix(e) + rest == Postfix(x) + (Postfix(y) + tail);
        PostfixRuns(x, Postfix(y) + tail, es);
        PostfixRuns(y, tail, es + [x]);
        assert tail[1..] == rest;
        var st := es + [x] + [y];
        assert st[..|st| - 2] == es && st[|st| - 2] == x && st[|st| - 1] == y;
    }
  }

  /** And it runs within the four places exactly if it needs no more. */
  lemma {:induction false} PostfixAborts(e: Expr, rest: seq<PropOp>, es: seq<Expr>)
    requires |es| <= STACK_MAX && |es| + Need(e) > STACK_MAX
    ensures RunOps(Postfix(e) + rest, es) == Aborted
    decreases e
  {
    match e {
      case Leaf(points) =>
      case Not(x) =>
        assert Postfix(e) + rest == Postfix(x) + ([INVERT] + rest);
        PostfixAborts(x, [INVERT] + rest, es);
      case Binary(op, x, y) =>
        var tail := [OP(op)] + rest;
        assert Postfix(e) + rest == Postfix(x) + (Postfix(y) + tail);
        if |es| + Need(x) > STACK_MAX {
          PostfixAborts(x, Postfix(y) + tail, es);
        } else {
          PostfixRuns(x, Postfix(y) + tail, es);
          if |es| + 1 + Need(y) > STACK_MAX {
            PostfixAborts(y, tail, es + [x]);
          } else {
            PostfixRuns(y, tail, es + [x]);
          }
        }
    }
  }

  /** The concrete stack holds the sets of the expressions. */
  ghost predicate Holds(stack: seq<seq<nat>>, es: seq<Expr>)
  {
    |stack| == |es| && forall k :: 0 <= k < |es| ==> HoldsAt(stack[k], es[k])
  }

  ghost predicate HoldsAt(points: seq<nat>, e: Expr)
  {
    IsSet(points) && (forall k :: 0 <= k < |points| ==> points[k] <= UINT32_MAX) &&
    forall c: nat :: InPoints(points, c) <==> In(e, c)
  }

  ghost predicate GoodOps(prog: seq<PropOp>)
  {
    forall i :: 0 <= i < |prog| && prog[i].PUSH? ==> GoodLeaves(Leaf(prog[i].points))
  }

  /** unicode_prop_ops: ok is false where an assertion of the source fails. */
  method PropOps(prog: seq<PropOp>) returns (ok: bool, points: seq<nat>)
    requires GoodOps(prog)
    ensures ok <==> exists e :: RunOps(prog, []) == Stack([e])
    ensures forall e :: RunOps(prog, []) == Stack([e]) ==> IsSet(points) && forall c: nat :: InPoints(points, c) <==> In(e, c)
  {
    hide IsSet, InPoints, In, HoldsAt, GoodOps, RunOps, Holds;
    var stack: seq<seq<nat>> := [];
    ghost var es: seq<Expr> := [];
    var i := 0;
    HoldsNothing();
    assert prog[0..] == prog;
    while i < |prog|
      invariant 0 <= i <= |prog| && |stack| <= STACK_MAX
      invariant Holds(stack, es) && RunOps(prog, []) == RunOps(prog[i..], es)
    {
      assert prog[i..][0] == prog[i] && prog[i..][1..] == prog[i + 1..];
      RunNext(prog[i..], es);
      HoldsMany(stack, es);
      var n := |stack|;
      match prog[i] {
        case PUSH(leaf) =>
          if n >= STACK_MAX {
            return false, [];
          }
          LeafHolds(prog, i);
          HoldsReplace(stack, es, n, leaf, Leaf(leaf));
          assert stack[..n] == stack && es[..n] == es;
          stack, es := stack + [leaf], es + [Leaf(leaf)];
        case OP(op) =>
          if n < 2 || n >= STACK_MAX {
            return false, [];
          }
          var r := OpHolds(stack[n - 2], stack[n - 1], op, es[n - 2], es[n - 1]);
          HoldsReplace(stack, es, n - 2, r, Binary(op, es[n - 2], es[n - 1]));
          stack, es := stack[..n - 2] + [r], es[..n - 2] + [Binary(op, es[n - 2], es[n - 1])];
        case INVERT =>
          if n < 1 {
            return false, [];
          }
          var r := InvertHolds(stack[n - 1], es[n - 1]);
          HoldsReplace(stack, es, n - 1, r, Not(es[n - 1]));
          stack, es := stack[..n - 1] + [r], es[..n - 1] + [Not(es[n - 1])];
      }
      i := i + 1;
    }
    assert prog[i..] == [];
    RunNothing(es);
    HoldsMany(stack, es);
    if |stack| != 1 {
      return false, [];
    }
    points := stack[0];
    assert es == [es[0]];
    HeldSet(points, es[0]);
    ok := true;
  }

  lemma HoldsNothing()
    ensures Holds([], [])
  {
  }

  lemma HoldsMany(stack: seq<seq<nat>>, es: seq<Expr>)
    requires Holds(stack, es)
    ensures |stack| == |es| && forall k :: 0 <= k < |es| ==> HoldsAt(stack[k], es[k])
  {
  }

  lemma HoldsReplace(stack: seq<seq<nat>>, es: seq<Expr>, n: nat, r: seq<nat>, e: Expr)
    requires Holds(stack, es) && n <= |es| && HoldsAt(r, e)
    ensures n <= |stack| && Holds(stack[..n] + [r], es[..n] + [e])
  {
    hide HoldsAt;
  }

  lemma RunNext(prog: seq<PropOp>, es: seq<Expr>)
    requires prog != []
    ensures RunOps(prog, es) ==
            match StepOp(prog[0], es)
            case Aborted => Aborted
            case Stack(es') => RunOps(prog[1..], es')
  {
  }

  lemma HeldSet(points: seq<nat>, e: Expr)
    requires HoldsAt(points, e)
    ensures IsSet(points) && forall c: nat :: InPoints(points, c) <==> In(e, c)
  {
  }

  lemma LeafHolds(prog: seq<PropOp>, i: nat)
    requires GoodOps(prog) && i < |prog| && prog[i].PUSH?
    ensures HoldsAt(prog[i].points, Leaf(prog[i].points))
  {
  }

  method OpHolds(a: seq<nat>, b: seq<nat>, op: SetOp, ghost x: Expr, ghost y: Expr) returns (r: seq<nat>)
    requires HoldsAt(a, x) && HoldsAt(b, y)
    ensures HoldsAt(r, Binary(op, x, y))
  {
    hide InPoints, Increasing;
    var cr := new CharRange();
    cr.Op(a, b, op);
    r := cr.points;
  }

  method InvertHolds(a: seq<nat>, ghost x: Expr) returns (r: seq<nat>)
    requires HoldsAt(a, x)
    ensures HoldsAt(r, Not(x))
  {
    hide InPoints, Increasing;
    var cr := new CharRange();
    cr.points := a;
    cr.Invert();
    r := cr.points;
  }

  lemma {:induction false} PostfixGood(e: Expr)
    ensures GoodOps(Postfix(e)) <==> GoodLeaves(e)
  {
    match e {
      case Leaf(_) =>
        assert Postfix(e)[0].PUSH?;
      case Not(x) =>
        PostfixGood(x);
        GoodAppend(Postfix(x), [INVERT]);
      case Binary(op, x, y) =>
        PostfixGood(x);
        PostfixGood(y);
        GoodAppend(Postfix(x), Postfix(y));
        GoodAppend(Postfix(x) + Postfix(y), [OP(op)]);
    }
  }

  lemma GoodAppend(p: seq<PropOp>, q: seq<PropOp>)
    ensures GoodOps(p + q) <==> GoodOps(p) && GoodOps(q)
  {
    forall i | 0 <= i < |p|
      ensures (p + q)[i] == p[i]
    {
    }
    forall i | 0 <= i < |q|
      ensures (p + q)[|p| + i] == q[i]
    {
    }
    if GoodOps(p + q) {
      forall i | 0 <= i < |p| && p[i].PUSH?
        ensures GoodLeaves(Leaf(p[i].points))
      {
        assert (p + q)[i] == p[i];
      }
      forall i | 0 <= i < |q| && q[i].PUSH?
        ensures GoodLeaves(Leaf(q[i].points))
      {
        assert (p + q)[|p| + i] == q[i];
      }
    }
  }

  /** The postfix form of an expression evaluates to its set, if and only if it needs at most four places. */
  method EvalExpr(e: Expr) returns (ok: bool, points: seq<nat>)
    requires GoodLeaves(e)
    ensures ok <==> Need(e) <= STACK_MAX
    ensures ok ==> IsSet(points) && forall c: nat :: InPoints(points, c) <==> In(e, c)
  {
    hide InPoints, IsSet, In, GoodOps, GoodLeaves, RunOps;
    PostfixGood(e);
    assert Postfix(e) + [] == Postfix(e);
    RunNothing([e]);
    if Need(e) <= STACK_MAX {
      PostfixRuns(e, [], []);
      assert [] + [e] == [e];
    } else {
      PostfixAborts(e, [], []);
    }
    ok, points := PropOps(Postfix(e));
  }

  lemma RunNothing(es: seq<Expr>)
    ensures RunOps([], es) == Stack(es)
  {
  }
}
