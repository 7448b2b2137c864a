/** The converse of ParseRender: whatever parse_expr accepts is the text of an
    expression (riscv/interactive.cc). */
module Acceptance {
  import opened Wrappers
  import opened Powers
  import opened ParseExpr
  import opened Expressions

  // ---- states that cannot lead to acceptance

  /** A second value or a unary operator where a binary operator must come, or a
      terminator among the operators. */
  predicate Doomed(s: State) {
    (|s.buffer| == |s.ops| + 1 && (s.i > s.last || s.unary != [])) || END in s.ops
  }

  lemma {:induction false} TerminatorStays(p: int, buffer: seq<u64>, ops: seq<char>)
    requires |buffer| == |ops| + 1 && Operators(ops) && END in ops
    ensures match Reduce(p, buffer, ops)
            case Err(_) => true
            case Ok(t) => p > 0 && END in t.ops
    decreases |ops|
  {
    var n := |ops| - 1;
    PriorityEnd();
    hide Priority, ApplyBinary;
    assert Priority(ops[n]) >= 0;
    if !(p > Priority(ops[n])) {
      if ops[n] == END {
        NoSuchOperation(buffer[n], buffer[n + 1]);
      } else if ApplyBinary(ops[n], buffer[n], buffer[n + 1]).Ok? {
        assert END in ops[..n];
        TerminatorStays(p, buffer[..n] + [ApplyBinary(ops[n], buffer[n], buffer[n + 1]).value], ops[..n]);
      }
    }
  }

  lemma NoSuchOperation(a: u64, b: u64)
    ensures ApplyBinary(END, a, b).Err?
  {
  }

  lemma DoomedOperator(str: string, s: State)
    requires Sane(str, s) && s.i <= |str| && Priority(CharAt(str, s.i)) >= 0 && Doomed(s)
    requires s.i == s.last
    ensures match Operator(str, s)
            case Err(_) => true
            case Ok(t) => t.i <= |str| && Doomed(t)
  {
    var c := CharAt(str, s.i);
    PriorityEnd();
    hide Priority, Reduce;
    if |s.buffer| == |s.ops| + 1 && END in s.ops {
      TerminatorStays(Priority(c), s.buffer, s.ops);
    }
  }

  lemma {:induction false} Rejects(env: Env, str: string, s: State)
    requires Sane(str, s) && s.i <= |str| && Doomed(s)
    ensures Run(env, str, s).Err?
    decreases |str| + 1 - s.i, s.i - s.last
  {
    var c := CharAt(str, s.i);
    StepCases(env, str, s);
    PriorityEnd();
    if s.i == s.last && Priority(c) >= 0 { DoomedOperator(str, s); }
    if c == '(' && s.i < |str| { MatchFits(str, s.i + 1); }
    hide Step, Operator, MatchClose, Parse, Priority, ApplyUnaries;
    match Step(env, str, s) {
      case Err(e) => RunError(env, str, s, e);
      case Ok(t) =>
        RunOne(env, str, s, t);
        Rejects(env, str, t);
    }
  }

  lemma MatchFits(str: string, j: nat)
    requires j <= |str|
    ensures j <= MatchClose(str, j, 1) <= |str|
  {
  }

  lemma RunOne(env: Env, str: string, s: State, t: State)
    requires Sane(str, s) && s.i <= |str| && Step(env, str, s) == Ok(t)
    ensures Sane(str, t) && Run(env, str, s) == Run(env, str, t)
  {
    hide Step;
  }

  lemma RunError(env: Env, str: string, s: State, e: Error)
    requires Sane(str, s) && s.i <= |str| && Step(env, str, s) == Err(e)
    ensures Run(env, str, s) == Err(e)
  {
    hide Step;
  }

  // ---- text within parentheses

  lemma {:induction false} MatchBalances(str: string, j: nat, b: int, k: nat)
    requires j <= |str| && b > 0 && k == MatchClose(str, j, b) < |str|
    ensures j <= k && str[k] == ')' && Scan(str[j..k], b) == 1
    decreases |str| - j
  {
    var b' := if str[j] == '(' then b + 1 else if str[j] == ')' then b - 1 else b;
    if b' == 0 {
      assert str[j..k] == "";
    } else {
      MatchBalances(str, j + 1, b', k);
      assert str[j..k][0] == str[j] && str[j..k][1..] == str[j + 1..k];
    }
  }

  /** An unmatched closing parenthesis ends the text in parentheses. */
  lemma {:induction false} NameCloses(name: string, i: nat, b: int)
    requires i < |name| && name[i] == ')' && b == 1 && forall k :: 0 <= k < |name| ==> name[k] != '('
    ensures Scan(name, b) == 0
    decreases |name|
  {
    if i > 0 {
      if name[0] == ')' {
        ScanZero(name[1..]);
      } else {
        NameCloses(name[1..], i - 1, b);
      }
    } else {
      ScanZero(name[1..]);
    }
  }

  lemma ScanZero(t: string)
    ensures Scan(t, 0) == 0
  {
  }

  lemma OperandNests(x: Operand)
    requires WellFormedOperand(x, false) && Scan(OperandText(x), 1) != 0
    ensures WellFormedOperand(x, true)
  {
    match x.base
    case Paren(_) =>
    case Atom(name) =>
      var before := UnaryText(x.unaries) + Spaces(x.spaces);
      NeutralUnaries(x.unaries);
      NeutralSpaces(x.spaces);
      NeutralConcat(UnaryText(x.unaries), Spaces(x.spaces));
      ScanConcat(before, name, 1);
      assert Scan(before, 1) == 1;
      hide Scan;
      forall i | 0 <= i < |name| ensures name[i] != ')' {
        if name[i] == ')' { NameCloses(name, i, 1); }
      }
  }

  lemma NestsOne(e: Expr, k: nat)
    requires WellFormed(e, false) && k < |e.xs| && Scan(RenderFrom(e, k), 1) != 0
    ensures WellFormedOperand(e.xs[k], true) && Scan(RenderFrom(e, k + 1), 1) != 0
  {
    RenderNext(e, k);
    var x, join, more := e.xs[k], JoinText(e, k), RenderFrom(e, k + 1);
    NeutralJoin(e, false, k);
    assert Scan(join, 1) == 1;
    hide *;
    ScanConcat(OperandText(x), join + more, 1);
    ScanZero(join + more);
    WellFormedAt(e, k);
    OperandNests(x);
    NeutralScan(x);
    ScanConcat(join, more, 1);
  }

  lemma WellFormedAt(e: Expr, k: nat)
    requires WellFormed(e, false) && k < |e.xs|
    ensures WellFormedOperand(e.xs[k], false)
  {
    hide WellFormedOperand;
  }

  /** An expression whose text never closes more than it opens. */
  lemma {:induction false} Nests(e: Expr, k: nat)
    requires WellFormed(e, false) && k <= |e.xs| && Scan(RenderFrom(e, k), 1) != 0
    ensures forall i :: k <= i < |e.xs| ==> WellFormedOperand(e.xs[i], true)
    decreases |e.xs| - k
  {
    if k < |e.xs| {
      hide WellFormedOperand, RenderFrom, Scan;
      NestsOne(e, k);
      Nests(e, k + 1);
    }
  }

  lemma NeutralScan(x: Operand)
    requires WellFormedOperand(x, true)
    ensures Scan(OperandText(x), 1) == 1
  {
    NeutralOperand(x);
    hide WellFormedOperand, OperandText;
  }

  // ---- putting the tree together

  /** The text of all but the first operand, as an expression of its own. */
  lemma {:induction false} RenderShift(x: Operand, o: BinOp, e: Expr, k: nat)
    requires |e.xs| == |e.ops| + 1 && k <= |e.xs|
    ensures RenderFrom(Joined(x, o, e), k + 1) == RenderFrom(e, k)
    decreases |e.xs| - k
  {
    var d := Joined(x, o, e);
    RenderNext(d, k + 1);
    RenderNext(e, k);
    hide RenderFrom, JoinText, OperandText;
    if k < |e.xs| {
      JoinShift(x, o, e, k);
      RenderShift(x, o, e, k + 1);
    }
  }

  lemma RenderNext(e: Expr, k: nat)
    requires k <= |e.xs|
    ensures RenderFrom(e, k)
         == if k == |e.xs| then "" else OperandText(e.xs[k]) + (JoinText(e, k) + RenderFrom(e, k + 1))
  {
  }

  lemma JoinShift(x: Operand, o: BinOp, e: Expr, k: nat)
    requires |e.xs| == |e.ops| + 1 && k < |e.xs|
    ensures JoinText(Joined(x, o, e), k + 1) == JoinText(e, k) && Joined(x, o, e).xs[k + 1] == e.xs[k]
  {
    hide Spaces, OperatorText;
  }

  function Joined(x: Operand, o: BinOp, e: Expr): Expr { Expr([x] + e.xs, [o] + e.ops, e.tail) }

  /** What follows the first operand. */
  function Following(e: Expr): string
    requires |e.xs| > 0
  {
    JoinText(e, 0) + RenderFrom(e, 1)
  }

  lemma JoinedText(x: Operand, o: BinOp, e: Expr)
    requires WellFormed(e, false) && WellFormedOperand(x, false) && Priority(o.op) > 0
    ensures var d := Joined(x, o, e);
            && WellFormed(d, false) && d.xs[0] == x
            && Following(d) == Spaces(o.spaces) + OperatorText(o.op) + Render(e)
  {
    RenderShift(x, o, e, 0);
    hide WellFormedOperand, Priority, Spaces, OperatorText, RenderFrom;
    var d := Joined(x, o, e);
    assert d.xs[0] == x && d.ops[0] == o;
    JoinedParts(x, o, e);
  }

  lemma JoinedParts(x: Operand, o: BinOp, e: Expr)
    requires WellFormed(e, false) && WellFormedOperand(x, false) && Priority(o.op) > 0
    ensures WellFormed(Joined(x, o, e), false)
  {
    hide WellFormedOperand, Priority;
    var d := Joined(x, o, e);
    forall i | 0 <= i < |d.ops| ensures Priority(d.ops[i].op) > 0 { assert i > 0 ==> d.ops[i] == e.ops[i - 1]; }
    forall i | 0 <= i < |d.xs| ensures WellFormedOperand(d.xs[i], false) { assert i > 0 ==> d.xs[i] == e.xs[i - 1]; }
  }

  function Alone(x: Operand, n: nat): Expr { Expr([x], [], n) }

  lemma AloneText(x: Operand, n: nat)
    requires WellFormedOperand(x, false)
    ensures WellFormed(Alone(x, n), false) && Following(Alone(x, n)) == Spaces(n)
  {
    hide WellFormedOperand, Spaces;
  }

  /** A blank more before what follows the first operand. */
  lemma SpaceFollowing(e: Expr) returns (d: Expr)
    requires WellFormed(e, false)
    ensures WellFormed(d, false) && d.xs[0] == e.xs[0] && Following(d) == " " + Following(e)
  {
    hide WellFormedOperand, Priority, OperatorText, OperandText;
    if e.ops == [] {
      d := Alone(e.xs[0], e.tail + 1);
      AloneText(e.xs[0], e.tail + 1);
      AloneText(e.xs[0], e.tail);
      assert e == Alone(e.xs[0], e.tail);
    } else {
      var rest, o := Expr(e.xs[1..], e.ops[1..], e.tail), e.ops[0];
      Unjoined(e, rest);
      d := Joined(e.xs[0], BinOp(o.spaces + 1, o.op), rest);
      JoinedText(e.xs[0], o, rest);
      JoinedText(e.xs[0], BinOp(o.spaces + 1, o.op), rest);
      hide *;
      OneSpace(o.spaces, OperatorText(o.op), Render(rest));
    }
  }

  lemma OneSpace(n: nat, t: string, u: string)
    ensures Spaces(n + 1) + t + u == " " + (Spaces(n) + t + u)
  {
  }

  lemma Unjoined(e: Expr, rest: Expr)
    requires WellFormed(e, false) && e.ops != [] && rest == Expr(e.xs[1..], e.ops[1..], e.tail)
    ensures WellFormed(rest, false) && WellFormedOperand(e.xs[0], false) && Priority(e.ops[0].op) > 0
    ensures e == Joined(e.xs[0], e.ops[0], rest)
  {
    hide WellFormedOperand, Priority;
  }

  /** The expression with another first operand. */
  lemma WithFirst(e: Expr, x: Operand) returns (d: Expr)
    requires WellFormed(e, false) && WellFormedOperand(x, false)
    ensures WellFormed(d, false) && d.xs[0] == x && Following(d) == Following(e)
    ensures Render(d) == OperandText(x) + Following(e)
  {
    hide WellFormedOperand, Priority, OperatorText, OperandText, Spaces;
    if e.ops == [] {
      d := Alone(x, e.tail);
      AloneText(x, e.tail);
      AloneText(e.xs[0], e.tail);
      assert e == Alone(e.xs[0], e.tail);
    } else {
      var rest, o := Expr(e.xs[1..], e.ops[1..], e.tail), e.ops[0];
      Unjoined(e, rest);
      d := Joined(x, o, rest);
      JoinedText(e.xs[0], o, rest);
      JoinedText(x, o, rest);
    }
  }

  lemma SpaceOperand(x: Operand) returns (y: Operand)
    requires WellFormedOperand(x, false)
    ensures WellFormedOperand(y, false) && OperandText(y) == " " + OperandText(x)
  {
    hide BaseText;
    if x.unaries == [] {
      y := x.(spaces := x.spaces + 1);
      assert OperandText(y) == Spaces(y.spaces) + BaseText(x.base);
      assert OperandText(x) == Spaces(x.spaces) + BaseText(x.base);
    } else {
      var u := x.unaries[0];
      y := x.(unaries := [Unary(u.spaces + 1, u.op)] + x.unaries[1..]);
      assert y.unaries[1..] == x.unaries[1..];
      assert UnaryText(y.unaries) == " " + UnaryText(x.unaries);
    }
  }

  lemma UnaryOperand(c: char, x: Operand) returns (y: Operand)
    requires WellFormedOperand(x, false) && IsUnary(c)
    ensures WellFormedOperand(y, false) && OperandText(y) == [c] + OperandText(x)
  {
    hide BaseText, IsUnary;
    y := x.(unaries := [Unary(0, c)] + x.unaries);
    assert y.unaries[1..] == x.unaries;
    assert UnaryText(y.unaries) == [c] + UnaryText(x.unaries);
  }

  // ---- what is accepted

  predicate Accepted(env: Env, str: string, s: State)
  {
    Sane(str, s) && s.i <= |str| && Run(env, str, s).Ok?
  }

  /** A name goes on up to a delimiter. */
  lemma {:induction false} AcceptName(env: Env, str: string, s: State) returns (k: nat)
    requires Accepted(env, str, s) && s.i > s.last
    ensures s.i <= k <= |str| && Delimiter(CharAt(str, k)) && forall i :: s.i <= i < k ==> AtomChar(str[i])
    ensures Sane(str, s.(i := k)) && Run(env, str, s) == Run(env, str, s.(i := k))
    decreases |str| - s.i
  {
    var c := CharAt(str, s.i);
    StepCases(env, str, s);
    PriorityEnd();
    hide Step, Run, Push, Operator, MatchClose, Parse, Priority;
    if Delimiter(c) {
      k := s.i;
      assert s.(i := k) == s;
    } else {
      if c == '(' {
        RunError(env, str, s, ConsecutiveValues);
        assert false;
      }
      var t := s.(i := s.i + 1);
      RunOne(env, str, s, t);
      k := AcceptName(env, str, t);
      assert t.(i := k) == s.(i := k);
    }
  }

  /** Where a value must come, what remains is an expression. */
  lemma {:induction false} AcceptValue(env: Env, str: string, s: State) returns (e: Expr)
    requires Accepted(env, str, s) && s.i == s.last && |s.buffer| == |s.ops|
    ensures WellFormed(e, false) && Render(e) == str[s.i..]
    decreases |str|, |str| + 1 - s.i, 1
  {
    var c := CharAt(str, s.i);
    PriorityEnd();
    hide Run, Priority, IsUnary, WellFormed, Render;
    if c == ' ' {
      e := AcceptValueAfterSpace(env, str, s);
    } else if IsUnary(c) {
      e := AcceptValueAfterUnary(env, str, s, c);
    } else if c == '(' {
      e := AcceptParen(env, str, s);
    } else if Priority(c) >= 0 {
      NoOperator(env, str, s);
      assert false;
    } else {
      e := AcceptAtom(env, str, s);
    }
  }

  lemma {:induction false} AcceptValueAfterSpace(env: Env, str: string, s: State) returns (e: Expr)
    requires Accepted(env, str, s) && s.i == s.last && |s.buffer| == |s.ops| && CharAt(str, s.i) == ' '
    ensures WellFormed(e, false) && Render(e) == str[s.i..]
    decreases |str|, |str| + 1 - s.i, 0
  {
    hide *;
    var t := AfterSpace(env, str, s);
    var d := AcceptValue(env, str, t);
    FirstOperand(d);
    var y := SpaceOperand(d.xs[0]);
    e := WithFirst(d, y);
    Prefixed(str, s.i, " ", OperandText(d.xs[0]) + Following(d));
    Grouped(" ", OperandText(d.xs[0]), Following(d));
  }

  lemma AfterSpace(env: Env, str: string, s: State) returns (t: State)
    requires Accepted(env, str, s) && s.i == s.last && CharAt(str, s.i) == ' '
    ensures s.i < |str| && str[s.i..s.i + 1] == " " && t == s.(i := s.i + 1, last := s.i + 1) && Accepted(env, str, t)
  {
    StepSpace(env, str, s);
    hide Run;
    t := s.(i := s.i + 1, last := s.i + 1);
  }

  lemma AfterUnary(env: Env, str: string, s: State, c: char) returns (t: State)
    requires Accepted(env, str, s) && s.i == s.last && |s.buffer| == |s.ops| && CharAt(str, s.i) == c && IsUnary(c)
    ensures s.i < |str| && str[s.i..s.i + 1] == [c] && Accepted(env, str, t)
    ensures t.i == t.last == s.i + 1 && t.buffer == s.buffer && t.ops == s.ops
  {
    assert s.i < |str|;
    StepUnary(env, str, s, c);
    hide Run;
    t := s.(i := s.i + 1, last := s.i + 1, unary := s.unary + [c]);
  }

  lemma {:induction false} AcceptValueAfterUnary(env: Env, str: string, s: State, c: char) returns (e: Expr)
    requires Accepted(env, str, s) && s.i == s.last && |s.buffer| == |s.ops| && CharAt(str, s.i) == c && IsUnary(c)
    ensures WellFormed(e, false) && Render(e) == str[s.i..]
    decreases |str|, |str| + 1 - s.i, 0
  {
    hide *;
    var t := AfterUnary(env, str, s, c);
    var d := AcceptValue(env, str, t);
    FirstOperand(d);
    var y := UnaryOperand(c, d.xs[0]);
    e := WithFirst(d, y);
    Prefixed(str, s.i, [c], OperandText(d.xs[0]) + Following(d));
    Grouped([c], OperandText(d.xs[0]), Following(d));
  }

  lemma FirstOperand(e: Expr)
    requires WellFormed(e, false)
    ensures |e.xs| > 0 && WellFormedOperand(e.xs[0], false) && Render(e) == OperandText(e.xs[0]) + Following(e)
  {
    hide WellFormedOperand, OperandText, JoinText;
  }

  lemma Prefixed(str: string, i: nat, t: string, rest: string)
    requires i + |t| <= |str| && str[i..i + |t|] == t && str[i + |t|..] == rest
    ensures str[i..] == t + rest
  {
  }

  lemma Grouped(a: string, b: string, c: string)
    ensures a + b + c == a + (b + c)
  {
  }

  lemma NoOperator(env: Env, str: string, s: State)
    requires Sane(str, s) && s.i <= |str| && s.i == s.last && |s.buffer| == |s.ops|
    requires Priority(CharAt(str, s.i)) >= 0 && !IsUnary(CharAt(str, s.i))
    ensures Run(env, str, s).Err?
  {
    StepCases(env, str, s);
    hide Step, Run, Parse, MatchClose, Priority;
    RunError(env, str, s, ConsecutiveOperators);
  }

  lemma {:induction false} AcceptAtom(env: Env, str: string, s: State) returns (e: Expr)
    requires Accepted(env, str, s) && s.i == s.last && |s.buffer| == |s.ops|
    requires AtomChar(CharAt(str, s.i)) && !IsUnary(CharAt(str, s.i))
    ensures WellFormed(e, false) && Render(e) == str[s.i..]
    decreases |str|, |str| + 1 - s.i, 0
  {
    hide *;
    var name, u := AfterAtom(env, str, s);
    AtomText(name);
    e := AcceptJoin(env, str, u, Operand([], 0, Atom(name)));
    FirstOperand(e);
    Prefixed(str, s.i, name, Following(e));
  }

  lemma AfterAtom(env: Env, str: string, s: State) returns (name: string, u: State)
    requires Accepted(env, str, s) && s.i == s.last && |s.buffer| == |s.ops|
    requires AtomChar(CharAt(str, s.i)) && !IsUnary(CharAt(str, s.i))
    ensures name != "" && AtomName(name, false) && s.i + |name| <= |str| && str[s.i..s.i + |name|] == name
    ensures Accepted(env, str, u) && u.i == u.last == s.i + |name| && |u.buffer| == |u.ops| + 1 && u.unary == []
  {
    PriorityEnd();
    StepChar(env, str, s);
    var k := AcceptName(env, str, s.(i := s.i + 1));
    name := str[s.i..k];
    var t := State(s.i, s.i, s.buffer, s.ops, s.unary).(i := k);
    StepValue(env, str, t);
    hide Run, Parse, Operator;
    u := Push(env, t, env.parseVal(str[t.last..t.i]), t.i).value;
  }

  lemma AtomText(name: string)
    requires AtomName(name, false)
    ensures WellFormedOperand(Operand([], 0, Atom(name)), false) && OperandText(Operand([], 0, Atom(name))) == name
  {
  }

  lemma {:induction false} AcceptParen(env: Env, str: string, s: State) returns (e: Expr)
    requires Accepted(env, str, s) && s.i == s.last && |s.buffer| == |s.ops| && CharAt(str, s.i) == '('
    ensures WellFormed(e, false) && Render(e) == str[s.i..]
    decreases |str|, |str| + 1 - s.i, 0
  {
    hide *;
    var j, u := MatchedParen(env, str, s);
    var inner := str[s.i + 1..j];
    var d := Converse(env, inner);
    NestedIn(d);
    var x := Operand([], 0, Paren(d));
    ParenText(d);
    e := AcceptJoin(env, str, u, x);
    FirstOperand(e);
    Prefixed(str, s.i, "(" + inner + ")", Following(e));
  }

  lemma MatchedParen(env: Env, str: string, s: State) returns (j: nat, u: State)
    requires Accepted(env, str, s) && s.i == s.last && |s.buffer| == |s.ops| && CharAt(str, s.i) == '('
    ensures s.i < j < |str| && str[s.i..j + 1] == "(" + str[s.i + 1..j] + ")"
    ensures Scan(str[s.i + 1..j], 1) == 1 && Parse(env, str[s.i + 1..j]).Ok?
    ensures Accepted(env, str, u) && u.i == u.last == j + 1 && |u.buffer| == |u.ops| + 1 && u.unary == []
  {
    j := MatchClose(str, s.i + 1, 1);
    Closes(env, str, s, j);
    MatchBalances(str, s.i + 1, 1, j);
    PriorityEnd();
    u := PushedParen(env, str, s, j);
    hide *;
    ParenSlice(str, s.i, j);
  }

  lemma PushedParen(env: Env, str: string, s: State, j: nat) returns (u: State)
    requires Accepted(env, str, s) && s.i == s.last < |str| && |s.buffer| == |s.ops| && str[s.i] == '('
    requires j == MatchClose(str, s.i + 1, 1) < |str|
    ensures Parse(env, str[s.i + 1..j]).Ok?
    ensures Accepted(env, str, u) && u.i == u.last == j + 1 && |u.buffer| == |u.ops| + 1 && u.unary == []
  {
    StepParen(env, str, s, j);
    hide Run, Parse, MatchClose, ApplyUnaries;
    u := Push(env, s, Parse(env, str[s.i + 1..j]).value, j + 1).value;
  }

  lemma ParenSlice(str: string, i: nat, j: nat)
    requires i < j < |str| && str[i] == '(' && str[j] == ')'
    ensures str[i..j + 1] == "(" + str[i + 1..j] + ")"
  {
  }

  lemma NestedIn(e: Expr)
    requires WellFormed(e, false) && Scan(Render(e), 1) != 0
    ensures WellFormed(e, true)
  {
    Nests(e, 0);
    hide WellFormedOperand, Scan, RenderFrom;
  }

  lemma ParenText(e: Expr)
    requires WellFormed(e, true)
    ensures WellFormedOperand(Operand([], 0, Paren(e)), false)
    ensures OperandText(Operand([], 0, Paren(e))) == "(" + Render(e) + ")"
  {
    hide WellFormed, Render;
  }

  lemma Closes(env: Env, str: string, s: State, j: nat)
    requires Accepted(env, str, s) && s.i == s.last && CharAt(str, s.i) == '(' && j == MatchClose(str, s.i + 1, 1)
    ensures s.i < |str| && j < |str|
  {
    PriorityEnd();
    StepCases(env, str, s);
    MatchFits(str, s.i + 1);
    hide Step, Run, Parse, MatchClose, Priority;
    if j == |str| { RunError(env, str, s, Unbalanced); }
  }

  /** After a value, what remains is what follows the first operand of an
      expression. */
  lemma {:induction false} AcceptJoin(env: Env, str: string, s: State, x: Operand) returns (e: Expr)
    requires Accepted(env, str, s) && s.i == s.last && |s.buffer| == |s.ops| + 1 && s.unary == []
    requires WellFormedOperand(x, false)
    ensures WellFormed(e, false) && e.xs[0] == x && Following(e) == str[s.i..]
    decreases |str|, |str| + 1 - s.i, 1
  {
    var c := CharAt(str, s.i);
    PriorityEnd();
    hide WellFormedOperand, Priority, Run;
    if s.i == |str| {
      e := Alone(x, 0);
      AloneText(x, 0);
    } else if c == ' ' {
      StepSpace(env, str, s);
      var d := AcceptJoin(env, str, s.(i := s.i + 1, last := s.i + 1), x);
      e := SpaceFollowing(d);
      hide WellFormed, Following;
      Prefixed(str, s.i, " ", Following(d));
    } else if Priority(c) >= 0 {
      e := AcceptOperator(env, str, s, x);
    } else {
      NoSecondValue(env, str, s);
      assert false;
    }
  }

  /** After a value neither another value nor a unary operator can come. */
  lemma NoSecondValue(env: Env, str: string, s: State)
    requires Sane(str, s) && s.i == s.last < |str| && |s.buffer| == |s.ops| + 1 && s.unary == []
    requires str[s.i] != ' ' && Priority(str[s.i]) < 0
    ensures Run(env, str, s).Err?
  {
    StepCases(env, str, s);
    MatchFits(str, s.i + 1);
    hide Step, Run, Parse, MatchClose, Priority, ApplyUnaries;
    match Step(env, str, s) {
      case Err(er) => RunError(env, str, s, er);
      case Ok(t) =>
        RunOne(env, str, s, t);
        Rejects(env, str, t);
    }
  }

  lemma {:induction false} AcceptOperator(env: Env, str: string, s: State, x: Operand) returns (e: Expr)
    requires Accepted(env, str, s) && s.i == s.last < |str| && |s.buffer| == |s.ops| + 1 && s.unary == []
    requires WellFormedOperand(x, false) && Priority(str[s.i]) >= 0
    ensures WellFormed(e, false) && e.xs[0] == x && Following(e) == str[s.i..]
    decreases |str|, |str| + 1 - s.i, 0
  {
    var c := str[s.i];
    StepOperator(env, str, s);
    OperatorTaken(str, s);
    hide WellFormed, WellFormedOperand, Run, Reduce, Following, OperatorText, Operator;
    var t := Operator(str, s).value;
    if Priority(c) == 0 {
      PriorityZero(c);
      Rejects(env, str, t);
      assert false;
    }
    var d := AcceptValue(env, str, t);
    e := Joined(x, BinOp(0, c), d);
    JoinedText(x, BinOp(0, c), d);
    Prefixed(str, s.i, OperatorText(c), Render(d));
    NoSpaces(OperatorText(c));
  }

  lemma NoSpaces(t: string)
    ensures Spaces(0) + t == t
  {
  }

  lemma PriorityZero(c: char)
    requires Priority(c) == 0
    ensures c == END
  {
  }

  lemma OperatorTaken(str: string, s: State)
    requires Sane(str, s) && s.i == s.last < |str| && |s.buffer| == |s.ops| + 1 && Priority(str[s.i]) >= 0
    requires Operator(str, s).Ok?
    ensures var t, c := Operator(str, s).value, str[s.i];
            && Sane(str, t) && t.i == t.last == s.i + |OperatorText(c)| <= |str| && t.unary == []
            && |t.buffer| == |t.ops| && c in t.ops && str[s.i..t.i] == OperatorText(c)
  {
    hide Reduce;
  }

  /** Whatever the parser accepts is the text of an expression. */
  lemma {:induction false} Converse(env: Env, str: string) returns (e: Expr)
    requires Parse(env, str).Ok?
    ensures WellFormed(e, false) && Render(e) == str
    decreases |str|, |str| + 2, 0
  {
    hide Run, Step;
    e := AcceptValue(env, str, START);
    assert str[0..] == str;
  }

  /** A string is accepted, with a value, if and only if it is the text of an
      expression that has that value. */
  lemma AcceptsExactly(env: Env, str: string, v: u64)
    ensures Parse(env, str) == Ok(v) <==> exists e :: WellFormed(e, false) && Render(e) == str && Value(env, e) == Ok(v)
  {
    hide WellFormed, Render, Value, Parse;
    if Parse(env, str) == Ok(v) {
      var e := Converse(env, str);
      ParseRender(env, e, false);
    }
    forall e | WellFormed(e, false) && Render(e) == str && Value(env, e) == Ok(v) ensures Parse(env, str) == Ok(v) {
      ParseRender(env, e, false);
    }
  }
}
