/** Well-formed debugger expressions, how they are written, what they mean, and
    the proof that parse_expr finds that meaning (riscv/interactive.cc). */
module Expressions {
  import opened Wrappers
  import opened Powers
  import opened ParseExpr
  import opened Precedence

  datatype Unary = Unary(spaces: nat, op: char)

  datatype Base = Atom(name: string) | Paren(e: Expr)

  datatype Operand = Operand(unaries: seq<Unary>, spaces: nat, base: Base)

  datatype BinOp = BinOp(spaces: nat, op: char)

  /** Operands joined by binary operators; blanks may precede any token. */
  datatype Expr = Expr(xs: seq<Operand>, ops: seq<BinOp>, tail: nat)

  predicate AtomChar(c: char) { c != ' ' && c != '(' && Priority(c) < 0 }

  /** A name goes on up to a blank or an operator; it may hold a closing
      parenthesis unless it stands within parentheses. */
  predicate AtomName(name: string, nested: bool) {
    && name != "" && name[0] != '~'
    && forall i :: 0 <= i < |name| ==> AtomChar(name[i]) && (nested ==> name[i] != ')')
  }

  predicate WellFormed(e: Expr, nested: bool) {
    && |e.xs| == |e.ops| + 1
    && (forall i :: 0 <= i < |e.ops| ==> Priority(e.ops[i].op) > 0)
    && (forall i :: 0 <= i < |e.xs| ==> WellFormedOperand(e.xs[i], nested))
  }

  predicate WellFormedOperand(x: Operand, nested: bool) {
    && (forall i :: 0 <= i < |x.unaries| ==> IsUnary(x.unaries[i].op))
    && match x.base
       case Atom(name) => AtomName(name, nested)
       case Paren(e) => WellFormed(e, true)
  }

  // ---- the text

  function Spaces(n: nat): string {
    if n == 0 then "" else " " + Spaces(n - 1)
  }

  function UnaryText(us: seq<Unary>): string {
    if us == [] then "" else Spaces(us[0].spaces) + [us[0].op] + UnaryText(us[1..])
  }

  function OperatorText(c: char): string {
    if c == '<' || c == '>' then [c, c] else [c]
  }

  function BaseText(b: Base): string {
    match b
    case Atom(name) => name
    case Paren(e) => "(" + Render(e) + ")"
  }

  function OperandText(x: Operand): string {
    UnaryText(x.unaries) + Spaces(x.spaces) + BaseText(x.base)
  }

  /** What follows operand k. */
  function JoinText(e: Expr, k: nat): string {
    if k < |e.ops| then Spaces(e.ops[k].spaces) + OperatorText(e.ops[k].op) else Spaces(e.tail)
  }

  function RenderFrom(e: Expr, k: nat): string
    requires k <= |e.xs|
    decreases e, |e.xs| - k
  {
    if k == |e.xs| then "" else OperandText(e.xs[k]) + (JoinText(e, k) + RenderFrom(e, k + 1))
  }

  function Render(e: Expr): string
    decreases e, |e.xs| + 1
  {
    RenderFrom(e, 0)
  }

  // ---- the meaning

  function UnaryOps(us: seq<Unary>): (r: seq<char>)
    ensures |r| == |us|
  {
    seq(|us|, i requires 0 <= i < |us| => us[i].op)
  }

  function Ops(e: Expr): (r: seq<char>)
    ensures |r| == |e.ops|
  {
    seq(|e.ops|, i requires 0 <= i < |e.ops| => e.ops[i].op)
  }

  function OperandValue(env: Env, x: Operand): Evaluated
    decreases x
  {
    match BaseValue(env, x.base)
    case Err(e) => Err(e)
    case Ok(v) => ApplyUnaries(env, UnaryOps(x.unaries), v)
  }

  function BaseValue(env: Env, b: Base): Evaluated
    decreases b
  {
    match b
    case Atom(name) => Ok(env.parseVal(name))
    case Paren(e) => Value(env, e)
  }

  function Vals(env: Env, e: Expr): (r: seq<Evaluated>)
    ensures |r| == |e.xs|
    decreases e, 0
  {
    seq(|e.xs|, i requires 0 <= i < |e.xs| => OperandValue(env, e.xs[i]))
  }

  /** The value of the tree: parentheses, then unary operators innermost first,
      then binary operators by priority, left to right. */
  function Value(env: Env, e: Expr): Evaluated
    decreases e, 1
  {
    if |e.xs| != |e.ops| + 1 then Err(NoValue)
    else Eval(Vals(env, e), Ops(e), 0, |e.xs|)
  }

  // ---- balanced text

  /** The balance after scanning t from a balance of b, or 0 if it drops to 0. */
  function Scan(t: string, b: int): int {
    if t == "" || b == 0 then b
    else Scan(t[1..], if t[0] == '(' then b + 1 else if t[0] == ')' then b - 1 else b)
  }

  ghost predicate Neutral(t: string) { forall b :: b > 0 ==> Scan(t, b) == b }

  lemma {:induction false} ScanConcat(t: string, u: string, b: int)
    ensures Scan(t + u, b) == Scan(u, Scan(t, b))
  {
    if t == "" {
      assert t + u == u;
    } else if b != 0 {
      assert (t + u)[1..] == t[1..] + u;
      ScanConcat(t[1..], u, if t[0] == '(' then b + 1 else if t[0] == ')' then b - 1 else b);
    }
  }

  lemma NeutralConcat(t: string, u: string)
    requires Neutral(t) && Neutral(u)
    ensures Neutral(t + u)
  {
    forall b | b > 0 ensures Scan(t + u, b) == b { ScanConcat(t, u, b); }
  }

  lemma {:induction false} NeutralPlain(t: string)
    requires forall i :: 0 <= i < |t| ==> t[i] != '(' && t[i] != ')'
    ensures Neutral(t)
  {
    if t != "" {
      NeutralPlain(t[1..]);
      forall b | b > 0 ensures Scan(t, b) == b { assert Scan(t, b) == Scan(t[1..], b); }
    }
  }

  lemma NeutralParens(t: string)
    requires Neutral(t)
    ensures Neutral("(" + t + ")")
  {
    forall b | b > 0 ensures Scan("(" + t + ")", b) == b {
      assert "(" + t + ")" == "(" + (t + ")");
      assert ("(" + (t + ")"))[1..] == t + ")";
      ScanConcat(t, ")", b + 1);
      assert Scan(")", b + 1) == Scan(")"[1..], b);
    }
  }

  lemma {:induction false} NeutralSpaces(n: nat)
    ensures Neutral(Spaces(n))
    ensures forall i :: 0 <= i < |Spaces(n)| ==> Spaces(n)[i] == ' '
  {
    if n > 0 { NeutralSpaces(n - 1); }
    NeutralPlain(Spaces(n));
  }

  lemma {:induction false} NeutralUnaries(us: seq<Unary>)
    requires forall i :: 0 <= i < |us| ==> IsUnary(us[i].op)
    ensures Neutral(UnaryText(us))
  {
    if us != [] {
      NeutralSpaces(us[0].spaces);
      NeutralPlain([us[0].op]);
      NeutralUnaries(us[1..]);
      NeutralConcat(Spaces(us[0].spaces), [us[0].op]);
      NeutralConcat(Spaces(us[0].spaces) + [us[0].op], UnaryText(us[1..]));
    }
  }

  lemma {:induction false} NeutralOperand(x: Operand)
    requires WellFormedOperand(x, true)
    ensures Neutral(OperandText(x))
    decreases x
  {
    hide Neutral;
    NeutralUnaries(x.unaries);
    NeutralSpaces(x.spaces);
    match x.base {
      case Atom(name) => NeutralPlain(name);
      case Paren(e) =>
        NeutralFrom(e, 0);
        NeutralParens(Render(e));
    }
    NeutralConcat(UnaryText(x.unaries), Spaces(x.spaces));
    NeutralConcat(UnaryText(x.unaries) + Spaces(x.spaces), BaseText(x.base));
  }

  lemma {:induction false} NeutralJoin(e: Expr, nested: bool, k: nat)
    requires WellFormed(e, nested)
    ensures Neutral(JoinText(e, k))
  {
    hide Neutral;
    NeutralSpaces(e.tail);
    if k < |e.ops| {
      NeutralSpaces(e.ops[k].spaces);
      NeutralPlain(OperatorText(e.ops[k].op));
      NeutralConcat(Spaces(e.ops[k].spaces), OperatorText(e.ops[k].op));
    }
  }

  lemma {:induction false} NeutralFrom(e: Expr, k: nat)
    requires WellFormed(e, true) && k <= |e.xs|
    ensures Neutral(RenderFrom(e, k))
    decreases e, |e.xs| - k
  {
    hide Neutral;
    if k == |e.xs| {
      NeutralPlain("");
    } else {
      NeutralOperand(e.xs[k]);
      NeutralJoin(e, true, k);
      NeutralFrom(e, k + 1);
      NeutralConcat(JoinText(e, k), RenderFrom(e, k + 1));
      NeutralConcat(OperandText(e.xs[k]), JoinText(e, k) + RenderFrom(e, k + 1));
    }
  }

  /** The search for the closing parenthesis skips neutral text. */
  lemma {:induction false} MatchSkips(str: string, j: nat, t: string, rest: string, b: int)
    requires j <= |str| && str[j..] == t + rest && b > 0 && Scan(t, b) > 0
    ensures j + |t| <= |str| && MatchClose(str, j, b) == MatchClose(str, j + |t|, Scan(t, b))
    decreases |t|
  {
    assert |str| - j == |t| + |rest|;
    if t != "" {
      assert str[j] == (t + rest)[0] == t[0];
      var b' := if t[0] == '(' then b + 1 else if t[0] == ')' then b - 1 else b;
      assert Scan(t, b) == Scan(t[1..], b');
      assert Scan("", 0) == 0;
      assert str[j + 1..] == str[j..][1..] == (t + rest)[1..] == t[1..] + rest;
      MatchSkips(str, j + 1, t[1..], rest, b');
    }
  }

  // ---- running over one token

  /** The run from s, given what pushing a value or applying an operator gave. */
  function Continue(env: Env, str: string, r: Result<State, Error>): Evaluated
    requires r.Ok? ==> Sane(str, r.value)
  {
    match r case Err(e) => Err(e) case Ok(t) => Run(env, str, t)
  }

  lemma Advance(str: string, i: nat, t: string, rest: string)
    requires i <= |str| && str[i..] == t + rest
    ensures i + |t| <= |str| && str[i..i + |t|] == t && str[i + |t|..] == rest
    ensures forall k :: 0 <= k < |t| ==> str[i + k] == t[k]
    ensures CharAt(str, i + |t|) == if rest == "" then END else rest[0]
  {
    assert |str| - i == |t| + |rest|;
    assert str[i..i + |t|] == str[i..][..|t|] == t;
    assert str[i + |t|..] == str[i..][|t|..] == rest;
    assert forall k :: 0 <= k < |t| ==> str[i + k] == str[i..][k] == t[k];
    if rest != "" { assert rest[0] == str[i + |t|..][0]; }
  }

  lemma {:induction false} RunSpaces(env: Env, str: string, s: State, n: nat, rest: string) returns (t: State)
    requires Sane(str, s) && s.i == s.last <= |str| && str[s.i..] == Spaces(n) + rest
    ensures t == s.(i := s.i + |Spaces(n)|, last := s.i + |Spaces(n)|) && t.i <= |str| && Sane(str, t)
    ensures Run(env, str, s) == Run(env, str, t) && str[t.i..] == rest
    decreases n
  {
    if n == 0 {
      t := s;
      assert "" + rest == rest;
    } else {
      assert Spaces(n) + rest == " " + (Spaces(n - 1) + rest);
      Advance(str, s.i, " ", Spaces(n - 1) + rest);
      StepSpace(env, str, s);
      t := RunSpaces(env, str, s.(i := s.i + 1, last := s.i + 1), n - 1, rest);
    }
  }

  lemma StepSpace(env: Env, str: string, s: State)
    requires Sane(str, s) && s.i == s.last < |str| && str[s.i] == ' '
    ensures Sane(str, s.(i := s.i + 1, last := s.i + 1))
    ensures Run(env, str, s) == Run(env, str, s.(i := s.i + 1, last := s.i + 1))
  {
    hide Push, Operator, MatchClose, Parse, Priority;
  }

  lemma StepUnary(env: Env, str: string, s: State, c: char)
    requires Sane(str, s) && s.i == s.last < |str| && |s.buffer| == |s.ops| && str[s.i] == c && IsUnary(c)
    ensures Sane(str, s.(i := s.i + 1, last := s.i + 1, unary := s.unary + [c]))
    ensures Run(env, str, s) == Run(env, str, s.(i := s.i + 1, last := s.i + 1, unary := s.unary + [c]))
  {
    hide Push, Operator, MatchClose, Parse, Priority;
  }

  lemma StepChar(env: Env, str: string, s: State)
    requires Sane(str, s) && s.i < |str| && AtomChar(str[s.i]) && (s.i == s.last ==> !IsUnary(str[s.i]))
    ensures Sane(str, s.(i := s.i + 1))
    ensures Run(env, str, s) == Run(env, str, s.(i := s.i + 1))
  {
    hide Push, Operator, MatchClose, Parse, Priority;
  }

  lemma PriorityEnd()
    ensures Priority(END) == 0
  {
  }

  predicate Delimiter(c: char) { c == ' ' || Priority(c) >= 0 }

  lemma StepValue(env: Env, str: string, s: State)
    requires Sane(str, s) && s.last < s.i <= |str| && Delimiter(CharAt(str, s.i))
    ensures var r := Push(env, s, env.parseVal(str[s.last..s.i]), s.i);
            (r.Ok? ==> Sane(str, r.value)) && Run(env, str, s) == Continue(env, str, r)
  {
    hide Operator, MatchClose, Parse, ApplyUnaries;
  }

  lemma StepParen(env: Env, str: string, s: State, j: nat)
    requires Sane(str, s) && s.i == s.last < |str| && str[s.i] == '(' && j == MatchClose(str, s.i + 1, 1) < |str|
    ensures match Parse(env, str[s.i + 1..j])
            case Err(e) => Run(env, str, s) == Err(e)
            case Ok(v) =>
              var r := Push(env, s, v, j + 1);
              (r.Ok? ==> Sane(str, r.value)) && Run(env, str, s) == Continue(env, str, r)
  {
    hide Operator, MatchClose, ApplyUnaries, Parse;
  }

  lemma StepOperator(env: Env, str: string, s: State)
    requires Sane(str, s) && s.i == s.last <= |str| && |s.buffer| == |s.ops| + 1 && Priority(CharAt(str, s.i)) >= 0
    ensures Run(env, str, s) == Continue(env, str, Operator(str, s))
  {
    hide Push, Operator, MatchClose, ApplyUnaries, Parse;
  }

  lemma {:induction false} RunUnaries(env: Env, str: string, s: State, us: seq<Unary>, rest: string) returns (t: State)
    requires Sane(str, s) && s.i == s.last <= |str| && |s.buffer| == |s.ops|
    requires str[s.i..] == UnaryText(us) + rest && forall i :: 0 <= i < |us| ==> IsUnary(us[i].op)
    ensures t == State(s.i + |UnaryText(us)|, s.i + |UnaryText(us)|, s.buffer, s.ops, s.unary + UnaryOps(us))
    ensures t.i <= |str| && Sane(str, t) && Run(env, str, s) == Run(env, str, t) && str[t.i..] == rest
    decreases |us|
  {
    hide Run, UnaryText, UnaryOps, Spaces, Sane;
    UnarySplit(us, s.unary, rest);
    if us == [] {
      t := s;
    } else {
      var more := UnaryText(us[1..]) + rest;
      t := RunSpaces(env, str, s, us[0].spaces, [us[0].op] + more);
      Advance(str, t.i, [us[0].op], more);
      StepUnary(env, str, t, us[0].op);
      t := t.(i := t.i + 1, last := t.i + 1, unary := t.unary + [us[0].op]);
      t := RunUnaries(env, str, t, us[1..], rest);
    }
  }

  lemma UnarySplit(us: seq<Unary>, before: seq<char>, rest: string)
    ensures us == [] ==> UnaryText(us) + rest == rest && before + UnaryOps(us) == before && |UnaryText(us)| == 0
    ensures us != [] ==>
              && UnaryText(us) + rest == Spaces(us[0].spaces) + ([us[0].op] + (UnaryText(us[1..]) + rest))
              && before + UnaryOps(us) == before + [us[0].op] + UnaryOps(us[1..])
              && |UnaryText(us)| == |Spaces(us[0].spaces)| + 1 + |UnaryText(us[1..])|
  {
    if us == [] {
      assert "" + rest == rest && before + UnaryOps(us) == before;
    } else {
      UnaryOpsSplit(us);
      assert UnaryText(us) == Spaces(us[0].spaces) + [us[0].op] + UnaryText(us[1..]);
      hide UnaryOps, UnaryText, Spaces;
      Regroup(Spaces(us[0].spaces), [us[0].op], UnaryText(us[1..]), rest);
      Regroup(before, [us[0].op], UnaryOps(us[1..]), []);
    }
  }

  lemma UnaryOpsSplit(us: seq<Unary>)
    requires us != []
    ensures UnaryOps(us) == [us[0].op] + UnaryOps(us[1..])
  {
  }

  lemma Regroup(a: seq<char>, b: seq<char>, c: seq<char>, d: seq<char>)
    ensures a + b + c + d == a + (b + (c + d))
    ensures a + b + c == a + (b + c)
  {
  }

  /** A token's characters are passed over one by one. */
  lemma {:induction false} RunChars(env: Env, str: string, s: State, k: nat)
    requires Sane(str, s) && s.i + k <= |str|
    requires forall i :: s.i <= i < s.i + k ==> AtomChar(str[i])
    requires s.i == s.last && k > 0 ==> !IsUnary(str[s.i])
    ensures Sane(str, s.(i := s.i + k)) && Run(env, str, s) == Run(env, str, s.(i := s.i + k))
    decreases k
  {
    hide Run, AtomChar, IsUnary;
    if k == 0 {
      assert s.(i := s.i + k) == s;
    } else {
      StepChar(env, str, s);
      RunChars(env, str, s.(i := s.i + 1), k - 1);
      assert s.(i := s.i + 1).(i := s.i + 1 + (k - 1)) == s.(i := s.i + k);
    }
  }

  /** A value that the buffer has room for. */
  function Pushed(env: Env, s: State, base: Evaluated, next: nat): Result<State, Error> {
    match base
    case Err(e) => Err(e)
    case Ok(val) =>
      match ApplyUnaries(env, s.unary, val)
      case Err(e) => Err(e)
      case Ok(v) => Ok(State(next, next, s.buffer + [v], s.ops, []))
  }

  lemma RunAtom(env: Env, str: string, s: State, name: string, nested: bool, rest: string)
    requires Sane(str, s) && s.i == s.last <= |str| && |s.buffer| == |s.ops|
    requires str[s.i..] == name + rest && AtomName(name, nested) && (rest == "" || Delimiter(rest[0]))
    ensures s.i + |name| <= |str|
    ensures var r := Pushed(env, s, Ok(env.parseVal(name)), s.i + |name|);
            (r.Ok? ==> Sane(str, r.value)) && Run(env, str, s) == Continue(env, str, r)
  {
    hide Run, ApplyUnaries, Continue;
    Advance(str, s.i, name, rest);
    NotUnary(name[0]);
    RunChars(env, str, s, |name|);
    PriorityEnd();
    hide Priority;
    StepValue(env, str, s.(i := s.i + |name|));
  }

  lemma NotUnary(c: char)
    requires AtomChar(c) && c != '~'
    ensures !IsUnary(c)
  {
  }

  lemma RunParen(env: Env, str: string, s: State, inner: string, rest: string)
    requires Sane(str, s) && s.i == s.last <= |str| && |s.buffer| == |s.ops|
    requires str[s.i..] == "(" + inner + ")" + rest && Neutral(inner)
    ensures s.i + |inner| + 2 <= |str|
    ensures var r := Pushed(env, s, Parse(env, inner), s.i + |inner| + 2);
            (r.Ok? ==> Sane(str, r.value)) && Run(env, str, s) == Continue(env, str, r)
  {
    hide Run, ApplyUnaries, Parse;
    assert "(" + inner + ")" + rest == "(" + (inner + (")" + rest));
    Advance(str, s.i, "(", inner + (")" + rest));
    var j := s.i + 1;
    assert str[j..] == inner + (")" + rest);
    MatchSkips(str, j, inner, ")" + rest, 1);
    Advance(str, j, inner, ")" + rest);
    hide MatchClose;
    ClosesHere(str, j + |inner|);
    StepParen(env, str, s, j + |inner|);
  }

  lemma ClosesHere(str: string, j: nat)
    requires j < |str| && str[j] == ')'
    ensures MatchClose(str, j, 1) == j
  {
  }

  // ---- running over an operand, and over an expression

  function Appended(s: State, v: Evaluated, next: nat): Result<State, Error> {
    match v case Err(e) => Err(e) case Ok(w) => Ok(State(next, next, s.buffer + [w], s.ops, []))
  }

  lemma {:induction false} RunOperand(env: Env, str: string, s: State, x: Operand, nested: bool, rest: string)
    requires Sane(str, s) && s.i == s.last <= |str| && |s.buffer| == |s.ops| && s.unary == []
    requires str[s.i..] == OperandText(x) + rest && WellFormedOperand(x, nested) && (rest == "" || Delimiter(rest[0]))
    ensures s.i + |OperandText(x)| <= |str|
    ensures var r := Appended(s, OperandValue(env, x), s.i + |OperandText(x)|);
            (r.Ok? ==> Sane(str, r.value)) && Run(env, str, s) == Continue(env, str, r)
    decreases x
  {
    hide Run, ApplyUnaries, Parse, Value, Delimiter, Spaces, UnaryText, IsUnary, Neutral;
    var text := BaseText(x.base) + rest;
    assert OperandText(x) + rest == UnaryText(x.unaries) + (Spaces(x.spaces) + text);
    var t := RunUnaries(env, str, s, x.unaries, Spaces(x.spaces) + text);
    t := RunSpaces(env, str, t, x.spaces, text);
    assert [] + UnaryOps(x.unaries) == UnaryOps(x.unaries);
    match x.base {
      case Atom(name) =>
        RunAtom(env, str, t, name, nested, rest);
      case Paren(e) =>
        NeutralFrom(e, 0);
        ParseRender(env, e, true);
        RunParen(env, str, t, Render(e), rest);
    }
  }

  lemma JoinDelimits(e: Expr, nested: bool, k: nat)
    requires WellFormed(e, nested) && k < |e.xs|
    ensures var rest := JoinText(e, k) + RenderFrom(e, k + 1); rest == "" || Delimiter(rest[0])
  {
    if k < |e.ops| {
      if e.ops[k].spaces > 0 { assert Spaces(e.ops[k].spaces)[0] == ' '; }
    } else if e.tail > 0 {
      assert Spaces(e.tail)[0] == ' ';
    }
  }

  lemma {:induction false} RunExpr(env: Env, str: string, s: State, e: Expr, nested: bool, k: nat, marks: seq<nat>)
    requires WellFormed(e, nested) && k < |e.xs|
    requires Sane(str, s) && s.i == s.last <= |str| && s.unary == [] && |s.buffer| == |s.ops|
    requires str[s.i..] == RenderFrom(e, k)
    requires BeforeValue(Vals(env, e), Ops(e), k, marks, s.buffer, s.ops)
    ensures Run(env, str, s) == Value(env, e)
    decreases e, |e.xs| - k, 1
  {
    hide Run, OperandText, OperandValue, BeforeValue, AfterValue, Eval, Delimiter, WellFormedOperand;
    var x := e.xs[k];
    var rest := JoinText(e, k) + RenderFrom(e, k + 1);
    JoinDelimits(e, nested, k);
    RunOperand(env, str, s, x, nested, rest);
    Advance(str, s.i, OperandText(x), rest);
    match OperandValue(env, x) {
      case Err(er) =>
        OperandError(Vals(env, e), Ops(e), k, marks, s.buffer, s.ops, er);
      case Ok(v) =>
        PushValue(Vals(env, e), Ops(e), k, marks, s.buffer, s.ops, v);
        OneOperand(Vals(env, e), Ops(e), k, marks, s.buffer, s.ops, if k < |e.ops| then Priority(e.ops[k].op) else 0);
        var next := s.i + |OperandText(x)|;
        var t := State(next, next, s.buffer + [v], s.ops, []);
        if k < |e.ops| {
          RunJoin(env, str, t, e, nested, k, marks);
        } else {
          assert JoinText(e, k) + "" == Spaces(e.tail);
          RunEnd(env, str, t, e, nested, marks);
        }
    }
  }

  /** A segment of one operand is tight for any priority. */
  lemma OneOperand(vals: seq<Evaluated>, ops: seq<char>, m: nat, marks: seq<nat>, buffer: seq<u64>,
                   stack: seq<char>, p: int)
    requires BeforeValue(vals, ops, m, marks, buffer, stack)
    ensures Lo(0, marks, |marks|) == m && Tight(ops, m, m, p)
  {
  }

  /** The operator, or the end of the string, that follows a value. */
  lemma OperatorRead(str: string, s: State, c: char)
    requires Sane(str, s) && |s.buffer| == |s.ops| + 1 && s.unary == []
    requires if s.i == |str| then c == END else s.i + |OperatorText(c)| <= |str| && Priority(c) > 0
    requires s.i < |str| ==> str[s.i] == c && str[s.i + |OperatorText(c)| - 1] == c
    ensures s.i <= |str| && Priority(CharAt(str, s.i)) >= 0
    ensures Operator(str, s)
         == match Reduce(Priority(c), s.buffer, s.ops)
            case Err(e) => Err(e)
            case Ok(t) =>
              var next := s.i + if s.i == |str| then 1 else |OperatorText(c)|;
              Ok(State(next, next, t.buffer, t.ops + [c], []))
  {
    PriorityEnd();
    hide Reduce, Priority;
  }

  lemma PushReduced(vals: seq<Evaluated>, ops: seq<char>, m: nat, marks: seq<nat>, t: Stacks)
    requires AfterValue(vals, ops, m, marks, t.buffer, t.ops) && m <= |ops|
    requires Tight(ops, Lo(0, marks, |marks|), m - 1, Priority(ops[m - 1]))
    requires marks == [] || (|marks| == |t.ops| && Priority(t.ops[|marks| - 1]) < Priority(ops[m - 1]))
    ensures BeforeValue(vals, ops, m, marks + [m - 1], t.buffer, t.ops + [ops[m - 1]])
  {
    hide Priority, Ordered, Holds, BeforeValue, Tight;
    if marks != [] { assert t.ops[|marks| - 1] == ops[marks[|marks| - 1]]; }
    PushOperator(vals, ops, m, marks, t.buffer, t.ops);
  }

  lemma {:induction false} RunJoin(env: Env, str: string, s: State, e: Expr, nested: bool, k: nat, marks: seq<nat>)
    requires WellFormed(e, nested) && k < |e.ops|
    requires Sane(str, s) && s.i == s.last <= |str| && s.unary == [] && |s.buffer| == |s.ops| + 1
    requires str[s.i..] == JoinText(e, k) + RenderFrom(e, k + 1)
    requires AfterValue(Vals(env, e), Ops(e), k + 1, marks, s.buffer, s.ops)
    requires Tight(Ops(e), Lo(0, marks, |marks|), k, Priority(e.ops[k].op))
    ensures Run(env, str, s) == Value(env, e)
    decreases e, |e.xs| - k, 0
  {
    hide Run, Eval, WellFormedOperand, Reduce, BeforeValue, AfterValue, RenderFrom, Tight, Priority, Operator,
      Vals, Ops;
    var c, more := e.ops[k].op, RenderFrom(e, k + 1);
    OpsAt(e, k);
    JoinSplit(e, k, more);
    hide JoinText, Spaces;
    var t := RunSpaces(env, str, s, e.ops[k].spaces, OperatorText(c) + more);
    Advance(str, t.i, OperatorText(c), more);
    var marks' := ReduceStack(Vals(env, e), Ops(e), k + 1, marks, s.buffer, s.ops, Priority(c));
    OperatorRead(str, t, c);
    StepOperator(env, str, t);
    match Reduce(Priority(c), s.buffer, s.ops) {
      case Err(er) =>
      case Ok(st) =>
        SameHeight(Vals(env, e), Ops(e), k + 1, marks', st.buffer, st.ops);
        PushReduced(Vals(env, e), Ops(e), k + 1, marks', st);
        RunExpr(env, str, Operator(str, t).value, e, nested, k + 1, marks' + [k]);
    }
  }

  lemma JoinSplit(e: Expr, k: nat, more: string)
    requires k < |e.ops|
    ensures JoinText(e, k) + more == Spaces(e.ops[k].spaces) + (OperatorText(e.ops[k].op) + more)
  {
    hide Spaces, OperatorText;
  }

  lemma OpsAt(e: Expr, k: nat)
    requires k < |e.ops|
    ensures Ops(e)[k] == e.ops[k].op
  {
  }

  lemma RunEnd(env: Env, str: string, s: State, e: Expr, nested: bool, marks: seq<nat>)
    requires WellFormed(e, nested)
    requires Sane(str, s) && s.i == s.last <= |str| && s.unary == [] && |s.buffer| == |s.ops| + 1
    requires str[s.i..] == Spaces(e.tail)
    requires AfterValue(Vals(env, e), Ops(e), |e.xs|, marks, s.buffer, s.ops)
    requires Tight(Ops(e), Lo(0, marks, |marks|), |e.ops|, 0)
    ensures Run(env, str, s) == Value(env, e)
  {
    hide Run, Eval, WellFormedOperand, Reduce, AfterValue, Tight, Priority, Operator, Vals, Ops;
    assert Spaces(e.tail) + "" == Spaces(e.tail);
    var t := RunSpaces(env, str, s, e.tail, "");
    assert t.i == |str|;
    PriorityEnd();
    var marks' := ReduceStack(Vals(env, e), Ops(e), |e.xs|, marks, s.buffer, s.ops, 0);
    OperatorRead(str, t, END);
    StepOperator(env, str, t);
    match Reduce(0, s.buffer, s.ops) {
      case Err(er) =>
      case Ok(st) =>
        OnlyValue(Vals(env, e), Ops(e), marks', st);
        RunDone(env, str, Operator(str, t).value);
    }
  }

  lemma OnlyValue(vals: seq<Evaluated>, ops: seq<char>, marks: seq<nat>, t: Stacks)
    requires AfterValue(vals, ops, |vals|, marks, t.buffer, t.ops) && t.ops == []
    ensures |t.buffer| == 1 && 0 < |vals| == |ops| + 1 && Eval(vals, ops, 0, |vals|) == Ok(t.buffer[0])
  {
    hide Eval;
    assert SegmentIs(vals, ops, Lo(0, marks, 0), Hi(marks, 0, |vals|), t.buffer[0]);
  }

  lemma RunDone(env: Env, str: string, s: State)
    requires Sane(str, s) && s.i == |str| + 1
    ensures Run(env, str, s) == Ok(s.buffer[0])
  {
    hide Push, Operator, MatchClose, Parse;
  }

  /** The evaluator returns the value of every well-formed expression, however
      it is spaced, or stops with the first error evaluation meets. */
  lemma {:induction false} ParseRender(env: Env, e: Expr, nested: bool)
    requires WellFormed(e, nested)
    ensures Parse(env, Render(e)) == Value(env, e)
    decreases e, |e.xs| + 1
  {
    hide Run, RenderFrom, Value;
    var str := Render(e);
    assert str[0..] == str;
    StartsEmpty(Vals(env, e), Ops(e));
    RunExpr(env, str, START, e, nested, 0, []);
  }

  lemma StartsEmpty(vals: seq<Evaluated>, ops: seq<char>)
    requires |vals| == |ops| + 1
    ensures BeforeValue(vals, ops, 0, [], [], [])
  {
  }
}
