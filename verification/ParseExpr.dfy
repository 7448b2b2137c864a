/** The debugger's expression evaluator: a two-stack precedence parser
    (riscv/interactive.cc, parse_expr). */
module ParseExpr {
  import opened Wrappers
  import opened Arith
  import opened Powers
  import opened Bits

  datatype Error =
    ConsecutiveValues | Unbalanced | ConsecutiveOperators | UnaryOnOperator | InvalidOperator
    | Unimplemented | NoValue | LoadTrap | Undefined

  /** parse_val on the registers' current contents, and the memory port. */
  type Evaluated = Result<u64, Error>

  datatype Env = Env(parseVal: string -> u64, load: (u64, nat) -> Evaluated)

  const END: char := '\0'

  function Priority(c: char): int {
    if c in {'%', '/', '*'} then 8
    else if c in {'<', '>'} then 7
    else if c in {'+', '-'} then 6
    else if c == '&' then 5
    else if c == '|' then 4
    else if c == '^' then 3
    else if c == END then 0
    else -1
  }

  predicate IsUnary(c: char) { c == '-' || c == '~' || c == '*' }

  // ---- the operators

  function ApplyUnary(env: Env, op: char, v: u64): Evaluated {
    if op == '-' then Ok((W64 - v) % W64)
    else if op == '~' then Ok(W64 - 1 - v)
    else if op == '*' then
      var r := v % 8;
      env.load(v, if r == 0 then 8 else if r == 4 then 4 else if r == 2 || r == 6 then 2 else 1)
    else Ok(v)
  }

  /** The operators read last apply first. */
  function ApplyUnaries(env: Env, ops: seq<char>, v: u64): Evaluated {
    if ops == [] then Ok(v)
    else
      match ApplyUnary(env, ops[|ops| - 1], v)
      case Err(e) => Err(e)
      case Ok(w) => ApplyUnaries(env, ops[..|ops| - 1], w)
  }

  /** Division by zero and shifts by 64 or more are undefined in C++. */
  function ApplyBinary(op: char, a: u64, b: u64): Evaluated {
    if op == '+' then Ok((a as int + b) % W64)
    else if op == '-' then Ok((a as int - b) % W64)
    else if op == '*' then Ok((a as int * b) % W64)
    else if op == '/' then if b == 0 then Err(Undefined) else Ok(Divide(a, b))
    else if op == '%' then if b == 0 then Err(Undefined) else Ok(Remainder(a, b))
    else if op == '<' then if b >= 64 then Err(Undefined) else Ok((a as int * Pow2(b)) % W64)
    else if op == '>' then if b >= 64 then Err(Undefined) else Ok(Divide(a, Pow2(b)))
    else if op == '|' then OrFits(a, b); Ok(Or(a, b))
    else if op == '&' then Ok(And(a, b))
    else if op == '^' then OrFits(a, b); Ok(Or(a, b) - And(a, b))
    else Err(Unimplemented)
  }

  function Divide(a: u64, b: nat): u64
    requires b > 0
  {
    DivBounds(a, b); a / b
  }

  function Remainder(a: u64, b: u64): u64
    requires b > 0
  {
    DivMod(a, b); a % b
  }

  // ---- the parser

  /** What MatchClose's loop is looking for: where the balance first reaches 0. */
  function MatchClose(str: string, j: nat, balance: int): (k: nat)
    requires j <= |str|
    ensures j <= k <= |str|
    decreases |str| - j
  {
    if j == |str| then j
    else
      var b := if str[j] == '(' then balance + 1 else if str[j] == ')' then balance - 1 else balance;
      if b == 0 then j else MatchClose(str, j + 1, b)
  }

  /** One pass over the string: position i, start of the current token, the
      value and operator stacks, and the pending unary operators. */
  datatype State = State(i: nat, last: nat, buffer: seq<u64>, ops: seq<char>, unary: seq<char>)

  const START: State := State(0, 0, [], [], [])

  predicate Operators(ops: seq<char>) { forall k :: 0 <= k < |ops| ==> Priority(ops[k]) >= 0 }

  /** Holds throughout: never more than one value beyond the operators, and one
      value left at the end. */
  predicate Sane(str: string, s: State) {
    && s.last <= s.i <= |str| + 1 && |s.buffer| <= |s.ops| + 1 && Operators(s.ops)
    && (s.i == |str| + 1 ==> |s.buffer| == 1)
  }

  function CharAt(str: string, i: nat): char {
    if i < |str| then str[i] else END
  }

  datatype Stacks = Stacks(buffer: seq<u64>, ops: seq<char>)

  /** Apply stacked operators of at least the given priority. */
  function Reduce(p: int, buffer: seq<u64>, ops: seq<char>): (r: Result<Stacks, Error>)
    requires |buffer| == |ops| + 1 && Operators(ops)
    ensures r.Ok? ==> |r.value.buffer| == |r.value.ops| + 1 && Operators(r.value.ops) && (p <= 0 ==> r.value.ops == [])
    decreases |ops|
  {
    if ops == [] || p > Priority(ops[|ops| - 1]) then Ok(Stacks(buffer, ops))
    else
      var n := |ops| - 1;
      match ApplyBinary(ops[n], buffer[n], buffer[n + 1])
      case Err(e) => Err(e)
      case Ok(v) => Reduce(p, buffer[..n] + [v], ops[..n])
  }

  /** A value has ended just before position next. */
  function Push(env: Env, s: State, val: u64, next: nat): Result<State, Error> {
    match ApplyUnaries(env, s.unary, val)
    case Err(e) => Err(e)
    case Ok(v) =>
      if |s.buffer| + 1 > |s.ops| + 1 then Err(ConsecutiveValues)
      else Ok(State(next, next, s.buffer + [v], s.ops, []))
  }

  /** A binary operator, or the end of the string, at position i. */
  function Operator(str: string, s: State): (r: Result<State, Error>)
    requires Sane(str, s) && s.i <= |str| && Priority(CharAt(str, s.i)) >= 0
    ensures r.Ok? ==> Sane(str, r.value) && r.value.i > s.i
  {
    var c := CharAt(str, s.i);
    if |s.buffer| < |s.ops| + 1 then Err(ConsecutiveOperators)
    else if s.unary != [] then Err(UnaryOnOperator)
    else if c in {'<', '>'} && (s.i + 1 >= |str| || str[s.i + 1] != c) then Err(InvalidOperator)
    else
      match Reduce(Priority(c), s.buffer, s.ops)
      case Err(e) => Err(e)
      case Ok(t) =>
        var i := if c in {'<', '>'} then s.i + 1 else s.i;
        assert forall k :: 0 <= k < |t.ops + [c]| ==> (t.ops + [c])[k] == c || (t.ops + [c])[k] == t.ops[k];
        Ok(State(i + 1, i + 1, t.buffer, t.ops + [c], []))
  }

  function Parse(env: Env, str: string): Evaluated
    decreases |str|, |str| + 3, 0
  {
    Run(env, str, START)
  }

  function Run(env: Env, str: string, s: State): Evaluated
    requires Sane(str, s)
    decreases |str|, |str| + 1 - s.i, s.i - s.last, 1
  {
    if s.i == |str| + 1 then
      if s.buffer == [] then Err(NoValue) else Ok(s.buffer[|s.buffer| - 1])
    else
      match Step(env, str, s)
      case Err(e) => Err(e)
      case Ok(t) => Run(env, str, t)
  }

  /** One iteration of the main loop. */
  function Step(env: Env, str: string, s: State): (r: Result<State, Error>)
    requires Sane(str, s) && s.i <= |str|
    ensures r.Ok? ==> Sane(str, r.value)
    ensures r.Ok? ==> r.value.i > s.i || (r.value.i == s.i == r.value.last && s.i > s.last)
    decreases |str|, |str| + 1 - s.i, s.i - s.last, 0
  {
    var c := CharAt(str, s.i);
    if c == ' ' && s.i == s.last then
      Ok(s.(i := s.i + 1, last := s.i + 1))
    else if (|s.buffer| == |s.ops| || Priority(c) < 0) && s.last == s.i && IsUnary(c) then
      Ok(s.(i := s.i + 1, last := s.i + 1, unary := s.unary + [c]))
    else if c == '(' then
      if s.i != s.last then Err(ConsecutiveValues)
      else
        var j := MatchClose(str, s.i + 1, 1);
        if j == |str| then Err(Unbalanced)
        else
          match Parse(env, str[s.i + 1..j])
          case Err(e) => Err(e)
          case Ok(val) => Push(env, s, val, j + 1)
    else if s.i > s.last && (c == ' ' || Priority(c) >= 0) then
      Push(env, s, env.parseVal(str[s.last..s.i]), s.i)
    else if Priority(c) >= 0 then
      Operator(str, s)
    else
      Ok(s.(i := s.i + 1))
  }

  method FindClose(str: string, start: nat) returns (j: nat)
    requires start <= |str|
    ensures j == MatchClose(str, start, 1)
  {
    j := start;
    var balance := 1;
    while j < |str|
      invariant start <= j <= |str| && balance >= 1
      invariant MatchClose(str, j, balance) == MatchClose(str, start, 1)
    {
      if str[j] == '(' {
        balance := balance + 1;
      } else if str[j] == ')' {
        balance := balance - 1;
      }
      if balance == 0 { break; }
      j := j + 1;
    }
  }

  method PopUnary(env: Env, unary: seq<char>, v: u64) returns (r: Evaluated)
    ensures r == ApplyUnaries(env, unary, v)
  {
    var val, unaryOps := v, unary;
    while unaryOps != []
      invariant ApplyUnaries(env, unaryOps, val) == ApplyUnaries(env, unary, v)
      decreases |unaryOps|
    {
      var op := unaryOps[|unaryOps| - 1];
      unaryOps := unaryOps[..|unaryOps| - 1];
      match ApplyUnary(env, op, val) {
        case Err(e) => return Err(e);
        case Ok(w) => val := w;
      }
    }
    return Ok(val);
  }

  method PopOperators(p: int, buffer0: seq<u64>, ops0: seq<char>) returns (r: Result<Stacks, Error>)
    requires |buffer0| == |ops0| + 1 && Operators(ops0)
    ensures r == Reduce(p, buffer0, ops0)
  {
    hide ApplyBinary;
    var buffer, ops := buffer0, ops0;
    while ops != [] && p <= Priority(ops[|ops| - 1])
      invariant |buffer| == |ops| + 1 && Operators(ops)
      invariant Reduce(p, buffer, ops) == Reduce(p, buffer0, ops0)
      decreases |ops|
    {
      var k := |ops| - 1;
      var val1, val2, op := buffer[k], buffer[k + 1], ops[k];
      match ApplyBinary(op, val1, val2) {
        case Err(e) => return Err(e);
        case Ok(v) => buffer, ops := buffer[..k] + [v], ops[..k];
      }
    }
    return Ok(Stacks(buffer, ops));
  }

  /** The routine itself. */
  method ParseExpr(env: Env, str: string) returns (r: Evaluated)
    ensures r == Parse(env, str)
    decreases |str|
  {
    hide Reduce, ApplyUnaries, ApplyBinary, MatchClose, Step;
    var buffer: seq<u64>, ops: seq<char>, unaryOps: seq<char> := [], [], [];
    var n := |str|;
    var last: nat, i: nat := 0, 0;
    while i <= n
      invariant Sane(str, State(i, last, buffer, ops, unaryOps))
      invariant Run(env, str, State(i, last, buffer, ops, unaryOps)) == Parse(env, str)
      decreases n + 1 - i, i - last
    {
      ghost var s := State(i, last, buffer, ops, unaryOps);
      StepCases(env, str, s);
      var c := CharAt(str, i);
      if c == ' ' && i == last {
        last := i + 1;
        i := i + 1;
        continue;
      }
      if (|buffer| == |ops| || Priority(c) < 0) && last == i && IsUnary(c) {
        unaryOps := unaryOps + [c];
        last := i + 1;
        i := i + 1;
        continue;
      }
      var valExists := false;
      var val: u64, next := 0, i;
      if c == '(' {
        if i != last { return Err(ConsecutiveValues); }
        var j := FindClose(str, i + 1);
        if j == n { return Err(Unbalanced); }
        valExists := true;
        var sub := ParseExpr(env, str[i + 1..j]);
        match sub {
          case Err(e) => return Err(e);
          case Ok(v) => val := v;
        }
        next := j + 1;
      } else if i > last && (c == ' ' || Priority(c) >= 0) {
        valExists := true;
        val := env.parseVal(str[last..i]);
      }
      if valExists {
        assert Step(env, str, s) == Push(env, s, val, next);
        var applied := PopUnary(env, unaryOps, val);
        match applied {
          case Err(e) => return Err(e);
          case Ok(v) => val := v;
        }
        buffer := buffer + [val];
        if |buffer| > |ops| + 1 { return Err(ConsecutiveValues); }
        unaryOps := [];
        i, last := next, next;
        continue;
      }
      if Priority(c) >= 0 {
        if |buffer| < |ops| + 1 { return Err(ConsecutiveOperators); }
        if unaryOps != [] { return Err(UnaryOnOperator); }
        if (c == '<' || c == '>') && (i + 1 >= n || str[i + 1] != str[i]) { return Err(InvalidOperator); }
        var reduced := PopOperators(Priority(c), buffer, ops);
        match reduced {
          case Err(e) => return Err(e);
          case Ok(t) => buffer, ops := t.buffer, t.ops + [c];
        }
        if c == '<' || c == '>' { i := i + 1; }
        last := i + 1;
      }
      i := i + 1;
    }
    if buffer == [] { return Err(NoValue); }
    return Ok(buffer[|buffer| - 1]);
  }

  lemma StepCases(env: Env, str: string, s: State)
    requires Sane(str, s) && s.i <= |str|
    ensures var c, r := CharAt(str, s.i), Step(env, str, s);
            if c == ' ' && s.i == s.last then
              r == Ok(s.(i := s.i + 1, last := s.i + 1))
            else if (|s.buffer| == |s.ops| || Priority(c) < 0) && s.last == s.i && IsUnary(c) then
              r == Ok(s.(i := s.i + 1, last := s.i + 1, unary := s.unary + [c]))
            else if c == '(' then
              if s.i != s.last then r == Err(ConsecutiveValues)
              else if MatchClose(str, s.i + 1, 1) == |str| then r == Err(Unbalanced)
              else
                r == match Parse(env, str[s.i + 1..MatchClose(str, s.i + 1, 1)])
                     case Err(e) => Err(e)
                     case Ok(val) => Push(env, s, val, MatchClose(str, s.i + 1, 1) + 1)
            else if s.i > s.last && (c == ' ' || Priority(c) >= 0) then
              r == Push(env, s, env.parseVal(str[s.last..s.i]), s.i)
            else if Priority(c) >= 0 then
              r == Operator(str, s)
            else
              r == Ok(s.(i := s.i + 1))
  {
    hide Push, Operator, MatchClose, Parse, Priority;
  }
}
