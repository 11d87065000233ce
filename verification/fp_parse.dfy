// fplot's expression compiler: operator precedence parsing of a token list into postfix code.

/** parse, push, pop, popdel and addop of sys/src/cmd/fplot.c. */
module FpParse {

  /** The C functions that the operator table points to. */
  datatype Fn =
    | OMax | OMin | Add | Sub | Mul | Div | Mod | Pot
    | Sinh | Cosh | Tanh | Abs | Sin | Cos | Tan | Asin | Acos | Atan | Sqrt | Exp | Log | Ln

  datatype Operator = Operator(name: string, binary: bool, rassoc: bool, prec: int, f: Fn)

  datatype Token = TNumber(val: real) | TVar | TOp(op: Operator) | TParenL | TParenR

  datatype Op = ONumber(val: real) | OVar | OUnary(f: Fn) | OBinary(f: Fn)

  datatype Result<T> = Ok(value: T) | Fatal(message: string)

  /** The operator table, in its order. The row of min holds the function of max. */
  const OPS: seq<Operator> := [
    Operator("max", true, false, 0, OMax), Operator("min", true, false, 0, OMax),
    Operator("+", true, false, 100, Add), Operator("-", true, false, 100, Sub),
    Operator("*", true, false, 200, Mul), Operator("/", true, false, 200, Div),
    Operator("%", true, false, 200, Mod), Operator("^", true, true, 300, Pot),
    Operator("sinh", false, false, 400, Sinh), Operator("cosh", false, false, 400, Cosh),
    Operator("tanh", false, false, 400, Tanh), Operator("abs", false, false, 400, Abs),
    Operator("sin", false, false, 400, Sin), Operator("cos", false, false, 400, Cos),
    Operator("tan", false, false, 400, Tan), Operator("asin", false, false, 400, Asin),
    Operator("acos", false, false, 400, Acos), Operator("atan", false, false, 400, Atan),
    Operator("sqrt", false, false, 400, Sqrt), Operator("exp", false, false, 400, Exp),
    Operator("log", false, false, 400, Log), Operator("ln", false, false, 400, Ln)
  ]

  // ----- expressions, the text they are written as, and the code they stand for ----

  datatype Expr =
    | Num(val: real)
    | X
    | Un(op: Operator, arg: Expr)
    | Bin(op: Operator, left: Expr, right: Expr)
    | Paren(inner: Expr)

  /** The expression as it is written. */
  function Tokens(e: Expr): seq<Token> {
    match e
    case Num(v) => [TNumber(v)]
    case X => [TVar]
    case Un(op, a) => [TOp(op)] + Tokens(a)
    case Bin(op, l, r) => Tokens(l) + [TOp(op)] + Tokens(r)
    case Paren(a) => [TParenL] + Tokens(a) + [TParenR]
  }

  function Instruction(op: Operator): Op {
    if op.binary then OBinary(op.f) else OUnary(op.f)
  }

  function Postfix(e: Expr): seq<Op> {
    match e
    case Num(v) => [ONumber(v)]
    case X => [OVar]
    case Un(op, a) => Postfix(a) + [Instruction(op)]
    case Bin(op, l, r) => Postfix(l) + Postfix(r) + [Instruction(op)]
    case Paren(a) => Postfix(a)
  }

  /** Operator o on the stack is applied before the binary operator t that follows its operand. */
  predicate BindsBefore(o: Operator, t: Operator) {
    o.prec > t.prec || (!t.rassoc && o.prec == t.prec)
  }

  /** Every operator whose last operand runs up to the end of e is applied before t. */
  predicate ClosedBy(e: Expr, t: Operator) {
    match e
    case Un(op, a) => BindsBefore(op, t) && ClosedBy(a, t)
    case Bin(op, _, r) => BindsBefore(op, t) && ClosedBy(r, t)
    case _ => true
  }

  /** No operator whose first operand begins where e begins loses it to an operator o standing before e. */
  predicate HeldBy(o: Operator, e: Expr) {
    match e
    case Bin(op, l, _) => !BindsBefore(o, op) && HeldBy(o, l)
    case _ => true
  }

  /** The tree has parentheses wherever precedence and associativity would group its text otherwise. */
  predicate Grouped(e: Expr) {
    match e
    case Un(op, a) => !op.binary && Grouped(a) && HeldBy(op, a)
    case Bin(op, l, r) => op.binary && Grouped(l) && Grouped(r) && ClosedBy(l, op) && HeldBy(op, r)
    case Paren(a) => Grouped(a)
    case _ => true
  }

  // ----- the parser as a state machine ---------------------------------------

  /** The operator stack, linked from its top. */
  datatype Stack = Bottom | On(top: Token, next: Stack)

  datatype State = State(stack: Stack, code: seq<Op>)

  predicate OperatorOnTop(s: Stack) {
    s.On? && s.top.TOp?
  }

  /** pop, when the top is an operator. */
  function Popped(s: State): State
    requires OperatorOnTop(s.stack)
  {
    State(s.stack.next, s.code + [Instruction(s.stack.top.op)])
  }

  function PopBefore(s: State, t: Operator): State
    decreases s.stack
  {
    if OperatorOnTop(s.stack) && BindsBefore(s.stack.top.op, t) then PopBefore(Popped(s), t) else s
  }

  function PopOperators(s: State): State
    decreases s.stack
  {
    if OperatorOnTop(s.stack) then PopOperators(Popped(s)) else s
  }

  function Step(s: State, t: Token): Result<State> {
    match t
    case TNumber(v) => Ok(s.(code := s.code + [ONumber(v)]))
    case TVar => Ok(s.(code := s.code + [OVar]))
    case TOp(op) =>
      var p := if op.binary then PopBefore(s, op) else s;
      Ok(p.(stack := On(t, p.stack)))
    case TParenL => Ok(s.(stack := On(t, s.stack)))
    case TParenR =>
      var p := PopOperators(s);
      if p.stack.Bottom? then Fatal("mismatched parentheses") else Ok(p.(stack := p.stack.next))
  }

  function Steps(s: State, ts: seq<Token>): Result<State>
    decreases |ts|
  {
    if ts == [] then Ok(s)
    else match Step(s, ts[0])
      case Ok(s') => Steps(s', ts[1..])
      case Fatal(m) => Fatal(m)
  }

  function Finish(s: State): Result<seq<Op>> {
    var p := PopOperators(s);
    if p.stack.Bottom? then Ok(p.code)
    else if p.stack.top.TParenL? then Fatal("mismatched parentheses")
    else Fatal("syntax error")
  }

  const EMPTY := State(Bottom, [])

  /** parse, as a function of its tokens. */
  function Compile(ts: seq<Token>): Result<seq<Op>> {
    match Steps(EMPTY, ts)
    case Ok(s) => Finish(s)
    case Fatal(m) => Fatal(m)
  }

  class Parser {
    var opstackbot: Stack
    var code: seq<Op>

    ghost function Now(): State
      reads this
    {
      State(opstackbot, code)
    }

    constructor ()
      ensures Now() == EMPTY
    {
      opstackbot, code := Bottom, [];
    }

    method AddOp(o: Op)
      modifies this`code
      ensures code == old(code) + [o]
    {
      code := code + [o];
    }

    method Push(t: Token)
      modifies this`opstackbot
      ensures opstackbot == On(t, old(opstackbot))
    {
      opstackbot := On(t, opstackbot);
    }

    /** pop; no result where it would find the stack empty or no operator on top. */
    method Pop() returns (fatal: bool)
      modifies this
      ensures fatal <==> !OperatorOnTop(old(opstackbot))
      ensures !fatal ==> Now() == old(Popped(Now()))
    {
      if opstackbot.Bottom? {
        return true;
      }
      var t := opstackbot.top;
      opstackbot := opstackbot.next;
      if !t.TOp? {
        return true;
      }
      AddOp(if t.op.binary then OBinary(t.op.f) else OUnary(t.op.f));
      fatal := false;
    }

    method PopDel()
      requires opstackbot.On?
      modifies this`opstackbot
      ensures opstackbot == old(opstackbot.next)
    {
      opstackbot := opstackbot.next;
    }

    /** The case TOP of parse. */
    method TakeOperator(t: Token)
      requires t.TOp?
      modifies this
      ensures Ok(Now()) == old(Step(Now(), t))
    {
      if t.op.binary {
        while opstackbot.On? && opstackbot.top.TOp? &&
              (opstackbot.top.op.prec > t.op.prec || (!t.op.rassoc && opstackbot.top.op.prec == t.op.prec))
          invariant PopBefore(Now(), t.op) == old(PopBefore(Now(), t.op))
          decreases opstackbot
        {
          var fatal := Pop();
        }
      }
      Push(t);
    }

    /** The loops that pop operators down to a parenthesis or the bottom of the stack. */
    method PopAll()
      modifies this
      ensures Now() == old(PopOperators(Now())) && !OperatorOnTop(opstackbot)
    {
      while opstackbot.On? && opstackbot.top.TOp?
        invariant PopOperators(Now()) == old(PopOperators(Now()))
        decreases opstackbot
      {
        var fatal := Pop();
      }
    }

    /** One token; no result when the parentheses do not match. */
    method Take(t: Token) returns (fatal: bool)
      modifies this
      ensures fatal ==> old(Step(Now(), t)) == Fatal("mismatched parentheses")
      ensures !fatal ==> old(Step(Now(), t)) == Ok(Now())
    {
      fatal := false;
      match t
      case TNumber(v) => AddOp(ONumber(v));
      case TVar => AddOp(OVar);
      case TOp(_) => TakeOperator(t);
      case TParenL => Push(t);
      case TParenR =>
        PopAll();
        if opstackbot.Bottom? {
          return true;
        }
        PopDel();
    }

    /** parse. The stack is empty before it and, unless it fails, after it. */
    method Parse(ts: seq<Token>) returns (r: Result<seq<Op>>)
      requires opstackbot.Bottom?
      modifies this
      ensures r == Compile(ts)
      ensures r.Ok? ==> opstackbot.Bottom?
    {
      code := [];
      var i := 0;
      while i < |ts|
        invariant 0 <= i <= |ts| && Steps(EMPTY, ts) == Steps(Now(), ts[i..])
      {
        var fatal := Take(ts[i]);
        if fatal {
          return Fatal("mismatched parentheses");
        }
        assert ts[i..][1..] == ts[i + 1..];
        i := i + 1;
      }
      PopAll();
      if opstackbot.Bottom? {
        return Ok(code);
      }
      return if opstackbot.top.TParenL? then Fatal("mismatched parentheses") else Fatal("syntax error");
    }
  }
}
