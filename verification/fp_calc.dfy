// fplot's static stack check and its stack machine.

/** calcstack, calc and parsefns of sys/src/cmd/fplot.c, with the operator functions left uninterpreted. */
module FpCalc {
  import opened FpParse
  import FpMeaning

  datatype Meaning = Meaning(unary: (Fn, real) -> real, binary: (Fn, real, real) -> real)

  /** Direct evaluation of a tree. */
  function Eval(e: Expr, m: Meaning, x: real): real {
    match e
    case Num(v) => v
    case X => x
    case Un(op, a) => m.unary(op.f, Eval(a, m, x))
    case Bin(op, l, r) => m.binary(op.f, Eval(l, m, x), Eval(r, m, x))
    case Paren(a) => Eval(a, m, x)
  }

  function Max(a: int, b: int): int {
    if a > b then a else b
  }

  /** The stack a tree needs when its left operands are evaluated first. */
  function Depth(e: Expr): nat {
    match e
    case Un(_, a) => Depth(a)
    case Bin(_, l, r) => Max(Depth(l), 1 + Depth(r))
    case Paren(a) => Depth(a)
    case _ => 1
  }

  // ----- the static check ------------------------------------------------------

  /** The height of the stack and the greatest height so far, as far as calcstack has got, or none on a syntax error. */
  datatype Heights = Heights(cur: nat, max: nat) | SyntaxError

  function Check(h: Heights, o: Op): Heights {
    match h
    case SyntaxError => SyntaxError
    case Heights(cur, max) =>
      match o
      case OUnary(_) => if cur == 0 then SyntaxError else h
      case OBinary(_) => if cur <= 1 then SyntaxError else Heights(cur - 1, max)
      case _ => Heights(cur + 1, Max(max, cur + 1))
  }

  function CheckAll(h: Heights, code: seq<Op>): Heights {
    if code == [] then h else Check(CheckAll(h, code[..|code| - 1]), code[|code| - 1])
  }

  /** calcstack, as a function of the code. */
  function StackNeeded(code: seq<Op>): Result<nat> {
    match CheckAll(Heights(0, 0), code)
    case Heights(cur, max) => if cur == 1 then Ok(max) else Fatal("syntax error")
    case SyntaxError => Fatal("syntax error")
  }

  method CalcStack(code: seq<Op>) returns (r: Result<nat>)
    ensures r == StackNeeded(code)
  {
    var cur, max := 0, 0;
    for i := 0 to |code|
      invariant cur >= 0 && max >= 0 && CheckAll(Heights(0, 0), code[..i]) == Heights(cur, max)
    {
      CheckFails(Heights(0, 0), code, i + 1);
      assert code[..i + 1][..i] == code[..i];
      match code[i]
      case ONumber(_) =>
        cur := cur + 1;
        if cur > max {
          max := cur;
        }
      case OVar =>
        cur := cur + 1;
        if cur > max {
          max := cur;
        }
      case OUnary(_) =>
        if cur == 0 {
          return Fatal("syntax error");
        }
      case OBinary(_) =>
        if cur <= 1 {
          return Fatal("syntax error");
        }
        cur := cur - 1;
    }
    assert code[..|code|] == code;
    if cur != 1 {
      return Fatal("syntax error");
    }
    return Ok(max);
  }

  lemma {:induction false} CheckFails(h: Heights, code: seq<Op>, n: nat)
    requires n <= |code|
    ensures CheckAll(h, code[..n]).SyntaxError? ==> CheckAll(h, code).SyntaxError?
    decreases |code| - n
  {
    if n < |code| {
      assert code[..n + 1][..n] == code[..n];
      CheckFails(h, code, n + 1);
    } else {
      assert code[..n] == code;
    }
  }

  lemma {:induction false} CheckConcat(h: Heights, a: seq<Op>, b: seq<Op>)
    ensures CheckAll(h, a + b) == CheckAll(CheckAll(h, a), b)
    decreases |b|
  {
    if b == [] {
      assert a + b == a;
    } else {
      assert (a + b)[..|a + b| - 1] == a + b[..|b| - 1];
      CheckConcat(h, a, b[..|b| - 1]);
    }
  }

  lemma CheckOne(h: Heights, o: Op)
    ensures CheckAll(h, [o]) == Check(h, o)
  {
    assert [o][..0] == [];
  }

  /** The postfix form of a tree passes the check, leaves one value, and needs the depth of the tree. */
  lemma {:induction false} TreePasses(h: Heights, e: Expr)
    requires h.Heights? && FpMeaning.WellKinded(e)
    ensures CheckAll(h, Postfix(e)) == Heights(h.cur + 1, Max(h.max, h.cur + Depth(e)))
    decreases e
  {
    match e
    case Num(v) => CheckOne(h, ONumber(v));
    case X => CheckOne(h, OVar);
    case Un(op, a) =>
      TreePasses(h, a);
      CheckConcat(h, Postfix(a), [Instruction(op)]);
      CheckOne(CheckAll(h, Postfix(a)), Instruction(op));
    case Bin(op, l, r) =>
      var h1 := CheckAll(h, Postfix(l));
      TreePasses(h, l);
      TreePasses(h1, r);
      CheckConcat(h, Postfix(l), Postfix(r));
      CheckConcat(h, Postfix(l) + Postfix(r), [Instruction(op)]);
      CheckOne(CheckAll(h1, Postfix(r)), Instruction(op));
    case Paren(a) => TreePasses(h, a);
  }

  // ----- every accepted code is the postfix form of a tree ---------------------

  /** The code of some trees, one after the other. */
  function PostfixAll(f: seq<Expr>): seq<Op> {
    if f == [] then [] else PostfixAll(f[..|f| - 1]) + Postfix(f[|f| - 1])
  }

  predicate AllWellKinded(f: seq<Expr>) {
    forall k :: 0 <= k < |f| ==> FpMeaning.WellKinded(f[k])
  }

  /** An operator of the table's kind that yields an instruction. */
  function OperatorOf(o: Op): Operator
    requires o.OUnary? || o.OBinary?
  {
    Operator("", o.OBinary?, false, 0, o.f)
  }

  lemma Grown(g: seq<Expr>, e: Expr) returns (f: seq<Expr>)
    requires AllWellKinded(g) && FpMeaning.WellKinded(e)
    ensures |f| == |g| + 1 && AllWellKinded(f) && PostfixAll(f) == PostfixAll(g) + Postfix(e)
  {
    f := g + [e];
    assert f[..|g|] == g;
  }

  lemma GrownUnary(g: seq<Expr>, o: Op) returns (f: seq<Expr>)
    requires AllWellKinded(g) && g != [] && o.OUnary?
    ensures |f| == |g| && AllWellKinded(f) && PostfixAll(f) == PostfixAll(g) + [o]
  {
    var n := |g|;
    f := Grown(g[..n - 1], Un(OperatorOf(o), g[n - 1]));
    FpMeaning.Regroup(PostfixAll(g[..n - 1]), Postfix(g[n - 1]), [o], []);
  }

  lemma GrownBinary(g: seq<Expr>, o: Op) returns (f: seq<Expr>)
    requires AllWellKinded(g) && |g| > 1 && o.OBinary?
    ensures |f| == |g| - 1 && AllWellKinded(f) && PostfixAll(f) == PostfixAll(g) + [o]
  {
    var n := |g|;
    f := Grown(g[..n - 2], Bin(OperatorOf(o), g[n - 2], g[n - 1]));
    assert g[..n - 1][..n - 2] == g[..n - 2];
    FpMeaning.Regroup(PostfixAll(g[..n - 2]), Postfix(g[n - 2]), Postfix(g[n - 1]), [o]);
  }

  /** The trees once an instruction has been carried out that there are operands for. */
  lemma GrownBy(g: seq<Expr>, o: Op) returns (f: seq<Expr>)
    requires AllWellKinded(g) && (o.OUnary? ==> g != []) && (o.OBinary? ==> |g| > 1)
    ensures |f| == (if o.OUnary? then |g| else if o.OBinary? then |g| - 1 else |g| + 1)
    ensures AllWellKinded(f) && PostfixAll(f) == PostfixAll(g) + [o]
  {
    match o
    case ONumber(v) => f := Grown(g, Num(v));
    case OVar => f := Grown(g, X);
    case OUnary(_) => f := GrownUnary(g, o);
    case OBinary(_) => f := GrownBinary(g, o);
  }

  /** The trees standing on the stack after the code. */
  lemma {:induction false} TreesOf(code: seq<Op>) returns (f: seq<Expr>)
    requires CheckAll(Heights(0, 0), code).Heights?
    ensures |f| == CheckAll(Heights(0, 0), code).cur && AllWellKinded(f) && PostfixAll(f) == code
    decreases |code|
  {
    if code == [] {
      return [];
    }
    var o, before := code[|code| - 1], code[..|code| - 1];
    f := TreesOf(before);
    f := GrownBy(f, o);
    assert code == before + [o];
  }

  /** calcstack accepts exactly the codes that are the postfix form of an expression, and then returns its depth. */
  lemma {:induction false} AcceptsExpressions(code: seq<Op>, d: nat)
    ensures StackNeeded(code) == Ok(d) <==>
            exists e :: FpMeaning.WellKinded(e) && Postfix(e) == code && Depth(e) == d
  {
    forall e | FpMeaning.WellKinded(e) && Postfix(e) == code ensures StackNeeded(code) == Ok(Depth(e)) {
      TreePasses(Heights(0, 0), e);
    }
    if StackNeeded(code).Ok? {
      var f := TreesOf(code);
      assert f[..0] == [] && PostfixAll(f) == [] + Postfix(f[0]);
      TreePasses(Heights(0, 0), f[0]);
    }
  }

  // ----- the stack machine -----------------------------------------------------

  /** One instruction on a stack of values, which stays as it is where the instruction lacks an operand. */
  function Apply(v: seq<real>, o: Op, m: Meaning, x: real): seq<real> {
    var n := |v|;
    match o
    case ONumber(c) => v + [c]
    case OVar => v + [x]
    case OUnary(f) => if n < 1 then v else v[..n - 1] + [m.unary(f, v[n - 1])]
    case OBinary(f) => if n < 2 then v else v[..n - 2] + [m.binary(f, v[n - 2], v[n - 1])]
  }

  function ApplyAll(v: seq<real>, code: seq<Op>, m: Meaning, x: real): seq<real> {
    if code == [] then v else Apply(ApplyAll(v, code[..|code| - 1], m, x), code[|code| - 1], m, x)
  }

  lemma {:induction false} ApplyConcat(v: seq<real>, a: seq<Op>, b: seq<Op>, m: Meaning, x: real)
    ensures ApplyAll(v, a + b, m, x) == ApplyAll(ApplyAll(v, a, m, x), b, m, x)
    decreases |b|
  {
    if b == [] {
      assert a + b == a;
    } else {
      assert (a + b)[..|a + b| - 1] == a + b[..|b| - 1];
      ApplyConcat(v, a, b[..|b| - 1], m, x);
    }
  }

  lemma ApplyOne(v: seq<real>, o: Op, m: Meaning, x: real)
    ensures ApplyAll(v, [o], m, x) == Apply(v, o, m, x)
  {
    assert [o][..0] == [];
  }

  /** The code of a tree adds its value to the stack. */
  lemma {:induction false} TreeValue(v: seq<real>, e: Expr, m: Meaning, x: real)
    requires FpMeaning.WellKinded(e)
    ensures ApplyAll(v, Postfix(e), m, x) == v + [Eval(e, m, x)]
    decreases e, 1
  {
    match e
    case Num(c) => ApplyOne(v, ONumber(c), m, x);
    case X => ApplyOne(v, OVar, m, x);
    case Un(op, a) => UnaryValue(v, op, a, m, x);
    case Bin(op, l, r) => BinaryValue(v, op, l, r, m, x);
    case Paren(a) => TreeValue(v, a, m, x);
  }

  lemma {:induction false} UnaryValue(v: seq<real>, op: Operator, a: Expr, m: Meaning, x: real)
    requires FpMeaning.WellKinded(Un(op, a))
    ensures ApplyAll(v, Postfix(Un(op, a)), m, x) == v + [Eval(Un(op, a), m, x)]
    decreases Un(op, a), 0
  {
    TreeValue(v, a, m, x);
    ApplyConcat(v, Postfix(a), [Instruction(op)], m, x);
    ApplyOne(v + [Eval(a, m, x)], Instruction(op), m, x);
    assert (v + [Eval(a, m, x)])[..|v|] == v;
  }

  lemma ApplyBinary(v: seq<real>, op: Operator, a: real, b: real, m: Meaning, x: real)
    requires op.binary
    ensures ApplyAll(v + [a] + [b], [Instruction(op)], m, x) == v + [m.binary(op.f, a, b)]
  {
    ApplyOne(v + [a] + [b], Instruction(op), m, x);
    assert (v + [a] + [b])[..|v|] == v;
  }

  lemma {:induction false} BinaryValue(v: seq<real>, op: Operator, l: Expr, r: Expr, m: Meaning, x: real)
    requires FpMeaning.WellKinded(Bin(op, l, r))
    ensures ApplyAll(v, Postfix(Bin(op, l, r)), m, x) == v + [Eval(Bin(op, l, r), m, x)]
    decreases Bin(op, l, r), 0
  {
    TreeValue(v, l, m, x);
    TreeValue(v + [Eval(l, m, x)], r, m, x);
    ApplyConcat(v, Postfix(l), Postfix(r), m, x);
    ApplyConcat(v, Postfix(l) + Postfix(r), [Instruction(op)], m, x);
    ApplyBinary(v, op, Eval(l, m, x), Eval(r, m, x), m, x);
  }

  /** The heights that calcstack sees are those of the stack of values, and none exceeds what it returns. */
  lemma {:induction false} HeightsAreValues(code: seq<Op>, n: nat, m: Meaning, x: real)
    requires n <= |code| && CheckAll(Heights(0, 0), code).Heights?
    ensures CheckAll(Heights(0, 0), code[..n]).Heights?
    ensures var h := CheckAll(Heights(0, 0), code[..n]);
            |ApplyAll([], code[..n], m, x)| == h.cur <= h.max <= CheckAll(Heights(0, 0), code).max
    decreases n
  {
    CheckGrows(code, n);
    if n > 0 {
      assert code[..n][..n - 1] == code[..n - 1];
      HeightsAreValues(code, n - 1, m, x);
    }
  }

  lemma {:induction false} CheckGrows(code: seq<Op>, n: nat)
    requires n <= |code| && CheckAll(Heights(0, 0), code).Heights?
    ensures var h := CheckAll(Heights(0, 0), code[..n]);
            h.Heights? && h.max <= CheckAll(Heights(0, 0), code).max
    decreases |code| - n
  {
    if n < |code| {
      assert code[..n + 1][..n] == code[..n];
      CheckGrows(code, n + 1);
    } else {
      assert code[..n] == code;
    }
  }

  lemma {:induction false} NeedsSome(code: seq<Op>)
    ensures var h := CheckAll(Heights(0, 0), code); h.Heights? ==> h.cur <= h.max
  {
    if code != [] {
      NeedsSome(code[..|code| - 1]);
    }
  }

  /** The stack does become as high as calcstack returns. */
  lemma {:induction false} MaxIsReached(code: seq<Op>, m: Meaning, x: real) returns (n: nat)
    requires CheckAll(Heights(0, 0), code).Heights?
    ensures n <= |code| && |ApplyAll([], code[..n], m, x)| == CheckAll(Heights(0, 0), code).max
    decreases |code|
  {
    var k := |code|;
    assert code[..k] == code;
    HeightsAreValues(code, k, m, x);
    n := k;
    if code != [] && CheckAll(Heights(0, 0), code).cur < CheckAll(Heights(0, 0), code).max {
      n := MaxIsReached(code[..k - 1], m, x);
      assert code[..k - 1][..n] == code[..n];
    }
  }

  /** calc's machine: an instruction at the top of a stack that has room for it. */
  method Execute(o: Op, x: real, m: Meaning, stack: array<real>, sp: int) returns (sp': int)
    requires -1 <= sp < stack.Length
    requires o.OUnary? ==> sp >= 0
    requires o.OBinary? ==> sp >= 1
    requires o.ONumber? || o.OVar? ==> sp + 1 < stack.Length
    modifies stack
    ensures -1 <= sp' < stack.Length
    ensures stack[..sp' + 1] == Apply(old(stack[..sp + 1]), o, m, x)
  {
    sp' := sp;
    match o
    case ONumber(c) =>
      sp' := sp + 1;
      stack[sp'] := c;
    case OVar =>
      sp' := sp + 1;
      stack[sp'] := x;
    case OUnary(f) => stack[sp] := m.unary(f, stack[sp]);
    case OBinary(f) =>
      sp' := sp - 1;
      stack[sp'] := m.binary(f, stack[sp'], stack[sp' + 1]);
  }

  /**
   * calc. On a code that calcstack has accepted, with a stack as large as it asked for, the machine never leaves the
   * stack, and its one last value is that of the expression.
   */
  method Calc(code: seq<Op>, x: real, m: Meaning, stack: array<real>) returns (r: real)
    requires StackNeeded(code).Ok? && stack.Length >= StackNeeded(code).value
    modifies stack
    ensures forall e :: FpMeaning.WellKinded(e) && Postfix(e) == code ==> r == Eval(e, m, x)
  {
    var sp := -1;
    HeightsAreValues(code, 0, m, x);
    for i := 0 to |code|
      invariant -1 <= sp < stack.Length && stack[..sp + 1] == ApplyAll([], code[..i], m, x)
    {
      HeightsAreValues(code, i, m, x);
      HeightsAreValues(code, i + 1, m, x);
      assert code[..i + 1][..i] == code[..i];
      sp := Execute(code[i], x, m, stack, sp);
    }
    assert code[..|code|] == code;
    HeightsAreValues(code, |code|, m, x);
    assert sp == 0;
    r := stack[sp];
    forall e | FpMeaning.WellKinded(e) && Postfix(e) == code ensures r == Eval(e, m, x) {
      TreeValue([], e, m, x);
    }
  }

  /** parsefns: the code of every function, and the size of the one stack, which is the most that any of them needs. */
  method ParseFns(fns: seq<seq<Token>>) returns (r: Result<(seq<seq<Op>>, nat)>)
    ensures r.Fatal? <==>
            exists i :: 0 <= i < |fns| && (Compile(fns[i]).Fatal? || StackNeeded(Compile(fns[i]).value).Fatal?)
    ensures r.Ok? ==> |r.value.0| == |fns| && forall i :: 0 <= i < |fns| ==> Compile(fns[i]) == Ok(r.value.0[i])
    ensures r.Ok? ==> forall i :: 0 <= i < |fns| ==>
                        StackNeeded(r.value.0[i]).Ok? && StackNeeded(r.value.0[i]).value <= r.value.1
    ensures r.Ok? && fns != [] ==> exists i :: 0 <= i < |fns| && StackNeeded(r.value.0[i]) == Ok(r.value.1)
  {
    var max := 0;
    var codes := [];
    var p := new Parser();
    ghost var widest := 0;
    for i := 0 to |fns|
      invariant max >= 0 && p.opstackbot.Bottom? && fresh(p) && |codes| == i
      invariant forall k :: 0 <= k < i ==> Compile(fns[k]) == Ok(codes[k])
      invariant forall k :: 0 <= k < i ==> StackNeeded(codes[k]).Ok? && StackNeeded(codes[k]).value <= max
      invariant if i == 0 then max == 0 else 0 <= widest < i && StackNeeded(codes[widest]) == Ok(max)
    {
      var c := p.Parse(fns[i]);
      if c.Fatal? {
        return Fatal(c.message);
      }
      var cur := CalcStack(c.value);
      if cur.Fatal? {
        return Fatal(cur.message);
      }
      codes := codes + [c.value];
      NeedsSome(c.value);
      if cur.value > max {
        max, widest := cur.value, i;
      }
    }
    return Ok((codes, max));
  }

  /** Every expression, written as briefly as precedence allows, is accepted, and its code computes its value. */
  lemma {:induction false} TextMeansTree(e: Expr, m: Meaning, x: real)
    requires FpMeaning.WellKinded(e)
    ensures var c := Compile(Tokens(FpMeaning.Parenthesised(e)));
            c.Ok? && StackNeeded(c.value) == Ok(Depth(e)) && ApplyAll([], c.value, m, x) == [Eval(e, m, x)]
  {
    FpMeaning.CompilesMinimalText(e);
    TreePasses(Heights(0, 0), e);
    TreeValue([], e, m, x);
  }

  /** The table gives min the function of max: the two mean the same. */
  lemma MinIsMax(l: Expr, r: Expr, m: Meaning, x: real)
    ensures OPS[0].name == "max" && OPS[1].name == "min"
    ensures Eval(Bin(OPS[1], l, r), m, x) == Eval(Bin(OPS[0], l, r), m, x)
  {
  }
}
