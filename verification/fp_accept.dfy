// Which token lists fplot accepts: parse and calcstack together.

module FpAccept {
  import opened FpParse
  import FpMeaning
  import opened FpCalc

  predicate IsOperand(t: Token) {
    t.TNumber? || t.TVar?
  }

  function Operands(ts: seq<Token>): nat {
    if ts == [] then 0 else (if IsOperand(ts[0]) then 1 else 0) + Operands(ts[1..])
  }

  function Operators(ts: seq<Token>): nat {
    if ts == [] then 0 else (if ts[0].TOp? then 1 else 0) + Operators(ts[1..])
  }

  function Binaries(ts: seq<Token>): nat {
    if ts == [] then 0 else (if ts[0].TOp? && ts[0].op.binary then 1 else 0) + Binaries(ts[1..])
  }

  /** The operators that still wait on the stack. */
  function OperatorsOn(s: Stack): nat {
    if s.Bottom? then 0 else (if s.top.TOp? then 1 else 0) + OperatorsOn(s.next)
  }

  function BinariesOn(s: Stack): nat {
    if s.Bottom? then 0 else (if s.top.TOp? && s.top.op.binary then 1 else 0) + BinariesOn(s.next)
  }

  /** The operators of ts that wait no longer have found their operands among the tokens of ts. */
  predicate InTime(ts: seq<Token>, s: Stack) {
    Operators(ts) > OperatorsOn(s) ==> Operands(ts) > Binaries(ts) - BinariesOn(s)
  }

  /** The operator stack after the first i tokens. */
  function StackAfter(ts: seq<Token>, i: nat): Stack
    requires i <= |ts|
  {
    match Steps(EMPTY, ts[..i]) case Ok(s) => s.stack case Fatal(_) => Bottom
  }

  /** No operator is applied before there are operands for it. */
  predicate NoneTooEarly(ts: seq<Token>) {
    forall j :: 0 <= j <= |ts| ==> InTime(ts[..j], StackAfter(ts, j))
  }

  // ----- counting in the code ---------------------------------------------------

  /** Operands, operators, and binary operators among them. */
  datatype Counts = Counts(operands: nat, operators: nat, binaries: nat)

  function CountsOf(code: seq<Op>): Counts {
    if code == [] then Counts(0, 0, 0)
    else
      var c := CountsOf(code[..|code| - 1]);
      match code[|code| - 1]
      case OUnary(_) => c.(operators := c.operators + 1)
      case OBinary(_) => c.(operators := c.operators + 1, binaries := c.binaries + 1)
      case _ => c.(operands := c.operands + 1)
  }

  lemma CountsSnoc(code: seq<Op>, o: Op)
    ensures var c := CountsOf(code);
            CountsOf(code + [o]) == match o
                                    case OUnary(_) => c.(operators := c.operators + 1)
                                    case OBinary(_) => c.(operators := c.operators + 1, binaries := c.binaries + 1)
                                    case _ => c.(operands := c.operands + 1)
  {
    assert (code + [o])[..|code|] == code;
  }

  /** What is in the code and on the stack together. */
  function Held(s: State): Counts {
    var c := CountsOf(s.code);
    Counts(c.operands, c.operators + OperatorsOn(s.stack), c.binaries + BinariesOn(s.stack))
  }

  /** Popping moves operators from the stack to the code. */
  lemma {:induction false} PoppingKeepsHeld(s: State, t: Operator)
    ensures Held(PopBefore(s, t)) == Held(s)
    ensures Held(PopOperators(s)) == Held(s) && !OperatorOnTop(PopOperators(s).stack)
    decreases s.stack
  {
    if OperatorOnTop(s.stack) {
      CountsSnoc(s.code, Instruction(s.stack.top.op));
      PoppingKeepsHeld(Popped(s), t);
    }
  }

  lemma StepHolds(s: State, t: Token)
    requires Step(s, t).Ok?
    ensures var h, h' := Held(s), Held(Step(s, t).value);
            && h'.operands == h.operands + (if IsOperand(t) then 1 else 0)
            && h'.operators == h.operators + (if t.TOp? then 1 else 0)
            && h'.binaries == h.binaries + (if t.TOp? && t.op.binary then 1 else 0)
  {
    match t
    case TNumber(v) => CountsSnoc(s.code, ONumber(v));
    case TVar => CountsSnoc(s.code, OVar);
    case TOp(op) => PoppingKeepsHeld(s, op);
    case TParenL =>
    case TParenR => PoppingKeepsHeld(s, OPS[0]);
  }

  lemma {:induction false} StepsHold(s: State, ts: seq<Token>)
    requires Steps(s, ts).Ok?
    ensures var h, h' := Held(s), Held(Steps(s, ts).value);
            && h'.operands == h.operands + Operands(ts) && h'.operators == h.operators + Operators(ts)
            && h'.binaries == h.binaries + Binaries(ts)
    decreases |ts|
  {
    if ts != [] {
      StepHolds(s, ts[0]);
      StepsHold(Step(s, ts[0]).value, ts[1..]);
    }
  }

  // ----- the check of code ------------------------------------------------------

  function Checked(code: seq<Op>): Heights {
    CheckAll(Heights(0, 0), code)
  }

  /** The height is what the counts say, and at least one after any instruction. */
  lemma {:induction false} HeightIsCount(code: seq<Op>)
    requires Checked(code).Heights?
    ensures Checked(code).cur == CountsOf(code).operands - CountsOf(code).binaries
    ensures code != [] ==> Checked(code).cur > 0
    decreases |code|
  {
    if code != [] {
      HeightIsCount(code[..|code| - 1]);
    }
  }

  predicate AllOperators(d: seq<Op>) {
    forall k :: 0 <= k < |d| ==> d[k].OUnary? || d[k].OBinary?
  }

  /** Operators put behind code that passes: all of it passes if and only if there are operands enough. */
  lemma {:induction false} OperatorsPass(code: seq<Op>, d: seq<Op>)
    requires Checked(code).Heights? && AllOperators(d) && d != []
    ensures CountsOf(code + d).operands == CountsOf(code).operands
    ensures CountsOf(code + d).binaries >= CountsOf(code).binaries && CountsOf(code + d).operators > 0
    ensures Checked(code + d).Heights? <==> CountsOf(code + d).operands > CountsOf(code + d).binaries
    decreases |d|
  {
    var n := |d| - 1;
    var before := code + d[..n];
    assert code + d == before + [d[n]] && (code + d)[..|code + d| - 1] == before;
    CountsSnoc(before, d[n]);
    if n > 0 {
      OperatorsPass(code, d[..n]);
    } else {
      assert before == code;
    }
    if Checked(before).Heights? {
      HeightIsCount(before);
    }
  }

  /** The operators that popping adds to the code. */
  lemma {:induction false} PoppedOperators(s: State, t: Operator) returns (d: seq<Op>, all: seq<Op>)
    ensures AllOperators(d) && PopBefore(s, t).code == s.code + d
    ensures AllOperators(all) && PopOperators(s).code == s.code + all
    decreases s.stack
  {
    d, all := [], [];
    if OperatorOnTop(s.stack) {
      var o := [Instruction(s.stack.top.op)];
      var d', all' := PoppedOperators(Popped(s), t);
      assert s.code + o + d' == s.code + (o + d') && s.code + o + all' == s.code + (o + all');
      if BindsBefore(s.stack.top.op, t) {
        d := o + d';
      }
      all := o + all';
    }
  }

  /** The code a step adds: an operand, or operators. */
  lemma StepAdds(s: State, t: Token) returns (d: seq<Op>)
    requires Step(s, t).Ok?
    ensures Step(s, t).value.code == s.code + d
    ensures if IsOperand(t) then |d| == 1 && (d[0].ONumber? || d[0].OVar?) else AllOperators(d)
  {
    match t
    case TNumber(v) => d := [ONumber(v)];
    case TVar => d := [OVar];
    case TOp(op) =>
      var all;
      d, all := PoppedOperators(s, op);
      if !op.binary {
        d := [];
      }
    case TParenL => d := [];
    case TParenR =>
      var e;
      e, d := PoppedOperators(s, OPS[0]);
  }

  /** Enough operands for the operators in the code. */
  predicate Supplied(code: seq<Op>) {
    CountsOf(code).operators > 0 ==> CountsOf(code).operands > CountsOf(code).binaries
  }

  /** Code that passes still does after a step if and only if it is supplied. */
  lemma StepPasses(s: State, t: Token)
    requires Step(s, t).Ok? && Checked(s.code).Heights?
    ensures Checked(Step(s, t).value.code).Heights? <==> Supplied(Step(s, t).value.code)
  {
    var d := StepAdds(s, t);
    var code := s.code + d;
    HeightIsCount(s.code);
    if IsOperand(t) {
      assert code == s.code + [d[0]] && code[..|s.code|] == s.code;
      HeightIsCount(code);
    } else if d == [] {
      assert code == s.code;
      if s.code == [] {
        assert CountsOf(code).operators == 0;
      }
    } else {
      OperatorsPass(s.code, d);
    }
  }

  // ----- prefixes of the text ---------------------------------------------------

  lemma LastStep(ts: seq<Token>, j: nat)
    requires j < |ts|
    ensures Steps(EMPTY, ts[..j + 1]) ==
            match Steps(EMPTY, ts[..j]) case Ok(s) => Step(s, ts[j]) case Fatal(m) => Fatal(m)
  {
    assert ts[..j + 1] == ts[..j] + [ts[j]];
    StepsFail(EMPTY, ts[..j], [ts[j]]);
    if Steps(EMPTY, ts[..j]).Ok? {
      var s := Steps(EMPTY, ts[..j]).value;
      FpMeaning.StepsThen(EMPTY, ts[..j], s, [ts[j]]);
      FpMeaning.StepsOne(s, ts[j]);
    }
  }

  lemma {:induction false} StepsFail(s: State, a: seq<Token>, b: seq<Token>)
    ensures Steps(s, a).Fatal? ==> Steps(s, a + b) == Steps(s, a)
    decreases |a|
  {
    if a != [] {
      assert (a + b)[1..] == a[1..] + b;
      if Step(s, a[0]).Ok? {
        StepsFail(Step(s, a[0]).value, a[1..], b);
      }
    }
  }

  /** A state reached is in time exactly when its code is supplied. */
  lemma InTimeIsSupplied(ts: seq<Token>)
    requires Steps(EMPTY, ts).Ok?
    ensures var s := Steps(EMPTY, ts).value; InTime(ts, s.stack) <==> Supplied(s.code)
  {
    StepsHold(EMPTY, ts);
  }

  /** The code of a prefix passes the check exactly when no operator so far came too early. */
  lemma {:induction false} PrefixPasses(ts: seq<Token>, j: nat)
    requires j <= |ts| && Steps(EMPTY, ts).Ok?
    ensures Steps(EMPTY, ts[..j]).Ok?
    ensures Checked(Steps(EMPTY, ts[..j]).value.code).Heights? <==>
            forall i :: 0 <= i <= j ==> InTime(ts[..i], StackAfter(ts, i))
    decreases j
  {
    PrefixReached(ts, j);
    if j == 0 {
      assert ts[..0] == [];
    } else {
      PrefixPasses(ts, j - 1);
      LastStep(ts, j - 1);
      InTimeIsSupplied(ts[..j]);
      var s, s' := Steps(EMPTY, ts[..j - 1]).value, Steps(EMPTY, ts[..j]).value;
      assert StackAfter(ts, j) == s'.stack;
      if Checked(s.code).Heights? {
        StepPasses(s, ts[j - 1]);
      } else {
        var d := StepAdds(s, ts[j - 1]);
        assert (s.code + d)[..|s.code|] == s.code;
        CheckFails(Heights(0, 0), s.code + d, |s.code|);
      }
    }
  }

  lemma {:induction false} PrefixReached(ts: seq<Token>, j: nat)
    requires j <= |ts| && Steps(EMPTY, ts).Ok?
    ensures Steps(EMPTY, ts[..j]).Ok?
  {
    assert ts == ts[..j] + ts[j..];
    StepsFail(EMPTY, ts[..j], ts[j..]);
  }

  /** The end of parse: what is left on the stack is applied, and one value must come of it all. */
  lemma FinishPasses(s: State)
    requires FpMeaning.Proper(s.stack) && FpMeaning.Open(s.stack) == 0 && Checked(s.code).Heights?
    ensures Finish(s).Ok?
    ensures StackNeeded(Finish(s).value).Ok? <==> Held(s).operands == Held(s).binaries + 1
  {
    FpMeaning.PoppingKeepsOpen(s, OPS[0]);
    PoppingKeepsHeld(s, OPS[0]);
    var d, all := PoppedOperators(s, OPS[0]);
    var code := s.code + all;
    assert Finish(s) == Ok(code);
    if all == [] {
      assert code == s.code;
    } else {
      OperatorsPass(s.code, all);
    }
    if Checked(code).Heights? {
      HeightIsCount(code);
    }
  }

  /**
   * fplot accepts a text if and only if its parentheses balance, it has one operand more than binary operators, and no
   * operator is applied before there are operands for it.
   */
  lemma AcceptsInTime(ts: seq<Token>)
    ensures Compile(ts).Ok? && StackNeeded(Compile(ts).value).Ok? <==>
            FpMeaning.Balanced(ts, 0) && Operands(ts) == Binaries(ts) + 1 && NoneTooEarly(ts)
  {
    FpMeaning.AcceptsBalanced(ts);
    if Compile(ts).Ok? {
      var s := Steps(EMPTY, ts).value;
      FpMeaning.ReachedIsProper(EMPTY, ts);
      assert ts[..|ts|] == ts;
      PrefixPasses(ts, |ts|);
      StepsHold(EMPTY, ts);
      if Checked(s.code).Heights? {
        FinishPasses(s);
      } else {
        var d, all := PoppedOperators(s, OPS[0]);
        assert (s.code + all)[..|s.code|] == s.code;
        CheckFails(Heights(0, 0), s.code + all, |s.code|);
      }
    }
  }

  /** A sum may also be written with its operator behind its operands, or before them. */
  lemma SumsInAnyOrder()
    ensures var plus := TOp(OPS[2]);
            && Compile([TVar, TVar, plus]) == Compile([plus, TVar, TVar]) == Compile([TVar, plus, TVar])
            && Compile([TVar, plus, TVar]) == Ok(Postfix(Bin(OPS[2], X, X)))
  {
    var plus, stack := TOp(OPS[2]), On(TOp(OPS[2]), Bottom);
    FpMeaning.CompilesToPostfix(Bin(OPS[2], X, X));
    assert Tokens(Bin(OPS[2], X, X)) == [TVar, plus, TVar];
    assert [TVar, TVar, plus][1..] == [TVar, plus] && [plus, TVar, TVar][1..] == [TVar, TVar];
    assert [] + [OVar] == [OVar] && [OVar] + [OVar] == [OVar, OVar];
    TwoSteps(State(Bottom, [OVar]), TVar, plus, State(Bottom, [OVar, OVar]));
    TwoSteps(State(stack, []), TVar, TVar, State(stack, [OVar]));
    assert Postfix(Bin(OPS[2], X, X)) == [OVar, OVar, OBinary(Add)];
    assert [OVar, OVar] + [OBinary(Add)] == [OVar, OVar, OBinary(Add)];
  }

  lemma TwoSteps(s: State, t: Token, u: Token, s': State)
    requires Step(s, t) == Ok(s')
    ensures Steps(s, [t, u]) == Step(s', u)
  {
    assert [t, u][1..] == [u];
    FpMeaning.StepsOne(s', u);
  }
}
