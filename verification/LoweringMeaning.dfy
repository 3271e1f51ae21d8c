/** The emitted code runs like the body it was lowered from. */
module LoweringMeaning {
  import opened Wrappers
  import opened Mir
  import opened LoweringSpec
  import opened LoweringTypes
  import C = Cranelift

  type Vals = map<nat, int>
  type Vars = map<C.Variable, int>

  // ----- straight-line code -----

  function Exec(code: C.Code, vals: Vals, vars: Vars): Option<(Vals, Vars)> {
    if code == [] then Some((vals, vars))
    else
      var e := C.Effect(code[0], vals, vars);
      if e.None? then Option.None else Exec(code[1..], e.value.0, e.value.1)
  }

  lemma {:induction false} ExecConcat(a: C.Code, b: C.Code, vals: Vals, vars: Vars)
    ensures var x := Exec(a, vals, vars);
            Exec(a + b, vals, vars) == if x.None? then x else Exec(b, x.value.0, x.value.1)
  {
    if a == [] {
      assert a + b == b;
    } else {
      assert (a + b)[1..] == a[1..] + b;
      var e := C.Effect(a[0], vals, vars);
      if e.Some? {
        ExecConcat(a[1..], b, e.value.0, e.value.1);
      }
    }
  }

  lemma {:induction false} ExecLast(a: C.Code, inst: C.Inst, vals: Vals, vars: Vars)
    ensures var x := Exec(a, vals, vars);
            Exec(a + [inst], vals, vars) == if x.None? then x else C.Effect(inst, x.value.0, x.value.1)
  {
    ExecConcat(a, [inst], vals, vars);
    var x := Exec(a, vals, vars);
    if x.Some? {
      var e := C.Effect(inst, x.value.0, x.value.1);
      assert [inst][1..] == [];
      if e.Some? {
        assert Exec([], e.value.0, e.value.1) == e;
      }
    }
  }

  lemma {:induction false} StepsAdd(f: C.Function, s: C.State, m: nat, n: nat)
    ensures C.Steps(f, s, m + n) == C.Steps(f, C.Steps(f, s, m), n)
  {
    if n > 0 {
      StepsAdd(f, s, m, n - 1);
    }
  }

  /** Straight-line code in a block runs to its end, one instruction a step. */
  lemma {:induction false} ExecSteps(f: C.Function, b: nat, at: nat, code: C.Code, vals: Vals, vars: Vars,
      end: (Vals, Vars))
    requires b < |f.blocks| && at + |code| <= |f.blocks[b]| && f.blocks[b][at..at + |code|] == code
    requires Exec(code, vals, vars) == Some(end)
    ensures C.Steps(f, C.Running(b, at, vals, vars), |code|) == C.Running(b, at + |code|, end.0, end.1)
    decreases |code|
  {
    if code != [] {
      var e := ExecRest(code, vals, vars, end);
      ExecFirst(f, b, at, code, vals, vars);
      ExecSteps(f, b, at + 1, code[1..], e.0, e.1, end);
      StepsFollow(f, C.Running(b, at, vals, vars), C.Running(b, at + 1, e.0, e.1), |code| - 1,
                  C.Running(b, at + |code|, end.0, end.1));
    }
  }

  lemma ExecRest(code: C.Code, vals: Vals, vars: Vars, end: (Vals, Vars)) returns (e: (Vals, Vars))
    requires code != [] && Exec(code, vals, vars) == Some(end)
    ensures C.Effect(code[0], vals, vars) == Some(e) && Exec(code[1..], e.0, e.1) == Some(end)
  {
    e := C.Effect(code[0], vals, vars).value;
  }

  lemma StepsFollow(f: C.Function, s: C.State, next: C.State, n: nat, end: C.State)
    requires C.Steps(f, s, 1) == next && C.Steps(f, next, n) == end
    ensures C.Steps(f, s, n + 1) == end
  {
    StepsAfter(f, s, next, n);
  }

  lemma StepsAfter(f: C.Function, s: C.State, next: C.State, n: nat)
    requires C.Steps(f, s, 1) == next
    ensures C.Steps(f, s, n + 1) == C.Steps(f, next, n)
  {
    StepsAdd(f, s, 1, n);
  }

  lemma ExecFirst(f: C.Function, b: nat, at: nat, code: C.Code, vals: Vals, vars: Vars)
    requires b < |f.blocks| && at + |code| <= |f.blocks[b]| && f.blocks[b][at..at + |code|] == code != []
    requires C.Effect(code[0], vals, vars).Some?
    ensures f.blocks[b][at + 1..at + 1 + |code[1..]|] == code[1..]
    ensures var e := C.Effect(code[0], vals, vars).value;
            C.Steps(f, C.Running(b, at, vals, vars), 1) == C.Running(b, at + 1, e.0, e.1)
  {
  }

  lemma OneStep(f: C.Function, s: C.State)
    ensures C.Steps(f, s, 1) == C.Step(f, s)
  {
  }

  // ----- statements -----

  /** All variables are 64-bit, and different locals have different variables. */
  ghost predicate WideScope(g: Scope) {
    && g.Valid()
    && (forall v :: 0 <= v < |g.tys| ==> g.tys[v] == C.I64)
    && forall l, m :: l in g.vars && m in g.vars && l != m ==> g.vars[l] != g.vars[m]
  }

  /** Every local's variable holds the value of the local. */
  ghost predicate Agree(g: Scope, env: Env, vars: Vars) {
    && env.Keys == g.vars.Keys
    && forall l :: l in g.vars ==> g.vars[l] in vars && vars[g.vars[l]] == env[l]
  }

  lemma TruncateIsWrap(n: int)
    ensures C.Truncate(C.I64, n) == Wrap(n)
    ensures -TWO_63 <= n < TWO_63 ==> Wrap(n) == n
  {
  }

  lemma OneRuns(inst: C.Inst, vals: Vals, vars: Vars)
    ensures Exec([inst], vals, vars) == C.Effect(inst, vals, vars)
  {
    assert [] + [inst] == [inst];
    ExecLast([], inst, vals, vars);
  }

  lemma PlaceRuns(g: Scope, place: Place, next: nat, env: Env, vals: Vals, vars: Vars)
    requires WideScope(g) && Agree(g, env, vars) && EmitPlace(g, place, next).Ok?
    ensures place.projections == [] && place.local in env
    ensures var e := EmitPlace(g, place, next).value;
            && e.val == C.Val(next, C.I64) && e.next == next + 1 && |e.code| == 1
            && C.Effect(e.code[0], vals, vars) == Some((vals[next := env[place.local]], vars))
  {
  }

  lemma ConstantRuns(c: Constant, next: nat, vals: Vals, vars: Vars)
    requires EmitConstant(c, next).Ok?
    ensures EvalConstant(c).Some?
    ensures var e := EmitConstant(c, next).value;
            && e.val == C.Val(next, C.I64) && e.next == next + 1 && |e.code| == 1
            && C.Effect(e.code[0], vals, vars) == Some((vals[next := EvalConstant(c).value], vars))
  {
  }

  lemma OperandRuns(g: Scope, op: Operand, next: nat, env: Env, vals: Vals, vars: Vars)
    requires WideScope(g) && Agree(g, env, vars) && EmitOperand(g, op, next).Ok?
    ensures EvalOperand(env, op).Some?
    ensures var e := EmitOperand(g, op, next).value;
            && e.val == C.Val(next, C.I64) && e.next == next + 1 && |e.code| == 1
            && Exec(e.code, vals, vars) == Some((vals[next := EvalOperand(env, op).value], vars))
  {
    match op
    case Copy(place) => PlaceRuns(g, place, next, env, vals, vars);
    case Move(place) => PlaceRuns(g, place, next, env, vals, vars);
    case Const(c) => ConstantRuns(c, next, vals, vars);
    var code := EmitOperand(g, op, next).value.code;
    assert code == [code[0]];
    OneRuns(code[0], vals, vars);
  }

  /** The operator's instruction computes the wrapped result. */
  lemma BinaryEffect(bin: BinOp, l: Emitted, r: Emitted, a: i64, b: i64, vals: Vals, vars: Vars)
    requires EmitBinary(bin, l, r).Ok? && l.val.ty.I64?
    requires l.val.id in vals && vals[l.val.id] == a && r.val.id in vals && vals[r.val.id] == b
    ensures var e := EmitBinary(bin, l, r).value;
            && EvalBinary(bin, a, b).Some?
            && e.val == C.Val(r.next, C.I64)
            && |e.code| == |l.code| + |r.code| + 1 && e.code[..|e.code| - 1] == l.code + r.code
            && C.Effect(e.code[|e.code| - 1], vals, vars) == Some((vals[r.next := EvalBinary(bin, a, b).value], vars))
  {
    match bin
    case Add => TruncateIsWrap(a + b);
    case Sub => TruncateIsWrap(a - b);
    case Mul => TruncateIsWrap(a * b);
  }

  /** The code of two operands leaves the value of each in its own value. */
  lemma OperandsRun(g: Scope, lhs: Operand, rhs: Operand, next: nat, env: Env, vals: Vals, vars: Vars)
    requires WideScope(g) && Agree(g, env, vars)
    requires EmitOperand(g, lhs, next).Ok? && EmitOperand(g, rhs, EmitOperand(g, lhs, next).value.next).Ok?
    ensures EvalOperand(env, lhs).Some? && EvalOperand(env, rhs).Some?
    ensures var l := EmitOperand(g, lhs, next).value;
            var r := EmitOperand(g, rhs, l.next).value;
            var after := vals[next := EvalOperand(env, lhs).value][next + 1 := EvalOperand(env, rhs).value];
            && l.val == C.Val(next, C.I64) && r.val == C.Val(next + 1, C.I64) && r.next == next + 2
            && |l.code| == |r.code| == 1 && Exec(l.code + r.code, vals, vars) == Some((after, vars))
  {
    var l := EmitOperand(g, lhs, next).value;
    OperandRuns(g, lhs, next, env, vals, vars);
    OperandRuns(g, rhs, next + 1, env, vals[next := EvalOperand(env, lhs).value], vars);
    ExecConcat(l.code, EmitOperand(g, rhs, l.next).value.code, vals, vars);
  }

  lemma LastEffect(code: C.Code, before: C.Code, vals: Vals, vars: Vars)
    requires |code| > 0 && code[..|code| - 1] == before
    ensures var x := Exec(before, vals, vars);
            Exec(code, vals, vars) == if x.None? then x else C.Effect(code[|code| - 1], x.value.0, x.value.1)
  {
    assert code == before + [code[|code| - 1]];
    ExecLast(before, code[|code| - 1], vals, vars);
  }

  /** The code of an rvalue computes its value and changes no variable. */
  ghost predicate RvalueRan(g: Scope, rv: Rvalue, next: nat, env: Env, vals: Vals, vars: Vars)
    requires g.Valid() && EmitRvalue(g, rv, next).Ok?
  {
    var e := EmitRvalue(g, rv, next).value;
    var x := Exec(e.code, vals, vars);
    && EvalRvalue(env, rv).Some? && x.Some?
    && x.value.1 == vars && e.val.id in x.value.0 && x.value.0[e.val.id] == EvalRvalue(env, rv).value
    && |e.code| == RvalueCost(rv)
  }

  lemma RanBy(g: Scope, rv: Rvalue, next: nat, env: Env, vals: Vals, vars: Vars, after: Vals)
    requires g.Valid() && EmitRvalue(g, rv, next).Ok? && EvalRvalue(env, rv).Some?
    requires var e := EmitRvalue(g, rv, next).value;
             && Exec(e.code, vals, vars) == Some((after, vars)) && |e.code| == RvalueCost(rv)
             && e.val.id in after && after[e.val.id] == EvalRvalue(env, rv).value
    ensures RvalueRan(g, rv, next, env, vals, vars)
  {
  }

  lemma BinaryRuns(g: Scope, rv: Rvalue, next: nat, env: Env, vals: Vals, vars: Vars)
    requires WideScope(g) && Agree(g, env, vars) && rv.BinaryOp? && EmitRvalue(g, rv, next).Ok?
    ensures RvalueRan(g, rv, next, env, vals, vars)
  {
    var l := EmitOperand(g, rv.lhs, next).value;
    var r := EmitOperand(g, rv.rhs, l.next).value;
    OperandsRun(g, rv.lhs, rv.rhs, next, env, vals, vars);
    var a, b := EvalOperand(env, rv.lhs).value, EvalOperand(env, rv.rhs).value;
    BinaryEffect(rv.bin, l, r, a, b, vals[next := a][next + 1 := b], vars);
    LastEffect(EmitBinary(rv.bin, l, r).value.code, l.code + r.code, vals, vars);
    RanBy(g, rv, next, env, vals, vars, vals[next := a][next + 1 := b][next + 2 := EvalBinary(rv.bin, a, b).value]);
  }

  lemma NegEffect(v: Emitted, a: i64, vals: Vals, vars: Vars)
    requires v.val.ty.I64? && v.val.id in vals && vals[v.val.id] == a
    ensures var e := EmitUnary(Neg, v).value;
            && e.val == C.Val(v.next, C.I64)
            && |e.code| == |v.code| + 1 && e.code[..|e.code| - 1] == v.code
            && C.Effect(e.code[|e.code| - 1], vals, vars) == Some((vals[v.next := EvalUnary(Neg, a).value], vars))
  {
    TruncateIsWrap(0 - a);
  }

  lemma NegRuns(g: Scope, op: Operand, next: nat, env: Env, vals: Vals, vars: Vars)
    requires WideScope(g) && Agree(g, env, vars) && EmitOperand(g, op, next).Ok?
    ensures RvalueRan(g, UnaryOp(Neg, op), next, env, vals, vars)
  {
    var v := EmitOperand(g, op, next).value;
    OperandRuns(g, op, next, env, vals, vars);
    var a := EvalOperand(env, op).value;
    NegEffect(v, a, vals[next := a], vars);
    LastEffect(EmitUnary(Neg, v).value.code, v.code, vals, vars);
    RanBy(g, UnaryOp(Neg, op), next, env, vals, vars, vals[next := a][next + 1 := EvalUnary(Neg, a).value]);
  }

  lemma UnaryRuns(g: Scope, rv: Rvalue, next: nat, env: Env, vals: Vals, vars: Vars)
    requires WideScope(g) && Agree(g, env, vars) && rv.UnaryOp? && EmitRvalue(g, rv, next).Ok?
    ensures RvalueRan(g, rv, next, env, vals, vars)
  {
    if rv.un.Neg? {
      NegRuns(g, rv.val, next, env, vals, vars);
    } else {
      OperandRuns(g, rv.val, next, env, vals, vars);
    }
  }

  lemma RvalueRuns(g: Scope, rv: Rvalue, next: nat, env: Env, vals: Vals, vars: Vars)
    requires WideScope(g) && Agree(g, env, vars) && EmitRvalue(g, rv, next).Ok?
    ensures RvalueRan(g, rv, next, env, vals, vars)
  {
    match rv
    case Use(op) => OperandRuns(g, op, next, env, vals, vars);
    case BinaryOp(_, _, _) => BinaryRuns(g, rv, next, env, vals, vars);
    case UnaryOp(_, _) => UnaryRuns(g, rv, next, env, vals, vars);
  }

  /** Number of instructions emitted for each form. */
  function RvalueCost(rv: Rvalue): nat {
    if rv.BinaryOp? then 3 else if rv.UnaryOp? && rv.un.Neg? then 2 else 1
  }

  function StatementCost(s: Statement): nat {
    if s.Assign? then RvalueCost(s.rvalue) + 1 else 0
  }

  lemma StatementRuns(g: Scope, s: Statement, next: nat, env: Env, vals: Vals, vars: Vars)
    requires WideScope(g) && Agree(g, env, vars) && EmitStatement(g, s, next).Ok?
    ensures ExecStatement(env, s).Some?
    ensures var code := EmitStatement(g, s, next).value.code;
            var x := Exec(code, vals, vars);
            |code| == StatementCost(s) && x.Some? && Agree(g, ExecStatement(env, s).value, x.value.1)
  {
    if s.Assign? {
      RvalueRuns(g, s.rvalue, next, env, vals, vars);
      var e := EmitRvalue(g, s.rvalue, next).value;
      ExecLast(e.code, C.DefVar(g.vars[s.place.local], e.val), vals, vars);
    }
  }

  // ----- the simulation -----

  /** The function a body lowers to, for the bodies the theorem is about. */
  ghost predicate Lowers(body: Body, f: C.Function, g: Scope, prologue: Lines) {
    && ValidBody(body) && AllI64(body) && NothingJumpsToEntry(body) && Parts(body, f, g, prologue)
    && WideScope(g) && |f.blocks| == |body.blocks|
  }

  lemma GetLowering(body: Body) returns (f: C.Function, g: Scope, prologue: Lines)
    requires ValidBody(body) && AllI64(body) && NothingJumpsToEntry(body) && LowerBody(body).Ok?
    ensures Lowers(body, f, g, prologue) && LowerBody(body) == Ok(f)
  {
    f, g, prologue := GetParts(body);
    BlocksCount(g, body, prologue.code, 0, prologue.next);
    ScopeIsWide(body.locals, g);
  }

  lemma ScopeIsWide(locals: seq<LocalDecl>, g: Scope)
    requires forall i, j :: 0 <= i < j < |locals| ==> locals[i].id != locals[j].id
    requires forall i :: 0 <= i < |locals| ==> locals[i].ty.Int? || locals[i].ty.None?
    requires g.Valid() && g.vars == VarsOf(locals) && LocalTys(locals) == Ok(g.tys)
    ensures WideScope(g)
  {
    forall v | 0 <= v < |g.tys| ensures g.tys[v] == C.I64 {
      LocalTysAt(locals, v);
    }
    forall l, m | l in g.vars && m in g.vars && l != m ensures g.vars[l] != g.vars[m] {
      VariableLocal(locals, l);
      VariableLocal(locals, m);
    }
  }

  /** A local is the one its variable is numbered after. */
  lemma VariableLocal(locals: seq<LocalDecl>, l: LocalId)
    requires forall i, j :: 0 <= i < j < |locals| ==> locals[i].id != locals[j].id
    requires l in VarsOf(locals)
    ensures VarsOf(locals)[l] < |locals| && locals[VarsOf(locals)[l]].id == l
  {
    VarsOfRange(locals);
    var i :| 0 <= i < |locals| && locals[i].id == l;
    VarsOfExact(locals, i);
  }

  /** What is left to emit at statement `i` of block `b`. */
  function RestFrom(g: Scope, body: Body, b: nat, i: nat, next: nat): Listing
    requires g.Valid() && b < |body.blocks| && i <= |body.blocks[b].statements|
  {
    EmitRest(g, BlocksOf(body.blocks), body.returnLocal, body.blocks[b].statements[i..], body.blocks[b].terminator,
        next)
  }

  /** The code at position `at` of block `b` is what was emitted from statement `i` on. */
  ghost predicate CodeAt(body: Body, f: C.Function, g: Scope, b: nat, i: nat, at: nat)
    requires g.Valid()
  {
    && b < |body.blocks| == |f.blocks| && i <= |body.blocks[b].statements| && at <= |f.blocks[b]|
    && exists next :: RestFrom(g, body, b, i, next).Ok? && f.blocks[b][at..] == RestFrom(g, body, b, i, next).value.code
  }

  /** Instructions emitted for the first `i` statements. */
  function CostOf(ss: seq<Statement>, i: nat): nat
    requires i <= |ss|
    decreases i
  {
    if i == 0 then 0 else CostOf(ss, i - 1) + StatementCost(ss[i - 1])
  }

  /** Where the code of statement `i` of block `b` begins; the entry starts with a prologue of length `p`. */
  function Position(body: Body, p: nat, b: nat, i: nat): nat
    requires b < |body.blocks| && i <= |body.blocks[b].statements|
  {
    (if b == 0 then p else 0) + CostOf(body.blocks[b].statements, i)
  }

  /** The two runs are at the same place with the same locals, or have ended alike. */
  ghost predicate Related(body: Body, g: Scope, p: nat, s: State, t: C.State) {
    match s
    case Running(b, i, env) =>
      && t.Running? && t.block == b < |body.blocks| && i <= |body.blocks[b].statements|
      && t.at == Position(body, p, b, i) && Agree(g, env, t.vars)
    case Returned(v) => t == C.Returned(v)
    case Trapped => t == C.Trapped
    case Stuck => false
  }

  /** Number of target instructions for the next step of the body. */
  function StepCost(body: Body, s: State): nat {
    match s
    case Running(b, i, _) =>
      if b >= |body.blocks| then 0
      else if i < |body.blocks[b].statements| then StatementCost(body.blocks[b].statements[i])
      else if body.blocks[b].terminator.Return? then 2
      else 1
    case _ => 0
  }

  /** The code of block `b` starts where a jump to it lands, the entry's after a prologue of length `p`. */
  ghost predicate StartsAt(body: Body, f: C.Function, g: Scope, p: nat, b: nat)
    requires g.Valid()
  {
    CodeAt(body, f, g, b, 0, if b == 0 then p else 0)
  }

  /** What the steps need to know about a lowered function. */
  ghost predicate Compiled(body: Body, f: C.Function, g: Scope, p: nat) {
    && ValidBody(body) && NothingJumpsToEntry(body) && WideScope(g) && |f.blocks| == |body.blocks|
    && forall b :: 0 <= b < |body.blocks| ==> StartsAt(body, f, g, p, b)
  }

  lemma {:induction false} CodeAtPosition(body: Body, f: C.Function, g: Scope, p: nat, b: nat, i: nat)
    requires Compiled(body, f, g, p) && b < |body.blocks| && i <= |body.blocks[b].statements|
    ensures CodeAt(body, f, g, b, i, Position(body, p, b, i))
    decreases i
  {
    if i == 0 {
      assert StartsAt(body, f, g, p, b);
    } else {
      CodeAtPosition(body, f, g, p, b, i - 1);
      CodeAfterStatement(body, f, g, b, i - 1, Position(body, p, b, i - 1));
    }
  }

  lemma RvalueLength(g: Scope, rv: Rvalue, next: nat)
    requires g.Valid() && EmitRvalue(g, rv, next).Ok?
    ensures |EmitRvalue(g, rv, next).value.code| == RvalueCost(rv)
  {
  }

  lemma StatementLength(g: Scope, s: Statement, next: nat)
    requires g.Valid() && EmitStatement(g, s, next).Ok?
    ensures |EmitStatement(g, s, next).value.code| == StatementCost(s)
  {
    if s.Assign? {
      RvalueLength(g, s.rvalue, next);
    }
  }

  lemma CodeAfterStatement(body: Body, f: C.Function, g: Scope, b: nat, i: nat, at: nat)
    requires g.Valid() && CodeAt(body, f, g, b, i, at) && i < |body.blocks[b].statements|
    ensures CodeAt(body, f, g, b, i + 1, at + StatementCost(body.blocks[b].statements[i]))
  {
    var first, next := StatementAt(body, f, g, b, i, at);
    assert RestFrom(g, body, b, i + 1, next).Ok?;
  }

  /** The code of a statement stands at its position, and the rest of the block after it. */
  lemma StatementAt(body: Body, f: C.Function, g: Scope, b: nat, i: nat, at: nat) returns (code: C.Code, next: nat)
    requires g.Valid() && CodeAt(body, f, g, b, i, at) && i < |body.blocks[b].statements|
    ensures exists before :: EmitStatement(g, body.blocks[b].statements[i], before) == Ok(Lines(code, next))
    ensures |code| == StatementCost(body.blocks[b].statements[i]) && at + |code| <= |f.blocks[b]|
    ensures f.blocks[b][at..at + |code|] == code
    ensures RestFrom(g, body, b, i + 1, next).Ok?
    ensures f.blocks[b][at + |code|..] == RestFrom(g, body, b, i + 1, next).value.code
  {
    var ss := body.blocks[b].statements;
    var before :| RestFrom(g, body, b, i, before).Ok?
        && f.blocks[b][at..] == RestFrom(g, body, b, i, before).value.code;
    assert ss[i..][1..] == ss[i + 1..];
    var first := EmitStatement(g, ss[i], before).value;
    code, next := first.code, first.next;
    StatementLength(g, ss[i], before);
    SplitCode(f.blocks[b], at, code, RestFrom(g, body, b, i + 1, next).value.code);
  }

  lemma StatementStep(body: Body, f: C.Function, g: Scope, p: nat, s: State, t: C.State)
    requires Compiled(body, f, g, p) && Related(body, g, p, s, t)
    requires s.Running? && s.at < |body.blocks[s.block].statements|
    ensures Related(body, g, p, Step(body, s), C.Steps(f, t, StepCost(body, s)))
  {
    CodeAtPosition(body, f, g, p, s.block, s.at);
    var code, next := StatementAt(body, f, g, s.block, s.at, t.at);
    var st := body.blocks[s.block].statements[s.at];
    var before :| EmitStatement(g, st, before) == Ok(Lines(code, next));
    StatementRuns(g, st, before, s.env, t.vals, t.vars);
    ExecSteps(f, s.block, t.at, code, t.vals, t.vars, Exec(code, t.vals, t.vars).value);
  }

  lemma SplitCode(block: C.Code, at: nat, a: C.Code, b: C.Code)
    requires at <= |block| && block[at..] == a + b
    ensures at + |a| <= |block| && block[at..at + |a|] == a && block[at + |a|..] == b
  {
  }

  lemma TerminatorStep(body: Body, f: C.Function, g: Scope, p: nat, s: State, t: C.State)
    requires Compiled(body, f, g, p) && Related(body, g, p, s, t)
    requires s.Running? && s.at == |body.blocks[s.block].statements|
    ensures Related(body, g, p, Step(body, s), C.Steps(f, t, StepCost(body, s)))
  {
    var code := TerminatorAt(body, f, g, p, s, t);
    OneStep(f, t);
    match body.blocks[s.block].terminator
    case Goto(target) => JumpLands(body, f, g, p, s, t, target);
    case Return => ReturnEnds(body, f, g, p, s, t);
    case Unreachable =>
  }

  /** The code of the terminator stands at the target's position. */
  lemma TerminatorAt(body: Body, f: C.Function, g: Scope, p: nat, s: State, t: C.State) returns (code: C.Code)
    requires Compiled(body, f, g, p) && Related(body, g, p, s, t)
    requires s.Running? && s.at == |body.blocks[s.block].statements|
    ensures exists next ::
              var e := EmitTerminator(g, BlocksOf(body.blocks), body.returnLocal, body.blocks[s.block].terminator,
                  next);
              e.Ok? && e.value.code == code
    ensures |f.blocks[s.block]| == t.at + |code| && |code| > 0
    ensures forall i :: 0 <= i < |code| ==> f.blocks[s.block][t.at + i] == code[i]
    ensures f.blocks[s.block][t.at] == code[0]
  {
    var block := body.blocks[s.block];
    CodeAtPosition(body, f, g, p, s.block, s.at);
    var next :| RestFrom(g, body, s.block, s.at, next).Ok?
             && f.blocks[s.block][t.at..] == RestFrom(g, body, s.block, s.at, next).value.code;
    assert block.statements[s.at..] == [];
    code := EmitTerminator(g, BlocksOf(body.blocks), body.returnLocal, block.terminator, next).value.code;
    forall i | 0 <= i < |code| ensures f.blocks[s.block][t.at + i] == code[i] {
      assert f.blocks[s.block][t.at..][i] == code[i];
    }
  }

  lemma ReturnEnds(body: Body, f: C.Function, g: Scope, p: nat, s: State, t: C.State)
    requires Compiled(body, f, g, p) && Related(body, g, p, s, t)
    requires s.Running? && s.at == |body.blocks[s.block].statements| && body.blocks[s.block].terminator.Return?
    ensures Related(body, g, p, Step(body, s), C.Steps(f, t, 2))
  {
    var code := TerminatorAt(body, f, g, p, s, t);
    assert f.blocks[s.block][t.at + 1] == code[1];
    OneStep(f, t);
    assert C.Steps(f, t, 2) == C.Step(f, C.Steps(f, t, 1));
  }

  lemma JumpLands(body: Body, f: C.Function, g: Scope, p: nat, s: State, t: C.State, target: BlockId)
    requires Compiled(body, f, g, p) && s.Running? && t.Running? && t.block == s.block < |body.blocks|
    requires s.at == |body.blocks[s.block].statements| && body.blocks[s.block].terminator == Goto(target)
    requires target in BlocksOf(body.blocks) && t.at < |f.blocks[s.block]|
    requires f.blocks[s.block][t.at] == C.Jump(BlocksOf(body.blocks)[target]) && Agree(g, s.env, t.vars)
    ensures Related(body, g, p, Step(body, s), C.Step(f, t))
  {
    BlocksOfIndex(body.blocks, target);
    assert BlocksOf(body.blocks)[target] != 0;
  }

  /** One step of the body is `StepCost` steps of the emitted code. */
  lemma StepRelated(body: Body, f: C.Function, g: Scope, p: nat, s: State, t: C.State)
    requires Compiled(body, f, g, p) && Related(body, g, p, s, t)
    ensures Related(body, g, p, Step(body, s), C.Steps(f, t, StepCost(body, s)))
  {
    if s.Running? {
      if s.at < |body.blocks[s.block].statements| {
        StatementStep(body, f, g, p, s, t);
      } else {
        TerminatorStep(body, f, g, p, s, t);
      }
    }
  }

  lemma StartOfBlock(body: Body, f: C.Function, g: Scope, prologue: Lines, b: nat)
    requires Parts(body, f, g, prologue) && b < |body.blocks|
    ensures CodeAt(body, f, g, b, 0, if b == 0 then |prologue.code| else 0)
  {
    var start := BlockParts(body, f, g, prologue, b);
    StartWithout(body, f, g, if b == 0 then prologue.code else [], b, start);
  }

  lemma StartWithout(body: Body, f: C.Function, g: Scope, before: C.Code, b: nat, next: nat)
    requires g.Valid() && b < |body.blocks| == |f.blocks| && BlockRest(g, body, b, next).Ok?
    requires f.blocks[b] == before + BlockRest(g, body, b, next).value.code
    ensures CodeAt(body, f, g, b, 0, |before|)
  {
    assert body.blocks[b].statements[0..] == body.blocks[b].statements;
    assert RestFrom(g, body, b, 0, next) == BlockRest(g, body, b, next);
  }

  lemma LowersCompiled(body: Body, f: C.Function, g: Scope, prologue: Lines)
    requires Lowers(body, f, g, prologue)
    ensures Compiled(body, f, g, |prologue.code|)
  {
    forall b | 0 <= b < |body.blocks| ensures StartsAt(body, f, g, |prologue.code|, b) {
      StartOfBlock(body, f, g, prologue, b);
    }
  }

  // ----- the start -----

  lemma {:induction false} BindParamsRuns(g: Scope, params: seq<LocalDecl>, vs: seq<C.Val>, vals: Vals, vars: Vars)
    returns (after: Vars)
    requires WideScope(g) && |params| == |vs| && (forall i :: 0 <= i < |params| ==> params[i].id in g.vars)
    requires forall i, j :: 0 <= i < j < |params| ==> params[i].id != params[j].id
    requires forall i :: 0 <= i < |vs| ==> vs[i].id in vals
    ensures Exec(BindParams(g.vars, params, vs), vals, vars) == Some((vals, after))
    ensures forall i :: 0 <= i < |params| ==>
              g.vars[params[i].id] in after && after[g.vars[params[i].id]] == vals[vs[i].id]
  {
    if params == [] {
      after := vars;
    } else {
      var n := |params| - 1;
      var mid := BindParamsRuns(g, params[..n], vs[..n], vals, vars);
      ExecLast(BindParams(g.vars, params[..n], vs[..n]), C.DefVar(g.vars[params[n].id], vs[n]), vals, vars);
      after := mid[g.vars[params[n].id] := vals[vs[n].id]];
      forall i | 0 <= i < |params|
        ensures g.vars[params[i].id] in after && after[g.vars[params[i].id]] == vals[vs[i].id]
      {
        if i < n {
          assert params[..n][i] == params[i] && vs[..n][i] == vs[i];
          assert g.vars[params[i].id] != g.vars[params[n].id];
        }
      }
    }
  }

  /** `after` is `vars` with the locals that are not parameters set to 0. */
  ghost predicate Zeroed(g: Scope, params: seq<LocalDecl>, locals: seq<LocalDecl>, vars: Vars, after: Vars) {
    forall l :: l in g.vars ==>
      if (exists i :: 0 <= i < |locals| && locals[i].id == l) && !IsParam(params, l)
      then g.vars[l] in after && after[g.vars[l]] == 0
      else (g.vars[l] in after <==> g.vars[l] in vars) && (g.vars[l] in vars ==> after[g.vars[l]] == vars[g.vars[l]])
  }

  /** Setting one more local. */
  lemma ZeroedStep(g: Scope, params: seq<LocalDecl>, locals: seq<LocalDecl>, vars: Vars, mid: Vars, after: Vars)
    requires WideScope(g) && locals != [] && locals[|locals| - 1].id in g.vars
    requires Zeroed(g, params, locals[..|locals| - 1], vars, mid)
    requires var id := locals[|locals| - 1].id; after == if IsParam(params, id) then mid else mid[g.vars[id] := 0]
    ensures Zeroed(g, params, locals, vars, after)
  {
  }

  lemma {:induction false} ZeroLocalsRuns(g: Scope, params: seq<LocalDecl>, locals: seq<LocalDecl>, next: nat,
      vals: Vals, vars: Vars)
    returns (vals': Vals, after: Vars)
    requires WideScope(g) && (forall i :: 0 <= i < |locals| ==> locals[i].id in g.vars)
    ensures Exec(ZeroLocals(g, params, locals, next).code, vals, vars) == Some((vals', after))
    ensures Zeroed(g, params, locals, vars, after)
  {
    if locals == [] {
      vals', after := vals, vars;
    } else {
      var n := |locals| - 1;
      var before := ZeroLocals(g, params, locals[..n], next);
      var mid;
      vals', mid := ZeroLocalsRuns(g, params, locals[..n], next, vals, vars);
      var id := locals[n].id;
      after := mid;
      if !IsParam(params, id) {
        var v := C.Val(before.next, g.tys[g.vars[id]]);
        ZeroOne(before.code, v, g.vars[id], vals, vars, vals', mid);
        vals', after := vals'[v.id := 0], mid[g.vars[id] := 0];
      }
      ZeroedStep(g, params, locals, vars, mid, after);
    }
  }

  lemma ZeroOne(code: C.Code, v: C.Val, variable: C.Variable, vals: Vals, vars: Vars, vals': Vals, vars': Vars)
    requires v.ty.I64? && Exec(code, vals, vars) == Some((vals', vars'))
    ensures Exec(code + [C.Iconst(v, 0), C.DefVar(variable, v)], vals, vars) ==
            Some((vals'[v.id := 0], vars'[variable := 0]))
  {
    var zero, def := C.Iconst(v, 0), C.DefVar(variable, v);
    ExecLast(code, zero, vals, vars);
    ExecLast(code + [zero], def, vals, vars);
    assert code + [zero, def] == code + [zero] + [def];
    TruncateIsWrap(0);
  }

  lemma {:induction false} ArgumentsAt(tys: seq<C.IrType>, args: seq<i64>, i: nat)
    requires |tys| == |args| && i < |tys|
    ensures var m := C.Arguments(ParamVals(tys), args);
            ParamVals(tys)[i].id in m && m[ParamVals(tys)[i].id] == args[i]
  {
    var n := |tys| - 1;
    ParamValsAt(tys, i);
    ParamValsAt(tys, n);
    assert ParamVals(tys)[..n] == ParamVals(tys[..n]);
    if i < n {
      ArgumentsAt(tys[..n], args[..n], i);
      ParamValsAt(tys[..n], i);
    }
  }

  lemma {:induction false} InitialEnvAt(locals: seq<LocalDecl>, params: seq<LocalDecl>, args: seq<i64>)
    requires |args| == |params|
    requires forall i, j :: 0 <= i < j < |params| ==> params[i].id != params[j].id
    requires forall i :: 0 <= i < |params| ==> params[i] in locals
    ensures InitialEnv(locals, params, args).Keys == set l <- locals :: l.id
    ensures forall i :: 0 <= i < |params| ==> InitialEnv(locals, params, args)[params[i].id] == args[i]
    ensures forall l :: l in InitialEnv(locals, params, args) && !IsParam(params, l) ==>
            InitialEnv(locals, params, args)[l] == 0
  {
    if params != [] {
      var n := |params| - 1;
      InitialEnvAt(locals, params[..n], args[..n]);
      assert params[n].id in set l <- locals :: l.id;
      forall i | 0 <= i < |params| ensures InitialEnv(locals, params, args)[params[i].id] == args[i] {
        if i < n { assert params[..n][i] == params[i]; }
      }
      forall l | l in InitialEnv(locals, params, args) && !IsParam(params, l)
        ensures InitialEnv(locals, params, args)[l] == 0
      {
        assert params[n].id != l;
        assert !IsParam(params[..n], l) by {
          forall i | 0 <= i < n ensures params[..n][i].id != l { assert params[..n][i] == params[i]; }
        }
      }
    }
  }

  /** The parameters' variables hold the arguments. */
  ghost predicate Bound(g: Scope, params: seq<LocalDecl>, args: seq<i64>, vars: Vars) {
    |params| == |args| && forall i :: 0 <= i < |params| ==>
      params[i].id in g.vars && g.vars[params[i].id] in vars && vars[g.vars[params[i].id]] == args[i]
  }

  lemma ParamsDistinct(body: Body)
    requires ValidBody(body)
    ensures var params := ParamLocals(body);
            && (forall i, j :: 0 <= i < j < |params| ==> params[i].id != params[j].id)
            && forall i :: 0 <= i < |params| ==> params[i] in body.locals
  {
  }

  lemma ArgumentsBound(body: Body, f: C.Function, g: Scope, prologue: Lines, args: seq<i64>) returns (bound: Vars)
    requires Lowers(body, f, g, prologue) && |args| == |ParamLocals(body)|
    ensures |f.params| == |args| && (forall i :: 0 <= i < |args| ==> ParamLocals(body)[i].id in g.vars)
    ensures var vals := C.Arguments(f.params, args);
            Exec(BindParams(g.vars, ParamLocals(body), f.params), vals, map[]) == Some((vals, bound))
    ensures Bound(g, ParamLocals(body), args, bound)
  {
    var params := ParamLocals(body);
    ParamsAreLocals(body);
    ParamsDistinct(body);
    var tys := ParamTys(params).value;
    var vals := C.Arguments(f.params, args);
    forall i | 0 <= i < |params| ensures f.params[i].id in vals && vals[f.params[i].id] == args[i] {
      ArgumentsAt(tys, args, i);
    }
    bound := BindParamsRuns(g, params, f.params, vals, map[]);
  }

  /** After the prologue the variables hold the arguments and zeros. */
  lemma PrologueRuns(body: Body, f: C.Function, g: Scope, prologue: Lines, args: seq<i64>)
    returns (vals: Vals, vars: Vars)
    requires Lowers(body, f, g, prologue) && |args| == |ParamLocals(body)|
    ensures |f.params| == |args|
    ensures Exec(prologue.code, C.Arguments(f.params, args), map[]) == Some((vals, vars))
    ensures Agree(g, InitialEnv(body.locals, ParamLocals(body), args), vars)
  {
    var bound := ArgumentsBound(body, f, g, prologue, args);
    var start := C.Arguments(f.params, args);
    vals, vars := ZeroLocalsRuns(g, ParamLocals(body), body.locals, |f.params|, start, bound);
    ExecConcat(BindParams(g.vars, ParamLocals(body), f.params),
               ZeroLocals(g, ParamLocals(body), body.locals, |f.params|).code, start, map[]);
    InitialAgrees(body, g, args, bound, vars);
  }

  lemma InitialAgrees(body: Body, g: Scope, args: seq<i64>, bound: Vars, vars: Vars)
    requires ValidBody(body) && g.vars == VarsOf(body.locals)
    requires Bound(g, ParamLocals(body), args, bound) && Zeroed(g, ParamLocals(body), body.locals, bound, vars)
    ensures Agree(g, InitialEnv(body.locals, ParamLocals(body), args), vars)
  {
    var params := ParamLocals(body);
    ParamsDistinct(body);
    InitialEnvAt(body.locals, params, args);
    LocalIds(body);
    var env := InitialEnv(body.locals, params, args);
    forall l | l in g.vars ensures g.vars[l] in vars && vars[g.vars[l]] == env[l] {
      LocalIsListed(body, l);
      if IsParam(params, l) {
        var i :| 0 <= i < |params| && params[i].id == l;
      }
    }
  }

  lemma LocalIds(body: Body)
    ensures VarsOf(body.locals).Keys == set l <- body.locals :: l.id
  {
    VarsOfRange(body.locals);
    forall l | l in VarsOf(body.locals) ensures l in set d <- body.locals :: d.id {
      var j :| 0 <= j < |body.locals| && body.locals[j].id == l;
      assert body.locals[j] in body.locals;
    }
  }

  lemma LocalIsListed(body: Body, l: LocalId)
    requires l in VarsOf(body.locals)
    ensures exists i :: 0 <= i < |body.locals| && body.locals[i].id == l
  {
    VarsOfRange(body.locals);
  }

  // ----- whole runs -----

  /** Number of emitted instructions executed when the body has taken `n` steps. */
  function Clock(body: Body, prologue: nat, args: seq<i64>, n: nat): nat
    requires |args| == |ParamLocals(body)|
  {
    if n == 0 then prologue else Clock(body, prologue, args, n - 1) + StepCost(body, Run(body, args, n - 1))
  }

  lemma StartRelated(body: Body, f: C.Function, g: Scope, prologue: Lines, args: seq<i64>)
    requires Lowers(body, f, g, prologue) && |args| == |ParamLocals(body)|
    ensures |args| == |f.params|
    ensures Related(body, g, |prologue.code|, Run(body, args, 0), C.Run(f, args, |prologue.code|))
  {
    var vals, vars := PrologueRuns(body, f, g, prologue, args);
    StartOfBlock(body, f, g, prologue, 0);
    var start := BlockEmitted(g, body, prologue.code, 0, prologue.next, 0);
    assert f.blocks[0][0..|prologue.code|] == prologue.code;
    ExecSteps(f, 0, 0, prologue.code, C.Arguments(f.params, args), map[],
        Exec(prologue.code, C.Arguments(f.params, args), map[]).value);
  }

  // Synonyms that keep proofs from unfolding the recursive functions more than once.

  function StateAfter(body: Body, args: seq<i64>, n: nat): State
    requires |args| == |ParamLocals(body)|
  {
    Run(body, args, n)
  }

  function Ticks(body: Body, prologue: nat, args: seq<i64>, n: nat): nat
    requires |args| == |ParamLocals(body)|
  {
    Clock(body, prologue, args, n)
  }

  /** The body after `n` steps and the emitted code after `clock` instructions. */
  ghost predicate InStep(body: Body, f: C.Function, g: Scope, p: nat, args: seq<i64>, n: nat, clock: nat)
    requires |args| == |ParamLocals(body)| == |f.params|
  {
    Related(body, g, p, StateAfter(body, args, n), C.Run(f, args, clock))
  }

  /** The body and the emitted code are in step when the body has taken `n` steps. */
  ghost predicate Tracks(body: Body, f: C.Function, g: Scope, p: nat, args: seq<i64>, n: nat)
    requires |args| == |ParamLocals(body)| == |f.params|
  {
    InStep(body, f, g, p, args, n, Ticks(body, p, args, n))
  }

  lemma {:induction false} RunsRelated(body: Body, f: C.Function, g: Scope, p: nat, args: seq<i64>, n: nat)
    requires |args| == |ParamLocals(body)| == |f.params| && Tracks(body, f, g, p, args, 0)
    requires forall i: nat, j: nat :: j == i + 1 && Tracks(body, f, g, p, args, i) ==> Tracks(body, f, g, p, args, j)
    ensures Tracks(body, f, g, p, args, n)
  {
    if n > 0 {
      RunsRelated(body, f, g, p, args, n - 1);
    }
  }

  lemma RunAdvances(body: Body, f: C.Function, g: Scope, p: nat, args: seq<i64>, n: nat, m: nat)
    requires Compiled(body, f, g, p) && |args| == |ParamLocals(body)| == |f.params| && m == n + 1
    requires InStep(body, f, g, p, args, n, Ticks(body, p, args, n))
    ensures InStep(body, f, g, p, args, m, Ticks(body, p, args, m))
  {
    var s, clock := StateAfter(body, args, n), Ticks(body, p, args, n);
    TicksStep(body, p, args, n);
    StatesAdvance(body, f, g, p, args, n, clock, s, C.Run(f, args, clock), Ticks(body, p, args, m));
  }

  lemma TicksStep(body: Body, p: nat, args: seq<i64>, n: nat)
    requires |args| == |ParamLocals(body)|
    ensures Ticks(body, p, args, n + 1) == Ticks(body, p, args, n) + StepCost(body, StateAfter(body, args, n))
  {
  }

  lemma StatesAdvance(body: Body, f: C.Function, g: Scope, p: nat, args: seq<i64>, n: nat, clock: nat,
      s: State, t: C.State, later: nat)
    requires Compiled(body, f, g, p) && |args| == |ParamLocals(body)| == |f.params|
    requires s == StateAfter(body, args, n) && t == C.Run(f, args, clock) && Related(body, g, p, s, t)
    requires later == clock + StepCost(body, s)
    ensures InStep(body, f, g, p, args, n + 1, later)
  {
    var cost := StepCost(body, s);
    StepRelated(body, f, g, p, s, t);
    RunSplits(f, args, clock, cost);
    RunStep(body, args, n);
    StatesInStep(body, f, g, p, args, n + 1, later, Step(body, s), C.Steps(f, t, cost));
  }

  lemma RunStep(body: Body, args: seq<i64>, n: nat)
    requires |args| == |ParamLocals(body)|
    ensures StateAfter(body, args, n + 1) == Step(body, StateAfter(body, args, n))
  {
  }

  lemma StatesInStep(body: Body, f: C.Function, g: Scope, p: nat, args: seq<i64>, n: nat, clock: nat, s: State,
      t: C.State)
    requires |args| == |ParamLocals(body)| == |f.params|
    requires s == StateAfter(body, args, n) && t == C.Run(f, args, clock) && Related(body, g, p, s, t)
    ensures InStep(body, f, g, p, args, n, clock)
  {
  }

  /** The body and the emitted code are in step all along. */
  lemma AlwaysInStep(body: Body, f: C.Function, g: Scope, prologue: Lines, args: seq<i64>, n: nat)
    requires Lowers(body, f, g, prologue) && |args| == |ParamLocals(body)| == |f.params|
    ensures InStep(body, f, g, |prologue.code|, args, n, Ticks(body, |prologue.code|, args, n))
  {
    var p := |prologue.code|;
    StartRelated(body, f, g, prologue, args);
    StatesInStep(body, f, g, p, args, 0, Ticks(body, p, args, 0), Run(body, args, 0), C.Run(f, args, p));
    LowersCompiled(body, f, g, prologue);
    forall i: nat, j: nat | j == i + 1 && Tracks(body, f, g, p, args, i) ensures Tracks(body, f, g, p, args, j) {
      RunAdvances(body, f, g, p, args, i, j);
    }
    RunsRelated(body, f, g, p, args, n);
  }

  lemma RunSplits(f: C.Function, args: seq<int>, m: nat, n: nat)
    requires |args| == |f.params|
    ensures C.Run(f, args, m + n) == C.Steps(f, C.Run(f, args, m), n)
  {
  }

  /** Some number of steps takes a run past `m` emitted instructions, or to its end. */
  lemma {:induction false} ClockPasses(body: Body, prologue: nat, args: seq<i64>, m: nat) returns (n: nat)
    requires |args| == |ParamLocals(body)|
    ensures !Run(body, args, n).Running? || Clock(body, prologue, args, n) >= m
  {
    if m == 0 {
      n := 0;
    } else {
      n := ClockPasses(body, prologue, args, m - 1);
      if Run(body, args, n).Running? {
        n := ClockTicks(body, prologue, args, n);
      }
    }
  }

  /** A block has finitely many statements, so a running body soon costs an instruction. */
  lemma {:induction false} ClockTicks(body: Body, prologue: nat, args: seq<i64>, n: nat) returns (n': nat)
    requires |args| == |ParamLocals(body)| && Run(body, args, n).Running?
    ensures !Run(body, args, n').Running? || Clock(body, prologue, args, n') > Clock(body, prologue, args, n)
    decreases var s := Run(body, args, n);
              if s.block < |body.blocks| && s.at < |body.blocks[s.block].statements|
              then |body.blocks[s.block].statements| - s.at else 0
  {
    var s := Run(body, args, n);
    n' := n + 1;
    assert Run(body, args, n + 1) == Step(body, s);
    if s.block < |body.blocks| && s.at < |body.blocks[s.block].statements| && Run(body, args, n + 1).Running? {
      n' := ClockTicks(body, prologue, args, n + 1);
    }
  }

  lemma {:induction false} EndedStays(f: C.Function, s: C.State, m: nat, n: nat)
    requires m <= n && !C.Steps(f, s, m).Running?
    ensures C.Steps(f, s, n) == C.Steps(f, s, m)
  {
    if m < n {
      EndedStays(f, s, m, n - 1);
    }
  }

  /** Bodies the semantic theorems are about, with as many arguments as parameters. */
  ghost predicate Runnable(body: Body, args: seq<i64>) {
    && ValidBody(body) && AllI64(body) && NothingJumpsToEntry(body) && LowerBody(body).Ok?
    && |args| == |ParamLocals(body)| == |LowerBody(body).value.params|
  }

  lemma ParamCount(body: Body)
    requires LowerBody(body).Ok?
    ensures |LowerBody(body).value.params| == |ParamLocals(body)|
  {
  }

  /** The variables of the function a body lowers to. */
  function BodyScope(body: Body): (g: Scope)
    requires LowerBody(body).Ok?
    ensures g.Valid() && g.vars == VarsOf(body.locals)
  {
    ScopeOf(body, LocalTys(body.locals).value)
  }

  /** Number of instructions that bind the parameters and start the other locals at 0. */
  function PrologueLength(body: Body): nat
    requires LowerBody(body).Ok?
  {
    VarsOfRange(body.locals);
    |Prologue(body, BodyScope(body), ParamVals(ParamTys(ParamLocals(body)).value)).code|
  }

  /** The number of instructions after which the emitted code has done `n` steps of the body. */
  ghost function Instant(body: Body, args: seq<i64>, n: nat): nat
    requires Runnable(body, args)
  {
    Clock(body, PrologueLength(body), args, n)
  }

  /**
    Lowering preserves meaning, step by step: after any number of steps of the body, the emitted
    code reaches the same place with every local's value in its variable, or the same outcome.
  */
  lemma LoweringPreservesSteps(body: Body, args: seq<i64>, n: nat)
    requires Runnable(body, args)
    ensures Related(body, BodyScope(body), PrologueLength(body), StateAfter(body, args, n),
                    C.Run(LowerBody(body).value, args, Instant(body, args, n)))
  {
    var f, g, prologue := GetLowering(body);
    AlwaysInStep(body, f, g, prologue, args, n);
  }

  /** Two states that have ended alike, or both run on. */
  predicate SameEnd(s: State, t: C.State) {
    match s
    case Returned(v) => t == C.Returned(v)
    case Trapped => t == C.Trapped
    case Stuck => false
    case Running(_, _, _) => t.Running?
  }

  lemma CodeFollows(body: Body, args: seq<i64>, n: nat) returns (m: nat)
    requires Runnable(body, args)
    ensures SameEnd(StateAfter(body, args, n), C.Run(LowerBody(body).value, args, m))
  {
    LoweringPreservesSteps(body, args, n);
    m := Instant(body, args, n);
  }

  lemma BodyFollows(body: Body, args: seq<i64>, m: nat) returns (n: nat)
    requires Runnable(body, args) && !C.Run(LowerBody(body).value, args, m).Running?
    ensures SameEnd(StateAfter(body, args, n), C.Run(LowerBody(body).value, args, m))
  {
    var f, g, prologue := GetLowering(body);
    n := ClockPasses(body, |prologue.code|, args, m);
    var clock := Clock(body, |prologue.code|, args, n);
    AlwaysInStep(body, f, g, prologue, args, n);
    var start := C.Running(0, 0, C.Arguments(f.params, args), map[]);
    if m <= clock {
      EndedStays(f, start, m, clock);
    } else {
      EndedStays(f, start, clock, m);
    }
  }

  ghost predicate BodyEnds(body: Body, args: seq<i64>, end: State)
    requires |args| == |ParamLocals(body)|
  {
    exists n :: Run(body, args, n) == end
  }

  ghost predicate CodeEnds(f: C.Function, args: seq<i64>, end: C.State)
    requires |args| == |f.params|
  {
    exists m :: C.Run(f, args, m) == end
  }

  /** The emitted code returns a value exactly when the body returns it. */
  lemma LoweringPreservesReturn(body: Body, args: seq<i64>, value: i64)
    requires Runnable(body, args)
    ensures BodyEnds(body, args, Returned(value)) <==> CodeEnds(LowerBody(body).value, args, C.Returned(value))
  {
    if BodyEnds(body, args, Returned(value)) {
      var n :| Run(body, args, n) == Returned(value);
      var m := CodeFollows(body, args, n);
    }
    if CodeEnds(LowerBody(body).value, args, C.Returned(value)) {
      var m :| C.Run(LowerBody(body).value, args, m) == C.Returned(value);
      var n := BodyFollows(body, args, m);
    }
  }

  /** The emitted code traps exactly when the body does. */
  lemma LoweringPreservesTrap(body: Body, args: seq<i64>)
    requires Runnable(body, args)
    ensures BodyEnds(body, args, Trapped) <==> CodeEnds(LowerBody(body).value, args, C.Trapped)
  {
    if BodyEnds(body, args, Trapped) {
      var n :| Run(body, args, n) == Trapped;
      var m := CodeFollows(body, args, n);
    }
    if CodeEnds(LowerBody(body).value, args, C.Trapped) {
      var m :| C.Run(LowerBody(body).value, args, m) == C.Trapped;
      var n := BodyFollows(body, args, m);
    }
  }

  /** The emitted code runs for ever exactly when the body does. */
  lemma LoweringPreservesDivergence(body: Body, args: seq<i64>)
    requires Runnable(body, args)
    ensures (forall n :: Run(body, args, n).Running?) <==> (forall m :: C.Run(LowerBody(body).value, args, m).Running?)
  {
    if m :| !C.Run(LowerBody(body).value, args, m).Running? {
      var n := BodyFollows(body, args, m);
      assert !Run(body, args, n).Running?;
    }
    if n :| !Run(body, args, n).Running? {
      var m := CodeFollows(body, args, n);
      assert !C.Run(LowerBody(body).value, args, m).Running?;
    }
  }

  /** Neither run ever reads anything undefined. */
  lemma NeverStuck(body: Body, args: seq<i64>, n: nat)
    requires Runnable(body, args)
    ensures Run(body, args, n) != Stuck && C.Run(LowerBody(body).value, args, n) != C.Stuck
  {
    var m := CodeFollows(body, args, n);
    if !C.Run(LowerBody(body).value, args, n).Running? {
      var k := BodyFollows(body, args, n);
    }
  }
}
