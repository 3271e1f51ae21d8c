/**
  The emitted code seen from its own side: the instants at which it matches the body only grow,
  and whenever it stands at the start of a block other than the entry, it matches the body there.
*/
module LoweringInstants {
  import opened Wrappers
  import opened Mir
  import opened LoweringSpec
  import opened LoweringTypes
  import opened LoweringMeaning
  import C = Cranelift

  /** Each step of the body takes the instructions emitted for it. */
  lemma InstantStep(body: Body, args: seq<i64>, n: nat)
    requires Runnable(body, args)
    ensures Instant(body, args, n + 1) == Instant(body, args, n) + StepCost(body, StateAfter(body, args, n))
  {
    TicksStep(body, PrologueLength(body), args, n);
  }

  lemma {:induction false} TicksIncrease(body: Body, p: nat, args: seq<i64>, m: nat, n: nat)
    requires |args| == |ParamLocals(body)| && m <= n
    ensures Ticks(body, p, args, m) <= Ticks(body, p, args, n)
    decreases n
  {
    if m < n {
      TicksIncrease(body, p, args, m, n - 1);
      TicksStep(body, p, args, n - 1);
    }
  }

  lemma InstantsIncrease(body: Body, args: seq<i64>, m: nat, n: nat)
    requires Runnable(body, args) && m <= n
    ensures Instant(body, args, m) <= Instant(body, args, n)
  {
    TicksIncrease(body, PrologueLength(body), args, m, n);
  }

  // ----- straight code -----

  ghost predicate Straight(code: C.Code) {
    forall i :: 0 <= i < |code| ==> !C.IsTerminator(code[i])
  }

  /** A run that is still going has not left straight code. */
  lemma {:induction false} StaysInBlock(f: C.Function, t: C.State, code: C.Code, j: nat)
    requires t.Running? && t.block < |f.blocks| && j <= |code| && t.at + |code| <= |f.blocks[t.block]|
    requires Straight(code) && forall i :: 0 <= i < |code| ==> f.blocks[t.block][t.at + i] == code[i]
    requires C.Steps(f, t, j).Running?
    ensures C.Steps(f, t, j).block == t.block && C.Steps(f, t, j).at == t.at + j
  {
    if j > 0 {
      StaysInBlock(f, t, code, j - 1);
      assert f.blocks[t.block][t.at + (j - 1)] == code[j - 1];
    }
  }

  lemma RvalueIsStraight(g: Scope, rv: Rvalue, next: nat)
    requires g.Valid() && EmitRvalue(g, rv, next).Ok?
    ensures Straight(EmitRvalue(g, rv, next).value.code)
  {
    match rv
    case Use(op) => OperandIsStraight(g, op, next);
    case BinaryOp(bin, lhs, rhs) =>
      var l := EmitOperand(g, lhs, next).value;
      OperandIsStraight(g, lhs, next);
      OperandIsStraight(g, rhs, l.next);
      BinaryIsStraight(bin, l, EmitOperand(g, rhs, l.next).value);
    case UnaryOp(un, val) =>
      OperandIsStraight(g, val, next);
      UnaryIsStraight(un, EmitOperand(g, val, next).value);
  }

  lemma OperandIsStraight(g: Scope, op: Operand, next: nat)
    requires g.Valid() && EmitOperand(g, op, next).Ok?
    ensures Straight(EmitOperand(g, op, next).value.code)
  {
  }

  lemma BinaryIsStraight(bin: BinOp, l: Emitted, r: Emitted)
    requires EmitBinary(bin, l, r).Ok? && Straight(l.code) && Straight(r.code)
    ensures Straight(EmitBinary(bin, l, r).value.code)
  {
  }

  lemma UnaryIsStraight(un: UnOp, v: Emitted)
    requires EmitUnary(un, v).Ok? && Straight(v.code)
    ensures Straight(EmitUnary(un, v).value.code)
  {
  }

  lemma StatementIsStraight(g: Scope, s: Statement, next: nat)
    requires g.Valid() && EmitStatement(g, s, next).Ok?
    ensures Straight(EmitStatement(g, s, next).value.code)
  {
    if s.Assign? {
      RvalueIsStraight(g, s.rvalue, next);
    }
  }

  lemma {:induction false} BindParamsIsStraight(vars: VarMap, params: seq<LocalDecl>, vals: seq<C.Val>)
    requires |params| == |vals| && forall i :: 0 <= i < |params| ==> params[i].id in vars
    ensures Straight(BindParams(vars, params, vals))
    decreases |params|
  {
    if params != [] {
      BindParamsIsStraight(vars, params[..|params| - 1], vals[..|vals| - 1]);
    }
  }

  lemma {:induction false} ZeroLocalsIsStraight(g: Scope, params: seq<LocalDecl>, locals: seq<LocalDecl>, next: nat)
    requires g.Valid() && forall i :: 0 <= i < |locals| ==> locals[i].id in g.vars
    ensures Straight(ZeroLocals(g, params, locals, next).code)
    decreases |locals|
  {
    if locals != [] {
      ZeroLocalsIsStraight(g, params, locals[..|locals| - 1], next);
    }
  }

  lemma PrologueIsStraight(body: Body, g: Scope, vals: seq<C.Val>)
    requires g.Valid() && |vals| == |ParamLocals(body)|
    requires forall i :: 0 <= i < |body.locals| ==> body.locals[i].id in g.vars
    ensures Straight(Prologue(body, g, vals).code)
  {
    ParamsAreLocals(body);
    BindParamsIsStraight(g.vars, ParamLocals(body), vals);
    ZeroLocalsIsStraight(g, ParamLocals(body), body.locals, |vals|);
  }

  // ----- starts of blocks -----

  /** Within the instructions of a statement the code is never at the start of a block. */
  lemma StatementKeepsOn(body: Body, f: C.Function, g: Scope, p: nat, s: State, t: C.State, j: nat)
    requires Compiled(body, f, g, p) && Related(body, g, p, s, t) && 1 <= j <= StepCost(body, s)
    requires s.Running? && s.at < |body.blocks[s.block].statements|
    ensures C.Steps(f, t, j).Running? ==> C.Steps(f, t, j).at > 0
  {
    CodeAtPosition(body, f, g, p, s.block, s.at);
    var code, next := StatementAt(body, f, g, s.block, s.at, t.at);
    var st := body.blocks[s.block].statements[s.at];
    var before :| EmitStatement(g, st, before) == Ok(Lines(code, next));
    StatementIsStraight(g, st, before);
    InBlock(f, t, code, j);
  }

  lemma InBlock(f: C.Function, t: C.State, code: C.Code, j: nat)
    requires t.Running? && t.block < |f.blocks| && 1 <= j <= |code| && t.at + |code| <= |f.blocks[t.block]|
    requires Straight(code) && f.blocks[t.block][t.at..t.at + |code|] == code
    ensures C.Steps(f, t, j).Running? ==> C.Steps(f, t, j).at > 0
  {
    forall i | 0 <= i < |code| ensures f.blocks[t.block][t.at + i] == code[i] {
      assert f.blocks[t.block][t.at..t.at + |code|][i] == code[i];
    }
    if C.Steps(f, t, j).Running? {
      StaysInBlock(f, t, code, j);
    }
  }

  /** After a terminator the code is at the start of a block only if the body has just jumped. */
  lemma TerminatorJumps(body: Body, f: C.Function, g: Scope, p: nat, s: State, t: C.State, j: nat)
    requires Compiled(body, f, g, p) && Related(body, g, p, s, t) && 1 <= j <= StepCost(body, s)
    requires s.Running? && s.at == |body.blocks[s.block].statements|
    ensures C.Steps(f, t, j).Running? && C.Steps(f, t, j).at == 0 ==>
              j == StepCost(body, s) && Step(body, s).Running? && Step(body, s).at == 0
  {
    var code := TerminatorAt(body, f, g, p, s, t);
    TerminatorStep(body, f, g, p, s, t);
    if body.blocks[s.block].terminator.Return? {
      OneStep(f, t);
      ReturnEnds(body, f, g, p, s, t);
    }
  }

  lemma StartMeansJump(body: Body, f: C.Function, g: Scope, p: nat, s: State, t: C.State, j: nat)
    requires Compiled(body, f, g, p) && Related(body, g, p, s, t) && 1 <= j <= StepCost(body, s)
    requires C.Steps(f, t, j).Running? && C.Steps(f, t, j).at == 0
    ensures j == StepCost(body, s) && Step(body, s).Running? && Step(body, s).at == 0
  {
    if s.at < |body.blocks[s.block].statements| {
      StatementKeepsOn(body, f, g, p, s, t, j);
    } else {
      TerminatorJumps(body, f, g, p, s, t, j);
    }
  }

  /** The code after `m` instructions is at the start of a block. */
  ghost predicate AtStart(f: C.Function, args: seq<i64>, m: nat)
    requires |args| == |f.params|
  {
    C.Run(f, args, m).Running? && C.Run(f, args, m).at == 0
  }

  /** The body is at the start of a block when the emitted code has taken `m` instructions. */
  ghost predicate StartsThen(body: Body, args: seq<i64>, p: nat, n: nat, m: nat)
    requires |args| == |ParamLocals(body)|
  {
    Ticks(body, p, args, n) == m && StateAfter(body, args, n).Running? && StateAfter(body, args, n).at == 0
  }

  /** If step `n` of the body reaches or passes instant `m`, it lands exactly there, at the start of a block. */
  ghost predicate Lands(body: Body, args: seq<i64>, p: nat, n: nat, m: nat)
    requires |args| == |ParamLocals(body)|
  {
    Ticks(body, p, args, n) < m <= Ticks(body, p, args, n + 1) ==> StartsThen(body, args, p, n + 1, m)
  }

  lemma StepLands(body: Body, f: C.Function, g: Scope, p: nat, args: seq<i64>, n: nat, m: nat)
    requires Compiled(body, f, g, p) && |args| == |ParamLocals(body)| == |f.params|
    requires InStep(body, f, g, p, args, n, Ticks(body, p, args, n)) && AtStart(f, args, m)
    ensures Lands(body, args, p, n, m)
  {
    var s, clock := StateAfter(body, args, n), Ticks(body, p, args, n);
    TicksStep(body, p, args, n);
    RunStep(body, args, n);
    if clock < m <= Ticks(body, p, args, n + 1) {
      StateLands(body, f, g, p, args, s, clock, C.Run(f, args, clock), m);
    }
  }

  lemma StateLands(body: Body, f: C.Function, g: Scope, p: nat, args: seq<i64>, s: State, clock: nat, t: C.State,
      m: nat)
    requires Compiled(body, f, g, p) && |args| == |f.params| && t == C.Run(f, args, clock) && Related(body, g, p, s, t)
    requires clock < m <= clock + StepCost(body, s) && AtStart(f, args, m)
    ensures m == clock + StepCost(body, s) && Step(body, s).Running? && Step(body, s).at == 0
  {
    RunSplits(f, args, clock, m - clock);
    StartMeansJump(body, f, g, p, s, t, m - clock);
  }

  lemma {:induction false} FindStep(body: Body, p: nat, args: seq<i64>, n: nat, m: nat) returns (k: nat)
    requires |args| == |ParamLocals(body)| && p <= m <= Ticks(body, p, args, n)
    requires forall i: nat :: i < n ==> Lands(body, args, p, i, m)
    ensures StartsThen(body, args, p, k, m)
    decreases n
  {
    if n == 0 {
      k := 0;
    } else if m <= Ticks(body, p, args, n - 1) {
      k := FindStep(body, p, args, n - 1, m);
    } else {
      assert Lands(body, args, p, n - 1, m);
      k := n;
    }
  }

  /** Some number of steps takes the body past any instant at which the code still runs. */
  lemma StepsReach(body: Body, f: C.Function, g: Scope, prologue: Lines, args: seq<i64>, m: nat) returns (n: nat)
    requires Lowers(body, f, g, prologue) && |args| == |ParamLocals(body)| == |f.params| && C.Run(f, args, m).Running?
    ensures m <= Ticks(body, |prologue.code|, args, n)
  {
    n := ClockPasses(body, |prologue.code|, args, m);
    var clock := Ticks(body, |prologue.code|, args, n);
    AlwaysInStep(body, f, g, prologue, args, n);
    if clock < m {
      EndedStays(f, C.Running(0, 0, C.Arguments(f.params, args), map[]), clock, m);
    }
  }

  /** During the prologue the code is in the entry. */
  lemma PrologueInEntry(body: Body, f: C.Function, g: Scope, prologue: Lines, args: seq<i64>, m: nat)
    requires Lowers(body, f, g, prologue) && |args| == |f.params| && m <= |prologue.code|
    ensures C.Run(f, args, m).Running? ==> C.Run(f, args, m).block == 0
  {
    var start := BlockEmitted(g, body, prologue.code, 0, prologue.next, 0);
    PrologueIsStraight(body, g, f.params);
    if C.Run(f, args, m).Running? {
      StaysInBlock(f, C.Running(0, 0, C.Arguments(f.params, args), map[]), prologue.code, m);
    }
  }

  /**
    Whenever the emitted code is at the start of a block other than the entry, the body is at the
    start of the same block at that instant, and every local's value is in its variable.
  */
  lemma BlockStartsMatch(body: Body, args: seq<i64>, m: nat) returns (n: nat)
    requires Runnable(body, args)
    requires var t := C.Run(LowerBody(body).value, args, m); t.Running? && t.at == 0 && t.block != 0
    ensures Instant(body, args, n) == m
    ensures var s, t := Run(body, args, n), C.Run(LowerBody(body).value, args, m);
            s.Running? && s.block == t.block && s.at == 0 && Agree(BodyScope(body), s.env, t.vars)
  {
    var f, g, prologue := GetLowering(body);
    LowersCompiled(body, f, g, prologue);
    if m <= |prologue.code| {
      PrologueInEntry(body, f, g, prologue, args, m);
    }
    var past := StepsReach(body, f, g, prologue, args, m);
    forall i: nat | i < past ensures Lands(body, args, |prologue.code|, i, m) {
      AlwaysInStep(body, f, g, prologue, args, i);
      StepLands(body, f, g, |prologue.code|, args, i, m);
    }
    n := FindStep(body, |prologue.code|, args, past, m);
    LoweringPreservesSteps(body, args, n);
  }
}
