/**
  When the emitted function is well formed: exactly when the operand types of the body agree and
  nothing jumps back to the entry block.
*/
module LoweringTypes {
  import opened Wrappers
  import opened Mir
  import opened LoweringSpec
  import opened LoweringAcceptance
  import opened LoweringValues
  import C = Cranelift

  // ----- types of MIR operands, as the emitted code sees them -----

  function LocalIrTy(g: Scope, l: LocalId): C.IrType
    requires g.Valid()
  {
    if l in g.vars then g.tys[g.vars[l]] else C.INVALID
  }

  /** Constants are I64, Booleans too; a local has its declared type. */
  function OperandTy(g: Scope, op: Operand): C.IrType
    requires g.Valid()
  {
    match op
    case Copy(place) => LocalIrTy(g, place.local)
    case Move(place) => LocalIrTy(g, place.local)
    case Const(_) => C.I64
  }

  function RvalueTy(g: Scope, rv: Rvalue): C.IrType
    requires g.Valid()
  {
    match rv
    case Use(op) => OperandTy(g, op)
    case BinaryOp(_, lhs, _) => OperandTy(g, lhs)
    case UnaryOp(_, val) => OperandTy(g, val)
    case _ => C.INVALID
  }

  predicate RvalueTyped(g: Scope, rv: Rvalue)
    requires g.Valid()
  {
    rv.BinaryOp? ==> OperandTy(g, rv.lhs) == OperandTy(g, rv.rhs)
  }

  predicate StatementTyped(g: Scope, s: Statement)
    requires g.Valid()
  {
    s.Assign? ==> RvalueTyped(g, s.rvalue) && LocalIrTy(g, s.place.local) == RvalueTy(g, s.rvalue)
  }

  predicate TerminatorTyped(g: Scope, body: Body, t: Terminator)
    requires g.Valid()
  {
    match t
    case Return => LocalIrTy(g, body.returnLocal) == C.I64
    case Goto(target) => target != 0
    case _ => true
  }

  predicate BlockTyped(g: Scope, body: Body, block: BasicBlock)
    requires g.Valid()
  {
    && (forall j :: 0 <= j < |block.statements| ==> StatementTyped(g, block.statements[j]))
    && TerminatorTyped(g, body, block.terminator)
  }

  /**
    Both sides of every operator and assignment have one type, the return slot is I64, and no jump
    targets the entry.
  */
  predicate Typed(body: Body) {
    var tys := LocalTys(body.locals);
    tys.Ok? ==> var g := ScopeOf(body, tys.value);
                forall i :: 0 <= i < |body.blocks| ==> BlockTyped(g, body, body.blocks[i])
  }

  // ----- emitted code -----

  lemma CodeOkCons(f: C.Function, defined: set<C.Val>, inst: C.Inst, rest: C.Code)
    requires !C.IsTerminator(inst)
    ensures C.CodeOk(f, defined, [inst] + rest) <==>
            C.InstOk(f, defined, inst) && C.CodeOk(f, defined + C.Defs(inst), rest)
  {
  }

  /**
    `code` in front of `rest` is correct exactly when `ok` holds and `rest` is; afterwards `val` is
    defined, with type `ty`.
  */
  ghost predicate Transparent(f: C.Function, defined: set<C.Val>, code: C.Code, ok: bool, after: set<C.Val>,
      rest: C.Code)
  {
    defined <= after && (C.CodeOk(f, defined, code + rest) <==> ok && C.CodeOk(f, after, rest))
  }

  lemma OperandCode(f: C.Function, g: Scope, op: Operand, next: nat, defined: set<C.Val>, rest: C.Code)
    requires g.Valid() && f.vars == g.tys && EmitOperand(g, op, next).Ok?
    ensures var e := EmitOperand(g, op, next).value;
            Transparent(f, defined, e.code, true, defined + {e.val}, rest) && e.val.ty == OperandTy(g, op)
  {
  }

  lemma BinaryCode(f: C.Function, g: Scope, rv: Rvalue, next: nat, defined: set<C.Val>, rest: C.Code)
    returns (after: set<C.Val>)
    requires g.Valid() && f.vars == g.tys && rv.BinaryOp? && EmitRvalue(g, rv, next).Ok?
    ensures var e := EmitRvalue(g, rv, next).value;
            && Transparent(f, defined, e.code, RvalueTyped(g, rv), after, rest)
            && e.val.ty == RvalueTy(g, rv) && e.val in after
  {
    var l := EmitOperand(g, rv.lhs, next).value;
    var r := EmitOperand(g, rv.rhs, l.next).value;
    var e := EmitRvalue(g, rv, next).value;
    var inst := e.code[|l.code| + |r.code|];
    assert e.code + rest == l.code + (r.code + ([inst] + rest));
    OperandCode(f, g, rv.lhs, next, defined, r.code + ([inst] + rest));
    OperandCode(f, g, rv.rhs, l.next, defined + {l.val}, [inst] + rest);
    CodeOkCons(f, defined + {l.val} + {r.val}, inst, rest);
    after := defined + {l.val} + {r.val} + C.Defs(inst);
  }

  lemma UnaryCode(f: C.Function, g: Scope, rv: Rvalue, next: nat, defined: set<C.Val>, rest: C.Code)
    returns (after: set<C.Val>)
    requires g.Valid() && f.vars == g.tys && rv.UnaryOp? && EmitRvalue(g, rv, next).Ok?
    ensures var e := EmitRvalue(g, rv, next).value;
            Transparent(f, defined, e.code, true, after, rest) && e.val.ty == RvalueTy(g, rv) && e.val in after
  {
    var v := EmitOperand(g, rv.val, next).value;
    var e := EmitRvalue(g, rv, next).value;
    if rv.un.Neg? {
      var inst := e.code[|v.code|];
      assert e.code + rest == v.code + ([inst] + rest);
      OperandCode(f, g, rv.val, next, defined, [inst] + rest);
      CodeOkCons(f, defined + {v.val}, inst, rest);
      after := defined + {v.val} + C.Defs(inst);
    } else {
      OperandCode(f, g, rv.val, next, defined, rest);
      after := defined + {v.val};
    }
  }

  lemma RvalueCode(f: C.Function, g: Scope, rv: Rvalue, next: nat, defined: set<C.Val>, rest: C.Code)
    returns (after: set<C.Val>)
    requires g.Valid() && f.vars == g.tys && EmitRvalue(g, rv, next).Ok?
    ensures var e := EmitRvalue(g, rv, next).value;
            && Transparent(f, defined, e.code, RvalueTyped(g, rv), after, rest)
            && e.val.ty == RvalueTy(g, rv) && e.val in after
  {
    match rv
    case Use(op) =>
      OperandCode(f, g, op, next, defined, rest);
      after := defined + {EmitOperand(g, op, next).value.val};
    case BinaryOp(_, _, _) => after := BinaryCode(f, g, rv, next, defined, rest);
    case UnaryOp(_, _) => after := UnaryCode(f, g, rv, next, defined, rest);
  }

  lemma StatementCode(f: C.Function, g: Scope, s: Statement, next: nat, defined: set<C.Val>, rest: C.Code)
    returns (after: set<C.Val>)
    requires g.Valid() && f.vars == g.tys && EmitStatement(g, s, next).Ok?
    ensures Transparent(f, defined, EmitStatement(g, s, next).value.code, StatementTyped(g, s), after, rest)
  {
    if s.Assign? {
      var e := EmitRvalue(g, s.rvalue, next).value;
      var inst := C.DefVar(g.vars[s.place.local], e.val);
      assert e.code + [inst] + rest == e.code + ([inst] + rest);
      after := RvalueCode(f, g, s.rvalue, next, defined, [inst] + rest);
      CodeOkCons(f, after, inst, rest);
      assert after + C.Defs(inst) == after;
    } else {
      after := defined;
      assert [] + rest == rest;
    }
  }

  lemma TerminatorCode(f: C.Function, g: Scope, body: Body, t: Terminator, next: nat, defined: set<C.Val>)
    requires g.Valid() && f.vars == g.tys && |f.blocks| == |body.blocks| && ValidBody(body)
    requires EmitTerminator(g, BlocksOf(body.blocks), body.returnLocal, t, next).Ok?
    ensures C.CodeOk(f, defined, EmitTerminator(g, BlocksOf(body.blocks), body.returnLocal, t, next).value.code) <==>
            TerminatorTyped(g, body, t)
  {
    var code := EmitTerminator(g, BlocksOf(body.blocks), body.returnLocal, t, next).value.code;
    match t
    case Return =>
      assert code == [code[0]] + [code[1]];
      CodeOkCons(f, defined, code[0], [code[1]]);
    case Goto(target) => BlocksOfIndex(body.blocks, target);
    case _ =>
  }

  /** The block map gives the position of the block with an id, and only id 0 is at position 0. */
  lemma {:induction false} BlocksOfIndex(blocks: seq<BasicBlock>, id: BlockId)
    requires forall i, j :: 0 <= i < j < |blocks| ==> blocks[i].id != blocks[j].id
    ensures id in BlocksOf(blocks) ==> BlocksOf(blocks)[id] < |blocks| && blocks[BlocksOf(blocks)[id]].id == id
    ensures BlockIndex(blocks, id) == if id in BlocksOf(blocks) then Some(BlocksOf(blocks)[id]) else Option.None
  {
    if blocks != [] {
      BlocksOfIndex(blocks[..|blocks| - 1], id);
    }
  }

  lemma {:induction false} RestCode(f: C.Function, g: Scope, body: Body, ss: seq<Statement>, t: Terminator, next: nat,
      defined: set<C.Val>)
    requires g.Valid() && f.vars == g.tys && |f.blocks| == |body.blocks| && ValidBody(body)
    requires EmitRest(g, BlocksOf(body.blocks), body.returnLocal, ss, t, next).Ok?
    ensures C.CodeOk(f, defined, EmitRest(g, BlocksOf(body.blocks), body.returnLocal, ss, t, next).value.code) <==>
            (forall j :: 0 <= j < |ss| ==> StatementTyped(g, ss[j])) && TerminatorTyped(g, body, t)
  {
    if ss == [] {
      TerminatorCode(f, g, body, t, next, defined);
    } else {
      var first := EmitStatement(g, ss[0], next).value;
      var rest := EmitRest(g, BlocksOf(body.blocks), body.returnLocal, ss[1..], t, first.next).value;
      var after := StatementCode(f, g, ss[0], next, defined, rest.code);
      RestCode(f, g, body, ss[1..], t, first.next, after);
      assert forall j :: 0 <= j < |ss| ==> ss[j] == if j == 0 then ss[0] else ss[1..][j - 1];
    }
  }

  // ----- the prologue -----

  lemma {:induction false} BindParamsCode(f: C.Function, g: Scope, params: seq<LocalDecl>, vals: seq<C.Val>,
      defined: set<C.Val>, rest: C.Code)
    requires g.Valid() && f.vars == g.tys && |params| == |vals|
    requires forall i :: 0 <= i < |params| ==>
               params[i].id in g.vars && vals[i] in defined && vals[i].ty == g.tys[g.vars[params[i].id]]
    ensures C.CodeOk(f, defined, BindParams(g.vars, params, vals) + rest) <==> C.CodeOk(f, defined, rest)
  {
    if params == [] {
      assert [] + rest == rest;
    } else {
      var n := |params| - 1;
      var inst := C.DefVar(g.vars[params[n].id], vals[n]);
      assert BindParams(g.vars, params, vals) + rest == BindParams(g.vars, params[..n], vals[..n]) + ([inst] + rest);
      BindParamsCode(f, g, params[..n], vals[..n], defined, [inst] + rest);
      CodeOkCons(f, defined, inst, rest);
      assert defined + C.Defs(inst) == defined;
    }
  }

  lemma {:induction false} ZeroLocalsCode(f: C.Function, g: Scope, params: seq<LocalDecl>, locals: seq<LocalDecl>,
      next: nat, defined: set<C.Val>, rest: C.Code)
    returns (after: set<C.Val>)
    requires g.Valid() && f.vars == g.tys && (forall i :: 0 <= i < |locals| ==> locals[i].id in g.vars)
    requires forall v :: 0 <= v < |g.tys| ==> !g.tys[v].INVALID?
    ensures Transparent(f, defined, ZeroLocals(g, params, locals, next).code, true, after, rest)
  {
    if locals == [] {
      after := defined;
      assert [] + rest == rest;
    } else {
      var n := |locals| - 1;
      var before := ZeroLocals(g, params, locals[..n], next);
      if IsParam(params, locals[n].id) {
        after := ZeroLocalsCode(f, g, params, locals[..n], next, defined, rest);
      } else {
        var v := C.Val(before.next, g.tys[g.vars[locals[n].id]]);
        var zero, def := C.Iconst(v, 0), C.DefVar(g.vars[locals[n].id], v);
        var tail := [zero] + ([def] + rest);
        assert before.code + [zero, def] + rest == before.code + tail;
        var mid := ZeroLocalsCode(f, g, params, locals[..n], next, defined, tail);
        CodeOkCons(f, mid, zero, [def] + rest);
        CodeOkCons(f, mid + {v}, def, rest);
        after := mid + {v};
        assert after + C.Defs(def) == after;
      }
    }
  }

  lemma {:induction false} LocalTysAt(locals: seq<LocalDecl>, i: nat)
    requires LocalTys(locals).Ok? && i < |locals|
    ensures LocalTy(locals[i].ty) == Ok(LocalTys(locals).value[i])
    ensures !LocalTys(locals).value[i].INVALID?
  {
    if i < |locals| - 1 {
      LocalTysAt(locals[..|locals| - 1], i);
    }
  }

  lemma {:induction false} ParamTysAt(params: seq<LocalDecl>, i: nat)
    requires ParamTys(params).Ok? && i < |params|
    ensures LowerTy(params[i].ty) == Ok(ParamTys(params).value[i])
    ensures !params[i].ty.None?
  {
    if i < |params| - 1 {
      ParamTysAt(params[..|params| - 1], i);
    }
  }

  lemma {:induction false} ParamValsAt(tys: seq<C.IrType>, i: nat)
    requires i < |tys|
    ensures ParamVals(tys)[i] == C.Val(i, tys[i])
  {
    if i < |tys| - 1 {
      ParamValsAt(tys[..|tys| - 1], i);
    }
  }

  /** What the pieces of a lowered function are. */
  ghost predicate Parts(body: Body, f: C.Function, g: Scope, prologue: Lines) {
    && LocalTys(body.locals).Ok? && ParamTys(ParamLocals(body)).Ok?
    && g == ScopeOf(body, LocalTys(body.locals).value) && f.vars == g.tys
    && f.params == ParamVals(ParamTys(ParamLocals(body)).value)
    && (forall i :: 0 <= i < |body.locals| ==> body.locals[i].id in g.vars)
    && prologue == Prologue(body, g, f.params)
    && EmitBlocks(g, body, prologue.code, 0, prologue.next) == Ok(f.blocks)
  }

  lemma GetParts(body: Body) returns (f: C.Function, g: Scope, prologue: Lines)
    requires LowerBody(body).Ok?
    ensures Parts(body, f, g, prologue) && LowerBody(body) == Ok(f)
  {
    VarsOfRange(body.locals);
    f := LowerBody(body).value;
    g := ScopeOf(body, LocalTys(body.locals).value);
    prologue := Prologue(body, g, f.params);
  }

  /** A parameter's value has the type of its variable. */
  lemma ParamVariable(body: Body, f: C.Function, g: Scope, prologue: Lines, i: nat)
    requires ValidBody(body) && Parts(body, f, g, prologue) && i < |ParamLocals(body)|
    ensures f.params[i] == C.Val(i, g.tys[g.vars[ParamLocals(body)[i].id]])
  {
    var j := if body.returnLocal == 0 then i + 1 else i;
    ParamsAreLocals(body);
    LocalVariable(body.locals, g, j);
    ParamVal(ParamLocals(body), f.params, i);
    assert LowerTy(body.locals[j].ty) == LocalTy(body.locals[j].ty);
  }

  lemma LocalVariable(locals: seq<LocalDecl>, g: Scope, i: nat)
    requires i < |locals| && forall i, j :: 0 <= i < j < |locals| ==> locals[i].id != locals[j].id
    requires g.vars == VarsOf(locals) && LocalTys(locals) == Ok(g.tys)
    ensures locals[i].id in g.vars && g.vars[locals[i].id] == i && i < |g.tys|
    ensures LocalTy(locals[i].ty) == Ok(g.tys[i])
  {
    VarsOfExact(locals, i);
    LocalTysAt(locals, i);
  }

  lemma ParamVal(params: seq<LocalDecl>, vals: seq<C.Val>, i: nat)
    requires i < |params| && ParamTys(params).Ok? && vals == ParamVals(ParamTys(params).value)
    ensures i < |vals| && LowerTy(params[i].ty) == Ok(vals[i].ty) && vals[i].id == i && !params[i].ty.None?
  {
    ParamTysAt(params, i);
    ParamValsAt(ParamTys(params).value, i);
  }

  lemma ParamsBind(body: Body, f: C.Function, g: Scope, prologue: Lines, rest: C.Code)
    requires ValidBody(body) && Parts(body, f, g, prologue)
    ensures var defined := set v <- f.params;
            C.CodeOk(f, defined, BindParams(g.vars, ParamLocals(body), f.params) + rest) <==> C.CodeOk(f, defined, rest)
  {
    var params := ParamLocals(body);
    ParamsAreLocals(body);
    var defined := set v <- f.params;
    forall i | 0 <= i < |params|
      ensures params[i].id in g.vars && f.params[i] in defined && f.params[i].ty == g.tys[g.vars[params[i].id]]
    {
      ParamVariable(body, f, g, prologue, i);
    }
    BindParamsCode(f, g, params, f.params, defined, rest);
  }

  lemma NoInvalidType(body: Body, f: C.Function, g: Scope, prologue: Lines)
    requires Parts(body, f, g, prologue)
    ensures forall v :: 0 <= v < |g.tys| ==> !g.tys[v].INVALID?
  {
    forall v | 0 <= v < |g.tys| ensures !g.tys[v].INVALID? {
      LocalTysAt(body.locals, v);
    }
  }

  lemma PrologueCode(body: Body, f: C.Function, g: Scope, prologue: Lines, rest: C.Code) returns (after: set<C.Val>)
    requires ValidBody(body) && Parts(body, f, g, prologue)
    ensures Transparent(f, (set v <- f.params), prologue.code, true, after, rest)
  {
    var params := ParamLocals(body);
    NoInvalidType(body, f, g, prologue);
    var bind, zeros := BindParams(g.vars, params, f.params), ZeroLocals(g, params, body.locals, |f.params|);
    assert prologue.code + rest == bind + (zeros.code + rest);
    ParamsBind(body, f, g, prologue, zeros.code + rest);
    after := ZeroLocalsCode(f, g, params, body.locals, |f.params|, (set v <- f.params), rest);
  }

  // ----- the function -----

  /** Block `b` of the emitted function. */
  lemma {:induction false} BlockEmitted(g: Scope, body: Body, prologue: C.Code, i: nat, next: nat, b: nat)
    returns (start: nat)
    requires g.Valid() && i <= b < |body.blocks| && EmitBlocks(g, body, prologue, i, next).Ok?
    ensures var blocks := EmitBlocks(g, body, prologue, i, next).value;
            var rest := EmitRest(g, BlocksOf(body.blocks), body.returnLocal, body.blocks[b].statements,
                body.blocks[b].terminator, start);
            && |blocks| == |body.blocks| - i
            && rest.Ok?
            && blocks[b - i] == (if b == 0 then prologue else []) + rest.value.code
    decreases |body.blocks| - i
  {
    var block := body.blocks[i];
    var first := EmitRest(g, BlocksOf(body.blocks), body.returnLocal, block.statements, block.terminator, next).value;
    if i == b {
      start := next;
      BlocksCount(g, body, prologue, i, next);
    } else {
      start := BlockEmitted(g, body, prologue, i + 1, first.next, b);
    }
  }

  lemma {:induction false} BlocksCount(g: Scope, body: Body, prologue: C.Code, i: nat, next: nat)
    requires g.Valid() && i <= |body.blocks| && EmitBlocks(g, body, prologue, i, next).Ok?
    ensures |EmitBlocks(g, body, prologue, i, next).value| == |body.blocks| - i
    decreases |body.blocks| - i
  {
    if i < |body.blocks| {
      var block := body.blocks[i];
      var first := EmitRest(g, BlocksOf(body.blocks), body.returnLocal, block.statements, block.terminator, next).value;
      BlocksCount(g, body, prologue, i + 1, first.next);
    }
  }

  /** What is emitted for block `b` itself, from value number `next` on. */
  function BlockRest(g: Scope, body: Body, b: nat, next: nat): Listing
    requires g.Valid() && b < |body.blocks|
  {
    var block := body.blocks[b];
    EmitRest(g, BlocksOf(body.blocks), body.returnLocal, block.statements, block.terminator, next)
  }

  /** Block `b` of the function is what is emitted for it, the entry's after the prologue. */
  lemma BlockParts(body: Body, f: C.Function, g: Scope, prologue: Lines, b: nat) returns (start: nat)
    requires Parts(body, f, g, prologue) && b < |body.blocks|
    ensures |f.blocks| == |body.blocks| && BlockRest(g, body, b, start).Ok?
    ensures f.blocks[b] == (if b == 0 then prologue.code else []) + BlockRest(g, body, b, start).value.code
  {
    start := BlockEmitted(g, body, prologue.code, 0, prologue.next, b);
  }

  lemma BlockCode(body: Body, f: C.Function, g: Scope, prologue: Lines, b: nat)
    requires ValidBody(body) && Parts(body, f, g, prologue) && b < |body.blocks|
    ensures |f.blocks| == |body.blocks|
    ensures C.CodeOk(f, if b == 0 then (set v <- f.params) else {}, f.blocks[b]) <==>
            BlockTyped(g, body, body.blocks[b])
  {
    var start := BlockParts(body, f, g, prologue, b);
    var rest := BlockRest(g, body, b, start).value.code;
    if b == 0 {
      var after := PrologueCode(body, f, g, prologue, rest);
      BlockRestCode(f, g, body, b, start, after);
    } else {
      assert [] + rest == rest;
      BlockRestCode(f, g, body, b, start, {});
    }
  }

  lemma BlockRestCode(f: C.Function, g: Scope, body: Body, b: nat, next: nat, defined: set<C.Val>)
    requires g.Valid() && f.vars == g.tys && |f.blocks| == |body.blocks| && ValidBody(body)
    requires b < |body.blocks| && BlockRest(g, body, b, next).Ok?
    ensures C.CodeOk(f, defined, BlockRest(g, body, b, next).value.code) <==> BlockTyped(g, body, body.blocks[b])
  {
    RestCode(f, g, body, body.blocks[b].statements, body.blocks[b].terminator, next, defined);
  }

  /** The blocks of an emitted function are correct exactly when the body is typed. */
  lemma BlocksOkExactlyTyped(body: Body)
    requires ValidBody(body) && LowerBody(body).Ok?
    ensures C.BlocksOk(LowerBody(body).value) <==> Typed(body)
  {
    var f, g, prologue := GetParts(body);
    forall b | 0 <= b < |body.blocks|
      ensures |f.blocks| == |body.blocks|
      ensures C.CodeOk(f, if b == 0 then (set v <- f.params) else {}, f.blocks[b]) <==>
              BlockTyped(g, body, body.blocks[b])
    {
      BlockCode(body, f, g, prologue, b);
    }
    BlocksCount(g, body, prologue.code, 0, prologue.next);
  }

  // ----- variables -----

  lemma AssignedConcat(a: C.Code, b: C.Code)
    ensures C.Assigned(a + b) == C.Assigned(a) + C.Assigned(b)
  {
    forall v | v in C.Assigned(b) ensures v in C.Assigned(a + b) {
      var i :| 0 <= i < |b| && b[i].DefVar? && b[i].written == v;
      assert (a + b)[|a| + i] == b[i];
    }
    forall v | v in C.Assigned(a) ensures v in C.Assigned(a + b) {
      var i :| 0 <= i < |a| && a[i].DefVar? && a[i].written == v;
      assert (a + b)[i] == a[i];
    }
  }

  lemma {:induction false} BindParamsAssigns(g: Scope, params: seq<LocalDecl>, vals: seq<C.Val>, l: LocalId)
    requires |params| == |vals| && (forall i :: 0 <= i < |params| ==> params[i].id in g.vars)
    requires IsParam(params, l)
    ensures g.vars[l] in C.Assigned(BindParams(g.vars, params, vals))
  {
    var n := |params| - 1;
    var last := [C.DefVar(g.vars[params[n].id], vals[n])];
    AssignedConcat(BindParams(g.vars, params[..n], vals[..n]), last);
    if params[n].id == l {
      assert last[0].DefVar? && last[0].written == g.vars[l];
    } else {
      var i :| 0 <= i < |params| && params[i].id == l;
      assert params[..n][i].id == l;
      BindParamsAssigns(g, params[..n], vals[..n], l);
    }
  }

  lemma {:induction false} ZeroLocalsAssigns(g: Scope, params: seq<LocalDecl>, locals: seq<LocalDecl>, next: nat,
      i: nat)
    requires g.Valid() && i < |locals| && (forall i :: 0 <= i < |locals| ==> locals[i].id in g.vars)
    requires !IsParam(params, locals[i].id)
    ensures g.vars[locals[i].id] in C.Assigned(ZeroLocals(g, params, locals, next).code)
  {
    var n := |locals| - 1;
    var before := ZeroLocals(g, params, locals[..n], next);
    if IsParam(params, locals[n].id) {
      ZeroLocalsAssigns(g, params, locals[..n], next, i);
    } else {
      var v := C.Val(before.next, g.tys[g.vars[locals[n].id]]);
      var last := [C.Iconst(v, 0), C.DefVar(g.vars[locals[n].id], v)];
      AssignedConcat(before.code, last);
      if i == n {
        assert last[1].DefVar? && last[1].written == g.vars[locals[n].id];
      } else {
        ZeroLocalsAssigns(g, params, locals[..n], next, i);
      }
    }
  }

  /** The prologue assigns every variable. */
  lemma PrologueAssigns(body: Body, f: C.Function, g: Scope, prologue: Lines, v: C.Variable)
    requires ValidBody(body) && Parts(body, f, g, prologue) && v < |f.vars|
    ensures v in C.Assigned(prologue.code)
  {
    var params := ParamLocals(body);
    ParamsAreLocals(body);
    var l := body.locals[v].id;
    VarsOfExact(body.locals, v);
    var bind, zeros := BindParams(g.vars, params, f.params), ZeroLocals(g, params, body.locals, |f.params|);
    AssignedConcat(bind, zeros.code);
    if IsParam(params, l) {
      BindParamsAssigns(g, params, f.params, l);
    } else {
      ZeroLocalsAssigns(g, params, body.locals, |f.params|, v);
    }
  }

  /** Every read in `code` is of one of the first `n` variables. */
  predicate ReadsBelow(n: nat, code: C.Code) {
    forall i :: 0 <= i < |code| && code[i].UseVar? ==> code[i].read < n
  }

  lemma {:induction false} PrologueReadsNothing(body: Body, f: C.Function, g: Scope, prologue: Lines)
    requires Parts(body, f, g, prologue)
    ensures ReadsBelow(0, prologue.code)
  {
    ParamsAreLocals(body);
    BindParamsReads(g, ParamLocals(body), f.params);
    ZeroLocalsReads(g, ParamLocals(body), body.locals, |f.params|);
  }

  lemma {:induction false} BindParamsReads(g: Scope, params: seq<LocalDecl>, vals: seq<C.Val>)
    requires |params| == |vals| && (forall i :: 0 <= i < |params| ==> params[i].id in g.vars)
    ensures ReadsBelow(0, BindParams(g.vars, params, vals))
  {
    if params != [] {
      BindParamsReads(g, params[..|params| - 1], vals[..|params| - 1]);
    }
  }

  lemma {:induction false} ZeroLocalsReads(g: Scope, params: seq<LocalDecl>, locals: seq<LocalDecl>, next: nat)
    requires g.Valid() && (forall i :: 0 <= i < |locals| ==> locals[i].id in g.vars)
    ensures ReadsBelow(0, ZeroLocals(g, params, locals, next).code)
  {
    if locals != [] {
      ZeroLocalsReads(g, params, locals[..|locals| - 1], next);
    }
  }

  lemma RvalueReads(g: Scope, rv: Rvalue, next: nat)
    requires g.Valid() && EmitRvalue(g, rv, next).Ok?
    ensures ReadsBelow(|g.tys|, EmitRvalue(g, rv, next).value.code)
  {
    match rv
    case Use(_) =>
    case BinaryOp(_, lhs, rhs) =>
      var l := EmitOperand(g, lhs, next).value;
      var r := EmitOperand(g, rhs, l.next).value;
      assert ReadsBelow(|g.tys|, l.code) && ReadsBelow(|g.tys|, r.code);
    case UnaryOp(_, val) => assert ReadsBelow(|g.tys|, EmitOperand(g, val, next).value.code);
  }

  lemma {:induction false} RestReads(g: Scope, blocks: BlockMap, returnLocal: LocalId, ss: seq<Statement>,
      t: Terminator, next: nat)
    requires g.Valid() && EmitRest(g, blocks, returnLocal, ss, t, next).Ok?
    ensures ReadsBelow(|g.tys|, EmitRest(g, blocks, returnLocal, ss, t, next).value.code)
  {
    if ss != [] {
      if ss[0].Assign? {
        RvalueReads(g, ss[0].rvalue, next);
      }
      var first := EmitStatement(g, ss[0], next).value;
      RestReads(g, blocks, returnLocal, ss[1..], t, first.next);
    }
  }

  /** In an emitted function every variable is assigned before it is read, on every path from the entry. */
  lemma VariablesAreDefined(body: Body)
    requires ValidBody(body) && LowerBody(body).Ok?
    ensures C.VariablesDefined(LowerBody(body).value)
  {
    var f, g, prologue := GetParts(body);
    BlocksCount(g, body, prologue.code, 0, prologue.next);
    var all := C.Assigned(prologue.code);
    forall v | 0 <= v < |f.vars| ensures v in all {
      PrologueAssigns(body, f, g, prologue, v);
    }
    forall path | C.IsPath(f, path)
      ensures C.ReadsDefined(C.AssignedOn(f, path[..|path| - 1]), f.blocks[path[|path| - 1]])
    {
      ReadsOnPath(body, f, g, prologue, path);
    }
  }

  lemma ReadsOnPath(body: Body, f: C.Function, g: Scope, prologue: Lines, path: seq<nat>)
    requires ValidBody(body) && Parts(body, f, g, prologue) && |f.blocks| == |body.blocks| && C.IsPath(f, path)
    requires forall v :: 0 <= v < |f.vars| ==> v in C.Assigned(prologue.code)
    ensures C.ReadsDefined(C.AssignedOn(f, path[..|path| - 1]), f.blocks[path[|path| - 1]])
  {
    var last, before := path[|path| - 1], C.AssignedOn(f, path[..|path| - 1]);
    var start := BlockParts(body, f, g, prologue, last);
    var rest := BlockRest(g, body, last, start).value.code;
    BlockReads(g, body, last, start);
    if last == 0 {
      PrologueReadsNothing(body, f, g, prologue);
      ReadsAfterPrologue(prologue.code, rest, |f.vars|, before);
    } else {
      EntryAssigns(body, f, g, prologue);
      PathStartsAtEntry(f, path);
      ReadsAssigned(rest, |f.vars|, C.Assigned(prologue.code), before);
      assert [] + rest == rest;
    }
  }

  lemma BlockReads(g: Scope, body: Body, b: nat, next: nat)
    requires g.Valid() && b < |body.blocks| && BlockRest(g, body, b, next).Ok?
    ensures ReadsBelow(|g.tys|, BlockRest(g, body, b, next).value.code)
  {
    RestReads(g, BlocksOf(body.blocks), body.returnLocal, body.blocks[b].statements, body.blocks[b].terminator, next);
  }

  lemma ReadsAssigned(code: C.Code, n: nat, all: set<C.Variable>, before: set<C.Variable>)
    requires ReadsBelow(n, code) && (forall v :: 0 <= v < n ==> v in all) && all <= before
    ensures C.ReadsDefined(before, code)
  {
  }

  lemma PathStartsAtEntry(f: C.Function, path: seq<nat>)
    requires C.IsPath(f, path) && path[|path| - 1] != 0
    ensures C.Assigned(f.blocks[0]) <= C.AssignedOn(f, path[..|path| - 1])
  {
    assert path[..|path| - 1][0] == 0;
  }

  lemma ReadsAfterPrologue(prologue: C.Code, rest: C.Code, n: nat, before: set<C.Variable>)
    requires ReadsBelow(0, prologue) && ReadsBelow(n, rest)
    requires forall v :: 0 <= v < n ==> v in C.Assigned(prologue)
    ensures C.ReadsDefined(before, prologue + rest)
  {
    var code := prologue + rest;
    forall i | 0 <= i < |code| && code[i].UseVar? ensures code[i].read in before + C.Assigned(code[..i]) {
      assert i >= |prologue|;
      assert code[i] == rest[i - |prologue|];
      assert code[..i] == prologue + rest[..i - |prologue|];
      AssignedConcat(prologue, rest[..i - |prologue|]);
    }
  }

  lemma EntryAssigns(body: Body, f: C.Function, g: Scope, prologue: Lines)
    requires ValidBody(body) && Parts(body, f, g, prologue)
    ensures |f.blocks| > 0 && C.Assigned(prologue.code) <= C.Assigned(f.blocks[0])
  {
    var start := BlockParts(body, f, g, prologue, 0);
    AssignedConcat(prologue.code, BlockRest(g, body, 0, start).value.code);
  }

  /** On success the function is well formed exactly when operand types agree and nothing jumps to the entry. */
  lemma WellFormedExactlyTyped(body: Body)
    requires ValidBody(body) && LowerBody(body).Ok?
    ensures C.WellFormed(LowerBody(body).value) <==> Typed(body)
  {
    BlocksOkExactlyTyped(body);
    VariablesAreDefined(body);
    ValuesAreNumbered(body);
    var f, g, prologue := GetParts(body);
    EntryAssigns(body, f, g, prologue);
  }

  /** Locals that are all Int or None: the 64-bit bodies. */
  predicate AllI64(body: Body) {
    forall i :: 0 <= i < |body.locals| ==> body.locals[i].ty.Int? || body.locals[i].ty.None?
  }

  predicate NothingJumpsToEntry(body: Body) {
    forall i :: 0 <= i < |body.blocks| ==> body.blocks[i].terminator != Goto(0)
  }

  /** For 64-bit bodies, types always agree, so the jump to the entry is the only obstacle. */
  lemma I64WellFormed(body: Body)
    requires ValidBody(body) && LowerBody(body).Ok? && AllI64(body)
    ensures C.WellFormed(LowerBody(body).value) <==> NothingJumpsToEntry(body)
  {
    WellFormedExactlyTyped(body);
    AcceptsExactlyWave1(body);
    VarsOfKeys(body.locals);
    var f, g, prologue := GetParts(body);
    forall l | l in g.vars ensures LocalIrTy(g, l) == C.I64 {
      VarsOfRange(body.locals);
      LocalTysAt(body.locals, g.vars[l]);
    }
    forall i | 0 <= i < |body.blocks|
      ensures BlockTyped(g, body, body.blocks[i]) <==> body.blocks[i].terminator != Goto(0)
    {
      I64BlockTyped(g, body, i);
    }
  }

  lemma I64BlockTyped(g: Scope, body: Body, i: nat)
    requires g.Valid() && i < |body.blocks| && (forall l :: l in g.vars ==> LocalIrTy(g, l) == C.I64)
    requires BlockOk(g.vars.Keys, set b <- body.blocks :: b.id, body.returnLocal, body.blocks[i])
    ensures BlockTyped(g, body, body.blocks[i]) <==> body.blocks[i].terminator != Goto(0)
  {
    var ss := body.blocks[i].statements;
    forall j | 0 <= j < |ss| ensures StatementTyped(g, ss[j]) {
      assert StatementOk(g.vars.Keys, ss[j]);
    }
  }

  /**
    Boolean constants are I64 and `Bool` locals I8, so a body that stores one in the other is
    accepted and yet its function is ill formed.
  */
  lemma BoolAssignmentIsIllTyped(body: Body, i: nat, j: nat, k: nat, b: bool)
    requires ValidBody(body) && LowerBody(body).Ok?
    requires i < |body.blocks| && j < |body.blocks[i].statements| && k < |body.locals| && body.locals[k].ty.Bool?
    requires body.blocks[i].statements[j] == Assign(Place(body.locals[k].id, []), Use(Const(Constant.Bool(b))))
    ensures !C.WellFormed(LowerBody(body).value)
  {
    WellFormedExactlyTyped(body);
    var f, g, prologue := GetParts(body);
    VarsOfExact(body.locals, k);
    LocalTysAt(body.locals, k);
    assert !StatementTyped(g, body.blocks[i].statements[j]);
    assert !BlockTyped(g, body, body.blocks[i]);
  }
}
