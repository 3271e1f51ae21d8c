/** The emitted values are numbered 0, 1, 2, ... in the order of their definitions, so none is defined twice. */
module LoweringValues {
  import opened Wrappers
  import opened Mir
  import opened LoweringSpec
  import C = Cranelift

  /** The numbers from `a` up to, not including, `b`. */
  function Count(a: nat, b: nat): (ids: seq<nat>)
    requires a <= b
    ensures |ids| == b - a && forall i :: 0 <= i < |ids| ==> ids[i] == a + i
  {
    seq(b - a, i => a + i)
  }

  lemma CountOn(a: nat, b: nat, c: nat)
    requires a <= b <= c
    ensures Count(a, b) + Count(b, c) == Count(a, c)
  {
  }

  /** The code defines the values from `a` to `b`, in order. */
  ghost predicate Numbers(code: C.Code, a: nat, b: nat) {
    a <= b && C.DefinedIds(code) == Count(a, b)
  }

  lemma {:induction false} IdsConcat(x: C.Code, y: C.Code)
    ensures C.DefinedIds(x + y) == C.DefinedIds(x) + C.DefinedIds(y)
  {
    if x == [] {
      assert x + y == y;
    } else {
      assert (x + y)[1..] == x[1..] + y;
      IdsConcat(x[1..], y);
    }
  }

  lemma NumbersConcat(x: C.Code, y: C.Code, a: nat, b: nat, c: nat)
    requires Numbers(x, a, b) && Numbers(y, b, c)
    ensures Numbers(x + y, a, c)
  {
    IdsConcat(x, y);
    CountOn(a, b, c);
  }

  /** An instruction that defines the next value, or none. */
  lemma NumbersOne(inst: C.Inst, a: nat)
    ensures inst.DefVar? || C.IsTerminator(inst) ==> Numbers([inst], a, a)
    ensures !inst.DefVar? && !C.IsTerminator(inst) && inst.dst.id == a ==> Numbers([inst], a, a + 1)
  {
    assert [inst][1..] == [];
    assert C.DefinedIds([]) == [];
  }

  lemma OperandNumbers(g: Scope, op: Operand, next: nat)
    requires g.Valid() && EmitOperand(g, op, next).Ok?
    ensures var e := EmitOperand(g, op, next).value; Numbers(e.code, next, e.next)
  {
    NumbersOne(EmitOperand(g, op, next).value.code[0], next);
  }

  lemma AppendNumbers(code: C.Code, inst: C.Inst, a: nat, b: nat)
    requires Numbers(code, a, b) && !inst.DefVar? && !C.IsTerminator(inst) && inst.dst.id == b
    ensures Numbers(code + [inst], a, b + 1)
  {
    NumbersOne(inst, b);
    NumbersConcat(code, [inst], a, b, b + 1);
  }

  lemma BinaryNumbers(g: Scope, bin: BinOp, lhs: Operand, rhs: Operand, next: nat)
    requires g.Valid() && EmitRvalue(g, BinaryOp(bin, lhs, rhs), next).Ok?
    ensures var e := EmitRvalue(g, BinaryOp(bin, lhs, rhs), next).value; Numbers(e.code, next, e.next)
  {
    var l := EmitOperand(g, lhs, next).value;
    var r := EmitOperand(g, rhs, l.next).value;
    OperandNumbers(g, lhs, next);
    OperandNumbers(g, rhs, l.next);
    NumbersConcat(l.code, r.code, next, l.next, r.next);
    var code := EmitBinary(bin, l, r).value.code;
    AppendNumbers(l.code + r.code, code[|code| - 1], next, r.next);
  }

  lemma UnaryNumbers(g: Scope, un: UnOp, val: Operand, next: nat)
    requires g.Valid() && EmitRvalue(g, UnaryOp(un, val), next).Ok?
    ensures var e := EmitRvalue(g, UnaryOp(un, val), next).value; Numbers(e.code, next, e.next)
  {
    var v := EmitOperand(g, val, next).value;
    OperandNumbers(g, val, next);
    if un.Neg? {
      AppendNumbers(v.code, C.Ineg(C.Val(v.next, v.val.ty), v.val), next, v.next);
    }
  }

  lemma RvalueNumbers(g: Scope, rv: Rvalue, next: nat)
    requires g.Valid() && EmitRvalue(g, rv, next).Ok?
    ensures var e := EmitRvalue(g, rv, next).value; Numbers(e.code, next, e.next)
  {
    match rv
    case Use(op) => OperandNumbers(g, op, next);
    case BinaryOp(bin, lhs, rhs) => BinaryNumbers(g, bin, lhs, rhs, next);
    case UnaryOp(un, val) => UnaryNumbers(g, un, val, next);
  }

  lemma NoneNumbers(a: nat)
    ensures Numbers([], a, a)
  {
  }

  lemma StatementNumbers(g: Scope, s: Statement, next: nat)
    requires g.Valid() && EmitStatement(g, s, next).Ok?
    ensures var e := EmitStatement(g, s, next).value; Numbers(e.code, next, e.next)
  {
    if s.Assign? {
      var e := EmitRvalue(g, s.rvalue, next).value;
      var store := C.DefVar(g.vars[s.place.local], e.val);
      RvalueNumbers(g, s.rvalue, next);
      NumbersOne(store, e.next);
      NumbersConcat(e.code, [store], next, e.next, e.next);
    } else {
      NoneNumbers(next);
    }
  }

  lemma TerminatorNumbers(g: Scope, blocks: BlockMap, returnLocal: LocalId, t: Terminator, next: nat)
    requires g.Valid() && EmitTerminator(g, blocks, returnLocal, t, next).Ok?
    ensures var e := EmitTerminator(g, blocks, returnLocal, t, next).value; Numbers(e.code, next, e.next)
  {
    var code := EmitTerminator(g, blocks, returnLocal, t, next).value.code;
    NumbersOne(code[0], next);
    if t.Return? {
      NumbersOne(code[1], next + 1);
      NumbersConcat([code[0]], [code[1]], next, next + 1, next + 1);
      assert code == [code[0]] + [code[1]];
    }
  }

  lemma {:induction false} RestNumbers(g: Scope, blocks: BlockMap, returnLocal: LocalId, ss: seq<Statement>,
      t: Terminator, next: nat)
    requires g.Valid() && EmitRest(g, blocks, returnLocal, ss, t, next).Ok?
    ensures var e := EmitRest(g, blocks, returnLocal, ss, t, next).value; Numbers(e.code, next, e.next)
    decreases |ss|
  {
    if ss == [] {
      TerminatorNumbers(g, blocks, returnLocal, t, next);
    } else {
      var first := EmitStatement(g, ss[0], next).value;
      var rest := EmitRest(g, blocks, returnLocal, ss[1..], t, first.next).value;
      StatementNumbers(g, ss[0], next);
      RestNumbers(g, blocks, returnLocal, ss[1..], t, first.next);
      NumbersConcat(first.code, rest.code, next, first.next, rest.next);
    }
  }

  lemma {:induction false} BindNumbers(vars: VarMap, params: seq<LocalDecl>, vals: seq<C.Val>, a: nat)
    requires |params| == |vals| && forall i :: 0 <= i < |params| ==> params[i].id in vars
    ensures Numbers(BindParams(vars, params, vals), a, a)
    decreases |params|
  {
    if params == [] {
      NoneNumbers(a);
    } else {
      var n := |params| - 1;
      var last := C.DefVar(vars[params[n].id], vals[n]);
      BindNumbers(vars, params[..n], vals[..n], a);
      NumbersOne(last, a);
      NumbersConcat(BindParams(vars, params[..n], vals[..n]), [last], a, a, a);
    }
  }

  lemma {:induction false} ZeroNumbers(g: Scope, params: seq<LocalDecl>, locals: seq<LocalDecl>, next: nat)
    requires g.Valid() && forall i :: 0 <= i < |locals| ==> locals[i].id in g.vars
    ensures var e := ZeroLocals(g, params, locals, next); Numbers(e.code, next, e.next)
    decreases |locals|
  {
    if locals == [] {
      NoneNumbers(next);
    } else {
      var n := |locals| - 1;
      var before := ZeroLocals(g, params, locals[..n], next);
      ZeroNumbers(g, params, locals[..n], next);
      if !IsParam(params, locals[n].id) {
        var v := C.Val(before.next, g.tys[g.vars[locals[n].id]]);
        OneZeroNumbers(before.code, v, g.vars[locals[n].id], next, before.next);
      }
    }
  }

  lemma OneZeroNumbers(code: C.Code, v: C.Val, variable: C.Variable, a: nat, b: nat)
    requires Numbers(code, a, b) && v.id == b
    ensures Numbers(code + [C.Iconst(v, 0), C.DefVar(variable, v)], a, b + 1)
  {
    AppendNumbers(code, C.Iconst(v, 0), a, b);
    NumbersOne(C.DefVar(variable, v), b + 1);
    NumbersConcat(code + [C.Iconst(v, 0)], [C.DefVar(variable, v)], a, b + 1, b + 1);
    assert code + [C.Iconst(v, 0)] + [C.DefVar(variable, v)] == code + [C.Iconst(v, 0), C.DefVar(variable, v)];
  }

  lemma PrologueNumbers(body: Body, g: Scope, vals: seq<C.Val>)
    requires g.Valid() && |vals| == |ParamLocals(body)|
    requires forall i :: 0 <= i < |body.locals| ==> body.locals[i].id in g.vars
    ensures var e := Prologue(body, g, vals); Numbers(e.code, |vals|, e.next)
  {
    var params := ParamLocals(body);
    ParamsAreLocals(body);
    var zeros := ZeroLocals(g, params, body.locals, |vals|);
    BindNumbers(g.vars, params, vals, |vals|);
    ZeroNumbers(g, params, body.locals, |vals|);
    NumbersConcat(BindParams(g.vars, params, vals), zeros.code, |vals|, |vals|, zeros.next);
  }

  /** The values of the blocks from number `i` on, the prologue's being those from `start` to `next`. */
  lemma {:induction false} BlocksNumber(g: Scope, body: Body, prologue: C.Code, start: nat, i: nat, next: nat)
    returns (end: nat)
    requires g.Valid() && i <= |body.blocks| && EmitBlocks(g, body, prologue, i, next).Ok?
    requires if i == 0 then Numbers(prologue, start, next) && body.blocks != [] else start == next
    ensures start <= end && C.BlockIds(EmitBlocks(g, body, prologue, i, next).value) == Count(start, end)
    decreases |body.blocks| - i
  {
    if i == |body.blocks| {
      end := start;
    } else {
      var block := body.blocks[i];
      var first := EmitRest(g, BlocksOf(body.blocks), body.returnLocal, block.statements, block.terminator, next).value;
      var lead := if i == 0 then prologue else [];
      RestNumbers(g, BlocksOf(body.blocks), body.returnLocal, block.statements, block.terminator, next);
      NoneNumbers(start);
      NumbersConcat(lead, first.code, start, next, first.next);
      end := BlocksNumber(g, body, prologue, first.next, i + 1, first.next);
      BlockIdsStep(lead + first.code, EmitBlocks(g, body, prologue, i + 1, first.next).value, start, first.next, end);
    }
  }

  lemma BlockIdsStep(block: C.Code, rest: seq<C.Code>, a: nat, b: nat, c: nat)
    requires Numbers(block, a, b) && b <= c && C.BlockIds(rest) == Count(b, c)
    ensures C.BlockIds([block] + rest) == Count(a, c)
  {
    assert ([block] + rest)[1..] == rest;
    CountOn(a, b, c);
  }

  lemma {:induction false} ParamsNumber(tys: seq<C.IrType>)
    ensures C.ParamIds(ParamVals(tys)) == Count(0, |tys|)
    decreases |tys|
  {
    if tys != [] {
      ParamsNumber(tys[..|tys| - 1]);
      forall i | 0 <= i < |tys| ensures ParamVals(tys)[i].id == i {
        if i < |tys| - 1 {
          assert C.ParamIds(ParamVals(tys[..|tys| - 1]))[i] == i;
        }
      }
    }
  }

  /** Values are numbered in the order of their definitions, without gaps; so each is defined once. */
  lemma ValuesAreNumbered(body: Body)
    requires LowerBody(body).Ok? && body.blocks != []
    ensures var f := LowerBody(body).value;
            C.DefinedOnce(f) && C.ValueIds(f) == Count(0, |C.ValueIds(f)|)
  {
    var tys, paramTys := LocalTys(body.locals).value, ParamTys(ParamLocals(body)).value;
    var g, vals := ScopeOf(body, tys), ParamVals(paramTys);
    VarsOfRange(body.locals);
    var prologue := Prologue(body, g, vals);
    PrologueNumbers(body, g, vals);
    var end := BlocksNumber(g, body, prologue.code, |vals|, 0, prologue.next);
    ParamsNumber(paramTys);
    CountOn(0, |vals|, end);
    assert C.ValueIds(LowerBody(body).value) == Count(0, end);
  }
}
