/** The lowering in the source's form: emitters that mutate a function builder. */
module Lowering {
  import opened Wrappers
  import opened Mir
  import opened LoweringSpec
  import C = Cranelift

  type Builder = C.FunctionBuilder

  /** A builder positioned in a block, with a variable for every local in the map. */
  ghost predicate Ready(b: Builder, vars: VarMap)
    reads b
  {
    b.current < |b.blocks| && Scope(vars, b.vars).Valid()
  }

  method LowerConstant(b: Builder, c: Constant) returns (r: Result<C.Val, CodegenError>)
    requires b.current < |b.blocks|
    modifies b
    ensures var e := EmitConstant(c, old(b.next));
            if e.Ok? then r == Ok(e.value.val) && b.Appended(e.value.code, e.value.next) else r == Err(e.error)
  {
    match c
    case Int(n) =>
      var v := b.Fresh(C.I64);
      b.Append(C.Iconst(v, n));
      r := Ok(v);
    case Bool(p) =>
      var v := b.Fresh(C.I64);
      b.Append(C.Iconst(v, if p then 1 else 0));
      r := Ok(v);
    case _ => r := Err(InvalidMir);
  }

  method LowerPlace(b: Builder, vars: VarMap, place: Place) returns (r: Result<C.Val, CodegenError>)
    requires Ready(b, vars)
    modifies b
    ensures var e := EmitPlace(Scope(vars, old(b.vars)), place, old(b.next));
            if e.Ok? then r == Ok(e.value.val) && b.Appended(e.value.code, e.value.next) else r == Err(e.error)
  {
    if place.projections != [] {
      return Err(InvalidMir);
    }
    if place.local !in vars {
      return Err(Internal);
    }
    var v := b.Fresh(b.vars[vars[place.local]]);
    b.Append(C.UseVar(v, vars[place.local]));
    r := Ok(v);
  }

  method LowerOperand(b: Builder, vars: VarMap, op: Operand) returns (r: Result<C.Val, CodegenError>)
    requires Ready(b, vars)
    modifies b
    ensures var e := EmitOperand(Scope(vars, old(b.vars)), op, old(b.next));
            if e.Ok? then r == Ok(e.value.val) && b.Appended(e.value.code, e.value.next) else r == Err(e.error)
  {
    match op
    case Copy(place) => r := LowerPlace(b, vars, place);
    case Move(place) => r := LowerPlace(b, vars, place);
    case Const(c) => r := LowerConstant(b, c);
  }

  method LowerRvalue(b: Builder, vars: VarMap, rv: Rvalue) returns (r: Result<C.Val, CodegenError>)
    requires Ready(b, vars)
    modifies b
    ensures var e := EmitRvalue(Scope(vars, old(b.vars)), rv, old(b.next));
            if e.Ok? then r == Ok(e.value.val) && b.Appended(e.value.code, e.value.next) else r == Err(e.error)
  {
    match rv
    case Use(op) => r := LowerOperand(b, vars, op);
    case BinaryOp(bin, lhs, rhs) => r := LowerBinary(b, vars, bin, lhs, rhs);
    case UnaryOp(un, val) => r := LowerUnary(b, vars, un, val);
    case _ => r := Err(InvalidMir);
  }

  method LowerBinary(b: Builder, vars: VarMap, bin: BinOp, lhs: Operand, rhs: Operand)
    returns (r: Result<C.Val, CodegenError>)
    requires Ready(b, vars)
    modifies b
    ensures var e := EmitRvalue(Scope(vars, old(b.vars)), BinaryOp(bin, lhs, rhs), old(b.next));
            if e.Ok? then r == Ok(e.value.val) && b.Appended(e.value.code, e.value.next) else r == Err(e.error)
  {
    ghost var start, g, next := b.blocks, Scope(vars, b.vars), b.next;
    var l := LowerOperand(b, vars, lhs);
    if l.Err? {
      return l;
    }
    var right := LowerOperand(b, vars, rhs);
    if right.Err? {
      return right;
    }
    ghost var el := EmitOperand(g, lhs, next).value;
    ghost var er := EmitOperand(g, rhs, el.next).value;
    C.ExtendTwice(start, b.current, el.code, er.code);
    ghost var op := EmitOperator(bin, l.value, right.value, b.next);
    if op.Ok? {
      C.ExtendTwice(start, b.current, el.code + er.code, op.value.code);
    }
    r := LowerOperator(b, bin, l.value, right.value);
  }

  /** The instruction of a binary operator whose operands are there. */
  method LowerOperator(b: Builder, bin: BinOp, left: C.Val, right: C.Val) returns (r: Result<C.Val, CodegenError>)
    requires b.current < |b.blocks|
    modifies b
    ensures var e := EmitOperator(bin, left, right, old(b.next));
            if e.Ok? then r == Ok(e.value.val) && b.Appended(e.value.code, e.value.next) else r == Err(e.error)
  {
    match bin
    case Add =>
      var v := b.Fresh(left.ty);
      b.Append(C.Iadd(v, left, right));
      r := Ok(v);
    case Sub =>
      var v := b.Fresh(left.ty);
      b.Append(C.Isub(v, left, right));
      r := Ok(v);
    case Mul =>
      var v := b.Fresh(left.ty);
      b.Append(C.Imul(v, left, right));
      r := Ok(v);
    case _ => r := Err(InvalidMir);
  }

  method LowerUnary(b: Builder, vars: VarMap, un: UnOp, val: Operand) returns (r: Result<C.Val, CodegenError>)
    requires Ready(b, vars)
    modifies b
    ensures var e := EmitRvalue(Scope(vars, old(b.vars)), UnaryOp(un, val), old(b.next));
            if e.Ok? then r == Ok(e.value.val) && b.Appended(e.value.code, e.value.next) else r == Err(e.error)
  {
    ghost var start, operand := b.blocks, EmitOperand(Scope(vars, b.vars), val, b.next);
    var v := LowerOperand(b, vars, val);
    if v.Err? {
      return v;
    }
    C.ExtendTwice(start, b.current, operand.value.code, [C.Ineg(C.Val(b.next, v.value.ty), v.value)]);
    match un
    case Neg =>
      var w := b.Fresh(v.value.ty);
      b.Append(C.Ineg(w, v.value));
      r := Ok(w);
    case Plus => r := v;
    case _ => r := Err(InvalidMir);
  }

  method LowerStatement(b: Builder, vars: VarMap, s: Statement) returns (r: Result<(), CodegenError>)
    requires Ready(b, vars)
    modifies b
    ensures var e := EmitStatement(Scope(vars, old(b.vars)), s, old(b.next));
            if e.Ok? then r == Ok(()) && b.Appended(e.value.code, e.value.next) else r == Err(e.error)
  {
    r := Ok(());
    ghost var start, g, next := b.blocks, Scope(vars, b.vars), b.next;
    C.ExtendNone(start, b.current);
    if s.Assign? {
      if s.place.projections != [] {
        return Err(InvalidMir);
      }
      var v := LowerRvalue(b, vars, s.rvalue);
      if v.Err? {
        return Err(v.error);
      }
      if s.place.local !in vars {
        return Err(Internal);
      }
      C.ExtendTwice(start, b.current, EmitRvalue(g, s.rvalue, next).value.code,
          [C.DefVar(vars[s.place.local], v.value)]);
      b.Append(C.DefVar(vars[s.place.local], v.value));
    }
  }

  method LowerTerminator(b: Builder, vars: VarMap, blocks: BlockMap, t: Terminator, returnLocal: LocalId)
    returns (r: Result<(), CodegenError>)
    requires Ready(b, vars)
    modifies b
    ensures var e := EmitTerminator(Scope(vars, old(b.vars)), blocks, returnLocal, t, old(b.next));
            if e.Ok? then r == Ok(()) && b.Appended(e.value.code, e.value.next) else r == Err(e.error)
  {
    r := Ok(());
    match t
    case Return =>
      if returnLocal !in vars {
        return Err(Internal);
      }
      var v := b.Fresh(b.vars[vars[returnLocal]]);
      C.ExtendTwice(b.blocks, b.current, [C.UseVar(v, vars[returnLocal])], [C.Return(v)]);
      assert [C.UseVar(v, vars[returnLocal])] + [C.Return(v)] == [C.UseVar(v, vars[returnLocal]), C.Return(v)];
      b.Append(C.UseVar(v, vars[returnLocal]));
      b.Append(C.Return(v));
    case Goto(target) =>
      if target !in blocks {
        return Err(InvalidMir);
      }
      b.Append(C.Jump(blocks[target]));
    case Unreachable => b.Append(C.Trap);
    case _ => r := Err(InvalidMir);
  }

  /** The statements of a block and its terminator. */
  method LowerBlock(b: Builder, vars: VarMap, blocks: BlockMap, block: BasicBlock, returnLocal: LocalId)
    returns (r: Result<(), CodegenError>)
    requires Ready(b, vars)
    modifies b
    ensures var e := EmitRest(Scope(vars, old(b.vars)), blocks, returnLocal, block.statements, block.terminator,
            old(b.next));
            if e.Ok? then r == Ok(()) && b.Appended(e.value.code, e.value.next) else r == Err(e.error)
  {
    ghost var g := Scope(vars, b.vars);
    ghost var start := b.blocks;
    ghost var done: C.Code := [];
    ghost var ss, t := block.statements, block.terminator;
    C.ExtendNone(start, b.current);
    assert ss[0..] == ss;
    PrefixedNone(EmitRest(g, blocks, returnLocal, ss, t, b.next));
    for i := 0 to |block.statements|
      invariant b.vars == old(b.vars) && b.params == old(b.params) && b.current == old(b.current)
      invariant b.blocks == C.Extended(start, b.current, done)
      invariant EmitRest(g, blocks, returnLocal, ss, t, old(b.next)) ==
                Prefixed(done, EmitRest(g, blocks, returnLocal, ss[i..], t, b.next))
    {
      ghost var next := b.next;
      var s := LowerStatement(b, vars, block.statements[i]);
      if s.Err? {
        return s;
      }
      ghost var code := EmitStatement(g, ss[i], next).value.code;
      assert ss[i..][1..] == ss[i + 1..];
      PrefixedTwice(done, code, EmitRest(g, blocks, returnLocal, ss[i + 1..], t, b.next));
      C.ExtendTwice(start, b.current, done, code);
      done := done + code;
    }
    ghost var code := EmitTerminator(g, blocks, returnLocal, t, b.next);
    r := LowerTerminator(b, vars, blocks, block.terminator, returnLocal);
    if code.Ok? {
      C.ExtendTwice(start, b.current, done, code.value.code);
    }
  }

  function Prefixed(code: C.Code, rest: Listing): Listing {
    var r :- rest;
    Ok(Lines(code + r.code, r.next))
  }

  lemma PrefixedNone(rest: Listing)
    ensures Prefixed([], rest) == rest
  {
    if rest.Ok? {
      assert [] + rest.value.code == rest.value.code;
    }
  }

  lemma PrefixedTwice(a: C.Code, b: C.Code, rest: Listing)
    ensures Prefixed(a, Prefixed(b, rest)) == Prefixed(a + b, rest)
  {
    if rest.Ok? {
      assert a + (b + rest.value.code) == a + b + rest.value.code;
    }
  }

  /** `body_signature_wave1`: the parameter types. */
  method BodySignature(body: Body) returns (r: Result<seq<C.IrType>, CodegenError>)
    ensures r == ParamTys(ParamLocals(body))
  {
    var params := ParamLocals(body);
    var sig: seq<C.IrType> := [];
    assert params[..0] == [];
    for i := 0 to |params|
      invariant ParamTys(params[..i]) == Ok(sig)
    {
      assert params[..i + 1][..i] == params[..i];
      var ty := LowerTy(params[i].ty);
      if ty.Err? || ty.value.INVALID? {
        ParamTysFails(params, i + 1);
        return Err(if ty.Err? then ty.error else InvalidMir);
      }
      sig := sig + [ty.value];
    }
    assert params[..|params|] == params;
    r := Ok(sig);
  }

  lemma {:induction false} ParamTysFails(params: seq<LocalDecl>, i: nat)
    requires i <= |params| && ParamTys(params[..i]).Err?
    ensures ParamTys(params) == ParamTys(params[..i])
    decreases |params|
  {
    if i < |params| {
      var n := |params| - 1;
      assert params[..n][..i] == params[..i];
      ParamTysFails(params[..n], i);
    } else {
      assert params[..i] == params;
    }
  }

  /** `infer_locals_wave1`: the variable type of every local. */
  method InferLocals(body: Body) returns (r: Result<seq<C.IrType>, CodegenError>)
    ensures r == LocalTys(body.locals)
  {
    var locals := body.locals;
    var tys: seq<C.IrType> := [];
    assert locals[..0] == [];
    for i := 0 to |locals|
      invariant LocalTys(locals[..i]) == Ok(tys)
    {
      assert locals[..i + 1][..i] == locals[..i];
      var ty := LocalTy(locals[i].ty);
      if ty.Err? {
        LocalTysFails(locals, i + 1);
        return Err(ty.error);
      }
      tys := tys + [ty.value];
    }
    assert locals[..|locals|] == locals;
    r := Ok(tys);
  }

  lemma {:induction false} LocalTysFails(locals: seq<LocalDecl>, i: nat)
    requires i <= |locals| && LocalTys(locals[..i]).Err?
    ensures LocalTys(locals) == LocalTys(locals[..i])
    decreases |locals|
  {
    if i < |locals| {
      var n := |locals| - 1;
      assert locals[..n][..i] == locals[..i];
      LocalTysFails(locals[..n], i);
    } else {
      assert locals[..i] == locals;
    }
  }

  /** One empty block for each MIR block, the entry with the signature's parameters. */
  method CreateBlocks(b: Builder, body: Body, sig: seq<C.IrType>) returns (blocks: BlockMap)
    requires b.blocks == [] && b.params == [] && b.next == 0 && |body.blocks| > 0
    modifies b
    ensures blocks == BlocksOf(body.blocks)
    ensures b.blocks == seq(|body.blocks|, i => []) && b.params == ParamVals(sig) && b.next == |sig|
    ensures b.vars == old(b.vars) && b.current == old(b.current)
  {
    blocks := map[];
    assert body.blocks[..0] == [];
    for i := 0 to |body.blocks|
      invariant blocks == BlocksOf(body.blocks[..i]) && b.blocks == seq(i, j => [])
      invariant if i == 0 then b.params == [] && b.next == 0 else b.params == ParamVals(sig) && b.next == |sig|
      invariant b.vars == old(b.vars) && b.current == old(b.current)
    {
      var block := b.CreateBlock();
      if i == 0 {
        AppendParams(b, sig);
      }
      assert body.blocks[..i + 1][..i] == body.blocks[..i];
      blocks := blocks[body.blocks[i].id := block];
    }
    assert body.blocks[..|body.blocks|] == body.blocks;
  }

  method AppendParams(b: Builder, sig: seq<C.IrType>)
    requires b.params == [] && b.next == 0
    modifies b`params, b`next
    ensures b.params == ParamVals(sig) && b.next == |sig|
  {
    assert sig[..0] == [];
    for i := 0 to |sig|
      invariant b.params == ParamVals(sig[..i]) && b.next == i
    {
      assert sig[..i + 1][..i] == sig[..i];
      b.AppendBlockParam(sig[i]);
    }
    assert sig[..|sig|] == sig;
  }

  method DeclareVars(b: Builder, locals: seq<LocalDecl>, tys: seq<C.IrType>) returns (vars: VarMap)
    requires b.vars == [] && |tys| == |locals|
    modifies b`vars
    ensures vars == VarsOf(locals) && b.vars == tys
  {
    vars := map[];
    assert locals[..0] == [];
    for i := 0 to |locals|
      invariant vars == VarsOf(locals[..i]) && b.vars == tys[..i]
    {
      var v := b.DeclareVar(tys[i]);
      assert locals[..i + 1][..i] == locals[..i];
      vars := vars[locals[i].id := v];
    }
    assert locals[..|locals|] == locals;
  }

  /** Bind the parameters, then start every other local at 0. */
  method EmitPrologue(b: Builder, body: Body, vars: VarMap)
    requires Ready(b, vars) && b.next == |b.params| == |ParamLocals(body)|
    requires forall i :: 0 <= i < |body.locals| ==> body.locals[i].id in vars
    modifies b
    ensures var p := Prologue(body, Scope(vars, old(b.vars)), old(b.params)); b.Appended(p.code, p.next)
  {
    var params := ParamLocals(body);
    ParamsAreLocals(body);
    ghost var start := b.blocks;
    BindAll(b, vars, params);
    ghost var zeros := ZeroLocals(Scope(vars, b.vars), params, body.locals, b.next);
    ZeroOthers(b, vars, params, body.locals);
    C.ExtendTwice(start, b.current, BindParams(vars, params, b.params), zeros.code);
  }

  method BindAll(b: Builder, vars: VarMap, params: seq<LocalDecl>)
    requires Ready(b, vars) && |b.params| == |params| && forall i :: 0 <= i < |params| ==> params[i].id in vars
    modifies b
    ensures b.Appended(BindParams(vars, params, old(b.params)), old(b.next))
  {
    ghost var start := b.blocks;
    assert params[..0] == [] && b.params[..0] == [];
    C.ExtendNone(start, b.current);
    for i := 0 to |params|
      invariant b.params == old(b.params)
      invariant b.Appended(BindParams(vars, params[..i], b.params[..i]), old(b.next))
    {
      assert params[..i + 1][..i] == params[..i] && b.params[..i + 1][..i] == b.params[..i];
      C.ExtendTwice(start, b.current, BindParams(vars, params[..i], b.params[..i]),
          [C.DefVar(vars[params[i].id], b.params[i])]);
      b.Append(C.DefVar(vars[params[i].id], b.params[i]));
    }
    assert params[..|params|] == params && b.params[..|params|] == b.params;
  }

  method ZeroOthers(b: Builder, vars: VarMap, params: seq<LocalDecl>, locals: seq<LocalDecl>)
    requires Ready(b, vars) && forall i :: 0 <= i < |locals| ==> locals[i].id in vars
    modifies b
    ensures var z := ZeroLocals(Scope(vars, old(b.vars)), params, locals, old(b.next)); b.Appended(z.code, z.next)
  {
    ghost var start, g, next := b.blocks, Scope(vars, b.vars), b.next;
    assert locals[..0] == [];
    C.ExtendNone(start, b.current);
    for i := 0 to |locals|
      invariant var z := ZeroLocals(g, params, locals[..i], next); b.Appended(z.code, z.next)
    {
      assert locals[..i + 1][..i] == locals[..i];
      if !IsParam(params, locals[i].id) {
        ghost var before := ZeroLocals(g, params, locals[..i], next).code;
        var v := b.Fresh(b.vars[vars[locals[i].id]]);
        ghost var zero, def := C.Iconst(v, 0), C.DefVar(vars[locals[i].id], v);
        C.ExtendTwice(start, b.current, before, [zero]);
        C.ExtendTwice(start, b.current, before + [zero], [def]);
        assert before + [zero] + [def] == before + [zero, def];
        b.Append(C.Iconst(v, 0));
        b.Append(C.DefVar(vars[locals[i].id], v));
      }
    }
    assert locals[..|locals|] == locals;
  }

  /** `lower_body_wave1`. */
  method Lower(body: Body) returns (r: Result<C.Function, CodegenError>)
    requires ValidBody(body)
    ensures r == LowerBody(body)
  {
    var sig := BodySignature(body);
    if sig.Err? {
      return Err(sig.error);
    }
    var tys := InferLocals(body);
    if tys.Err? {
      return Err(tys.error);
    }
    LowerBodyFrom(body, sig.value, tys.value);
    var b := new C.FunctionBuilder();
    var emitted := BuildBlocks(b, body, sig.value, tys.value);
    if emitted.Err? {
      return Err(emitted.error);
    }
    r := Ok(C.Function(b.params, b.vars, b.blocks));
  }

  /** The blocks of the function, given the types of its parameters and of its variables. */
  function BodyBlocks(body: Body, sig: seq<C.IrType>, tys: seq<C.IrType>): Result<seq<C.Code>, CodegenError>
    requires |sig| == |ParamLocals(body)| && |tys| == |body.locals|
  {
    VarsOfRange(body.locals);
    var g := ScopeOf(body, tys);
    var prologue := Prologue(body, g, ParamVals(sig));
    EmitBlocks(g, body, prologue.code, 0, prologue.next)
  }

  lemma LowerBodyFrom(body: Body, sig: seq<C.IrType>, tys: seq<C.IrType>)
    requires ParamTys(ParamLocals(body)) == Ok(sig) && LocalTys(body.locals) == Ok(tys)
    ensures var blocks := BodyBlocks(body, sig, tys);
            LowerBody(body) == if blocks.Ok? then Ok(C.Function(ParamVals(sig), tys, blocks.value))
                else Err(blocks.error)
  {
  }

  /** A fresh builder receives the blocks, the variables, the prologue and the code of every block. */
  method BuildBlocks(b: Builder, body: Body, sig: seq<C.IrType>, tys: seq<C.IrType>)
    returns (r: Result<(), CodegenError>)
    requires ValidBody(body) && |sig| == |ParamLocals(body)| && |tys| == |body.locals|
    requires b.params == [] && b.vars == [] && b.blocks == [] && b.current == 0 && b.next == 0
    modifies b
    ensures r.Ok? ==> b.params == ParamVals(sig) && b.vars == tys
    ensures var blocks := BodyBlocks(body, sig, tys);
            if blocks.Ok? then r == Ok(()) && b.blocks == blocks.value else r == Err(blocks.error)
  {
    VarsOfRange(body.locals);
    var blocks := CreateBlocks(b, body, sig);
    var vars := DeclareVars(b, body.locals, tys);
    ghost var empty, prologue := b.blocks, Prologue(body, Scope(vars, tys), ParamVals(sig));
    EnterFunction(b, body, vars, blocks);
    EntryFilled(empty, prologue.code);
    r := LowerBlocks(b, body, vars, blocks, prologue.code);
  }

  /** The entry becomes the current block and receives the prologue. */
  method EnterFunction(b: Builder, body: Body, vars: VarMap, blocks: BlockMap)
    requires ValidBody(body) && blocks == BlocksOf(body.blocks) && |b.blocks| == |body.blocks|
    requires Scope(vars, b.vars).Valid() && b.next == |b.params| == |ParamLocals(body)|
    requires forall i :: 0 <= i < |body.locals| ==> body.locals[i].id in vars
    modifies b
    ensures var p := Prologue(body, Scope(vars, old(b.vars)), old(b.params));
            b.blocks == C.Extended(old(b.blocks), 0, p.code) && b.next == p.next
    ensures b.current == 0 && b.vars == old(b.vars) && b.params == old(b.params)
  {
    EntryIsFirst(body);
    b.SwitchToBlock(blocks[0]);
    EmitPrologue(b, body, vars);
  }

  lemma EntryFilled(empty: seq<C.Code>, code: C.Code)
    requires |empty| > 0 && forall i :: 0 <= i < |empty| ==> empty[i] == []
    ensures C.Extended(empty, 0, code)[0] == code
    ensures forall i :: 1 <= i < |empty| ==> C.Extended(empty, 0, code)[i] == []
  {
    assert [] + code == code;
  }

  lemma EntryIsFirst(body: Body)
    requires ValidBody(body)
    ensures 0 in BlocksOf(body.blocks) && BlocksOf(body.blocks)[0] == 0
  {
    IndexOfBlock(body.blocks, 0);
  }

  /** With distinct ids, block `i` is mapped to `i`. */
  lemma {:induction false} IndexOfBlock(blocks: seq<BasicBlock>, i: nat)
    requires forall i, j :: 0 <= i < j < |blocks| ==> blocks[i].id != blocks[j].id
    requires i < |blocks|
    ensures blocks[i].id in BlocksOf(blocks) && BlocksOf(blocks)[blocks[i].id] == i
  {
    if i < |blocks| - 1 {
      IndexOfBlock(blocks[..|blocks| - 1], i);
    }
  }

  /** One turn of the loop over the blocks: the entry is current already, any other block is switched to. */
  method LowerOne(b: Builder, body: Body, vars: VarMap, blocks: BlockMap, i: nat) returns (r: Result<(), CodegenError>)
    requires ValidBody(body) && Scope(vars, b.vars).Valid() && blocks == BlocksOf(body.blocks)
    requires i < |body.blocks| == |b.blocks| && (i == 0 ==> b.current == 0)
    modifies b
    ensures var block := body.blocks[i];
            var e := EmitRest(Scope(vars, old(b.vars)), blocks, body.returnLocal, block.statements, block.terminator,
                old(b.next));
            if e.Err? then r == Err(e.error)
            else
              && r == Ok(()) && b.blocks == C.Extended(old(b.blocks), i, e.value.code) && b.next == e.value.next
              && b.vars == old(b.vars) && b.params == old(b.params)
  {
    var block := body.blocks[i];
    IndexOfBlock(body.blocks, i);
    EntryIsFirst(body);
    if block.id != 0 {
      b.SwitchToBlock(blocks[block.id]);
    }
    r := LowerBlock(b, vars, blocks, block, body.returnLocal);
  }

  /** The loop over the blocks; the builder is in the entry, after the prologue. */
  method LowerBlocks(b: Builder, body: Body, vars: VarMap, blocks: BlockMap, ghost prologue: C.Code)
    returns (r: Result<(), CodegenError>)
    requires ValidBody(body) && Scope(vars, b.vars).Valid() && blocks == BlocksOf(body.blocks)
    requires b.current == 0 && |b.blocks| == |body.blocks| && b.blocks[0] == prologue
    requires forall i :: 1 <= i < |b.blocks| ==> b.blocks[i] == []
    modifies b
    ensures r.Ok? ==> b.vars == old(b.vars) && b.params == old(b.params)
    ensures var e := EmitBlocks(Scope(vars, old(b.vars)), body, prologue, 0, old(b.next));
            if e.Ok? then r == Ok(()) && b.blocks == e.value else r == Err(e.error)
  {
    ghost var g := Scope(vars, b.vars);
    assert b.blocks[..0] == [];
    AfterNone(EmitBlocks(g, body, prologue, 0, b.next));
    for i := 0 to |body.blocks|
      invariant b.vars == old(b.vars) && b.params == old(b.params) && |b.blocks| == |body.blocks|
      invariant i == 0 ==> b.current == 0 && b.blocks[0] == prologue
      invariant forall j :: i <= j < |b.blocks| && 0 < j ==> b.blocks[j] == []
      invariant EmitBlocks(g, body, prologue, 0, old(b.next)) ==
                After(b.blocks[..i], EmitBlocks(g, body, prologue, i, b.next))
    {
      ghost var start, next := b.blocks, b.next;
      var one := LowerOne(b, body, vars, blocks, i);
      BlockEmits(g, body, prologue, i, next, start);
      if one.Err? {
        return one;
      }
    }
    assert b.blocks[..|body.blocks|] == b.blocks;
    r := Ok(());
  }

  /** What block `i` adds to the blocks emitted so far. */
  lemma BlockEmits(g: Scope, body: Body, prologue: C.Code, i: nat, next: nat, start: seq<C.Code>)
    requires g.Valid() && i < |body.blocks| == |start| && start[i] == if i == 0 then prologue else []
    ensures var block := body.blocks[i];
            var e := EmitRest(g, BlocksOf(body.blocks), body.returnLocal, block.statements, block.terminator, next);
            if e.Err? then After(start[..i], EmitBlocks(g, body, prologue, i, next)) == Err(e.error)
            else
              After(start[..i], EmitBlocks(g, body, prologue, i, next)) ==
              After(C.Extended(start, i, e.value.code)[..i + 1], EmitBlocks(g, body, prologue, i + 1, e.value.next))
  {
    var block := body.blocks[i];
    var e := EmitRest(g, BlocksOf(body.blocks), body.returnLocal, block.statements, block.terminator, next);
    if e.Ok? {
      var code := start[i] + e.value.code;
      assert C.Extended(start, i, e.value.code)[..i + 1] == start[..i] + [code];
      AfterTwice(start[..i], code, EmitBlocks(g, body, prologue, i + 1, e.value.next));
      AfterOne(code, EmitBlocks(g, body, prologue, i + 1, e.value.next));
    }
  }

  lemma AfterOne(code: C.Code, rest: Result<seq<C.Code>, CodegenError>)
    ensures After([code], rest) == if rest.Ok? then Ok([code] + rest.value) else rest
  {
  }

  function After(done: seq<C.Code>, rest: Result<seq<C.Code>, CodegenError>): Result<seq<C.Code>, CodegenError> {
    var blocks :- rest;
    Ok(done + blocks)
  }

  lemma AfterNone(rest: Result<seq<C.Code>, CodegenError>)
    ensures After([], rest) == rest
  {
    if rest.Ok? {
      assert [] + rest.value == rest.value;
    }
  }

  lemma AfterTwice(done: seq<C.Code>, code: C.Code, rest: Result<seq<C.Code>, CodegenError>)
    ensures After(done, After([code], rest)) == After(done + [code], rest)
  {
    if rest.Ok? {
      assert done + ([code] + rest.value) == done + [code] + rest.value;
    }
  }
}
