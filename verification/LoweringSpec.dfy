/**
  The wave-1 lowering as functions: the code emitted for each MIR form. The methods of `Lowering`
  are proved to make the builder emit exactly this code; the theorems are about it.
*/
module LoweringSpec {
  import opened Wrappers
  import opened Mir
  import C = Cranelift

  /** Every rejection the source words as unsupported is `InvalidMir`; a local missing from the map is `Internal`. */
  datatype CodegenError = InvalidMir | Internal

  type VarMap = map<LocalId, C.Variable>
  type BlockMap = map<BlockId, nat>

  function LowerTy(ty: Ty): Result<C.IrType, CodegenError> {
    match ty
    case Int => Ok(C.I64)
    case Bool => Ok(C.I8)
    case None => Ok(C.INVALID)
    case IntN(w) => Ok(if w == 8 then C.I8 else if w == 16 then C.I16 else if w == 32 then C.I32 else C.I64)
    case Other(_) => Err(InvalidMir)
  }

  /** The type of a local's variable: a `None` local is an I64 slot. */
  function LocalTy(ty: Ty): Result<C.IrType, CodegenError> {
    if ty.None? then Ok(C.I64) else LowerTy(ty)
  }

  function LocalTys(locals: seq<LocalDecl>): (r: Result<seq<C.IrType>, CodegenError>)
    ensures r.Ok? ==> |r.value| == |locals|
  {
    if locals == [] then Ok([])
    else
      var tys :- LocalTys(locals[..|locals| - 1]);
      var ty :- LocalTy(locals[|locals| - 1].ty);
      Ok(tys + [ty])
  }

  /** The types of the signature's parameters. */
  function ParamTys(params: seq<LocalDecl>): (r: Result<seq<C.IrType>, CodegenError>)
    ensures r.Ok? ==> |r.value| == |params|
  {
    if params == [] then Ok([])
    else
      var tys :- ParamTys(params[..|params| - 1]);
      var ty :- LowerTy(params[|params| - 1].ty);
      if ty.INVALID? then Err(InvalidMir) else Ok(tys + [ty])
  }

  /** Variable `i` belongs to the `i`th local. */
  function VarsOf(locals: seq<LocalDecl>): VarMap {
    if locals == [] then map[] else VarsOf(locals[..|locals| - 1])[locals[|locals| - 1].id := |locals| - 1]
  }

  function BlocksOf(blocks: seq<BasicBlock>): BlockMap {
    if blocks == [] then map[] else BlocksOf(blocks[..|blocks| - 1])[blocks[|blocks| - 1].id := |blocks| - 1]
  }

  /** The variables of the function being built. */
  datatype Scope = Scope(vars: VarMap, tys: seq<C.IrType>) {
    ghost predicate Valid() {
      forall l :: l in vars ==> vars[l] < |tys|
    }
  }

  /** Emitted code, the value it computes, and the number of the next fresh value. */
  datatype Emitted = Emitted(code: C.Code, val: C.Val, next: nat)

  type Emission = Result<Emitted, CodegenError>

  function EmitConstant(c: Constant, next: nat): Emission {
    var v := C.Val(next, C.I64);
    match c
    case Int(n) => Ok(Emitted([C.Iconst(v, n)], v, next + 1))
    case Bool(b) => Ok(Emitted([C.Iconst(v, if b then 1 else 0)], v, next + 1))
    case _ => Err(InvalidMir)
  }

  function EmitPlace(g: Scope, place: Place, next: nat): Emission
    requires g.Valid()
  {
    if place.projections != [] then Err(InvalidMir)
    else if place.local !in g.vars then Err(Internal)
    else
      var v := C.Val(next, g.tys[g.vars[place.local]]);
      Ok(Emitted([C.UseVar(v, g.vars[place.local])], v, next + 1))
  }

  function EmitOperand(g: Scope, op: Operand, next: nat): Emission
    requires g.Valid()
  {
    match op
    case Copy(place) => EmitPlace(g, place, next)
    case Move(place) => EmitPlace(g, place, next)
    case Const(c) => EmitConstant(c, next)
  }

  /** The operands are emitted before the operator is looked at. */
  function EmitRvalue(g: Scope, rv: Rvalue, next: nat): Emission
    requires g.Valid()
  {
    match rv
    case Use(op) => EmitOperand(g, op, next)
    case BinaryOp(bin, lhs, rhs) =>
      var l :- EmitOperand(g, lhs, next);
      var r :- EmitOperand(g, rhs, l.next);
      EmitBinary(bin, l, r)
    case UnaryOp(un, val) =>
      var v :- EmitOperand(g, val, next);
      EmitUnary(un, v)
    case _ => Err(InvalidMir)
  }

  /** The instruction of a binary operator on two values. */
  function EmitOperator(bin: BinOp, l: C.Val, r: C.Val, next: nat): Emission {
    var v := C.Val(next, l.ty);
    match bin
    case Add => Ok(Emitted([C.Iadd(v, l, r)], v, next + 1))
    case Sub => Ok(Emitted([C.Isub(v, l, r)], v, next + 1))
    case Mul => Ok(Emitted([C.Imul(v, l, r)], v, next + 1))
    case _ => Err(InvalidMir)
  }

  function EmitBinary(bin: BinOp, l: Emitted, r: Emitted): Emission {
    var op :- EmitOperator(bin, l.val, r.val, r.next);
    Ok(Emitted(l.code + r.code + op.code, op.val, op.next))
  }

  function EmitUnary(un: UnOp, v: Emitted): Emission {
    var w := C.Val(v.next, v.val.ty);
    match un
    case Neg => Ok(Emitted(v.code + [C.Ineg(w, v.val)], w, v.next + 1))
    case Plus => Ok(v)
    case _ => Err(InvalidMir)
  }

  datatype Lines = Lines(code: C.Code, next: nat)

  type Listing = Result<Lines, CodegenError>

  function EmitStatement(g: Scope, s: Statement, next: nat): Listing
    requires g.Valid()
  {
    match s
    case Assign(place, rv) =>
      if place.projections != [] then Err(InvalidMir)
      else
        var e :- EmitRvalue(g, rv, next);
        if place.local !in g.vars then Err(Internal)
        else Ok(Lines(e.code + [C.DefVar(g.vars[place.local], e.val)], e.next))
    case _ => Ok(Lines([], next))
  }

  function EmitTerminator(g: Scope, blocks: BlockMap, returnLocal: LocalId, t: Terminator, next: nat): Listing
    requires g.Valid()
  {
    match t
    case Return =>
      if returnLocal !in g.vars then Err(Internal)
      else
        var v := C.Val(next, g.tys[g.vars[returnLocal]]);
        Ok(Lines([C.UseVar(v, g.vars[returnLocal]), C.Return(v)], next + 1))
    case Goto(target) => if target !in blocks then Err(InvalidMir) else Ok(Lines([C.Jump(blocks[target])], next))
    case Unreachable => Ok(Lines([C.Trap], next))
    case _ => Err(InvalidMir)
  }

  /** The rest of a block: the statements and then the terminator. */
  function EmitRest(g: Scope, blocks: BlockMap, returnLocal: LocalId, ss: seq<Statement>, t: Terminator,
      next: nat): Listing
    requires g.Valid()
  {
    if ss == [] then EmitTerminator(g, blocks, returnLocal, t, next)
    else
      var first :- EmitStatement(g, ss[0], next);
      var rest :- EmitRest(g, blocks, returnLocal, ss[1..], t, first.next);
      Ok(Lines(first.code + rest.code, rest.next))
  }

  /** Entry parameters: one value for each, numbered from 0. */
  function ParamVals(tys: seq<C.IrType>): (vals: seq<C.Val>)
    ensures |vals| == |tys|
  {
    if tys == [] then [] else ParamVals(tys[..|tys| - 1]) + [C.Val(|tys| - 1, tys[|tys| - 1])]
  }

  function BindParams(vars: VarMap, params: seq<LocalDecl>, vals: seq<C.Val>): C.Code
    requires |params| == |vals| && forall i :: 0 <= i < |params| ==> params[i].id in vars
  {
    if params == [] then []
    else
      BindParams(vars, params[..|params| - 1], vals[..|vals| - 1])
      + [C.DefVar(vars[params[|params| - 1].id], vals[|vals| - 1])]
  }

  function IsParam(params: seq<LocalDecl>, id: LocalId): bool {
    exists i :: 0 <= i < |params| && params[i].id == id
  }

  /** Every local that is not a parameter starts as 0. */
  function ZeroLocals(g: Scope, params: seq<LocalDecl>, locals: seq<LocalDecl>, next: nat): Lines
    requires g.Valid() && forall i :: 0 <= i < |locals| ==> locals[i].id in g.vars
  {
    if locals == [] then Lines([], next)
    else
      var before := ZeroLocals(g, params, locals[..|locals| - 1], next);
      var l := locals[|locals| - 1].id;
      if IsParam(params, l) then before
      else
        var v := C.Val(before.next, g.tys[g.vars[l]]);
        Lines(before.code + [C.Iconst(v, 0), C.DefVar(g.vars[l], v)], before.next + 1)
  }

  /** Blocks from number `i` on; block 0 starts with the prologue. */
  function EmitBlocks(g: Scope, body: Body, prologue: C.Code, i: nat, next: nat): Result<seq<C.Code>, CodegenError>
    requires g.Valid() && i <= |body.blocks|
    decreases |body.blocks| - i
  {
    if i == |body.blocks| then Ok([])
    else
      var block := body.blocks[i];
      var first :- EmitRest(g, BlocksOf(body.blocks), body.returnLocal, block.statements, block.terminator, next);
      var rest :- EmitBlocks(g, body, prologue, i + 1, first.next);
      Ok([(if i == 0 then prologue else []) + first.code] + rest)
  }

  lemma {:induction false} VarsOfRange(locals: seq<LocalDecl>)
    ensures forall l :: l in VarsOf(locals) ==> VarsOf(locals)[l] < |locals|
    ensures forall i :: 0 <= i < |locals| ==> locals[i].id in VarsOf(locals)
    ensures forall l :: l in VarsOf(locals) ==> exists i :: 0 <= i < |locals| && locals[i].id == l
  {
    if locals != [] {
      var n := |locals| - 1;
      VarsOfRange(locals[..n]);
      forall l | l in VarsOf(locals) ensures exists i :: 0 <= i < |locals| && locals[i].id == l {
        if l == locals[n].id {
        } else {
          var i :| 0 <= i < n && locals[..n][i].id == l;
          assert locals[i].id == l;
        }
      }
      forall i | 0 <= i < |locals| ensures locals[i].id in VarsOf(locals) {
        if i < n { assert locals[..n][i] == locals[i]; }
      }
    }
  }

  lemma {:induction false} VarsOfExact(locals: seq<LocalDecl>, i: nat)
    requires forall i, j :: 0 <= i < j < |locals| ==> locals[i].id != locals[j].id
    requires i < |locals|
    ensures locals[i].id in VarsOf(locals) && VarsOf(locals)[locals[i].id] == i
  {
    if i < |locals| - 1 {
      VarsOfExact(locals[..|locals| - 1], i);
    }
  }

  function ScopeOf(body: Body, tys: seq<C.IrType>): (g: Scope)
    requires |tys| == |body.locals|
    ensures g.Valid()
  {
    VarsOfRange(body.locals);
    Scope(VarsOf(body.locals), tys)
  }

  /** The entry block before the body of block 0, and the next value number. */
  function Prologue(body: Body, g: Scope, vals: seq<C.Val>): Lines
    requires g.Valid() && |vals| == |ParamLocals(body)|
    requires forall i :: 0 <= i < |body.locals| ==> body.locals[i].id in g.vars
  {
    var params := ParamLocals(body);
    ParamsAreLocals(body);
    var zeros := ZeroLocals(g, params, body.locals, |vals|);
    Lines(BindParams(g.vars, params, vals) + zeros.code, zeros.next)
  }

  lemma ParamsAreLocals(body: Body)
    ensures var params, skip := ParamLocals(body), if body.returnLocal == 0 then 1 else 0;
            forall i :: 0 <= i < |params| ==> i + skip < |body.locals| && params[i] == body.locals[i + skip]
  {
  }

  /** `lower_body_wave1`. */
  function LowerBody(body: Body): Result<C.Function, CodegenError> {
    var paramTys :- ParamTys(ParamLocals(body));
    var tys :- LocalTys(body.locals);
    var g := ScopeOf(body, tys);
    var vals := ParamVals(paramTys);
    VarsOfRange(body.locals);
    var prologue := Prologue(body, g, vals);
    var blocks :- EmitBlocks(g, body, prologue.code, 0, prologue.next);
    Ok(C.Function(vals, tys, blocks))
  }
}
