/** MIR bodies, the input of the lowering, with their meaning on 64-bit wrapping integers. */
module Mir {
  import opened Wrappers

  const TWO_63 := 0x8000_0000_0000_0000
  const TWO_64 := 0x1_0000_0000_0000_0000

  type i64 = n: int | -TWO_63 <= n < TWO_63

  type BlockId = nat
  type LocalId = nat

  /** `Other` stands for every type outside the wave-1 surface. */
  datatype Ty = Int | Bool | None | IntN(width: nat) | Other(name: string)

  datatype Constant = Int(n: i64) | Bool(b: bool) | Float | Imag | Str | Bytes | None | FnRef

  datatype Projection = Field(index: nat) | Index(op: Operand) | Deref | Discriminant
  datatype Place = Place(local: LocalId, projections: seq<Projection>)
  datatype Operand = Copy(place: Place) | Move(place: Place) | Const(c: Constant)

  datatype BinOp =
    | Add | Sub | Mul | Div | FloorDiv | Mod | Pow | MatMul | Shl | Shr | BitAnd | BitOr | BitXor
    | Eq | NotEq | Lt | LtEq | Gt | GtEq | And | Or | In | NotIn

  datatype UnOp = Plus | Neg | BitNot | Not

  /** The variants without arguments are the ones the lowering rejects by kind. */
  datatype Rvalue =
    | Use(op: Operand)
    | BinaryOp(bin: BinOp, lhs: Operand, rhs: Operand)
    | UnaryOp(un: UnOp, val: Operand)
    | Aggregate | Cast | Ref | Discriminant | Len | NullaryOp

  datatype Statement =
    | Assign(place: Place, rvalue: Rvalue)
    | StorageLive(live: LocalId)
    | StorageDead(dead: LocalId)
    | Nop

  datatype Terminator = Goto(target: BlockId) | Return | Unreachable | SwitchInt | Call | Drop | Assert

  datatype BasicBlock = BasicBlock(id: BlockId, statements: seq<Statement>, terminator: Terminator)
  datatype LocalDecl = LocalDecl(id: LocalId, ty: Ty)
  datatype Body = Body(locals: seq<LocalDecl>, blocks: seq<BasicBlock>, returnLocal: LocalId, paramCount: nat)

  /** The invariants of MIR: block 0 is the entry and comes first, and ids are distinct. */
  ghost predicate ValidBody(body: Body) {
    && |body.blocks| > 0 && body.blocks[0].id == 0
    && (forall i, j :: 0 <= i < j < |body.blocks| ==> body.blocks[i].id != body.blocks[j].id)
    && (forall i, j :: 0 <= i < j < |body.locals| ==> body.locals[i].id != body.locals[j].id)
  }

  /** `locals.iter().skip(skip).take(param_count)`: the locals that are parameters. */
  function ParamLocals(body: Body): (params: seq<LocalDecl>)
    ensures |params| <= |body.locals|
  {
    var skip := if body.returnLocal == 0 then 1 else 0;
    if skip >= |body.locals| then []
    else if skip + body.paramCount >= |body.locals| then body.locals[skip..]
    else body.locals[skip..skip + body.paramCount]
  }

  // ----- meaning -----

  /** Two's-complement truncation to 64 bits, as `i64::wrapping_add` and its kin do it. */
  function Wrap(n: int): i64 {
    (n + TWO_63) % TWO_64 - TWO_63
  }

  type Env = map<LocalId, i64>

  datatype State =
    | Running(block: nat, at: nat, env: Env)
    | Returned(value: i64)
    | Trapped
    | Stuck

  function EvalOperand(env: Env, op: Operand): Option<i64> {
    match op
    case Const(c) => EvalConstant(c)
    case Copy(place) => ReadPlace(env, place)
    case Move(place) => ReadPlace(env, place)
  }

  function EvalConstant(c: Constant): Option<i64> {
    match c
    case Int(n) => Some(n)
    case Bool(b) => Some(if b then 1 else 0)
    case _ => Option.None
  }

  function ReadPlace(env: Env, place: Place): Option<i64> {
    if place.projections == [] && place.local in env then Some(env[place.local]) else Option.None
  }

  function EvalRvalue(env: Env, rv: Rvalue): Option<i64> {
    match rv
    case Use(op) => EvalOperand(env, op)
    case BinaryOp(bin, lhs, rhs) =>
      var a, b := EvalOperand(env, lhs), EvalOperand(env, rhs);
      if a.None? || b.None? then Option.None else EvalBinary(bin, a.value, b.value)
    case UnaryOp(un, val) =>
      var a := EvalOperand(env, val);
      if a.None? then Option.None else EvalUnary(un, a.value)
    case _ => Option.None
  }

  function EvalBinary(bin: BinOp, a: i64, b: i64): Option<i64> {
    match bin
    case Add => Some(Wrap(a + b))
    case Sub => Some(Wrap(a - b))
    case Mul => Some(Wrap(a * b))
    case _ => Option.None
  }

  function EvalUnary(un: UnOp, a: i64): Option<i64> {
    match un
    case Neg => Some(Wrap(0 - a))
    case Plus => Some(a)
    case _ => Option.None
  }

  function ExecStatement(env: Env, s: Statement): Option<Env> {
    match s
    case Assign(place, rv) =>
      var v := EvalRvalue(env, rv);
      if v.None? || place.projections != [] || place.local !in env then Option.None
      else Some(env[place.local := v.value])
    case _ => Some(env)
  }

  /** Position of the block with the given id. */
  function BlockIndex(blocks: seq<BasicBlock>, id: BlockId): Option<nat>
    ensures var r := BlockIndex(blocks, id);
            if r.Some? then r.value < |blocks| && blocks[r.value].id == id
            else forall i :: 0 <= i < |blocks| ==> blocks[i].id != id
  {
    if blocks == [] then Option.None
    else if blocks[|blocks| - 1].id == id then Some(|blocks| - 1)
    else BlockIndex(blocks[..|blocks| - 1], id)
  }

  function ExecTerminator(body: Body, env: Env, t: Terminator): State {
    match t
    case Goto(target) =>
      var b := BlockIndex(body.blocks, target);
      if b.Some? then Running(b.value, 0, env) else Stuck
    case Return => if body.returnLocal in env then Returned(env[body.returnLocal]) else Stuck
    case Unreachable => Trapped
    case _ => Stuck
  }

  /** One statement or terminator. */
  function Step(body: Body, s: State): State {
    match s
    case Running(b, i, env) =>
      if b >= |body.blocks| then Stuck
      else
        var block := body.blocks[b];
        if i < |block.statements| then
          var next := ExecStatement(env, block.statements[i]);
          if next.Some? then Running(b, i + 1, next.value) else Stuck
        else ExecTerminator(body, env, block.terminator)
    case _ => s
  }

  /** Parameters hold the arguments, every other local 0. */
  function InitialEnv(locals: seq<LocalDecl>, params: seq<LocalDecl>, args: seq<i64>): Env
    requires |args| == |params|
  {
    if params != []
      then InitialEnv(locals, params[..|params| - 1], args[..|args| - 1])[params[|params| - 1].id := args[|args| - 1]]
    else map l: LocalDecl | l in locals :: l.id := 0
  }

  function Run(body: Body, args: seq<i64>, n: nat): State
    requires |args| == |ParamLocals(body)|
  {
    if n == 0 then Running(0, 0, InitialEnv(body.locals, ParamLocals(body), args))
    else Step(body, Run(body, args, n - 1))
  }
}
