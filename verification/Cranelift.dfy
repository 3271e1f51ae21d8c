/** The part of Cranelift IR the lowering emits: a builder, well-formedness and meaning. */
module Cranelift {
  import opened Wrappers
  import M = Mir

  datatype IrType = I8 | I16 | I32 | I64 | INVALID

  /** An SSA value with its type. */
  datatype Val = Val(id: nat, ty: IrType)

  type Variable = nat

  datatype Inst =
    | Iconst(dst: Val, imm: int)
    | Iadd(dst: Val, a: Val, b: Val)
    | Isub(dst: Val, a: Val, b: Val)
    | Imul(dst: Val, a: Val, b: Val)
    | Ineg(dst: Val, a: Val)
    | UseVar(dst: Val, read: Variable)
    | DefVar(written: Variable, val: Val)
    | Jump(target: nat)
    | Return(val: Val)
    | Trap

  type Code = seq<Inst>

  /** Block 0 is the entry; its parameters are the function's. Every function returns one I64. */
  datatype Function = Function(params: seq<Val>, vars: seq<IrType>, blocks: seq<Code>)

  // ----- the builder -----

  /** The blocks with `code` added to the end of block `b`. */
  function Extended(blocks: seq<Code>, b: nat, code: Code): (r: seq<Code>)
    requires b < |blocks|
    ensures |r| == |blocks|
  {
    blocks[b := blocks[b] + code]
  }

  lemma ExtendNone(blocks: seq<Code>, b: nat)
    requires b < |blocks|
    ensures Extended(blocks, b, []) == blocks
  {
    assert blocks[b] + [] == blocks[b];
  }

  lemma ExtendTwice(blocks: seq<Code>, b: nat, first: Code, second: Code)
    requires b < |blocks|
    ensures Extended(Extended(blocks, b, first), b, second) == Extended(blocks, b, first + second)
  {
    assert blocks[b] + first + second == blocks[b] + (first + second);
  }

  /** `FunctionBuilder`: instructions go to the end of the current block. Variables are mutable slots. */
  class FunctionBuilder {
    var params: seq<Val>
    var vars: seq<IrType>
    var blocks: seq<Code>
    var current: nat
    var next: nat

    constructor ()
      ensures params == [] && vars == [] && blocks == [] && current == 0 && next == 0
    {
      params, vars, blocks, current, next := [], [], [], 0, 0;
    }

    method CreateBlock() returns (b: nat)
      modifies `blocks
      ensures b == |old(blocks)| && blocks == old(blocks) + [[]]
    {
      b := |blocks|;
      blocks := blocks + [[]];
    }

    method AppendBlockParam(ty: IrType)
      modifies `params, `next
      ensures params == old(params) + [Val(old(next), ty)] && next == old(next) + 1
    {
      params, next := params + [Val(next, ty)], next + 1;
    }

    method DeclareVar(ty: IrType) returns (v: Variable)
      modifies `vars
      ensures v == |old(vars)| && vars == old(vars) + [ty]
    {
      v := |vars|;
      vars := vars + [ty];
    }

    method SwitchToBlock(b: nat)
      modifies `current
      ensures current == b
    {
      current := b;
    }

    method Append(inst: Inst)
      requires current < |blocks|
      modifies `blocks
      ensures blocks == Extended(old(blocks), current, [inst])
    {
      blocks := blocks[current := blocks[current] + [inst]];
    }

    /** A new value of the given type. */
    method Fresh(ty: IrType) returns (v: Val)
      modifies `next
      ensures v == Val(old(next), ty) && next == old(next) + 1
    {
      v := Val(next, ty);
      next := next + 1;
    }

    /** What appending `code`, which creates the values up to `end`, does to the builder. */
    twostate predicate Appended(code: Code, end: nat)
      reads this
    {
      && current == old(current) < |old(blocks)|
      && blocks == Extended(old(blocks), current, code)
      && next == end
      && vars == old(vars) && params == old(params)
    }
  }

  // ----- well-formedness -----

  predicate IsTerminator(inst: Inst) {
    inst.Jump? || inst.Return? || inst.Trap?
  }

  /** The values an instruction defines. */
  function Defs(inst: Inst): set<Val> {
    if inst.DefVar? || IsTerminator(inst) then {} else {inst.dst}
  }

  /**
    Operands are defined earlier in the block, types agree, variables and jump targets exist;
    nothing jumps to the entry.
  */
  predicate InstOk(f: Function, defined: set<Val>, inst: Inst) {
    match inst
    case Iconst(dst, _) => !dst.ty.INVALID?
    case Iadd(dst, a, b) => a in defined && b in defined && a.ty == b.ty == dst.ty
    case Isub(dst, a, b) => a in defined && b in defined && a.ty == b.ty == dst.ty
    case Imul(dst, a, b) => a in defined && b in defined && a.ty == b.ty == dst.ty
    case Ineg(dst, a) => a in defined && a.ty == dst.ty
    case UseVar(dst, v) => v < |f.vars| && dst.ty == f.vars[v]
    case DefVar(v, val) => v < |f.vars| && val in defined && val.ty == f.vars[v]
    case Jump(target) => 0 < target < |f.blocks|
    case Return(val) => val in defined && val.ty == I64
    case Trap => true
  }

  /** A block body: correct instructions, with one terminator, at the end. */
  predicate CodeOk(f: Function, defined: set<Val>, code: Code)
    decreases code
  {
    && code != []
    && InstOk(f, defined, code[0])
    && if |code| == 1 then IsTerminator(code[0])
       else !IsTerminator(code[0]) && CodeOk(f, defined + Defs(code[0]), code[1..])
  }

  predicate BlocksOk(f: Function) {
    forall b :: 0 <= b < |f.blocks| ==> CodeOk(f, if b == 0 then (set v <- f.params) else {}, f.blocks[b])
  }

  /** The variables a piece of code assigns. */
  function Assigned(code: Code): set<Variable> {
    set i | 0 <= i < |code| && code[i].DefVar? :: code[i].written
  }

  /** Every read in `code` is of a variable in `before` or one the code has already assigned. */
  predicate ReadsDefined(before: set<Variable>, code: Code) {
    forall i :: 0 <= i < |code| && code[i].UseVar? ==> code[i].read in before + Assigned(code[..i])
  }

  /** A path through the function from its entry. */
  predicate IsPath(f: Function, path: seq<nat>) {
    && path != [] && path[0] == 0
    && (forall i :: 0 <= i < |path| ==> path[i] < |f.blocks|)
    && forall i :: 0 <= i < |path| - 1 ==> Jump(path[i + 1]) in f.blocks[path[i]]
  }

  function AssignedOn(f: Function, path: seq<nat>): set<Variable>
    requires forall i :: 0 <= i < |path| ==> path[i] < |f.blocks|
  {
    set i, v | 0 <= i < |path| && v in Assigned(f.blocks[path[i]]) :: v
  }

  /** Every variable is assigned before it is read, whatever path leads to the read. */
  ghost predicate VariablesDefined(f: Function) {
    forall path :: IsPath(f, path) ==>
      ReadsDefined(AssignedOn(f, path[..|path| - 1]), f.blocks[path[|path| - 1]])
  }

  /** The numbers of the values a piece of code defines, in order. */
  function DefinedIds(code: Code): seq<nat> {
    if code == [] then []
    else (if code[0].DefVar? || IsTerminator(code[0]) then [] else [code[0].dst.id]) + DefinedIds(code[1..])
  }

  function BlockIds(blocks: seq<Code>): seq<nat> {
    if blocks == [] then [] else DefinedIds(blocks[0]) + BlockIds(blocks[1..])
  }

  function ParamIds(params: seq<Val>): (ids: seq<nat>)
    ensures |ids| == |params| && forall i :: 0 <= i < |ids| ==> ids[i] == params[i].id
  {
    seq(|params|, i requires 0 <= i < |params| => params[i].id)
  }

  /** Every value of the function: the parameters, and what each instruction of each block defines. */
  function ValueIds(f: Function): seq<nat> {
    ParamIds(f.params) + BlockIds(f.blocks)
  }

  /** Static single assignment: no value is defined twice. */
  predicate DefinedOnce(f: Function) {
    forall i, j :: 0 <= i < j < |ValueIds(f)| ==> ValueIds(f)[i] != ValueIds(f)[j]
  }

  ghost predicate WellFormed(f: Function) {
    |f.blocks| > 0 && BlocksOk(f) && VariablesDefined(f) && DefinedOnce(f)
  }

  // ----- meaning -----

  function Bits(ty: IrType): nat {
    match ty
    case I8 => 0x100
    case I16 => 0x1_0000
    case I32 => 0x1_0000_0000
    case _ => M.TWO_64
  }

  /** Truncation to the width of a type, as a signed number. */
  function Truncate(ty: IrType, n: int): int {
    (n + Bits(ty) / 2) % Bits(ty) - Bits(ty) / 2
  }

  datatype State =
    | Running(block: nat, at: nat, vals: map<nat, int>, vars: map<Variable, int>)
    | Returned(value: int)
    | Trapped
    | Stuck

  /**
    The values and variables after an instruction that does not end its block; None if it reads
    something undefined.
  */
  function Effect(inst: Inst, vals: map<nat, int>, vars: map<Variable, int>):
    Option<(map<nat, int>, map<Variable, int>)>
  {
    match inst
    case Iconst(dst, imm) => Some((vals[dst.id := Truncate(dst.ty, imm)], vars))
    case Iadd(dst, a, b) =>
      if a.id !in vals || b.id !in vals then None
      else Some((vals[dst.id := Truncate(dst.ty, vals[a.id] + vals[b.id])], vars))
    case Isub(dst, a, b) =>
      if a.id !in vals || b.id !in vals then None
      else Some((vals[dst.id := Truncate(dst.ty, vals[a.id] - vals[b.id])], vars))
    case Imul(dst, a, b) =>
      if a.id !in vals || b.id !in vals then None
      else Some((vals[dst.id := Truncate(dst.ty, vals[a.id] * vals[b.id])], vars))
    case Ineg(dst, a) =>
      if a.id in vals then Some((vals[dst.id := Truncate(dst.ty, -vals[a.id])], vars)) else None
    case UseVar(dst, v) => if v in vars then Some((vals[dst.id := vars[v]], vars)) else None
    case DefVar(v, val) => if val.id in vals then Some((vals, vars[v := vals[val.id]])) else None
    case _ => None
  }

  function StepInst(inst: Inst, b: nat, i: nat, vals: map<nat, int>, vars: map<Variable, int>): State {
    match inst
    case Jump(target) => Running(target, 0, vals, vars)
    case Return(val) => if val.id in vals then Returned(vals[val.id]) else Stuck
    case Trap => Trapped
    case _ =>
      var e := Effect(inst, vals, vars);
      if e.Some? then Running(b, i + 1, e.value.0, e.value.1) else Stuck
  }

  /** One instruction. */
  function Step(f: Function, s: State): State {
    match s
    case Running(b, i, vals, vars) =>
      if b >= |f.blocks| || i >= |f.blocks[b]| then Stuck
      else
        StepInst(f.blocks[b][i], b, i, vals, vars)
    case _ => s
  }

  function Steps(f: Function, s: State, n: nat): State {
    if n == 0 then s else Step(f, Steps(f, s, n - 1))
  }

  function Arguments(params: seq<Val>, args: seq<int>): map<nat, int>
    requires |params| == |args|
  {
    if params == [] then map[]
    else Arguments(params[..|params| - 1], args[..|args| - 1])[params[|params| - 1].id := args[|args| - 1]]
  }

  /** The run on the given arguments after `n` instructions; no variable is defined at the start. */
  function Run(f: Function, args: seq<int>, n: nat): State
    requires |args| == |f.params|
  {
    Steps(f, Running(0, 0, Arguments(f.params, args), map[]), n)
  }
}
