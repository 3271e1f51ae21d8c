/** Which bodies the lowering accepts: exactly those inside the wave-1 surface. */
module LoweringAcceptance {
  import opened Wrappers
  import opened Mir
  import opened LoweringSpec
  import C = Cranelift

  /** Types that have a representation in wave 1. */
  predicate TyOk(ty: Ty) {
    !ty.Other?
  }

  predicate PlaceOk(known: set<LocalId>, place: Place) {
    place.projections == [] && place.local in known
  }

  predicate OperandOk(known: set<LocalId>, op: Operand) {
    match op
    case Copy(place) => PlaceOk(known, place)
    case Move(place) => PlaceOk(known, place)
    case Const(c) => c.Int? || c.Bool?
  }

  predicate RvalueOk(known: set<LocalId>, rv: Rvalue) {
    match rv
    case Use(op) => OperandOk(known, op)
    case BinaryOp(bin, lhs, rhs) => (bin.Add? || bin.Sub? || bin.Mul?) && OperandOk(known, lhs) && OperandOk(known, rhs)
    case UnaryOp(un, val) => (un.Neg? || un.Plus?) && OperandOk(known, val)
    case _ => false
  }

  predicate StatementOk(known: set<LocalId>, s: Statement) {
    s.Assign? ==> PlaceOk(known, s.place) && RvalueOk(known, s.rvalue)
  }

  predicate TerminatorOk(known: set<LocalId>, targets: set<BlockId>, returnLocal: LocalId, t: Terminator) {
    match t
    case Return => returnLocal in known
    case Goto(target) => target in targets
    case Unreachable => true
    case _ => false
  }

  predicate BlockOk(known: set<LocalId>, targets: set<BlockId>, returnLocal: LocalId, block: BasicBlock) {
    && (forall j :: 0 <= j < |block.statements| ==> StatementOk(known, block.statements[j]))
    && TerminatorOk(known, targets, returnLocal, block.terminator)
  }

  /**
    The wave-1 surface: scalar types, no `None` parameter, integer and boolean constants, the five
    operators, bare known locals, and jumps to blocks that exist.
  */
  predicate InWave1(body: Body) {
    var known := set l <- body.locals :: l.id;
    var targets := set b <- body.blocks :: b.id;
    && (forall i :: 0 <= i < |body.locals| ==> TyOk(body.locals[i].ty))
    && (forall i :: 0 <= i < |ParamLocals(body)| ==> !ParamLocals(body)[i].ty.None?)
    && (forall i :: 0 <= i < |body.blocks| ==> BlockOk(known, targets, body.returnLocal, body.blocks[i]))
  }

  lemma {:induction false} LocalTysOk(locals: seq<LocalDecl>)
    ensures LocalTys(locals).Ok? <==> forall i :: 0 <= i < |locals| ==> TyOk(locals[i].ty)
  {
    if locals != [] {
      LocalTysOk(locals[..|locals| - 1]);
      assert forall i :: 0 <= i < |locals| - 1 ==> locals[..|locals| - 1][i] == locals[i];
    }
  }

  lemma {:induction false} ParamTysOk(params: seq<LocalDecl>)
    ensures ParamTys(params).Ok? <==> forall i :: 0 <= i < |params| ==> TyOk(params[i].ty) && !params[i].ty.None?
  {
    if params != [] {
      ParamTysOk(params[..|params| - 1]);
      assert forall i :: 0 <= i < |params| - 1 ==> params[..|params| - 1][i] == params[i];
    }
  }

  lemma StatementEmits(g: Scope, s: Statement, next: nat)
    requires g.Valid()
    ensures EmitStatement(g, s, next).Ok? <==> StatementOk(g.vars.Keys, s)
  {
  }

  lemma {:induction false} RestEmits(g: Scope, blocks: BlockMap, returnLocal: LocalId, ss: seq<Statement>,
      t: Terminator, next: nat)
    requires g.Valid()
    ensures EmitRest(g, blocks, returnLocal, ss, t, next).Ok? <==>
            (forall j :: 0 <= j < |ss| ==> StatementOk(g.vars.Keys, ss[j]))
                && TerminatorOk(g.vars.Keys, blocks.Keys, returnLocal, t)
  {
    if ss != [] {
      StatementEmits(g, ss[0], next);
      if EmitStatement(g, ss[0], next).Ok? {
        RestEmits(g, blocks, returnLocal, ss[1..], t, EmitStatement(g, ss[0], next).value.next);
        assert forall j :: 0 <= j < |ss| ==> ss[j] == if j == 0 then ss[0] else ss[1..][j - 1];
      }
    }
  }

  lemma {:induction false} BlocksEmit(g: Scope, body: Body, prologue: C.Code, i: nat, next: nat)
    requires g.Valid() && i <= |body.blocks|
    ensures EmitBlocks(g, body, prologue, i, next).Ok? <==>
            forall j :: i <= j < |body.blocks| ==>
              BlockOk(g.vars.Keys, BlocksOf(body.blocks).Keys, body.returnLocal, body.blocks[j])
    decreases |body.blocks| - i
  {
    if i < |body.blocks| {
      var block := body.blocks[i];
      var blocks := BlocksOf(body.blocks);
      RestEmits(g, blocks, body.returnLocal, block.statements, block.terminator, next);
      var first := EmitRest(g, blocks, body.returnLocal, block.statements, block.terminator, next);
      if first.Ok? {
        BlocksEmit(g, body, prologue, i + 1, first.value.next);
      }
    }
  }

  lemma {:induction false} VarsOfKeys(locals: seq<LocalDecl>)
    ensures VarsOf(locals).Keys == set l <- locals :: l.id
  {
    if locals != [] {
      var n := |locals| - 1;
      VarsOfKeys(locals[..n]);
      assert locals == locals[..n] + [locals[n]];
    }
  }

  lemma {:induction false} BlocksOfKeys(blocks: seq<BasicBlock>)
    ensures BlocksOf(blocks).Keys == set b <- blocks :: b.id
  {
    if blocks != [] {
      var n := |blocks| - 1;
      BlocksOfKeys(blocks[..n]);
      assert blocks == blocks[..n] + [blocks[n]];
    }
  }

  /** The blocks of a body whose locals and parameters have types are emitted exactly if all of them can be. */
  lemma TypedBodyEmits(body: Body)
    requires ParamTys(ParamLocals(body)).Ok? && LocalTys(body.locals).Ok?
    ensures LowerBody(body).Ok? <==>
            forall j :: 0 <= j < |body.blocks| ==>
              BlockOk(VarsOf(body.locals).Keys, BlocksOf(body.blocks).Keys, body.returnLocal, body.blocks[j])
  {
    var g := ScopeOf(body, LocalTys(body.locals).value);
    VarsOfRange(body.locals);
    var prologue := Prologue(body, g, ParamVals(ParamTys(ParamLocals(body)).value));
    BlocksEmit(g, body, prologue.code, 0, prologue.next);
  }

  lemma TypesOk(body: Body)
    ensures ParamTys(ParamLocals(body)).Ok? && LocalTys(body.locals).Ok? <==>
            && (forall i :: 0 <= i < |body.locals| ==> TyOk(body.locals[i].ty))
            && forall i :: 0 <= i < |ParamLocals(body)| ==> !ParamLocals(body)[i].ty.None?
  {
    ParamTysOk(ParamLocals(body));
    ParamsAreLocals(body);
    LocalTysOk(body.locals);
  }

  /** The lowering of valid MIR succeeds exactly on the wave-1 surface. */
  lemma AcceptsExactlyWave1(body: Body)
    requires ValidBody(body)
    ensures LowerBody(body).Ok? <==> InWave1(body)
  {
    TypesOk(body);
    VarsOfKeys(body.locals);
    BlocksOfKeys(body.blocks);
    if ParamTys(ParamLocals(body)).Ok? && LocalTys(body.locals).Ok? {
      TypedBodyEmits(body);
    }
  }

  // ----- which error -----

  predicate OperandKnown(known: set<LocalId>, op: Operand) {
    op.Copy? || op.Move? ==> op.place.local in known
  }

  predicate StatementKnown(known: set<LocalId>, s: Statement) {
    s.Assign? ==>
      && s.place.local in known
      && match s.rvalue
         case Use(op) => OperandKnown(known, op)
         case BinaryOp(_, lhs, rhs) => OperandKnown(known, lhs) && OperandKnown(known, rhs)
         case UnaryOp(_, val) => OperandKnown(known, val)
         case _ => true
  }

  /** Every local that is read, written or returned is declared. */
  predicate AllKnown(body: Body, known: set<LocalId>) {
    && body.returnLocal in known
    && forall i, j :: 0 <= i < |body.blocks| && 0 <= j < |body.blocks[i].statements| ==>
         StatementKnown(known, body.blocks[i].statements[j])
  }

  lemma {:induction false} TypeErrors(decls: seq<LocalDecl>)
    ensures LocalTys(decls).Err? ==> LocalTys(decls).error == InvalidMir
    ensures ParamTys(decls).Err? ==> ParamTys(decls).error == InvalidMir
  {
    if decls != [] {
      TypeErrors(decls[..|decls| - 1]);
    }
  }

  lemma StatementErrors(g: Scope, s: Statement, next: nat)
    requires g.Valid() && StatementKnown(g.vars.Keys, s)
    ensures EmitStatement(g, s, next).Err? ==> EmitStatement(g, s, next).error == InvalidMir
  {
  }

  lemma {:induction false} RestErrors(g: Scope, blocks: BlockMap, returnLocal: LocalId, ss: seq<Statement>,
      t: Terminator, next: nat)
    requires g.Valid() && returnLocal in g.vars && forall j :: 0 <= j < |ss| ==> StatementKnown(g.vars.Keys, ss[j])
    ensures var r := EmitRest(g, blocks, returnLocal, ss, t, next); r.Err? ==> r.error == InvalidMir
  {
    if ss != [] {
      StatementErrors(g, ss[0], next);
      if EmitStatement(g, ss[0], next).Ok? {
        RestErrors(g, blocks, returnLocal, ss[1..], t, EmitStatement(g, ss[0], next).value.next);
      }
    }
  }

  lemma {:induction false} BlockErrors(g: Scope, body: Body, prologue: C.Code, i: nat, next: nat)
    requires g.Valid() && i <= |body.blocks| && AllKnown(body, g.vars.Keys)
    ensures var r := EmitBlocks(g, body, prologue, i, next); r.Err? ==> r.error == InvalidMir
    decreases |body.blocks| - i
  {
    if i < |body.blocks| {
      var block := body.blocks[i];
      RestErrors(g, BlocksOf(body.blocks), body.returnLocal, block.statements, block.terminator, next);
      var first := EmitRest(g, BlocksOf(body.blocks), body.returnLocal, block.statements, block.terminator, next);
      if first.Ok? {
        BlockErrors(g, body, prologue, i + 1, first.value.next);
      }
    }
  }

  /** A body that names declared locals only is never an internal error: it is lowered or rejected as unsupported. */
  lemma {:induction false} UnsupportedIsInvalidMir(body: Body)
    requires AllKnown(body, set l <- body.locals :: l.id)
    ensures LowerBody(body).Err? ==> LowerBody(body).error == InvalidMir
  {
    TypeErrors(ParamLocals(body));
    TypeErrors(body.locals);
    VarsOfKeys(body.locals);
    if ParamTys(ParamLocals(body)).Ok? && LocalTys(body.locals).Ok? {
      var g := ScopeOf(body, LocalTys(body.locals).value);
      VarsOfRange(body.locals);
      var prologue := Prologue(body, g, ParamVals(ParamTys(ParamLocals(body)).value));
      BlockErrors(g, body, prologue.code, 0, prologue.next);
    }
  }

  /** The first thing the body does reads or writes a bare local that is not declared. */
  predicate StartsUnknown(body: Body, known: set<LocalId>) {
    && |body.blocks| > 0
    && var first := body.blocks[0];
       if first.statements == [] then first.terminator == Terminator.Return && body.returnLocal !in known
       else
         match first.statements[0]
         case Assign(place, Use(Copy(from))) =>
           place.projections == [] && from.projections == [] && (place.local !in known || from.local !in known)
         case _ => false
  }

  lemma {:induction false} UndeclaredIsInternal(body: Body)
    requires ParamTys(ParamLocals(body)).Ok? && LocalTys(body.locals).Ok?
    requires StartsUnknown(body, set l <- body.locals :: l.id)
    ensures LowerBody(body) == Err(Internal)
  {
    VarsOfKeys(body.locals);
    var g := ScopeOf(body, LocalTys(body.locals).value);
    VarsOfRange(body.locals);
    var prologue := Prologue(body, g, ParamVals(ParamTys(ParamLocals(body)).value));
    var block := body.blocks[0];
    var rest := EmitRest(g, BlocksOf(body.blocks), body.returnLocal, block.statements, block.terminator, prologue.next);
    if block.statements == [] {
      assert rest == Err(Internal);
    } else {
      assert EmitStatement(g, block.statements[0], prologue.next) == Err(Internal);
      assert rest == Err(Internal);
    }
    assert EmitBlocks(g, body, prologue.code, 0, prologue.next) == Err(Internal);
  }
}
