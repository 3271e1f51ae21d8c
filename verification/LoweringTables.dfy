/**
  What the definitions that the theorems about the lowering share come to, in plain numbers: the
  widths of the types, the wrapping operators, the parameters of a body, and one lowered body.
*/
module LoweringTables {
  import opened Wrappers
  import opened Mir
  import opened LoweringSpec
  import opened LoweringAcceptance
  import opened LoweringMeaning
  import opened LoweringTypes
  import C = Cranelift

  /** Integers have 64 bits, truth values 8, and the sized integers what they say if that is 8, 16 or 32. */
  lemma TypeWidths(w: nat)
    ensures LowerTy(Ty.Int).Ok? && C.Bits(LowerTy(Ty.Int).value) == 0x1_0000_0000_0000_0000
    ensures LowerTy(Ty.Bool).Ok? && C.Bits(LowerTy(Ty.Bool).value) == 0x100
    ensures LowerTy(Ty.IntN(w)).Ok?
    ensures C.Bits(LowerTy(Ty.IntN(w)).value) ==
            if w == 8 then 0x100 else if w == 16 then 0x1_0000 else if w == 32 then 0x1_0000_0000
            else 0x1_0000_0000_0000_0000
    ensures LowerTy(Ty.None) == Ok(C.INVALID)
    ensures forall name :: LowerTy(Ty.Other(name)) == Err(InvalidMir)
  {
  }

  /** The one signed 64-bit number that differs from `n` by a multiple of two to the 64. */
  predicate IsWrapped(x: int, n: int) {
    -9223372036854775808 <= x <= 9223372036854775807 && (x - n) % 18446744073709551616 == 0
  }

  lemma Remainder(a: int, k: int, r: int)
    requires a == k * 18446744073709551616 + r && 0 <= r < 18446744073709551616
    ensures a % 18446744073709551616 == r
  {
  }

  lemma {:induction false} WrappedOnce(x: int, n: int)
    ensures Wrap(n) == x <==> IsWrapped(x, n)
  {
    if IsWrapped(x, n) {
      Remainder(n + TWO_63, -((x - n) / 18446744073709551616), x + TWO_63);
    }
    if Wrap(n) == x {
      Remainder(x - n, -((n + TWO_63) / 18446744073709551616), 0);
    }
  }

  /** Sums, differences and products, an unchanged value and a negated one, wrapped; nothing else has a meaning. */
  lemma {:induction false} OperatorsMean(bin: BinOp, un: UnOp, a: i64, b: i64)
    ensures var r := EvalBinary(bin, a, b);
            match bin
            case Add => r.Some? && IsWrapped(r.value, a + b)
            case Sub => r.Some? && IsWrapped(r.value, a - b)
            case Mul => r.Some? && IsWrapped(r.value, a * b)
            case _ => r.None?
    ensures var r := EvalUnary(un, a);
            match un
            case Plus => r == Some(a)
            case Neg => r.Some? && IsWrapped(r.value, -(a as int))
            case _ => r.None?
  {
    WrappedOnce(Wrap(a + b), a + b);
    WrappedOnce(Wrap(a - b), a - b);
    WrappedOnce(Wrap(a * b), a * b);
    WrappedOnce(Wrap(0 - a), 0 - a);
  }

  /** Integers are themselves, truth values 1 and 0, both in the body and in the code; other constants have no code. */
  lemma {:induction false} ConstantsMean(c: Constant, next: nat, vals: map<nat, int>, vars: map<C.Variable, int>)
    ensures EmitConstant(c, next).Ok? <==> c.Int? || c.Bool?
    ensures EmitConstant(c, next).Ok? ==>
              var n := if c.Int? then c.n else if c == Constant.Bool(true) then 1 else 0;
              && EvalConstant(c) == Some(n) && |EmitConstant(c, next).value.code| == 1
              && C.Effect(EmitConstant(c, next).value.code[0], vals, vars) == Some((vals[next := n], vars))
  {
  }

  /** The parameters are the locals after the return local if that is local 0, and otherwise the first ones. */
  lemma {:induction false} ParamLocalsAre(body: Body, i: nat)
    ensures var skip := if body.returnLocal == 0 then 1 else 0;
            && (i < |ParamLocals(body)| <==> i < body.paramCount && skip + i < |body.locals|)
            && (i < |ParamLocals(body)| ==> ParamLocals(body)[i] == body.locals[skip + i])
  {
  }

  /** `return p1 - p2`, with the return local first. */
  function Difference(): Body {
    var ty := Ty.Int;
    Body([LocalDecl(0, ty), LocalDecl(1, ty), LocalDecl(2, ty)],
         [BasicBlock(0, [Assign(Place(0, []), BinaryOp(Sub, Copy(Place(1, [])), Copy(Place(2, []))))],
                     Terminator.Return)], 0, 2)
  }

  lemma {:induction false} DifferenceLowers(body: Body)
    requires body == Difference()
    ensures ValidBody(body) && AllI64(body) && NothingJumpsToEntry(body) && LowerBody(body).Ok?
    ensures ParamLocals(body) == [body.locals[1], body.locals[2]]
  {
    var known := set l <- body.locals :: l.id;
    assert body.locals[0].id in known && body.locals[1].id in known && body.locals[2].id in known;
    AcceptsExactlyWave1(body);
  }

  lemma {:induction false} DifferenceRunnable(body: Body, args: seq<i64>)
    requires body == Difference() && |args| == 2
    ensures Runnable(body, args) && ParamLocals(body) == [body.locals[1], body.locals[2]]
  {
    DifferenceLowers(body);
    ParamCount(body);
  }

  lemma {:induction false} StartsAtZero(body: Body)
    requires body == Difference()
    ensures InitialEnv(body.locals, [], []) == map[0 := 0, 1 := 0, 2 := 0]
  {
    assert body.locals[0] in body.locals && body.locals[1] in body.locals && body.locals[2] in body.locals;
  }

  lemma {:induction false} DifferenceStarts(body: Body, args: seq<i64>, env: Env)
    requires body == Difference() && ParamLocals(body) == [body.locals[1], body.locals[2]] && |args| == 2
    requires env == InitialEnv(body.locals, ParamLocals(body), args)
    ensures env == map[0 := 0, 1 := args[0], 2 := args[1]]
  {
    var params := ParamLocals(body);
    assert params[..1] == [body.locals[1]] && params[..1][..0] == [];
    assert args[..1] == [args[0]] && args[..1][..0] == [];
    var none: Env := InitialEnv(body.locals, [], []);
    StartsAtZero(body);
    assert InitialEnv(body.locals, params[..1], args[..1]) == none[1 := args[0]];
    var one: Env := none[1 := args[0]];
    assert env == one[2 := args[1]];
  }

  lemma {:induction false} DifferenceRuns(body: Body, args: seq<i64>, p: int, q: int, n: nat)
    requires n == 2 && body == Difference() && ParamLocals(body) == [body.locals[1], body.locals[2]]
    requires |args| == 2 && args[0] == p && args[1] == q
    ensures Run(body, args, n) == Returned(Wrap(p - q))
  {
    var env := InitialEnv(body.locals, ParamLocals(body), args);
    DifferenceStarts(body, args, env);
    var after: Env := env[0 := Wrap(p - q)];
    assert Run(body, args, n - 2) == Running(0, 0, env);
    assert ExecStatement(env, body.blocks[0].statements[0]) == Some(after);
    assert Run(body, args, n - 1) == Running(0, 1, after);
  }

  lemma {:induction false} DifferenceEnds(body: Body, args: seq<i64>, p: int, q: int, x: int, n: nat)
    requires n == 2 && body == Difference() && ParamLocals(body) == [body.locals[1], body.locals[2]]
    requires |args| == 2 && args[0] == p && args[1] == q && IsWrapped(x, p - q)
    ensures Run(body, args, n) == Returned(x)
  {
    WrappedOnce(x, p - q);
    DifferenceRuns(body, args, p, q, n);
  }

  lemma {:induction false} ReturnsAfter(body: Body, args: seq<i64>, n: nat, x: i64)
    requires Runnable(body, args) && Run(body, args, n) == Returned(x)
    ensures LowerBody(body).Ok? && |LowerBody(body).value.params| == |args|
    ensures exists m :: C.Run(LowerBody(body).value, args, m) == C.Returned(x)
  {
    LoweringPreservesReturn(body, args, x);
  }

  /** The code for `p1 - p2` returns the first argument less the second. */
  lemma {:induction false} DifferenceReturns(args: seq<i64>, p: int, q: int, x: int)
    requires |args| == 2 && args[0] == p && args[1] == q && IsWrapped(x, p - q)
    ensures LowerBody(Difference()).Ok? && |LowerBody(Difference()).value.params| == |args|
    ensures exists m :: C.Run(LowerBody(Difference()).value, args, m) == C.Returned(x)
  {
    DifferenceRunnable(Difference(), args);
    DifferenceEnds(Difference(), args, p, q, x, 2);
    ReturnsAfter(Difference(), args, 2, x);
  }
}
