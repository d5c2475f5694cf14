/** A verdict on three values is the verdict under every completion of what was unknown. */
module Completion {
  import opened Expressions
  import opened Grammar

  /** A run in full: a value for every name and every call, and an answer to every ordered comparison. */
  datatype World = World(names: string -> Value, calls: (string, seq<string>) -> Value, ordered: (string, Value, Value) -> bool)

  ghost predicate Completes(w: World, ctx: Context) {
    && (forall n :: !w.names(n).Unknown?)
    && (forall n, args :: !w.calls(n, args).Unknown?)
    && (forall n :: n in ctx && !ctx[n].Unknown? ==> w.names(n) == ctx[n])
  }

  // ----- what an expression means in a world: Boolean logic over compared values -----

  predicate IsTrue(v: Value) {
    Truthy(v) == Bool(true)
  }

  predicate Compared(w: World, op: string, left: Value, right: Value)
    requires !left.Unknown? && !right.Unknown?
  {
    if op == "==" then Shown(left) == Shown(right)
    else if op == "!=" then Shown(left) != Shown(right)
    else w.ordered(op, left, right)
  }

  ghost function Operand(p: Prim, w: World, ctx: Context): (v: Value)
    requires Completes(w, ctx)
    ensures !v.Unknown?
    decreases p
  {
    match p
    case Paren(d) => ValueDisj(d, w, ctx)
    case Not(q) => Bool(!IsTrue(Operand(q, w, ctx)))
    case Quoted(text) => Text(text)
    case Num(text) => Text(text)
    case Lit(b) => Bool(b)
    case Name(name) => w.names(name)
    case Call(name, args) => w.calls(name, args)
  }

  ghost function Chain(left: Value, t: CompTail, w: World, ctx: Context): (v: Value)
    requires Completes(w, ctx) && !left.Unknown?
    ensures !v.Unknown?
    decreases t
  {
    if t.CompEnd? then left
    else Chain(Bool(Compared(w, t.op, left, Operand(t.right, w, ctx))), t.tail, w, ctx)
  }

  ghost function ValueComp(c: Comp, w: World, ctx: Context): (v: Value)
    requires Completes(w, ctx)
    ensures !v.Unknown?
    decreases c, 0
  {
    Chain(Operand(c.first, w, ctx), c.tail, w, ctx)
  }

  ghost predicate HoldsComp(c: Comp, w: World, ctx: Context)
    requires Completes(w, ctx)
    decreases c, 1
  {
    IsTrue(ValueComp(c, w, ctx))
  }

  ghost predicate HoldsConjTail(t: ConjTail, w: World, ctx: Context)
    requires Completes(w, ctx)
    decreases t
  {
    t.And? ==> HoldsComp(t.right, w, ctx) && HoldsConjTail(t.tail, w, ctx)
  }

  ghost predicate HoldsConj(c: Conj, w: World, ctx: Context)
    requires Completes(w, ctx)
    decreases c, 0
  {
    HoldsComp(c.first, w, ctx) && HoldsConjTail(c.tail, w, ctx)
  }

  ghost predicate HoldsDisjTail(t: DisjTail, w: World, ctx: Context)
    requires Completes(w, ctx)
    decreases t
  {
    t.Or? && (HoldsConj(t.right, w, ctx) || HoldsDisjTail(t.tail, w, ctx))
  }

  ghost predicate HoldsDisj(d: Disj, w: World, ctx: Context)
    requires Completes(w, ctx)
    decreases d
  {
    HoldsConj(d.first, w, ctx) || HoldsDisjTail(d.tail, w, ctx)
  }

  // ----- and what it is worth as a compared operand -----

  ghost function LastValue(t: ConjTail, w: World, ctx: Context): (v: Value)
    requires Completes(w, ctx) && t.And?
    ensures !v.Unknown?
    decreases t
  {
    if t.tail.ConjEnd? then ValueComp(t.right, w, ctx) else LastValue(t.tail, w, ctx)
  }

  /** A comparison alone keeps its value; several give the last one's where all hold, and false otherwise. */
  ghost function ValueConj(c: Conj, w: World, ctx: Context): (v: Value)
    requires Completes(w, ctx)
    ensures !v.Unknown?
    decreases c, 1
  {
    if c.tail.ConjEnd? then ValueComp(c.first, w, ctx)
    else if HoldsConj(c, w, ctx) then LastValue(c.tail, w, ctx)
    else Bool(false)
  }

  ghost function ValueDisjTail(t: DisjTail, w: World, ctx: Context): (v: Value)
    requires Completes(w, ctx) && t.Or?
    ensures !v.Unknown?
    decreases t
  {
    if HoldsConj(t.right, w, ctx) || t.tail.DisjEnd? then ValueConj(t.right, w, ctx) else ValueDisjTail(t.tail, w, ctx)
  }

  /** The first disjunct that holds, or else the last one. */
  ghost function ValueDisj(d: Disj, w: World, ctx: Context): (v: Value)
    requires Completes(w, ctx)
    ensures !v.Unknown?
    decreases d
  {
    if HoldsConj(d.first, w, ctx) || d.tail.DisjEnd? then ValueConj(d.first, w, ctx) else ValueDisjTail(d.tail, w, ctx)
  }

  lemma {:induction false} LastHolds(t: ConjTail, w: World, ctx: Context)
    requires Completes(w, ctx) && t.And? && HoldsConjTail(t, w, ctx)
    ensures IsTrue(LastValue(t, w, ctx))
    decreases t
  {
    if t.tail.And? {
      LastHolds(t.tail, w, ctx);
    }
  }

  lemma ConjHolds(c: Conj, w: World, ctx: Context)
    requires Completes(w, ctx)
    ensures IsTrue(ValueConj(c, w, ctx)) <==> HoldsConj(c, w, ctx)
  {
    if c.tail.And? && HoldsConj(c, w, ctx) {
      LastHolds(c.tail, w, ctx);
    }
  }

  lemma {:induction false} DisjTailHolds(t: DisjTail, w: World, ctx: Context)
    requires Completes(w, ctx) && t.Or?
    ensures IsTrue(ValueDisjTail(t, w, ctx)) <==> HoldsDisjTail(t, w, ctx)
    decreases t
  {
    ConjHolds(t.right, w, ctx);
    if t.tail.Or? {
      DisjTailHolds(t.tail, w, ctx);
    }
  }

  /** The value is true where the expression holds. */
  lemma DisjHolds(d: Disj, w: World, ctx: Context)
    requires Completes(w, ctx)
    ensures IsTrue(ValueDisj(d, w, ctx)) <==> HoldsDisj(d, w, ctx)
  {
    ConjHolds(d.first, w, ctx);
    if d.tail.Or? {
      DisjTailHolds(d.tail, w, ctx);
    }
  }

  // ----- compared operands whose value no `||` decides -----

  /** The value of the primary is not the outcome of an `||`. */
  predicate HasPlainValue(p: Prim)
    decreases p
  {
    p.Paren? ==> p.d.tail.DisjEnd? && HasPlainConj(p.d.first)
  }

  /** Nor is the value of a comparison that is a primary alone. */
  predicate HasPlainComp(c: Comp)
    decreases c
  {
    c.tail.CompEnd? ==> HasPlainValue(c.first)
  }

  predicate HasPlainConjTail(t: ConjTail)
    decreases t
  {
    t.And? ==> if t.tail.ConjEnd? then HasPlainComp(t.right) else HasPlainConjTail(t.tail)
  }

  predicate HasPlainConj(c: Conj)
    decreases c
  {
    if c.tail.ConjEnd? then HasPlainComp(c.first) else HasPlainConjTail(c.tail)
  }

  predicate PlainPrim(p: Prim)
    decreases p
  {
    match p
    case Paren(d) => PlainDisj(d)
    case Not(q) => PlainPrim(q)
    case _ => true
  }

  predicate PlainCompTail(t: CompTail)
    decreases t
  {
    t.Compare? ==> HasPlainValue(t.right) && PlainPrim(t.right) && PlainCompTail(t.tail)
  }

  predicate PlainComp(c: Comp)
    decreases c
  {
    PlainPrim(c.first) && PlainCompTail(c.tail) && (c.tail.Compare? ==> HasPlainValue(c.first))
  }

  predicate PlainConjTail(t: ConjTail)
    decreases t
  {
    t.And? ==> PlainComp(t.right) && PlainConjTail(t.tail)
  }

  predicate PlainConj(c: Conj)
    decreases c
  {
    PlainComp(c.first) && PlainConjTail(c.tail)
  }

  predicate PlainDisjTail(t: DisjTail)
    decreases t
  {
    t.Or? ==> PlainConj(t.right) && PlainDisjTail(t.tail)
  }

  predicate PlainDisj(d: Disj)
    decreases d
  {
    PlainConj(d.first) && PlainDisjTail(d.tail)
  }

  // ----- soundness -----

  /** A known truth value is the right one. */
  predicate Sound(v: Value, holds: bool) {
    Truthy(v).Unknown? || Truthy(v) == Bool(holds)
  }

  /** A known value is the right one. */
  predicate Exact(v: Value, value: Value) {
    v.Unknown? || v == value
  }

  lemma {:induction false} PrimSound(p: Prim, w: World, ctx: Context)
    requires Completes(w, ctx) && PlainPrim(p)
    ensures Sound(EvalPrim(p, ctx), IsTrue(Operand(p, w, ctx)))
    ensures HasPlainValue(p) ==> Exact(EvalPrim(p, ctx), Operand(p, w, ctx))
    decreases p, 0
  {
    match p
    case Paren(d) =>
      DisjSound(d, w, ctx);
      DisjHolds(d, w, ctx);
      if HasPlainValue(p) {
        ConjExact(d.first, w, ctx);
        assert EvalDisj(d, ctx) == EvalConj(d.first, ctx);
      }
    case Not(q) => PrimSound(q, w, ctx);
    case _ =>
  }

  lemma {:induction false} ChainSound(left: Value, left': Value, t: CompTail, w: World, ctx: Context)
    requires Completes(w, ctx) && PlainCompTail(t) && !left'.Unknown? && Exact(left, left')
    ensures Exact(EvalCompTail(left, t, ctx), Chain(left', t, w, ctx))
    decreases t, 1
  {
    if t.Compare? {
      PrimSound(t.right, w, ctx);
      var right := EvalPrim(t.right, ctx);
      ChainSound(CompareValues(t.op, left, right), Bool(Compared(w, t.op, left', Operand(t.right, w, ctx))), t.tail, w, ctx);
    }
  }

  lemma {:induction false} CompSound(c: Comp, w: World, ctx: Context)
    requires Completes(w, ctx) && PlainComp(c)
    ensures Sound(EvalComp(c, ctx), HoldsComp(c, w, ctx))
    ensures HasPlainComp(c) ==> Exact(EvalComp(c, ctx), ValueComp(c, w, ctx))
    decreases c, 1
  {
    PrimSound(c.first, w, ctx);
    if c.tail.Compare? {
      ChainSound(EvalPrim(c.first, ctx), Operand(c.first, w, ctx), c.tail, w, ctx);
    } else {
      assert EvalCompTail(EvalPrim(c.first, ctx), CompEnd, ctx) == EvalPrim(c.first, ctx);
      assert Chain(Operand(c.first, w, ctx), CompEnd, w, ctx) == Operand(c.first, w, ctx);
      assert EvalComp(c, ctx) == EvalPrim(c.first, ctx) && ValueComp(c, w, ctx) == Operand(c.first, w, ctx);
    }
  }

  lemma {:induction false} ConjTailSound(left: Value, holds: bool, t: ConjTail, w: World, ctx: Context)
    requires Completes(w, ctx) && PlainConjTail(t) && Sound(left, holds)
    ensures Sound(EvalConjTail(left, t, ctx), holds && HoldsConjTail(t, w, ctx))
    ensures t.And? && HasPlainConjTail(t) ==>
              Exact(EvalConjTail(left, t, ctx), if holds && HoldsConjTail(t, w, ctx) then LastValue(t, w, ctx) else Bool(false))
    decreases t, 2
  {
    hide EvalComp, ValueComp, PlainComp, HasPlainComp;
    if t.And? {
      CompSound(t.right, w, ctx);
      var both := holds && HoldsComp(t.right, w, ctx);
      var next := AndValues(left, EvalComp(t.right, ctx));
      ConjTailSound(next, both, t.tail, w, ctx);
      HoldsIsTrue(t.right, w, ctx);
      if t.tail.ConjEnd? {
        assert EvalConjTail(left, t, ctx) == next;
      }
    }
  }

  lemma HoldsIsTrue(c: Comp, w: World, ctx: Context)
    requires Completes(w, ctx)
    ensures HoldsComp(c, w, ctx) <==> IsTrue(ValueComp(c, w, ctx))
  {
  }

  lemma {:induction false} ConjSound(c: Conj, w: World, ctx: Context)
    requires Completes(w, ctx) && PlainConj(c)
    ensures Sound(EvalConj(c, ctx), HoldsConj(c, w, ctx))
    decreases c, 2
  {
    CompSound(c.first, w, ctx);
    ConjTailSound(EvalComp(c.first, ctx), HoldsComp(c.first, w, ctx), c.tail, w, ctx);
  }

  /** As a compared operand, too, a conjunction has its value in every run. */
  lemma {:induction false} ConjExact(c: Conj, w: World, ctx: Context)
    requires Completes(w, ctx) && PlainConj(c) && HasPlainConj(c)
    ensures Exact(EvalConj(c, ctx), ValueConj(c, w, ctx))
    decreases c, 2
  {
    CompSound(c.first, w, ctx);
    ConjTailSound(EvalComp(c.first, ctx), HoldsComp(c.first, w, ctx), c.tail, w, ctx);
  }

  lemma {:induction false} DisjTailSound(left: Value, holds: bool, t: DisjTail, w: World, ctx: Context)
    requires Completes(w, ctx) && PlainDisjTail(t) && Sound(left, holds)
    ensures Sound(EvalDisjTail(left, t, ctx), holds || HoldsDisjTail(t, w, ctx))
    decreases t, 3
  {
    if t.Or? {
      ConjSound(t.right, w, ctx);
      var either := holds || HoldsConj(t.right, w, ctx);
      DisjTailSound(OrValues(left, EvalConj(t.right, ctx)), either, t.tail, w, ctx);
    }
  }

  lemma {:induction false} DisjSound(d: Disj, w: World, ctx: Context)
    requires Completes(w, ctx) && PlainDisj(d)
    ensures Sound(EvalDisj(d, ctx), HoldsDisj(d, w, ctx))
    decreases d, 3
  {
    ConjSound(d.first, w, ctx);
    DisjTailSound(EvalConj(d.first, ctx), HoldsConj(d.first, w, ctx), d.tail, w, ctx);
  }

  /** A True or False verdict is the truth in every run the context leaves open. */
  lemma VerdictIsSound(d: Disj, w: World, ctx: Context)
    requires WfDisj(d) && PlainDisj(d) && Completes(w, ctx)
    ensures var verdict := EvaluateTokens(PrintDisj(d), ctx);
            verdict.Unknown? || verdict == Bool(HoldsDisj(d, w, ctx))
  {
    EvaluatePrinted(d, ctx);
    DisjSound(d, w, ctx);
  }

  predicate MayRun(ts: seq<string>, ctx: Context) {
    EvaluateTokens(ts, ctx) != Bool(false)
  }

  /** A step is never ruled out where some run the context leaves open would run it. */
  lemma MayRunNeverMisses(d: Disj, w: World, ctx: Context)
    requires WfDisj(d) && PlainDisj(d) && Completes(w, ctx) && HoldsDisj(d, w, ctx)
    ensures MayRun(PrintDisj(d), ctx)
  {
    VerdictIsSound(d, w, ctx);
  }

  // ----- the restriction on operands is needed -----

  /** `x || 'a'`. */
  function XOrA(): Disj {
    Disj(Conj(Comp(Name("x"), CompEnd), ConjEnd), Or(Conj(Comp(Quoted("a"), CompEnd), ConjEnd), DisjEnd))
  }

  /** `(x || 'a') == 'a'`. */
  function XOrAIsA(): Disj {
    Disj(Conj(Comp(Paren(XOrA()), Compare("==", Quoted("a"), CompEnd)), ConjEnd), DisjEnd)
  }

  lemma XOrAValue(ctx: Context)
    ensures EvalDisj(XOrA(), ctx) == OrValues(if "x" in ctx then ctx["x"] else Unknown, Text("a"))
  {
    var x, a := Comp(Name("x"), CompEnd), Comp(Quoted("a"), CompEnd);
    assert EvalConj(Conj(x, ConjEnd), ctx) == EvalPrim(x.first, ctx);
    assert EvalConj(Conj(a, ConjEnd), ctx) == Text("a");
  }

  lemma XOrAIsAValue(ctx: Context)
    ensures EvalDisj(XOrAIsA(), ctx) == CompareValues("==", EvalDisj(XOrA(), ctx), Text("a"))
  {
    hide EvalDisj, XOrA, CompareValues;
    var c := Comp(Paren(XOrA()), Compare("==", Quoted("a"), CompEnd));
    var v := CompareValues("==", EvalDisj(XOrA(), ctx), Text("a"));
    assert EvalCompTail(EvalDisj(XOrA(), ctx), c.tail, ctx) == EvalCompTail(v, CompEnd, ctx) == v;
    assert EvalComp(c, ctx) == v;
    assert EvalConj(Conj(c, ConjEnd), ctx) == v;
    OneConj(Conj(c, ConjEnd), ctx);
  }

  lemma OneConj(c: Conj, ctx: Context)
    ensures EvalDisj(Disj(c, DisjEnd), ctx) == EvalConj(c, ctx)
  {
  }

  /** `(x || 'a') == 'a'` is judged true with x unknown, and is false where x is 'b'. */
  lemma ParenthesisedOperandIsUnsound()
    ensures WfDisj(XOrAIsA()) && !PlainDisj(XOrAIsA())
    ensures EvaluateTokens(PrintDisj(XOrAIsA()), map[]) == Bool(true)
    ensures EvaluateTokens(PrintDisj(XOrAIsA()), map["x" := Text("b")]) == Bool(false)
  {
    hide EvalDisj, EvaluateTokens, PrintDisj;
    XOrAIsWf();
    var ctx: Context := map["x" := Text("b")];
    EvaluatePrinted(XOrAIsA(), map[]);
    EvaluatePrinted(XOrAIsA(), ctx);
    XOrAValue(map[]);
    XOrAValue(ctx);
    XOrAIsAValue(map[]);
    XOrAIsAValue(ctx);
    assert "b"[0] != "a"[0];
    assert Lower("b")[0] == 'b' && Lower("a")[0] == 'a';
  }

  lemma XOrAIsWf()
    ensures WfDisj(XOrAIsA())
  {
    assert WfConjTail(ConjEnd) && WfDisjTail(DisjEnd) && WfCompTail(CompEnd);
    var d := XOrA();
    assert WfConj(d.first) && WfConj(d.tail.right) && WfDisjTail(d.tail) && WfDisj(d);
    var c := XOrAIsA().first.first;
    assert WfPrim(c.first) && WfCompTail(c.tail) && WfComp(c);
  }
}
