/** The tables of the three-valued evaluator, over the parts of an expression. */
module Kleene {
  import opened Expressions
  import opened Grammar
  import opened Structure
  import opened Completion

  predicate IsFalse(v: Value) {
    Truthy(v) == Bool(false)
  }

  predicate IsOpen(v: Value) {
    Truthy(v).Unknown?
  }

  // ----- conjunctions -----

  /** One value is itself. Several are false where one is, otherwise unknown where one is, otherwise the last. */
  ghost predicate IsConjunctionOf(v: Value, vs: seq<Value>) {
    && vs != []
    && if |vs| == 1 then v == vs[0]
       else if exists i :: 0 <= i < |vs| && IsFalse(vs[i]) then v == Bool(false)
       else if exists i :: 0 <= i < |vs| && IsOpen(vs[i]) then v == Unknown
       else v == vs[|vs| - 1]
  }

  lemma AndStep(left: Value, vs: seq<Value>, right: Value)
    requires IsConjunctionOf(left, vs)
    ensures IsConjunctionOf(AndValues(left, right), vs + [right])
  {
    var all := vs + [right];
    assert forall i :: 0 <= i < |vs| ==> all[i] == vs[i];
    assert all[|vs|] == right && all[0] == vs[0];
    assert IsTrue(vs[|vs| - 1]) || IsFalse(vs[|vs| - 1]) || IsOpen(vs[|vs| - 1]);
  }

  function CompValues(cs: seq<Comp>, ctx: Context): (vs: seq<Value>)
    ensures |vs| == |cs| && forall i :: 0 <= i < |cs| ==> vs[i] == EvalComp(cs[i], ctx)
  {
    seq(|cs|, i requires 0 <= i < |cs| => EvalComp(cs[i], ctx))
  }

  lemma {:induction false} ConjTailTable(left: Value, vs: seq<Value>, t: ConjTail, ctx: Context)
    requires IsConjunctionOf(left, vs)
    ensures IsConjunctionOf(EvalConjTail(left, t, ctx), vs + CompValues(TailComps(t), ctx))
    decreases t
  {
    hide EvalComp, AndValues, IsConjunctionOf;
    if t.ConjEnd? {
      assert vs + CompValues([], ctx) == vs;
    } else {
      var right := EvalComp(t.right, ctx);
      AndStep(left, vs, right);
      ConjTailTable(AndValues(left, right), vs + [right], t.tail, ctx);
      assert vs + CompValues(TailComps(t), ctx) == vs + [right] + CompValues(TailComps(t.tail), ctx);
    }
  }

  lemma ConjTable(c: Conj, ctx: Context)
    ensures IsConjunctionOf(EvalConj(c, ctx), CompValues(Comps(c), ctx))
  {
    hide EvalComp, TailComps, EvalConjTail;
    var first := EvalComp(c.first, ctx);
    ConjTailTable(first, [first], c.tail, ctx);
    assert CompValues(Comps(c), ctx) == [first] + CompValues(TailComps(c.tail), ctx);
  }

  // ----- disjunctions -----

  function Conjs(d: Disj): seq<Conj> {
    [d.first] + TailConjs(d.tail)
  }

  function TailConjs(t: DisjTail): seq<Conj>
    decreases t
  {
    if t.DisjEnd? then [] else [t.right] + TailConjs(t.tail)
  }

  ghost predicate IsFirstTrue(i: nat, vs: seq<Value>) {
    i < |vs| && IsTrue(vs[i]) && forall j :: 0 <= j < i ==> !IsTrue(vs[j])
  }

  /** The first true value; without one, unknown where one of several is; otherwise the last. */
  ghost predicate IsDisjunctionOf(v: Value, vs: seq<Value>) {
    && vs != []
    && if exists i: nat :: IsFirstTrue(i, vs) then exists i: nat :: IsFirstTrue(i, vs) && v == vs[i]
       else if |vs| > 1 && exists i :: 0 <= i < |vs| && IsOpen(vs[i]) then v == Unknown
       else v == vs[|vs| - 1]
  }

  lemma {:induction false} FirstTrue(vs: seq<Value>)
    ensures (exists i :: 0 <= i < |vs| && IsTrue(vs[i])) <==> exists i: nat :: IsFirstTrue(i, vs)
  {
    if vs != [] {
      var n := |vs| - 1;
      FirstTrue(vs[..n]);
      if i: nat :| IsFirstTrue(i, vs[..n]) {
        assert IsFirstTrue(i, vs);
      } else if IsTrue(vs[n]) {
        assert forall j :: 0 <= j < n ==> vs[..n][j] == vs[j];
        assert IsFirstTrue(n, vs);
      }
      if i :| 0 <= i < |vs| && IsTrue(vs[i]) {
        assert i < n ==> IsTrue(vs[..n][i]);
      }
    }
  }

  lemma OrStep(left: Value, vs: seq<Value>, right: Value)
    requires IsDisjunctionOf(left, vs)
    ensures IsDisjunctionOf(OrValues(left, right), vs + [right])
  {
    var all := vs + [right];
    assert forall i :: 0 <= i < |vs| ==> all[i] == vs[i];
    assert all[|vs|] == right;
    FirstTrue(vs);
    FirstTrue(all);
    if i: nat :| IsFirstTrue(i, vs) && left == vs[i] {
      assert IsFirstTrue(i, all) && left == all[i];
    } else if IsTrue(right) {
      assert IsFirstTrue(|vs|, all);
    }
  }

  function ConjValues(cs: seq<Conj>, ctx: Context): (vs: seq<Value>)
    ensures |vs| == |cs| && forall i :: 0 <= i < |cs| ==> vs[i] == EvalConj(cs[i], ctx)
  {
    seq(|cs|, i requires 0 <= i < |cs| => EvalConj(cs[i], ctx))
  }

  lemma {:induction false} DisjTailTable(left: Value, vs: seq<Value>, t: DisjTail, ctx: Context)
    requires IsDisjunctionOf(left, vs)
    ensures IsDisjunctionOf(EvalDisjTail(left, t, ctx), vs + ConjValues(TailConjs(t), ctx))
    decreases t
  {
    hide EvalConj, OrValues, IsDisjunctionOf;
    if t.DisjEnd? {
      assert vs + ConjValues([], ctx) == vs;
    } else {
      var right := EvalConj(t.right, ctx);
      OrStep(left, vs, right);
      DisjTailTable(OrValues(left, right), vs + [right], t.tail, ctx);
      assert vs + ConjValues(TailConjs(t), ctx) == vs + [right] + ConjValues(TailConjs(t.tail), ctx);
    }
  }

  lemma DisjTable(d: Disj, ctx: Context)
    ensures IsDisjunctionOf(EvalDisj(d, ctx), ConjValues(Conjs(d), ctx))
  {
    hide EvalConj, TailConjs, EvalDisjTail;
    var first := EvalConj(d.first, ctx);
    SingleDisjunction(first);
    DisjTailTable(first, [first], d.tail, ctx);
    assert ConjValues(Conjs(d), ctx) == [first] + ConjValues(TailConjs(d.tail), ctx);
  }

  lemma SingleDisjunction(v: Value)
    ensures IsDisjunctionOf(v, [v])
  {
    if i: nat :| IsFirstTrue(i, [v]) {
      assert i == 0 && v == [v][i];
    }
  }

  // ----- the verdict on a whole expression -----

  /** True where some disjunct has only true comparisons, false where every disjunct has a false one, and otherwise
      unknown. */
  lemma VerdictTable(d: Disj, ctx: Context)
    requires WfDisj(d)
    ensures var verdict := EvaluateTokens(PrintDisj(d), ctx);
            && (verdict == Bool(true) <==> exists i :: 0 <= i < |Conjs(d)| && AllTrue(Comps(Conjs(d)[i]), ctx))
            && (verdict == Bool(false) <==> forall i :: 0 <= i < |Conjs(d)| ==> SomeFalse(Comps(Conjs(d)[i]), ctx))
            && (verdict.Bool? || verdict.Unknown?)
  {
    hide EvaluateTokens, PrintDisj, EvalDisj, EvalConj, WfDisj, Conjs, Comps, AllTrue, SomeFalse, IsDisjunctionOf;
    EvaluatePrinted(d, ctx);
    DisjTable(d, ctx);
    var vs := ConjValues(Conjs(d), ctx);
    DisjunctionTruth(EvalDisj(d, ctx), vs);
    forall i | 0 <= i < |vs|
      ensures IsTrue(vs[i]) <==> AllTrue(Comps(Conjs(d)[i]), ctx)
      ensures IsFalse(vs[i]) <==> SomeFalse(Comps(Conjs(d)[i]), ctx)
    {
      ConjTruth(Conjs(d)[i], ctx);
    }
  }

  ghost predicate AllTrue(cs: seq<Comp>, ctx: Context) {
    forall i :: 0 <= i < |cs| ==> IsTrue(EvalComp(cs[i], ctx))
  }

  ghost predicate SomeFalse(cs: seq<Comp>, ctx: Context) {
    exists i :: 0 <= i < |cs| && IsFalse(EvalComp(cs[i], ctx))
  }

  lemma DisjunctionTruth(v: Value, vs: seq<Value>)
    requires IsDisjunctionOf(v, vs)
    ensures IsTrue(v) <==> exists i :: 0 <= i < |vs| && IsTrue(vs[i])
    ensures IsFalse(v) <==> forall i :: 0 <= i < |vs| ==> IsFalse(vs[i])
  {
    FirstTrue(vs);
    var last := vs[|vs| - 1];
    assert forall i :: 0 <= i < |vs| ==> IsTrue(vs[i]) || IsFalse(vs[i]) || IsOpen(vs[i]);
  }

  lemma ConjTruth(c: Conj, ctx: Context)
    ensures IsTrue(EvalConj(c, ctx)) <==> AllTrue(Comps(c), ctx)
    ensures IsFalse(EvalConj(c, ctx)) <==> SomeFalse(Comps(c), ctx)
  {
    hide EvalComp, EvalConj, Comps;
    ConjTable(c, ctx);
    var v, vs := EvalConj(c, ctx), CompValues(Comps(c), ctx);
    assert forall i :: 0 <= i < |vs| ==> IsTrue(vs[i]) || IsFalse(vs[i]) || IsOpen(vs[i]);
    if i :| 0 <= i < |vs| && IsFalse(vs[i]) {
      assert SomeFalse(Comps(c), ctx);
    }
  }

  // ----- comparisons and primaries -----

  /** Every operator of the chain is an equality or an inequality, and every operand after the first is known. */
  ghost predicate Decided(t: CompTail, ctx: Context)
    decreases t
  {
    t.Compare? ==> (t.op == "==" || t.op == "!=") && !EvalPrim(t.right, ctx).Unknown? && Decided(t.tail, ctx)
  }

  lemma {:induction false} ChainUnknownIff(left: Value, t: CompTail, ctx: Context)
    ensures EvalCompTail(left, t, ctx).Unknown? <==> left.Unknown? || !Decided(t, ctx)
    decreases t
  {
    hide EvalPrim, Shown;
    if t.Compare? {
      ChainUnknownIff(CompareValues(t.op, left, EvalPrim(t.right, ctx)), t.tail, ctx);
    }
  }

  /** A comparison is unknown exactly where an operand is, or an operator orders. */
  lemma CompUnknownIff(c: Comp, ctx: Context)
    ensures EvalComp(c, ctx).Unknown? <==> EvalPrim(c.first, ctx).Unknown? || !Decided(c.tail, ctx)
  {
    ChainUnknownIff(EvalPrim(c.first, ctx), c.tail, ctx);
  }

  /** The truth of a primary other than a parenthesis or a negation: text is true unless empty, a number in the
      expression is text, and a call or a name without a value is unknown. */
  function LeafVerdict(p: Prim, ctx: Context): Value
    requires !p.Paren? && !p.Not?
  {
    match p
    case Quoted(text) => Bool(text != "")
    case Num(_) => Bool(true)
    case Lit(b) => Bool(b)
    case Call(_, _) => Unknown
    case Name(name) =>
      if name !in ctx then Unknown
      else match ctx[name]
        case Unknown => Unknown
        case Bool(b) => Bool(b)
        case Text(s) => Bool(|s| > 0)
        case Number(_, zero) => Bool(!zero)
  }

  lemma {:induction false} PrimTable(p: Prim, ctx: Context)
    requires WfPrim(p)
    ensures p.Paren? ==> EvalPrim(p, ctx) == EvalDisj(p.d, ctx)
    ensures p.Not? ==> (IsOpen(EvalPrim(p, ctx)) <==> IsOpen(EvalPrim(p.p, ctx)))
    ensures p.Not? ==> (IsTrue(EvalPrim(p, ctx)) <==> IsFalse(EvalPrim(p.p, ctx)))
    ensures !p.Paren? && !p.Not? ==> Truthy(EvalPrim(p, ctx)) == LeafVerdict(p, ctx)
  {
  }

  /** A value as the other side of a comparison reads it. */
  predicate ReadsAs(v: Value, text: string) {
    match v
    case Unknown => false
    case Bool(b) => Lower(text) == if b then "true" else "false"
    case Text(s) => Lower(text) == Lower(s)
    case Number(repr, _) => Lower(text) == Lower(repr)
  }

  /** `name == 'text'` and `name != 'text'`: unknown without a value, and otherwise equality but for case. */
  lemma NameComparison(name: string, op: string, text: string, ctx: Context)
    requires IsName(name) && (op == "==" || op == "!=")
    ensures EvaluateTokens([name, op, "'" + Escape(text) + "'"], ctx) ==
              if name !in ctx || ctx[name].Unknown? then Unknown else Bool(ReadsAs(ctx[name], text) == (op == "=="))
  {
    hide EvaluateTokens;
    var c := Comp(Name(name), Compare(op, Quoted(text), CompEnd));
    var d := Disj(Conj(c, ConjEnd), DisjEnd);
    var v := if name in ctx then ctx[name] else Unknown;
    assert WfPrim(Quoted(text)) && WfPrim(Name(name));
    assert WfCompTail(c.tail);
    assert WfComp(c);
    assert WfConj(d.first);
    PrintNameComparison(name, op, text);
    EvaluatePrinted(d, ctx);
    assert EvalCompTail(v, c.tail, ctx) == EvalCompTail(CompareValues(op, v, Text(text)), CompEnd, ctx);
    assert EvalComp(c, ctx) == CompareValues(op, v, Text(text));
    assert EvalConj(d.first, ctx) == EvalComp(c, ctx);
    OneConj(d.first, ctx);
  }

  lemma PrintNameComparison(name: string, op: string, text: string)
    ensures var c := Comp(Name(name), Compare(op, Quoted(text), CompEnd));
            PrintDisj(Disj(Conj(c, ConjEnd), DisjEnd)) == [name, op, "'" + Escape(text) + "'"]
  {
    hide Escape;
    var c := Comp(Name(name), Compare(op, Quoted(text), CompEnd));
    assert PrintCompTail(CompEnd) == [] && PrintPrim(Quoted(text)) == ["'" + Escape(text) + "'"];
    var tail := Compare(op, Quoted(text), CompEnd);
    assert PrintCompTail(tail) == [op] + PrintPrim(Quoted(text)) + PrintCompTail(CompEnd);
    assert PrintComp(c) == PrintPrim(Name(name)) + PrintCompTail(tail);
    assert PrintConj(Conj(c, ConjEnd)) == PrintComp(c);
  }

  /** A step is ruled out exactly where every disjunct has a comparison that is false. */
  lemma RuledOutIff(d: Disj, ctx: Context)
    requires WfDisj(d)
    ensures !MayRun(PrintDisj(d), ctx) <==> forall i :: 0 <= i < |Conjs(d)| ==> SomeFalse(Comps(Conjs(d)[i]), ctx)
  {
    hide EvaluateTokens, PrintDisj, Conjs, Comps, SomeFalse;
    VerdictTable(d, ctx);
  }
}
