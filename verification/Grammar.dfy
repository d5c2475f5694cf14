/** Well-formed expressions as trees. Parentheses are nodes, so every redundant pair is kept apart. */
module Grammar {
  import opened Lexing
  import opened Expressions

  datatype Prim =
    | Paren(d: Disj)
    | Not(p: Prim)
    | Quoted(text: string)
    | Num(text: string)
    | Lit(b: bool)
    | Name(name: string)
    | Call(name: string, args: seq<string>)

  datatype Comp = Comp(first: Prim, tail: CompTail)
  datatype CompTail = CompEnd | Compare(op: string, right: Prim, tail: CompTail)
  datatype Conj = Conj(first: Comp, tail: ConjTail)
  datatype ConjTail = ConjEnd | And(right: Comp, tail: ConjTail)
  datatype Disj = Disj(first: Conj, tail: DisjTail)
  datatype DisjTail = DisjEnd | Or(right: Conj, tail: DisjTail)

  /** Tokens whose parentheses balance, from a depth never falling below 0. */
  predicate Balanced(ts: seq<string>, depth: nat) {
    if ts == [] then depth == 0
    else if ts[0] == "(" then Balanced(ts[1..], depth + 1)
    else if ts[0] == ")" then depth > 0 && Balanced(ts[1..], depth - 1)
    else Balanced(ts[1..], depth)
  }

  predicate IsName(t: string) {
    t != "" && NameStart(t[0]) && t != "true" && t != "false"
  }

  predicate WfPrim(p: Prim)
    decreases p
  {
    match p
    case Paren(d) => WfDisj(d)
    case Not(q) => WfPrim(q)
    case Quoted(_) => true
    case Num(text) => IsNumber(text)
    case Lit(_) => true
    case Name(name) => IsName(name)
    case Call(name, args) => IsName(name) && Balanced(args, 0)
  }

  predicate WfComp(c: Comp)
    decreases c
  {
    WfPrim(c.first) && WfCompTail(c.tail)
  }

  predicate WfCompTail(t: CompTail)
    decreases t
  {
    t.Compare? ==> t.op in COMPARISONS && WfPrim(t.right) && WfCompTail(t.tail)
  }

  predicate WfConj(c: Conj)
    decreases c
  {
    WfComp(c.first) && WfConjTail(c.tail)
  }

  predicate WfConjTail(t: ConjTail)
    decreases t
  {
    t.And? ==> WfComp(t.right) && WfConjTail(t.tail)
  }

  predicate WfDisj(d: Disj)
    decreases d
  {
    WfConj(d.first) && WfDisjTail(d.tail)
  }

  predicate WfDisjTail(t: DisjTail)
    decreases t
  {
    t.Or? ==> WfConj(t.right) && WfDisjTail(t.tail)
  }

  // ----- printing -----

  function PrintPrim(p: Prim): (ts: seq<string>)
    decreases p
  {
    match p
    case Paren(d) => ["("] + PrintDisj(d) + [")"]
    case Not(q) => ["!"] + PrintPrim(q)
    case Quoted(text) => ["'" + Escape(text) + "'"]
    case Num(text) => [text]
    case Lit(b) => [if b then "true" else "false"]
    case Name(name) => [name]
    case Call(name, args) => [name, "("] + args + [")"]
  }

  function PrintComp(c: Comp): seq<string>
    decreases c
  {
    PrintPrim(c.first) + PrintCompTail(c.tail)
  }

  function PrintCompTail(t: CompTail): seq<string>
    decreases t
  {
    if t.CompEnd? then [] else [t.op] + PrintPrim(t.right) + PrintCompTail(t.tail)
  }

  function PrintConj(c: Conj): seq<string>
    decreases c
  {
    PrintComp(c.first) + PrintConjTail(c.tail)
  }

  function PrintConjTail(t: ConjTail): seq<string>
    decreases t
  {
    if t.ConjEnd? then [] else ["&&"] + PrintComp(t.right) + PrintConjTail(t.tail)
  }

  function PrintDisj(d: Disj): seq<string>
    decreases d
  {
    PrintConj(d.first) + PrintDisjTail(d.tail)
  }

  function PrintDisjTail(t: DisjTail): seq<string>
    decreases t
  {
    if t.DisjEnd? then [] else ["||"] + PrintConj(t.right) + PrintDisjTail(t.tail)
  }

  // ----- meaning -----

  function EvalPrim(p: Prim, ctx: Context): Value
    decreases p
  {
    match p
    case Paren(d) => EvalDisj(d, ctx)
    case Not(q) => NotValue(EvalPrim(q, ctx))
    case Quoted(text) => Text(text)
    case Num(text) => Text(text)
    case Lit(b) => Bool(b)
    case Name(name) => if name in ctx then ctx[name] else Unknown
    case Call(_, _) => Unknown
  }

  function EvalComp(c: Comp, ctx: Context): Value
    decreases c
  {
    EvalCompTail(EvalPrim(c.first, ctx), c.tail, ctx)
  }

  function EvalCompTail(left: Value, t: CompTail, ctx: Context): Value
    decreases t
  {
    if t.CompEnd? then left
    else EvalCompTail(CompareValues(t.op, left, EvalPrim(t.right, ctx)), t.tail, ctx)
  }

  function EvalConj(c: Conj, ctx: Context): Value
    decreases c
  {
    EvalConjTail(EvalComp(c.first, ctx), c.tail, ctx)
  }

  function EvalConjTail(left: Value, t: ConjTail, ctx: Context): Value
    decreases t
  {
    if t.ConjEnd? then left else EvalConjTail(AndValues(left, EvalComp(t.right, ctx)), t.tail, ctx)
  }

  function EvalDisj(d: Disj, ctx: Context): Value
    decreases d
  {
    EvalDisjTail(EvalConj(d.first, ctx), d.tail, ctx)
  }

  function EvalDisjTail(left: Value, t: DisjTail, ctx: Context): Value
    decreases t
  {
    if t.DisjEnd? then left else EvalDisjTail(OrValues(left, EvalConj(t.right, ctx)), t.tail, ctx)
  }

  // ----- the recursive descent computes the meaning -----

  predicate StartsWith(ts: seq<string>, t: string) {
    ts != [] && ts[0] == t
  }

  /** What may follow a primary, a comparison, a conjunction and a disjunction. */
  predicate AfterPrim(ts: seq<string>) {
    !StartsWith(ts, "(")
  }

  predicate AfterComp(ts: seq<string>) {
    AfterPrim(ts) && (ts != [] ==> ts[0] !in COMPARISONS)
  }

  predicate AfterConj(ts: seq<string>) {
    AfterComp(ts) && !StartsWith(ts, "&&")
  }

  predicate AfterDisj(ts: seq<string>) {
    AfterConj(ts) && !StartsWith(ts, "||")
  }

  lemma LiteralToken(b: bool)
    ensures var t := if b then "true" else "false";
            !IsNumber(t) && !("'" <= t) && t != "(" && t != "!" && (t == "true" <==> b)
  {
    var t := if b then "true" else "false";
    assert t[0] != '\'';
    RunUnique(Digit, t, 0);
  }

  lemma NameToken(t: string)
    requires IsName(t)
    ensures !IsNumber(t) && !("'" <= t) && t != "(" && t != "!"
  {
    RunUnique(Digit, t, 0);
  }

  lemma NumberToken(t: string)
    requires IsNumber(t)
    ensures Digit(t[0]) && !("'" <= t) && t != "(" && t != "!"
  {
  }

  lemma {:induction false} PrimOf(p: Prim, rest: seq<string>, ctx: Context)
    requires WfPrim(p) && AfterPrim(rest)
    ensures ParsePrimary(PrintPrim(p) + rest, ctx) == Ok(EvalPrim(p, ctx), rest)
    decreases p, 0
  {
    hide NumberLength, NameStart;
    var ts := PrintPrim(p) + rest;
    match p
    case Paren(d) =>
      var after := [")"] + rest;
      DisjOf(d, after, ctx);
      assert ts[0] == "(" && ts[1..] == PrintDisj(d) + after && after[1..] == rest;
    case Not(q) =>
      PrimOf(q, rest, ctx);
      assert ts[0] == "!" && ts[1..] == PrintPrim(q) + rest;
    case _ =>
      LeafOf(p, rest, ctx);
  }

  lemma LeafOf(p: Prim, rest: seq<string>, ctx: Context)
    requires WfPrim(p) && AfterPrim(rest) && !p.Paren? && !p.Not?
    ensures ParsePrimary(PrintPrim(p) + rest, ctx) == Ok(EvalPrim(p, ctx), rest)
  {
    hide NumberLength, NameStart;
    var ts := PrintPrim(p) + rest;
    match p
    case Quoted(text) =>
      var t := "'" + Escape(text) + "'";
      assert ts[0] == t && ts[1..] == rest && t[1..|t| - 1] == Escape(text);
      UnescapeEscape(text);
    case Num(text) =>
      NumberToken(text);
      assert ts[0] == text && ts[1..] == rest;
    case Lit(b) =>
      LiteralToken(b);
      assert ts[1..] == rest;
    case Name(name) =>
      NameToken(name);
      assert ts[0] == name && ts[1..] == rest;
    case Call(name, args) =>
      CallOf(name, args, rest, ctx);
  }

  lemma CallOf(name: string, args: seq<string>, rest: seq<string>, ctx: Context)
    requires IsName(name) && Balanced(args, 0)
    ensures ParsePrimary([name, "("] + args + [")"] + rest, ctx) == Ok(Unknown, rest)
  {
    hide NumberLength, NameStart;
    var ts := [name, "("] + args + [")"] + rest;
    var after := ["("] + (args + ([")"] + rest));
    NameToken(name);
    assert ts[0] == name && ts[1..] == after;
    SkipBalanced(args, rest, 1);
    assert after[1..] == args + ([")"] + rest);
  }

  lemma {:induction false} SkipBalanced(args: seq<string>, rest: seq<string>, depth: nat)
    requires depth >= 1 && Balanced(args, depth - 1)
    ensures SkipCall(args + ([")"] + rest), depth) == rest
    decreases |args|
  {
    var ts := args + ([")"] + rest);
    if args == [] {
      assert ts[0] == ")" && ts[1..] == rest;
    } else {
      assert ts[0] == args[0] && ts[1..] == args[1..] + ([")"] + rest);
      SkipBalanced(args[1..], rest, if args[0] == "(" then depth + 1 else if args[0] == ")" then depth - 1 else depth);
    }
  }

  lemma CompTailStarts(rest: seq<string>, c: CompTail)
    requires WfCompTail(c) && AfterComp(rest)
    ensures AfterPrim(PrintCompTail(c) + rest)
  {
    hide PrintPrim;
    assert [] + rest == rest;
  }

  lemma ConjTailStarts(rest: seq<string>, a: ConjTail)
    requires AfterConj(rest)
    ensures AfterComp(PrintConjTail(a) + rest)
  {
    hide PrintComp;
    assert [] + rest == rest;
  }

  lemma DisjTailStarts(rest: seq<string>, o: DisjTail)
    requires AfterDisj(rest)
    ensures AfterConj(PrintDisjTail(o) + rest)
  {
    hide PrintConj;
    assert [] + rest == rest;
  }

  lemma {:induction false} CompOf(c: Comp, rest: seq<string>, ctx: Context)
    requires WfComp(c) && AfterComp(rest)
    ensures ParseComparison(PrintComp(c) + rest, ctx) == Ok(EvalComp(c, ctx), rest)
    decreases c, 1
  {
    hide AfterPrim, ParsePrimary, PrintPrim, EvalPrim;
    var after := PrintCompTail(c.tail) + rest;
    CompTailStarts(rest, c.tail);
    assert PrintComp(c) + rest == PrintPrim(c.first) + after;
    PrimOf(c.first, after, ctx);
    CompTailOf(EvalPrim(c.first, ctx), c.tail, rest, ctx);
  }

  lemma {:induction false} CompTailOf(left: Value, t: CompTail, rest: seq<string>, ctx: Context)
    requires WfCompTail(t) && AfterComp(rest)
    ensures ComparisonLoop(left, PrintCompTail(t) + rest, ctx) == Ok(EvalCompTail(left, t, ctx), rest)
    decreases t, 1
  {
    hide AfterPrim, ParsePrimary, PrintPrim, EvalPrim, CompareValues, ComparisonLoop;
    ComparisonStep(left, PrintCompTail(t) + rest, ctx);
    if t.CompEnd? {
      assert [] + rest == rest;
    } else {
      var ts, after := PrintCompTail(t) + rest, PrintCompTail(t.tail) + rest;
      CompTailStarts(rest, t.tail);
      assert ts[0] == t.op && ts[1..] == PrintPrim(t.right) + after;
      PrimOf(t.right, after, ctx);
      CompTailOf(CompareValues(t.op, left, EvalPrim(t.right, ctx)), t.tail, rest, ctx);
    }
  }

  lemma {:induction false} ConjOf(c: Conj, rest: seq<string>, ctx: Context)
    requires WfConj(c) && AfterConj(rest)
    ensures ParseConjunction(PrintConj(c) + rest, ctx) == Ok(EvalConj(c, ctx), rest)
    decreases c, 2
  {
    hide AfterComp, ParseComparison, PrintComp, EvalComp;
    var after := PrintConjTail(c.tail) + rest;
    ConjTailStarts(rest, c.tail);
    assert PrintConj(c) + rest == PrintComp(c.first) + after;
    CompOf(c.first, after, ctx);
    ConjTailOf(EvalComp(c.first, ctx), c.tail, rest, ctx);
  }

  lemma {:induction false} ConjTailOf(left: Value, t: ConjTail, rest: seq<string>, ctx: Context)
    requires WfConjTail(t) && AfterConj(rest)
    ensures ConjunctionLoop(left, PrintConjTail(t) + rest, ctx) == Ok(EvalConjTail(left, t, ctx), rest)
    decreases t, 2
  {
    hide AfterComp, ParseComparison, PrintComp, EvalComp, AndValues, ConjunctionLoop;
    ConjunctionStep(left, PrintConjTail(t) + rest, ctx);
    if t.ConjEnd? {
      assert [] + rest == rest;
    } else {
      var ts, after := PrintConjTail(t) + rest, PrintConjTail(t.tail) + rest;
      ConjTailStarts(rest, t.tail);
      assert ts[0] == "&&" && ts[1..] == PrintComp(t.right) + after;
      CompOf(t.right, after, ctx);
      ConjTailOf(AndValues(left, EvalComp(t.right, ctx)), t.tail, rest, ctx);
    }
  }

  lemma {:induction false} DisjOf(d: Disj, rest: seq<string>, ctx: Context)
    requires WfDisj(d) && AfterDisj(rest)
    ensures ParseDisjunction(PrintDisj(d) + rest, ctx) == Ok(EvalDisj(d, ctx), rest)
    decreases d, 3
  {
    hide AfterConj, ParseConjunction, PrintConj, EvalConj;
    var after := PrintDisjTail(d.tail) + rest;
    DisjTailStarts(rest, d.tail);
    assert PrintDisj(d) + rest == PrintConj(d.first) + after;
    ConjOf(d.first, after, ctx);
    DisjTailOf(EvalConj(d.first, ctx), d.tail, rest, ctx);
  }

  lemma {:induction false} DisjTailOf(left: Value, t: DisjTail, rest: seq<string>, ctx: Context)
    requires WfDisjTail(t) && AfterDisj(rest)
    ensures DisjunctionLoop(left, PrintDisjTail(t) + rest, ctx) == Ok(EvalDisjTail(left, t, ctx), rest)
    decreases t, 3
  {
    hide AfterConj, ParseConjunction, PrintConj, EvalConj, OrValues, DisjunctionLoop;
    DisjunctionStep(left, PrintDisjTail(t) + rest, ctx);
    if t.DisjEnd? {
      assert [] + rest == rest;
    } else {
      var ts, after := PrintDisjTail(t) + rest, PrintDisjTail(t.tail) + rest;
      DisjTailStarts(rest, t.tail);
      assert ts[0] == "||" && ts[1..] == PrintConj(t.right) + after;
      ConjOf(t.right, after, ctx);
      DisjTailOf(OrValues(left, EvalConj(t.right, ctx)), t.tail, rest, ctx);
    }
  }

  /** The evaluator gives every well-formed expression its meaning. */
  lemma EvaluatePrinted(d: Disj, ctx: Context)
    requires WfDisj(d)
    ensures EvaluateTokens(PrintDisj(d), ctx) == Truthy(EvalDisj(d, ctx))
  {
    DisjOf(d, [], ctx);
    assert PrintDisj(d) + [] == PrintDisj(d);
  }
}
