/** The textual test that a condition can hold only on `refs/heads/main` is sound for the evaluator. */
module MainGate {
  import opened Bytes
  import opened Lexing
  import opened Splitting
  import opened Expressions
  import opened Grammar
  import opened Structure
  import opened RefTest

  /** What a workflow field holds. */
  datatype Field = Missing | Flag(b: bool) | Str(text: string)

  /** The text between `${{` and `}}` where one such pair spans all of it. */
  function Whole(text: string): Option<string> {
    if |text| >= 5 && "${{" <= text && text[|text| - 2..] == "}}" then Some(text[3..|text| - 2]) else None
  }

  predicate Contains(s: string, sub: string) {
    exists i :: 0 <= i <= |s| && sub <= s[i..]
  }

  function ExpressionBody(value: Field, bare: bool): Option<string> {
    if !value.Str? then None
    else
      var text := Strip(value.text);
      var wrapped := Whole(text);
      if wrapped.Some? && !Contains(wrapped.value, "${{") then Some(Strip(wrapped.value))
      else if bare && !Contains(text, "${{") then Some(text)
      else None
  }

  /** The text has no opening `${{`. */
  ghost predicate Unopened(s: string) {
    forall before, after :: s != before + "${{" + after
  }

  lemma UnopenedIff(s: string)
    ensures Unopened(s) <==> !Contains(s, "${{")
  {
    if i :| 0 <= i <= |s| && "${{" <= s[i..] {
      assert s == s[..i] + "${{" + s[i..][3..];
    }
    if before, after :| s == before + "${{" + after {
      assert s[|before|..] == "${{" + after;
    }
  }

  /** One `${{ }}` around the given text. */
  ghost predicate Wraps(text: string, inner: string) {
    text == "${{" + inner + "}}"
  }

  lemma WrapsIff(text: string, inner: string)
    ensures Wraps(text, inner) <==> Whole(text) == Some(inner)
  {
    if Whole(text).Some? {
      assert text == text[..3] + text[3..|text| - 2] + text[|text| - 2..] && text[..3] == "${{";
    }
  }

  /** A field holds an expression exactly when one `${{ }}` spans its text, or it may be bare and opens none. */
  lemma BodyIff(text: string, bare: bool, body: string)
    ensures ExpressionBody(Str(text), bare) == Some(body) <==>
              || (exists inner :: Wraps(Strip(text), inner) && Unopened(inner) && body == Strip(inner))
              || (bare && Unopened(Strip(text)) && body == Strip(text))
  {
    hide Strip, Contains, Unopened, Wraps;
    var t := Strip(text);
    UnopenedIff(t);
    forall inner
      ensures Wraps(t, inner) <==> Whole(t) == Some(inner)
      ensures Unopened(inner) <==> !Contains(inner, "${{")
    {
      WrapsIff(t, inner);
      UnopenedIff(inner);
    }
    if Whole(t).Some? {
      WholeContains(t);
    }
  }

  /** The evaluator reads what one `${{ }}` spans, or a text that opens none, and gives up on any other. */
  lemma EvaluatedIff(text: string, t: string)
    ensures EvaluatedText(text) == Some(t) <==> Wraps(Strip(text), t) || (Unopened(Strip(text)) && t == Strip(text))
  {
    hide Strip, Contains, Unopened, Wraps;
    UnopenedIff(Strip(text));
    WrapsIff(Strip(text), t);
    if Whole(Strip(text)).Some? {
      WholeContains(Strip(text));
    }
  }

  /** The top-level `&&` terms the gate looks at, enclosing parentheses removed; None where it refuses before that. */
  function Terms(value: Field, bare: bool): Option<seq<string>> {
    var field := ExpressionBody(value, bare);
    if field.None? then None
    else
      var body := StripParentheses(field.value);
      var alternatives, terms := SplitTop(body, "||"), SplitTop(body, "&&");
      if alternatives.Some? && |alternatives.value| == 1 && terms.Some? then Some(Stripped(terms.value)) else None
  }

  function Stripped(terms: seq<string>): (r: seq<string>)
    ensures |r| == |terms| && forall i :: 0 <= i < |r| ==> r[i] == StripParentheses(terms[i])
  {
    if terms == [] then [] else [StripParentheses(terms[0])] + Stripped(terms[1..])
  }

  predicate GatedToMain(value: Field, bare: bool) {
    Terms(value, bare).Some? && exists i :: 0 <= i < |Terms(value, bare).value| && IsMainRefTest(Terms(value, bare).value[i])
  }

  /** The text the evaluator reads, or None where it gives up before reading any. */
  function EvaluatedText(text: string): Option<string> {
    var t := Strip(text);
    if Whole(t).Some? then Whole(t)
    else if Contains(t, "${{") then None
    else Some(t)
  }

  function Evaluate(value: Field, ctx: Context): Value {
    match value
    case Missing => Bool(true)
    case Flag(b) => Bool(b)
    case Str(text) =>
      var t := EvaluatedText(text);
      if t.None? then Unknown else EvaluateTokens(Tokens(t.value), ctx)
  }

  method RunEvaluate(value: Field, ctx: Context) returns (verdict: Value)
    ensures verdict == Evaluate(value, ctx)
  {
    if value.Flag? {
      return Bool(value.b);
    }
    if value.Missing? {
      return Bool(true);
    }
    var text := EvaluatedText(value.text);
    if text.None? {
      return Unknown;
    }
    var tokens := Tokenize(text.value);
    if tokens == [] {
      return Unknown;
    }
    var evaluator := new Evaluator(tokens, ctx);
    assert evaluator.Ahead() == tokens;
    var result := evaluator.Disjunction();
    if result.None? || evaluator.position != |tokens| {
      return Unknown;
    }
    verdict := Truthy(result.value);
  }

  // ----- parentheses around a whole expression change neither tokens nor truth -----

  /** The expression inside every pair of parentheses that encloses all of it. */
  function Peeled(d: Disj): Disj
    decreases d
  {
    var c := d.first.first;
    if d == Alone(c) && c.first.Paren? && c.tail.CompEnd? then Peeled(c.first.d) else d
  }

  lemma {:induction false} PeeledMeans(d: Disj, ctx: Context)
    ensures EvalDisj(Peeled(d), ctx) == EvalDisj(d, ctx)
    ensures WfDisj(d) ==> WfDisj(Peeled(d))
    decreases d
  {
    var c := d.first.first;
    if d == Alone(c) && c.first.Paren? && c.tail.CompEnd? {
      PeeledMeans(c.first.d, ctx);
      ParenKeepsMeaning(c.first.d, ctx);
      assert c == Comp(Paren(c.first.d), CompEnd);
      assert WfDisj(d) ==> WfConj(d.first) && WfComp(c) && WfPrim(c.first);
    }
  }

  lemma ParenKeepsMeaning(d: Disj, ctx: Context)
    ensures EvalDisj(Alone(Comp(Paren(d), CompEnd)), ctx) == EvalDisj(d, ctx)
  {
    var c := Comp(Paren(d), CompEnd);
    assert EvalPrim(c.first, ctx) == EvalDisj(d, ctx);
    assert EvalComp(c, ctx) == EvalDisj(d, ctx);
    assert EvalConj(Conj(c, ConjEnd), ctx) == EvalDisj(d, ctx);
  }

  /** Text without white space at either end. */
  predicate IsTrimmed(s: string) {
    s == "" || (!Space(s[0]) && !Space(s[|s| - 1]))
  }

  lemma StripTrims(s: string)
    ensures IsTrimmed(Strip(s))
  {
    hide Space;
    var u := s[Run(Space, s)..];
    var r := TrimRight(u);
    assert r != "" ==> r[0] == u[0];
  }

  /** The text of an expression is enclosed by parentheses exactly when the expression is one parenthesised one. */
  lemma EnclosedIff(term: string, d: Disj)
    requires WfDisj(d) && Lex(term) == Some(PrintDisj(d)) && IsTrimmed(term)
    ensures var c := d.first.first;
            Enclosed(term) <==> d == Alone(c) && c.first.Paren? && c.tail.CompEnd?
    ensures Enclosed(term) ==> Lex(Strip(term[1..|term| - 1])) == Some(PrintDisj(d.first.first.first.d))
  {
    hide Lex, PrintDisj, SplitTokens, IsTrimmed;
    var c := d.first.first;
    if Enclosed(term) {
      var inner := term[1..|term| - 1];
      LexEnclosed(term);
      SplitTopIsSplitTokens(inner, "\0");
      var e := EnclosedIsParen(d, Lex(inner).value);
      StripLex(inner);
    }
    if d == Alone(c) && c.first.Paren? && c.tail.CompEnd? {
      PrintParen(c.first.d);
      assert WfConj(d.first) && WfComp(c) && WfPrim(c.first);
      ParenIsEnclosed(term, c.first.d);
    }
  }

  lemma PrintParen(d: Disj)
    ensures PrintDisj(Alone(Comp(Paren(d), CompEnd))) == ["("] + PrintDisj(d) + [")"]
  {
    hide PrintDisj;
    var c := Comp(Paren(d), CompEnd);
    PrintAlone(c);
    assert PrintComp(c) == PrintPrim(Paren(d)) + [];
  }

  lemma ParenIsEnclosed(term: string, d: Disj)
    requires WfDisj(d) && Lex(term) == Some(["("] + PrintDisj(d) + [")"]) && IsTrimmed(term)
    ensures Enclosed(term)
  {
    hide Lex, PrintDisj, SplitTokens, Munch, SplitTop;
    var ts := ["("] + PrintDisj(d) + [")"];
    LexOfNothing();
    LexStep(term);
    assert ts[0] == "(" && ts[|ts| - 1] == ")";
    assert term[..Munch(term)] == "(" && term[0] == '(';
    LastTokenEnds(term, ts);
    LexEnclosed(term);
    var inner := term[1..|term| - 1];
    assert Lex(inner).value == PrintDisj(d) by {
      assert ts[1..|ts| - 1] == PrintDisj(d);
      assert (["("] + Lex(inner).value + [")"])[1..|ts| - 1] == Lex(inner).value;
    }
    SplitTopIsSplitTokens(inner, "\0");
    SkipDisj(d, [], [], 0, "\0");
    assert PrintDisj(d) + [] == PrintDisj(d);
    SplitOfNothing([] + PrintDisj(d), "\0");
  }

  lemma SplitOfNothing(cur: seq<string>, op: string)
    ensures SplitTokens([], cur, 0, op) == Some([cur])
  {
  }

  /** Text that does not end in space ends in its last token. */
  lemma {:induction false} LastTokenEnds(s: string, ts: seq<string>)
    requires Lex(s) == Some(ts) && s != "" && !Space(s[|s| - 1])
    ensures ts != [] && ts[|ts| - 1] != "" && |ts[|ts| - 1]| <= |s| && s[|s| - |ts[|ts| - 1]|..] == ts[|ts| - 1]
    ensures |ts| >= 2 ==> |ts[|ts| - 1]| < |s|
    decreases |s|
  {
    hide Lex, Munch, Space;
    if Space(s[0]) {
      LexSpace(s);
      assert s[1..] != "" && s[1..][|s| - 2] == s[|s| - 1];
      LastTokenEnds(s[1..], ts);
    } else {
      LexStep(s);
      var n := Munch(s);
      if n < |s| {
        assert s[n..][|s| - n - 1] == s[|s| - 1];
        LastTokenEnds(s[n..], Lex(s[n..]).value);
      } else {
        assert s[n..] == "";
        LexOfNothing();
      }
    }
  }

  /** Stripping enclosing parentheses from the text of an expression gives the text of the peeled expression. */
  lemma {:induction false} StripPairsPeels(term: string, d: Disj)
    requires WfDisj(d) && Lex(term) == Some(PrintDisj(d)) && IsTrimmed(term)
    ensures Lex(StripPairs(term)) == Some(PrintDisj(Peeled(d))) && IsTrimmed(StripPairs(term))
    decreases |term|
  {
    hide Lex, PrintDisj, Enclosed, IsTrimmed, Strip;
    EnclosedIff(term, d);
    if Enclosed(term) {
      InnerIsShorter(term);
      var inner := Strip(term[1..|term| - 1]);
      StripTrims(term[1..|term| - 1]);
      var c := d.first.first;
      assert WfConj(d.first) && WfComp(c) && WfPrim(c.first);
      StripPairsPeels(inner, c.first.d);
    }
  }

  lemma InnerIsShorter(term: string)
    requires Enclosed(term)
    ensures |term| >= 2 && |Strip(term[1..|term| - 1])| < |term|
  {
  }

  lemma StripPeels(term: string, d: Disj)
    requires WfDisj(d) && Lex(term) == Some(PrintDisj(d))
    ensures Lex(StripParentheses(term)) == Some(PrintDisj(Peeled(d))) && IsTrimmed(StripParentheses(term))
  {
    hide Lex, PrintDisj, IsTrimmed;
    StripLex(term);
    StripTrims(term);
    StripPairsPeels(Strip(term), d);
  }

  // ----- a conjunct that is not true keeps the conjunction from being true -----

  lemma {:induction false} NotTrueStays(left: Value, t: ConjTail, ctx: Context)
    requires Truthy(left) != Bool(true)
    ensures Truthy(EvalConjTail(left, t, ctx)) != Bool(true)
    decreases t
  {
    if t.And? {
      NotTrueStays(AndValues(left, EvalComp(t.right, ctx)), t.tail, ctx);
    }
  }

  lemma {:induction false} ConjunctGates(left: Value, t: ConjTail, i: nat, ctx: Context)
    requires i < |TailComps(t)| && Truthy(EvalComp(TailComps(t)[i], ctx)) != Bool(true)
    ensures Truthy(EvalConjTail(left, t, ctx)) != Bool(true)
    decreases t
  {
    var v := AndValues(left, EvalComp(t.right, ctx));
    if i == 0 {
      NotTrueStays(v, t.tail, ctx);
    } else {
      assert TailComps(t)[1..] == TailComps(t.tail);
      ConjunctGates(v, t.tail, i - 1, ctx);
    }
  }

  lemma ConjGates(c: Conj, i: nat, ctx: Context)
    requires i < |Comps(c)| && Truthy(EvalComp(Comps(c)[i], ctx)) != Bool(true)
    ensures Truthy(EvalConj(c, ctx)) != Bool(true)
  {
    if i == 0 {
      NotTrueStays(EvalComp(c.first, ctx), c.tail, ctx);
    } else {
      ConjunctGates(EvalComp(c.first, ctx), c.tail, i - 1, ctx);
    }
  }

  lemma {:induction false} CompsWf(t: ConjTail, i: nat)
    requires WfConjTail(t) && i < |TailComps(t)|
    ensures WfComp(TailComps(t)[i])
    decreases t
  {
    if i > 0 {
      CompsWf(t.tail, i - 1);
    }
  }

  lemma WfAlone(c: Comp)
    requires WfComp(c)
    ensures WfDisj(Alone(c))
  {
    assert WfConjTail(ConjEnd) && WfDisjTail(DisjEnd) && WfConj(Conj(c, ConjEnd));
  }

  lemma AloneMeans(c: Comp, ctx: Context)
    ensures EvalDisj(Alone(c), ctx) == EvalComp(c, ctx)
  {
    assert EvalConjTail(EvalComp(c, ctx), ConjEnd, ctx) == EvalComp(c, ctx);
    assert EvalConj(Conj(c, ConjEnd), ctx) == EvalComp(c, ctx);
  }

  // ----- the gate in terms of the expression -----

  /** A comparison of `github.ref` with the literal, each as the pattern matches it. */
  predicate IsRefComparison(d: Disj) {
    var c := d.first.first;
    && d == Alone(c) && c.first.Name? && c.tail.Compare? && c.tail.op == "==" && c.tail.right.Quoted? && c.tail.tail.CompEnd?
    && Matches(c.first.name, REF_NAME) && Matches("'" + Escape(c.tail.right.text) + "'", REF_LITERAL)
  }

  /** What the gate's docstring says: one disjunct, and a conjunct that, parentheses removed, is the ref test. */
  predicate IsGatedTree(d: Disj) {
    var e := Peeled(d);
    e.tail.DisjEnd? && exists i :: 0 <= i < |Comps(e.first)| && IsRefComparison(Peeled(Alone(Comps(e.first)[i])))
  }

  lemma PrintRefComparison(d: Disj)
    requires IsRefComparison(d)
    ensures PrintDisj(d) == [d.first.first.first.name, "==", "'" + Escape(d.first.first.tail.right.text) + "'"]
  {
    var c := d.first.first;
    PrintAlone(c);
    assert PrintCompTail(CompEnd) == [];
    assert PrintCompTail(c.tail) == ["=="] + PrintPrim(c.tail.right) + [];
    assert PrintComp(c) == PrintPrim(c.first) + PrintCompTail(c.tail);
  }

  /** Three tokens that read as the test are the print of nothing but that comparison. */
  lemma RefTokensParse(d: Disj, name: string, literal: string)
    requires WfDisj(d) && PrintDisj(d) == [name, "==", literal] && Matches(name, REF_NAME) && Matches(literal, REF_LITERAL)
    ensures IsRefComparison(d)
  {
    hide Matches, PrintDisj, WfDisj, Escape, PrintPrim, PrintCompTail;
    var c := d.first.first;
    var t := PrintConjTail(d.first.tail) + PrintDisjTail(d.tail);
    PrintParts(d);
    NameIsName(name);
    LeafFirst(c.first, name, PrintCompTail(c.tail) + t);
    assert PrintDisj(d)[1..] == ["==", literal] == PrintCompTail(c.tail) + t;
    EqualsFirst(c.tail, d.first.tail, d.tail);
    LiteralShape(literal);
    var x := PrintPrim(c.tail.right) + (PrintCompTail(c.tail.tail) + t);
    assert (["=="] + x)[1..] == x && ["==", literal][1..] == [literal];
    LiteralFirst(c.tail.right, literal, PrintCompTail(c.tail.tail) + t);
    assert PrintCompTail(c.tail.tail) + PrintConjTail(d.first.tail) + PrintDisjTail(d.tail) == PrintCompTail(c.tail.tail) + t;
    EmptyTails(c.tail.tail, d.first.tail, d.tail);
    PrintQuoted(c.tail.right.text);
  }

  lemma PrintQuoted(text: string)
    ensures PrintPrim(Quoted(text)) == ["'" + Escape(text) + "'"]
  {
  }

  lemma PrintParts(d: Disj)
    requires WfDisj(d)
    ensures var c := d.first.first;
            && PrintDisj(d) == PrintPrim(c.first) + (PrintCompTail(c.tail) + (PrintConjTail(d.first.tail) + PrintDisjTail(d.tail)))
            && WfPrim(c.first) && WfCompTail(c.tail)
  {
    var c := d.first.first;
    assert WfConj(d.first) && WfComp(c);
    assert PrintConj(d.first) == PrintComp(c) + PrintConjTail(d.first.tail);
  }

  /** A primary whose first token is a name, with no parenthesis after it, is that name. */
  lemma LeafFirst(p: Prim, name: string, rest: seq<string>)
    requires WfPrim(p) && IsName(name) && |PrintPrim(p) + rest| >= 2 && (PrintPrim(p) + rest)[0] == name
    requires (PrintPrim(p) + rest)[1] == "=="
    ensures p == Name(name) && PrintPrim(p) == [name]
  {
    var ts := PrintPrim(p) + rest;
    FirstToken(p);
    assert ts[0] == PrintPrim(p)[0];
    NameToken(name);
  }

  lemma EqualsFirst(c: CompTail, a: ConjTail, o: DisjTail)
    requires var ts := PrintCompTail(c) + (PrintConjTail(a) + PrintDisjTail(o)); ts != [] && ts[0] == "=="
    ensures c.Compare? && c.op == "=="
    ensures PrintCompTail(c) + (PrintConjTail(a) + PrintDisjTail(o))
         == ["=="] + (PrintPrim(c.right) + (PrintCompTail(c.tail) + (PrintConjTail(a) + PrintDisjTail(o))))
  {
    hide PrintPrim, PrintCompTail, PrintConjTail, PrintDisjTail;
    var t := PrintConjTail(a) + PrintDisjTail(o);
    ConnectivesFirst(a, o);
    CompTailParts(c, t);
  }

  lemma ConnectivesFirst(a: ConjTail, o: DisjTail)
    ensures var t := PrintConjTail(a) + PrintDisjTail(o); t == [] || t[0] == "&&" || t[0] == "||"
  {
    hide PrintComp, PrintConj;
    assert a.And? ==> PrintConjTail(a)[0] == "&&";
    assert o.Or? ==> PrintDisjTail(o)[0] == "||";
  }

  lemma CompTailParts(c: CompTail, t: seq<string>)
    ensures c.CompEnd? ==> PrintCompTail(c) + t == t
    ensures c.Compare? ==> PrintCompTail(c) + t == [c.op] + (PrintPrim(c.right) + (PrintCompTail(c.tail) + t))
  {
    hide PrintPrim;
  }

  lemma LiteralFirst(p: Prim, literal: string, rest: seq<string>)
    requires WfPrim(p) && "'" <= literal && PrintPrim(p) + rest == [literal]
    ensures p.Quoted? && PrintPrim(p) == [literal] && rest == []
  {
    FirstToken(p);
    assert (PrintPrim(p) + rest)[0] == PrintPrim(p)[0] && literal[0] == '\'';
    if p.Num? {
      NumberToken(p.text);
    }
  }

  /** On the text of an expression, spaces at the ends removed, the pattern matches exactly where the expression is the
      ref test. */
  lemma MatchesIff(t: string, d: Disj)
    requires WfDisj(d) && Lex(t) == Some(PrintDisj(d)) && IsTrimmed(t)
    ensures IsMainRefTest(t) <==> IsRefComparison(d)
  {
    hide Lex, PrintDisj, WfDisj, IsMainRefTest, IsTrimmed, Matches;
    if IsMainRefTest(t) {
      RefParts(t);
      LexMainRefTest(t);
      RefTokensParse(d, RefName(t), RefLiteral(t));
    }
    if IsRefComparison(d) {
      PrintRefComparison(d);
      RefTokensMatch(t, d.first.first.first.name, "'" + Escape(d.first.first.tail.right.text) + "'");
    }
  }

  /** Text of those three tokens, whatever the space between them, is what the pattern matches. */
  lemma RefTokensMatch(t: string, name: string, literal: string)
    requires Lex(t) == Some([name, "==", literal]) && IsTrimmed(t) && Matches(name, REF_NAME) && Matches(literal, REF_LITERAL)
    ensures IsMainRefTest(t)
  {
    hide Lex, Matches, Munch, Space, Run, AllSpace, IsMainRefTest;
    assert [name, "==", literal] == [name] + (["=="] + ([literal] + []));
    LexOfNothing();
    var w0, r0 := NextToken(t, name, ["=="] + ([literal] + []));
    var w1, r1 := NextToken(r0, "==", [literal] + []);
    var w2, r2 := NextToken(r1, literal, []);
    LexIsSpace(r2);
    LiteralShape(literal);
    NoSpaceAtEnds(t, w0, r2);
    assert t == name + w1 + "==" + w2 + literal by {
      assert w0 == "" && r2 == "";
    }
    RefSpelling(name, w1, w2, literal);
  }

  lemma NoSpaceAtEnds(t: string, w: string, w': string)
    requires IsTrimmed(t) && AllSpace(w) && AllSpace(w') && w <= t && |w'| <= |t| && t[|t| - |w'|..] == w'
    ensures w == "" && w' == ""
  {
    hide Space;
    var k := |t| - |w'|;
    EndsAlike(t, w');
  }

  lemma EndsAlike(t: string, w: string)
    requires |w| <= |t| && t[|t| - |w|..] == w
    ensures w != "" ==> t != "" && w[|w| - 1] == t[|t| - 1]
  {
  }

  lemma RefSpelling(name: string, w1: string, w2: string, literal: string)
    requires Matches(name, REF_NAME) && Matches(literal, REF_LITERAL) && AllSpace(w1) && AllSpace(w2)
    ensures var t := name + w1 + "==" + w2 + literal; IsMainRefTest(t) && RefName(t) == name && RefLiteral(t) == literal
  {
    hide Matches, Space, Run;
    var t := name + w1 + "==" + w2 + literal;
    LiteralShape(literal);
    NameShape(name);
    var tail := "==" + w2 + literal;
    assert t == name + (w1 + tail) && t[..10] == name && t[10..] == w1 + tail;
    SpaceRun(w1, tail);
    assert Unspaced(t[10..]) == tail && tail[2..] == w2 + literal;
    SpaceRun(w2, literal);
    assert Unspaced(tail[2..]) == literal;
  }

  lemma SpaceRun(w: string, rest: string)
    requires AllSpace(w) && rest != "" && (rest[0] == '=' || rest[0] == '\'')
    ensures Run(Space, w + rest) == |w|
  {
    RunUnique(Space, w + rest, |w|);
  }

  lemma NextToken(s: string, t: string, ts: seq<string>) returns (w: string, rest: string)
    requires Lex(s) == Some([t] + ts)
    ensures s == w + t + rest && AllSpace(w) && Lex(rest) == Some(ts)
  {
    hide Lex, Munch, Run, Space;
    w := s[..Run(Space, s)];
    var u := s[Run(Space, s)..];
    SkipSpace(s);
    LexOfNothing();
    LexStep(u);
    rest := u[Munch(u)..];
    var front := [u[..Munch(u)]];
    assert (front + Lex(rest).value)[0] == u[..Munch(u)] && ([t] + ts)[0] == t;
    assert (front + Lex(rest).value)[1..] == Lex(rest).value && ([t] + ts)[1..] == ts;
    assert s == w + u && u == t + rest;
  }

  lemma LexIsSpace(s: string)
    requires Lex(s) == Some([])
    ensures AllSpace(s)
  {
    hide Munch;
    assert s[Run(Space, s)..] == "";
  }

  /** A field that holds the text of a well-formed expression. */
  ghost predicate HoldsExpression(value: Field, bare: bool, d: Disj) {
    && WfDisj(d) && ExpressionBody(value, bare).Some?
    && EvaluatedText(value.text).Some? && Lex(EvaluatedText(value.text).value) == Some(PrintDisj(d))
  }

  lemma BodyLexes(value: Field, bare: bool, d: Disj)
    requires HoldsExpression(value, bare, d)
    ensures Lex(ExpressionBody(value, bare).value) == Some(PrintDisj(d))
  {
    hide Lex, Strip, PrintDisj;
    var text := Strip(value.text);
    if Whole(text).Some? {
      WholeContains(text);
      StripLex(Whole(text).value);
    }
  }

  lemma WholeContains(text: string)
    requires Whole(text).Some?
    ensures Contains(text, "${{")
  {
    assert text[0..] == text;
  }

  /** The gate accepts a well-formed expression, in any spacing, exactly when inside its enclosing parentheses it has one
      disjunct and a conjunct that inside its own is the ref test. */
  lemma GatedIff(value: Field, bare: bool, d: Disj)
    requires HoldsExpression(value, bare, d)
    ensures GatedToMain(value, bare) <==> IsGatedTree(d)
  {
    hide Lex, PrintDisj, PrintConj, PrintComp, StripParentheses, SplitTop, SplitTokens, IsMainRefTest, IsRefComparison, WfDisj, WfComp, IsTrimmed;
    var body := StripParentheses(ExpressionBody(value, bare).value);
    var e := Peeled(d);
    BodyLexes(value, bare, d);
    StripPeels(ExpressionBody(value, bare).value, d);
    PeeledMeans(d, map[]);
    SplitTopIsSplitTokens(body, "||");
    SplitTopIsSplitTokens(body, "&&");
    DisjunctsIff(e);
    if e.tail.DisjEnd? {
      SplitConj(e.first);
      var terms := SplitTop(body, "&&").value;
      forall i | 0 <= i < |terms|
        ensures IsMainRefTest(StripParentheses(terms[i])) <==> IsRefComparison(Peeled(Alone(Comps(e.first)[i])))
      {
        TermIff(terms[i], e.first, i);
      }
    }
  }

  lemma DisjunctsIff(d: Disj)
    requires WfDisj(d)
    ensures WfConj(d.first)
    ensures d.tail.DisjEnd? <==>
            SplitTokens(PrintDisj(d), [], 0, "||").Some? && |SplitTokens(PrintDisj(d), [], 0, "||").value| == 1
    ensures d.tail.DisjEnd? ==> PrintDisj(d) == PrintConj(d.first)
  {
    hide PrintConj, SplitTokens;
    if d.tail.DisjEnd? {
      assert PrintDisj(d) == PrintConj(d.first) + [];
      SkipConj(d.first, [], [], 0, "||");
      SplitOfNothing([] + PrintConj(d.first), "||");
    } else if SplitTokens(PrintDisj(d), [], 0, "||").Some? && |SplitTokens(PrintDisj(d), [], 0, "||").value| == 1 {
      SplitDisj(d);
    }
  }

  lemma TermIff(term: string, c: Conj, i: nat)
    requires WfConj(c) && i < |Comps(c)| && Lex(term) == Some(PrintComp(Comps(c)[i]))
    ensures IsMainRefTest(StripParentheses(term)) <==> IsRefComparison(Peeled(Alone(Comps(c)[i])))
  {
    hide Lex, PrintDisj, PrintComp, StripParentheses, IsMainRefTest, IsRefComparison, WfDisj, WfComp, IsTrimmed, Peeled;
    var comp := Comps(c)[i];
    if i > 0 {
      CompsWf(c.tail, i - 1);
    }
    PrintAlone(comp);
    WfAlone(comp);
    StripPeels(term, Alone(comp));
    PeeledMeans(Alone(comp), map[]);
    MatchesIff(StripParentheses(term), Peeled(Alone(comp)));
  }

  // ----- soundness -----

  /** The gate looks at this term, among those of a condition with one alternative. */
  predicate GatedThrough(value: Field, bare: bool, t: string) {
    Terms(value, bare).Some? && t in Terms(value, bare).value
  }

  /** The condition is found true on `refs/heads/main` only. */
  ghost predicate NeverTrueOffMain(value: Field) {
    forall ctx :: OffMain(ctx) ==> Evaluate(value, ctx) != Bool(true)
  }

  /** A field gated through a term without the three letters, whatever well-formed expression it holds and however it is
      spaced and parenthesised, is never found true off main. */
  lemma GateIsSound(value: Field, bare: bool, d: Disj, t: string)
    requires HoldsExpression(value, bare, d) && GatedThrough(value, bare, t) && IsMainRefTest(t) && IsUnfolded(t)
    ensures NeverTrueOffMain(value)
  {
    hide Lex, PrintDisj, EvalDisj, EvaluateTokens, Terms, IsMainRefTest, IsUnfolded, OffMain, WfDisj, Strip, Contains, Whole;
    forall ctx | OffMain(ctx)
      ensures Evaluate(value, ctx) != Bool(true)
    {
      EvaluatePrinted(d, ctx);
      PrintedIsNonempty(d);
      TermGates(value, bare, d, t, ctx);
    }
  }

  lemma PrintedIsNonempty(d: Disj)
    requires WfDisj(d)
    ensures PrintDisj(d) != []
  {
    PrintParts(d);
    FirstToken(d.first.first.first);
  }

  lemma TermGates(value: Field, bare: bool, d: Disj, t: string, ctx: Context)
    requires HoldsExpression(value, bare, d) && GatedThrough(value, bare, t) && IsMainRefTest(t) && IsUnfolded(t) && OffMain(ctx)
    ensures Truthy(EvalDisj(d, ctx)) != Bool(true)
  {
    hide Lex, PrintDisj, PrintConj, PrintComp, StripParentheses, SplitTop, SplitTokens, IsMainRefTest, WfDisj, IsTrimmed,
         EvalComp, EvalConj, EvalDisj, OffMain, IsUnfolded, HoldsExpression, ExpressionBody;
    var body := StripParentheses(ExpressionBody(value, bare).value);
    var e := Peeled(d);
    ExpressionIsWf(value, bare, d);
    BodyLexes(value, bare, d);
    StripPeels(ExpressionBody(value, bare).value, d);
    PeeledMeans(d, ctx);
    SplitTopIsSplitTokens(body, "||");
    SplitTopIsSplitTokens(body, "&&");
    DisjunctsIff(e);
    SplitConj(e.first);
    var terms := SplitTop(body, "&&").value;
    var i :| 0 <= i < |terms| && StripParentheses(terms[i]) == t;
    ConjunctNotTrue(terms[i], e.first, i, ctx);
    ConjGates(e.first, i, ctx);
    OneDisjunct(e, ctx);
  }

  lemma ExpressionIsWf(value: Field, bare: bool, d: Disj)
    requires HoldsExpression(value, bare, d)
    ensures WfDisj(d) && ExpressionBody(value, bare).Some?
  {
  }

  lemma OneDisjunct(d: Disj, ctx: Context)
    requires d.tail.DisjEnd?
    ensures EvalDisj(d, ctx) == EvalConj(d.first, ctx)
  {
  }

  lemma ConjunctNotTrue(term: string, c: Conj, i: nat, ctx: Context)
    requires WfConj(c) && i < |Comps(c)| && Lex(term) == Some(PrintComp(Comps(c)[i])) && OffMain(ctx)
    requires IsMainRefTest(StripParentheses(term)) && IsUnfolded(StripParentheses(term))
    ensures Truthy(EvalComp(Comps(c)[i], ctx)) != Bool(true)
  {
    hide Lex, PrintDisj, PrintComp, StripParentheses, IsMainRefTest, IsUnfolded, WfDisj, WfComp, IsTrimmed, Peeled, EvalDisj,
         EvalComp, EvaluateTokens, OffMain;
    var comp, t := Comps(c)[i], StripParentheses(term);
    if i > 0 {
      CompsWf(c.tail, i - 1);
    }
    PrintAlone(comp);
    WfAlone(comp);
    StripPeels(term, Alone(comp));
    PeeledMeans(Alone(comp), ctx);
    AloneMeans(comp, ctx);
    LexMainRefTest(t);
    UnfoldedNeverTrueOffMain(t, ctx);
    EvaluatePrinted(Peeled(Alone(comp)), ctx);
  }
}
