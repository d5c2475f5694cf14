/** The merge gate's evaluator from the text of a condition on, and its agreement with the other one on that text. */
module AggregateText {
  import opened Bytes
  import opened Lexing
  import opened Splitting
  import opened Expressions
  import opened Grammar
  import opened Aggregate
  import opened AggregateGrammar
  import opened AggregateTokens
  import opened Structure
  import opened MainGate

  function EvaluateText(text: string, run: Aggregate.Run): Option<bool> {
    var ts := ReadText(Collapse(text));
    if ts.None? then None else AggregateEvaluate(ts.value, run)
  }

  // ----- the other script's tokenizer reads the same -----

  lemma {:induction false} ClosesAt(s: string, n: nat)
    requires n < |s| && s[n] == '\'' && (forall i :: 0 <= i < n ==> s[i] != '\'') && (n + 1 < |s| ==> s[n + 1] != '\'')
    ensures ClosingLength(s) == n + 1
    decreases n
  {
    if n > 0 {
      ClosesAt(s[1..], n - 1);
    }
  }

  /** A token of this tokenizer is one of the other's, unless a quote follows a literal or a star a name. */
  lemma TokenIsMunch(s: string)
    requires TokenLength(s) > 0
    requires TokenLength(s) < |s| ==> (s[0] == '\'' ==> s[TokenLength(s)] != '\'') && (NameStart(s[0]) ==> s[TokenLength(s)] != '*')
    ensures Munch(s) == TokenLength(s)
  {
    var n := TokenLength(s);
    NoPairStarts(s);
    if |s| >= 2 && s[..2] in {"&&", "||", "==", "!="} {
    } else {
      assert |s| >= 2 ==> s[..2][0] == s[0];
      if s[0] == '\'' {
        ClosesAt(s[1..], n - 2);
      } else if NameStart(s[0]) {
        RunUnique(NameChar, s, n);
      }
    }
  }

  lemma OperatorStarts(t: string)
    ensures t in OPERATORS ==> t != "" && t[0] != '\''
  {
  }

  lemma NextCharacter(u: string, ts: seq<string>)
    requires TokenLength(u) > 0 && ReadText(u[TokenLength(u)..]) == Some(ts)
    requires ts == [] || u[..TokenLength(u)] in OPERATORS || ts[0] in OPERATORS
    ensures var n := TokenLength(u); n < |u| ==> (u[0] == '\'' ==> u[n] != '\'') && u[n] != '*'
  {
    hide ReadText;
    var n := TokenLength(u);
    var y := u[n..];
    if y != "" && !Space(y[0]) {
      ReadStep(y);
      OperatorStarts(u[..n]);
      OperatorStarts(ts[0]);
      assert y[0] == '*' ==> TokenLength(y) == 0 by { StarIsNoToken(y); }
      assert y[0] == u[n] && ts[0][0] == y[0];
    }
  }

  lemma StarIsNoToken(y: string)
    ensures y != "" && y[0] == '*' ==> TokenLength(y) == 0
  {
    assert |y| >= 2 ==> y[..2][0] == y[0];
  }

  lemma {:induction false} ReadersAgree(s: string)
    requires ReadText(s).Some? && NoPair(ReadText(s).value)
    ensures Lex(s) == ReadText(s)
    decreases |s|
  {
    hide Lexing.Run, Space, Munch, TokenLength, Lex, ReadText, NoPair;
    var u := s[Lexing.Run(Space, s)..];
    ReadSkipsSpace(s);
    SkipSpace(s);
    if u == "" {
      ReadNothing();
      LexOfNothing();
    } else {
      ReadStep(u);
      var n := TokenLength(u);
      var y, ts := u[n..], ReadText(u[n..]).value;
      NoPairTail(u[..n], ts);
      ReadersAgree(y);
      NextCharacter(u, ts);
      TokenIsMunch(u);
      LexStep(u);
    }
  }

  lemma NoPairTail(t: string, ts: seq<string>)
    requires NoPair([t] + ts)
    ensures NoPair(ts) && (ts == [] || t in OPERATORS || ts[0] in OPERATORS)
  {
    var all := [t] + ts;
    assert forall i :: 0 <= i < |ts| ==> ts[i] == all[i + 1];
    if ts != [] {
      assert all[0] == t && all[1] == ts[0];
    }
  }

  // ----- conditions as text -----

  /** The gate's evaluator answers on a text exactly when its tokens are the print of an expression of its grammar with
      every operand resolvable, and then answers what the expression means. */
  lemma TextAnswersIff(text: string, run: Aggregate.Run)
    ensures EvaluateText(text, run).Some? <==> exists d :: IsTextOf(text, d) && !SomeUnresolvable(Operands(d), run)
    ensures forall d :: IsTextOf(text, d) ==> EvaluateText(text, run) == MeanDisj(d, run)
  {
    hide ReadText, Collapse, AggregateEvaluate, ReadsDisj, PrintDisj, Operands, MeanDisj, IsToken;
    var ts := ReadText(Collapse(text));
    ReadTokens(Collapse(text));
    if ts.Some? {
      AnswersIff(ts.value, run);
      if d :| ReadsDisj(d) && ts.value == PrintDisj(d) && !SomeUnresolvable(Operands(d), run) {
        assert IsTextOf(text, d);
      }
    }
    forall d | IsTextOf(text, d)
      ensures EvaluateText(text, run) == MeanDisj(d, run)
    {
      AggregateMeans(d, run);
    }
  }

  /** The text, its white space collapsed, reads as the expression. */
  ghost predicate IsTextOf(text: string, d: Disj) {
    ReadsDisj(d) && ReadText(Collapse(text)) == Some(PrintDisj(d))
  }

  /** Wherever the gate's evaluator answers, over lower-case values, the other script's evaluator gives the same text the
      same answer in every context that publishes what the run does, as long as collapsing leaves the literals alone. */
  lemma EvaluatorsAgreeOnText(text: string, ctx: Context, run: Aggregate.Run)
    requires EvaluateText(text, run).Some? && Publishes(ctx, run) && LowerRun(run)
    requires ReadText(text).Some? ==>
               LowerTokens(ReadText(text).value) &&
               forall i :: 0 <= i < |ReadText(text).value| && IsQuoted(ReadText(text).value[i]) ==> IsCollapsed(ReadText(text).value[i])
    requires !Contains(Strip(text), "${{")
    ensures Evaluate(Str(text), ctx) == Bool(EvaluateText(text, run).value)
  {
    hide ReadText, Collapse, DisjunctionOf, Lex, PrintDisj, ReadsDisj, Operands, IsToken, LowerTokens, NoPair, IsQuoted,
         IsCollapsed, EvaluateTokens, Strip, Contains, Publishes, LowerRun;
    ReadCollapsed(text);
    SameTokensIff(text);
    var ts := ReadText(text).value;
    ReadTokens(text);
    var d := DisjParsed(ts, run);
    assert PrintDisj(d) + [] == PrintDisj(d);
    ReadersAgree(text);
    EvaluatorsAgree(d, ctx, run);
    StripLex(text);
    assert Whole(Strip(text)) == None by {
      if Whole(Strip(text)).Some? {
        WholeContains(Strip(text));
      }
    }
  }

  // ----- white space inside a literal -----

  lemma ReadLiteral(text: string, rest: string)
    requires forall i :: 0 <= i < |text| ==> text[i] != '\''
    requires rest == "" || rest[0] != '\''
    ensures var t := "'" + text + "'";
            ReadText(t + rest) == Behind([t], ReadText(rest)) && Lex(t + rest) == Behind([t], Lex(rest))
  {
    hide ReadText, Lex;
    var t := "'" + text + "'";
    var s := t + rest;
    assert s[0] == '\'' && s[|t| - 1] == '\'' && forall i :: 0 <= i < |text| ==> s[1..][i] == text[i];
    assert s[1..][|text|] == '\'';
    assert s[..|t|] == t && s[|t|..] == rest;
    RunUnique(NonQuote, s[1..], |text|);
    NoPairStarts(s);
    ReadStep(s);
    TokenIsMunch(s);
    LexStep(s);
  }

  lemma ReadEquals(rest: string)
    ensures ReadText("==" + rest) == Behind(["=="], ReadText(rest)) && Lex("==" + rest) == Behind(["=="], Lex(rest))
  {
    hide ReadText, Lex;
    var s := "==" + rest;
    assert s[..2] == "==" && s[2..] == rest;
    ReadStep(s);
    LexStep(s);
  }

  lemma ReadComparison(a: string, b: string)
    requires forall i :: 0 <= i < |a| ==> a[i] != '\''
    requires forall i :: 0 <= i < |b| ==> b[i] != '\''
    ensures var x, y := "'" + a + "'", "'" + b + "'";
            ReadText(x + "==" + y) == Lex(x + "==" + y) == Some([x, "==", y])
  {
    hide ReadText, Lex;
    var x, y := "'" + a + "'", "'" + b + "'";
    assert x + "==" + y == x + ("==" + y) && y + "" == y;
    ReadLiteral(a, "==" + y);
    ReadEquals(y);
    ReadLiteral(b, "");
    ReadNothing();
    LexOfNothing();
    assert [x] + (["=="] + ([y] + [])) == [x, "==", y];
  }

  const SPLIT := "'a  b'=='a b'"
  const JOINED := "'a b'=='a b'"

  lemma CollapseSplit()
    ensures Collapse(SPLIT) == JOINED
  {
    hide Collapse, SpaceFree;
    Blanks();
    CollapseFront("b'", "");
    CollapseNothing();
    assert "b'" + "" == "b'";
    CollapseWord("b'=='a", " ", "b'");
    assert "b'=='a" + " " + "b'" == "b'=='a b'";
    CollapseWord("'a", "  ", "b'=='a b'");
    assert "'a" + "  " + "b'=='a b'" == SPLIT;
  }

  lemma Blanks()
    ensures SpaceFree("b'") && SpaceFree("b'=='a") && SpaceFree("'a") && AllSpace(" ") && AllSpace("  ")
  {
  }

  /** A run of white space inside a literal is where the two part: on `'a  b'=='a b'` the gate's evaluator, which collapses
      it, answers true, and the other one false. */
  lemma CollapsedLiteralDiffers(ctx: Context, run: Aggregate.Run)
    ensures EvaluateText(SPLIT, run) == Some(true) && EvaluateTokens(Tokens(SPLIT), ctx) == Bool(false)
  {
    hide ReadText, Collapse, Lex, AggregateEvaluate, EvaluateTokens;
    CollapseSplit();
    assert SPLIT == "'" + "a  b" + "'" + "==" + ("'" + "a b" + "'");
    assert JOINED == "'" + "a b" + "'" + "==" + ("'" + "a b" + "'");
    ReadComparison("a  b", "a b");
    ReadComparison("a b", "a b");
    LiteralsCompare("a b", "a b", ctx, run);
    LiteralsCompare("a  b", "a b", ctx, run);
    LowerDiffers();
  }

  lemma LowerDiffers()
    ensures Lower("a  b") != Lower("a b")
  {
    assert Lower("a  b") == "a  b" && Lower("a b") == "a b" by {
      assert "a  b"[1..] == "  b" && "  b"[1..] == " b" && " b"[1..] == "b" && "b"[1..] == "" && "a b"[1..] == " b";
      assert Lower("b") == "b" && Lower(" b") == " b" && Lower("  b") == "  b";
    }
  }

  function Equality(a: string, b: string): Comp {
    Comp(Quoted(a), Compare("==", Quoted(b), CompEnd))
  }

  lemma PrintEquality(a: string, b: string)
    requires forall i :: 0 <= i < |a| ==> a[i] != '\''
    requires forall i :: 0 <= i < |b| ==> b[i] != '\''
    ensures ReadsDisj(Alone(Equality(a, b)))
    ensures PrintDisj(Alone(Equality(a, b))) == ["'" + a + "'", "==", "'" + b + "'"]
  {
    hide PrintDisj;
    var c := Equality(a, b);
    EscapePlain(a);
    EscapePlain(b);
    assert PrintCompTail(CompEnd) == [];
    assert PrintCompTail(c.tail) == ["==", "'" + b + "'"];
    PrintAlone(c);
    assert ReadsComp(c) && ReadsConjTail(ConjEnd) && ReadsDisjTail(DisjEnd);
    assert ReadsConj(Conj(c, ConjEnd));
  }

  lemma EqualityMeans(a: string, b: string, ctx: Context, run: Aggregate.Run)
    requires ReadsDisj(Alone(Equality(a, b)))
    ensures MeanDisj(Alone(Equality(a, b)), run) == Some(a == b)
    ensures EvalDisj(Alone(Equality(a, b)), ctx) == Bool(Lower(a) == Lower(b))
  {
    var c := Equality(a, b);
    assert MeanConj(Conj(c, ConjEnd), run) == Some(a == b);
    AloneMeans(c, ctx);
    assert EvalCompTail(Text(a), c.tail, ctx) == EvalCompTail(CompareValues("==", Text(a), Text(b)), CompEnd, ctx);
  }

  lemma LiteralsCompare(a: string, b: string, ctx: Context, run: Aggregate.Run)
    requires forall i :: 0 <= i < |a| ==> a[i] != '\''
    requires forall i :: 0 <= i < |b| ==> b[i] != '\''
    ensures var ts := ["'" + a + "'", "==", "'" + b + "'"];
            && AggregateEvaluate(ts, run) == Some(a == b)
            && EvaluateTokens(ts, ctx) == Bool(Lower(a) == Lower(b))
  {
    hide PrintDisj, ReadsDisj, MeanDisj, EvalDisj, AggregateEvaluate, EvaluateTokens, Lower;
    var d := Alone(Equality(a, b));
    PrintEquality(a, b);
    AggregateMeans(d, run);
    ReadsIsWf(d);
    EvaluatePrinted(d, ctx);
    EqualityMeans(a, b, ctx, run);
  }
}
