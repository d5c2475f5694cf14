/** When the main-branch gate is sound: exactly when the text it matched holds none of three letters beyond ASCII. */
module GateExact {
  import opened Bytes
  import opened Lexing
  import opened Splitting
  import opened Expressions
  import opened Grammar
  import opened Structure
  import opened RefTest
  import opened MainGate

  // ----- a matched text is itself a gated field -----

  /** A split into one part is the whole text. */
  lemma {:induction false} OnePart(s: string, cur: string, depth: nat, quoted: bool, op: string)
    requires op != "" && Scan(s, cur, depth, quoted, op).Some?
    ensures |Scan(s, cur, depth, quoted, op).value| >= 1
    ensures |Scan(s, cur, depth, quoted, op).value| == 1 ==> Scan(s, cur, depth, quoted, op) == Some([cur + s])
    decreases |s|
  {
    if s == "" {
      assert cur + s == cur;
    } else {
      var c := s[0];
      assert cur + [c] + s[1..] == cur + s;
      if quoted && c == '\'' && |s| >= 2 && s[1] == '\'' {
        assert cur + s[..2] + s[2..] == cur + s;
        OnePart(s[2..], cur + s[..2], depth, true, op);
      } else if quoted || c == '\'' {
        OnePart(s[1..], cur + [c], depth, if quoted then c != '\'' else true, op);
      } else if c == '(' || c == ')' {
        OnePart(s[1..], cur + [c], if c == '(' then depth + 1 else depth - 1, false, op);
      } else if depth == 0 && op <= s {
        OnePart(s[|op|..], "", 0, false, op);
      } else {
        OnePart(s[1..], cur + [c], depth, false, op);
      }
    }
  }

  /** The comparison a matched text reads as. */
  function RefComparison(t: string): Disj
    requires IsMainRefTest(t)
  {
    Alone(Comp(Name(RefName(t)), Compare("==", Quoted(Inner(RefLiteral(t))), CompEnd)))
  }

  lemma LexRefComparison(t: string)
    requires IsMainRefTest(t)
    ensures IsRefComparison(RefComparison(t)) && WfDisj(RefComparison(t)) && Lex(t) == Some(PrintDisj(RefComparison(t)))
  {
    hide Lex, IsMainRefTest, Matches, PrintDisj, WfDisj, Escape;
    var d, q := RefComparison(t), RefLiteral(t);
    RefParts(t);
    LexMainRefTest(t);
    LiteralShape(q);
    EscapePlain(Inner(q));
    assert "'" + Inner(q) + "'" == q;
    PrintRefComparison(d);
    NameIsName(RefName(t));
    RefComparisonWf(RefName(t), Inner(q));
  }

  lemma RefComparisonWf(name: string, text: string)
    requires IsName(name)
    ensures WfDisj(Alone(Comp(Name(name), Compare("==", Quoted(text), CompEnd))))
  {
    var c := Comp(Name(name), Compare("==", Quoted(text), CompEnd));
    assert WfCompTail(CompEnd) && WfCompTail(c.tail);
    WfAlone(c);
  }

  predicate IsDollarless(s: string) {
    forall i :: 0 <= i < |s| ==> s[i] != '$'
  }

  lemma RefText(t: string)
    requires IsMainRefTest(t)
    ensures t != "" && IsTrimmed(t) && t[0] != '(' && IsDollarless(t)
  {
    hide IsMainRefTest, Matches, AllSpace, Space;
    var q := RefLiteral(t);
    var w1, w2 := RefSpaces(t);
    RefParts(t);
    NameAtFront(t);
    LiteralShape(q);
    QuoteIsNoSpace(q[16]);
    assert t[|t| - 1] == q[16];
    Patterns();
    NoDollars();
    MatchesDollarless(RefName(t), REF_NAME);
    MatchesDollarless(q, REF_LITERAL);
    SpaceIsDollarless(w1);
    SpaceIsDollarless(w2);
  }

  lemma NoDollars()
    ensures IsDollarless(REF_NAME) && IsDollarless(REF_LITERAL)
  {
  }

  lemma MatchesDollarless(s: string, p: string)
    requires Matches(s, p) && IsPattern(p) && IsDollarless(p)
    ensures IsDollarless(s)
  {
    forall i | 0 <= i < |s|
      ensures s[i] != '$'
    {
      assert MatchesChar(s[i], p[i]);
    }
  }

  lemma SpaceIsDollarless(w: string)
    requires AllSpace(w)
    ensures IsDollarless(w)
  {
  }

  lemma NoExpressionMarker(s: string)
    requires IsDollarless(s)
    ensures !Contains(s, "${{") && Whole(s) == None
  {
    forall i | 0 <= i <= |s|
      ensures !("${{" <= s[i..])
    {
      assert s[i..] != "" ==> s[i..][0] == s[i];
    }
    assert s[0..] == s;
  }

  lemma TrimmedStrips(s: string)
    requires s != "" && IsTrimmed(s) && s[0] != '('
    ensures Strip(s) == s && StripParentheses(s) == s
  {
    RunUnique(Space, s, 0);
    assert s[0..] == s;
  }

  /** A matched text is itself a gated field, so the gate's hypotheses are met for every one. */
  lemma RefTestIsGated(t: string)
    requires IsMainRefTest(t)
    ensures GatedThrough(Str(t), true, t) && GatedToMain(Str(t), true) && HoldsExpression(Str(t), true, RefComparison(t))
  {
    hide Lex, IsMainRefTest, PrintDisj, WfDisj, IsTrimmed, Strip, StripParentheses, Contains, Whole, SplitTokens, IsRefComparison, Peeled;
    var d := RefComparison(t);
    RefText(t);
    TrimmedStrips(t);
    NoExpressionMarker(t);
    LexRefComparison(t);
    SplitTopIsSplitTokens(t, "||");
    SplitTopIsSplitTokens(t, "&&");
    DisjunctsIff(d);
    SplitConj(d.first);
    OnePart(t, "", 0, false, "&&");
    assert "" + t == t;
    assert Comps(d.first) == [d.first.first];
    assert Stripped([t])[0] == t;
  }

  /** Every well-formed condition gated through a matched text is sound exactly when the text holds none of the three
      letters, that is, exactly when its name and literal lower-case to what the pattern spells. */
  lemma GateSoundIff(t: string)
    requires IsMainRefTest(t)
    ensures (forall value, bare, d :: HoldsExpression(value, bare, d) && GatedThrough(value, bare, t) ==> NeverTrueOffMain(value))
            <==> IsUnfolded(t)
    ensures IsUnfolded(t) <==> Lower(RefName(t)) == REF_NAME && Lower(RefLiteral(t)) == REF_LITERAL
  {
    hide IsMainRefTest, IsUnfolded, HoldsExpression, GatedThrough, NeverTrueOffMain, Lower, Matches;
    if IsUnfolded(t) {
      forall value, bare, d | HoldsExpression(value, bare, d) && GatedThrough(value, bare, t)
        ensures NeverTrueOffMain(value)
      {
        GateIsSound(value, bare, d, t);
      }
    } else {
      RefTestIsGated(t);
      FoldedGatePasses(t);
    }
    LowersToPattern(t);
  }

  lemma LowersToPattern(t: string)
    requires IsMainRefTest(t)
    ensures IsUnfolded(t) <==> Lower(RefName(t)) == REF_NAME && Lower(RefLiteral(t)) == REF_LITERAL
  {
    hide IsMainRefTest, IsUnfolded, Lower, Matches;
    var q := RefLiteral(t);
    RefParts(t);
    UnfoldedParts(t);
    Patterns();
    LowersIff(RefName(t), REF_NAME);
    LowersIff(q, REF_LITERAL);
    LiteralShape(q);
    assert q == "'" + Inner(q) + "'";
    UnfoldedConcat("'" + Inner(q), "'");
    UnfoldedConcat("'", Inner(q));
    AsciiIsUnfolded();
  }

  /** With one of the three letters the matched text is found true off main. */
  lemma FoldedGatePasses(t: string)
    requires IsMainRefTest(t) && !IsUnfolded(t)
    ensures OffMain(Selecting(t)) && Evaluate(Str(t), Selecting(t)) == Bool(true) && !NeverTrueOffMain(Str(t))
  {
    hide Lex, IsMainRefTest, IsUnfolded, OffMain, EvaluateTokens, IsTrimmed, Strip, StripParentheses, Contains, Whole;
    RefText(t);
    TrimmedStrips(t);
    NoExpressionMarker(t);
    LexMainRefTest(t);
    FoldedTrueOffMain(t);
  }

  // ----- a branch that is not main -----

  lemma MatchesItself(p: string)
    ensures Matches(p, p)
  {
  }

  lemma MatchesConcat(s: string, p: string, s': string, p': string)
    requires Matches(s, p) && Matches(s', p')
    ensures Matches(s + s', p + p')
  {
  }

  const BRANCH := "refs/heads/ma\U{131}n"

  lemma BranchMatches()
    ensures var literal := "'" + BRANCH + "'";
            Matches(literal, REF_LITERAL) && !IsUnfolded(literal) && Inner(literal) == BRANCH
  {
    hide Matches, IsUnfolded;
    var front, back := "'refs/heads/ma", "n'";
    var literal := "'" + BRANCH + "'";
    MatchesItself(front);
    MatchesItself(back);
    DotlessMatches();
    MatchesConcat(front, front, "\U{131}", "i");
    MatchesConcat(front + "\U{131}", front + "i", back, back);
    assert literal == front + "\U{131}" + back && REF_LITERAL == front + "i" + back;
    UnfoldedConcat(front, "\U{131}");
    UnfoldedConcat(front + "\U{131}", back);
  }

  lemma DotlessMatches()
    ensures Matches("\U{131}", "i") && !IsUnfolded("\U{131}")
  {
    assert Folded("\U{131}"[0]);
  }

  lemma BlankIsSpace()
    ensures AllSpace(" ")
  {
  }

  /** `github.ref == 'refs/heads/ma\u0131n'`, with a dotless i: the gate accepts it, and it is true on the branch so named. */
  lemma DotlessBranchPasses()
    ensures var field, ctx: Context := Str("github.ref == '" + BRANCH + "'"), map["github.ref" := Text(BRANCH)];
            GatedToMain(field, true) && OffMain(ctx) && Evaluate(field, ctx) == Bool(true)
  {
    hide IsMainRefTest, Matches, GatedToMain, OffMain, Evaluate, IsUnfolded, Lower, AllSpace;
    var literal := "'" + BRANCH + "'";
    var t := REF_NAME + " " + "==" + " " + literal;
    assert t == "github.ref == '" + BRANCH + "'" by {
      assert REF_NAME + " " + "==" + " " + "'" == "github.ref == '";
    }
    MatchesItself(REF_NAME);
    BranchMatches();
    BlankIsSpace();
    RefSpelling(REF_NAME, " ", " ", literal);
    UnfoldedConcat(REF_NAME + " " + "==" + " ", literal);
    RefTestIsGated(t);
    FoldedGatePasses(t);
  }

  // ----- why the condition is about every field that holds the text -----

  /** `false` and a comparison. */
  function FalseAnd(c: Comp): Disj {
    Disj(Conj(Comp(Lit(false), CompEnd), And(c, ConjEnd)), DisjEnd)
  }

  lemma PrintFalseAnd(c: Comp)
    requires WfComp(c)
    ensures WfDisj(FalseAnd(c)) && PrintDisj(FalseAnd(c)) == ["false", "&&"] + PrintComp(c)
  {
    hide PrintComp;
    var d := FalseAnd(c);
    assert WfCompTail(CompEnd) && WfComp(d.first.first) && WfConjTail(ConjEnd) && WfConjTail(d.first.tail) && WfConj(d.first);
    assert WfDisjTail(DisjEnd);
    LiteralPrints();
    assert PrintConjTail(d.first.tail) == ["&&"] + PrintComp(c) + [];
    assert PrintConj(d.first) == ["false"] + PrintConjTail(d.first.tail);
  }

  lemma LiteralPrints()
    ensures PrintComp(Comp(Lit(false), CompEnd)) == ["false"]
  {
    assert PrintCompTail(CompEnd) == [];
  }

  lemma FalseAndIsFalse(c: Comp, ctx: Context)
    ensures EvalDisj(FalseAnd(c), ctx) == Bool(false)
  {
    hide EvalComp;
    var d := FalseAnd(c);
    LiteralIsFalse(ctx);
    assert EvalConjTail(Bool(false), d.first.tail, ctx) == EvalConjTail(AndValues(Bool(false), EvalComp(c, ctx)), ConjEnd, ctx);
    assert EvalConj(d.first, ctx) == Bool(false);
  }

  lemma LiteralIsFalse(ctx: Context)
    ensures EvalComp(Comp(Lit(false), CompEnd), ctx) == Bool(false)
  {
  }

  lemma LexFalseAnd(t: string)
    requires Lex(t).Some?
    ensures Lex("false&&" + t) == Some(["false", "&&"] + Lex(t).value)
  {
    hide Lex;
    var s, rest := "false&&" + t, "&&" + t;
    assert s == "false" + rest && s[5] == '&' && s[..5] == "false" && s[5..] == rest;
    assert forall i :: 0 <= i < 5 ==> s[i] == "false"[i];
    assert NameStart(s[0]) && NameStart(s[1]) && NameStart(s[2]) && NameStart(s[3]) && NameStart(s[4]);
    RunUnique(NameChar, s, 5);
    NameMunch(s);
    LexStep(s);
    assert rest[..2] == "&&" && rest[2..] == t;
    LexStep(rest);
    assert ["false"] + (["&&"] + Lex(t).value) == ["false", "&&"] + Lex(t).value;
  }

  /** A gated field may be sound with a term that is not: here another term is never true. So no condition on the accepted
      terms of one field decides whether that field is sound; `GateSoundIff` decides it for all fields that hold a term. */
  lemma OtherTermsMayHold(t: string)
    requires IsMainRefTest(t)
    ensures GatedToMain(Str("false&&" + t), true) && NeverTrueOffMain(Str("false&&" + t))
  {
    hide Lex, IsMainRefTest, PrintDisj, PrintComp, WfDisj, WfComp, IsTrimmed, Strip, Contains, Whole, EvalDisj, EvaluateTokens,
         OffMain, GatedToMain, IsRefComparison, IsDollarless;
    var s, c := "false&&" + t, RefComparison(t).first.first;
    var d := FalseAnd(c);
    FalseAndText(t);
    LexRefComparison(t);
    PrintAlone(c);
    AloneIsWf(c);
    PrintFalseAnd(c);
    LexFalseAnd(t);
    FalseAndGated(t);
    GatedIff(Str(s), true, d);
    forall ctx | OffMain(ctx)
      ensures Evaluate(Str(s), ctx) != Bool(true)
    {
      EvaluatePrinted(d, ctx);
      FalseAndIsFalse(c, ctx);
    }
  }

  lemma AloneIsWf(c: Comp)
    requires WfDisj(Alone(c))
    ensures WfComp(c)
  {
    assert WfConj(Alone(c).first);
  }

  lemma FalseAndText(t: string)
    requires IsMainRefTest(t)
    ensures var s := "false&&" + t; Strip(s) == s && !Contains(s, "${{") && Whole(s) == None
  {
    hide IsMainRefTest, Strip, Contains, Whole;
    var s := "false&&" + t;
    RefText(t);
    assert s[0] == 'f' && s[|s| - 1] == t[|t| - 1];
    TrimmedStrips(s);
    assert IsDollarless(s) by {
      assert IsDollarless("false&&");
      assert forall i :: 0 <= i < |t| ==> s[7 + i] == t[i];
      assert forall i :: 0 <= i < 7 ==> s[i] == "false&&"[i];
    }
    NoExpressionMarker(s);
  }

  lemma FalseAndGated(t: string)
    requires IsMainRefTest(t)
    ensures IsGatedTree(FalseAnd(RefComparison(t).first.first))
  {
    hide IsMainRefTest, IsRefComparison, Lex, PrintDisj, WfDisj;
    var c := RefComparison(t).first.first;
    var d := FalseAnd(c);
    LexRefComparison(t);
    assert Peeled(d) == d && Peeled(Alone(c)) == Alone(c) == RefComparison(t);
    assert TailComps(And(c, ConjEnd)) == [c] + [];
    assert Comps(d.first)[1] == c;
  }
}
