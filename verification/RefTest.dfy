/** The one form of a ref test the gate knows, as its pattern matches it and as the evaluator reads it. */
module RefTest {
  import opened Bytes
  import opened Lexing
  import opened Expressions
  import opened Grammar

  const REF_NAME := "github.ref"
  const REF_TEXT := "refs/heads/main"
  const REF_LITERAL := "'refs/heads/main'"

  // ----- the pattern -----

  /** How a lower-case pattern character matches where case is ignored: `i` and `s` match letters beyond ASCII too. */
  predicate MatchesChar(c: char, p: char) {
    c == p || ('A' <= c <= 'Z' && (c as int + 32) as char == p) ||
    (p == 'i' && (c == DOTTED_I || c == DOTLESS_I)) || (p == 's' && c == LONG_S)
  }

  predicate Matches(s: string, pattern: string) {
    |s| == |pattern| && forall i :: 0 <= i < |s| ==> MatchesChar(s[i], pattern[i])
  }

  /** `github\.ref\s*==\s*'refs/heads/main'`, matched in full and without regard to case. */
  predicate IsMainRefTest(t: string) {
    |t| >= 10 && Matches(t[..10], REF_NAME) &&
    "==" <= Unspaced(t[10..]) && Matches(Unspaced(Unspaced(t[10..])[2..]), REF_LITERAL)
  }

  /** What is left after leading space. */
  function Unspaced(s: string): string {
    s[Run(Space, s)..]
  }

  function RefName(t: string): string
    requires |t| >= 10
  {
    t[..10]
  }

  function RefLiteral(t: string): string
    requires IsMainRefTest(t)
  {
    Unspaced(Unspaced(t[10..])[2..])
  }

  function Inner(q: string): string {
    if |q| >= 2 then q[1..|q| - 1] else ""
  }

  /** None of the three letters: what lower-casing needs to give the pattern back. */
  predicate IsUnfolded(s: string) {
    forall i :: 0 <= i < |s| ==> !Folded(s[i])
  }

  lemma RefParts(t: string)
    requires IsMainRefTest(t)
    ensures |t| >= 10 && Matches(RefName(t), REF_NAME) && Matches(RefLiteral(t), REF_LITERAL)
  {
  }

  lemma LeadingSpace(s: string) returns (w: string)
    ensures AllSpace(w) && s == w + Unspaced(s)
  {
    hide Run, Space;
    w := s[..Run(Space, s)];
  }

  lemma Regrouped(a: string, b: string, c: string, d: string, e: string)
    ensures a + (b + (c + (d + e))) == a + b + c + d + e
  {
  }

  /** A matched text piece by piece. */
  lemma RefSpaces(t: string) returns (w1: string, w2: string)
    requires IsMainRefTest(t)
    ensures AllSpace(w1) && AllSpace(w2) && t == RefName(t) + w1 + "==" + w2 + RefLiteral(t)
  {
    hide Matches, Unspaced, AllSpace;
    var u := Unspaced(t[10..]);
    w1 := LeadingSpace(t[10..]);
    w2 := LeadingSpace(u[2..]);
    assert t == RefName(t) + t[10..] && u == "==" + u[2..];
    Regrouped(RefName(t), w1, "==", w2, RefLiteral(t));
  }

  // ----- lower-casing -----

  predicate IsPattern(p: string) {
    forall i :: 0 <= i < |p| ==> p[i] as int < 128 && !('A' <= p[i] <= 'Z')
  }

  lemma Patterns()
    ensures IsPattern(REF_NAME) && IsPattern(REF_TEXT) && IsPattern(REF_LITERAL)
  {
  }

  lemma {:induction false} LowerUnfolded(s: string, p: string)
    requires Matches(s, p) && IsPattern(p) && IsUnfolded(s)
    ensures Lower(s) == p
  {
    if s != "" {
      assert p == [p[0]] + p[1..];
      assert MatchesChar(s[0], p[0]);
      LowerUnfolded(s[1..], p[1..]);
    }
  }

  lemma {:induction false} LowerKeepsFolded(s: string, i: nat)
    requires i < |s| && Folded(s[i])
    ensures exists k :: 0 <= k < |Lower(s)| && Lower(s)[k] as int >= 128
  {
    var front, rest := LowerChar(s[0]), Lower(s[1..]);
    if i == 0 {
      var k := |front| - 1;
      assert Lower(s)[k] == front[k];
    } else {
      LowerKeepsFolded(s[1..], i - 1);
      var k :| 0 <= k < |rest| && rest[k] as int >= 128;
      assert Lower(s)[|front| + k] == rest[k];
    }
  }

  /** What a pattern matches lower-cases to the pattern exactly when it holds none of the three letters. */
  lemma LowersIff(s: string, p: string)
    requires Matches(s, p) && IsPattern(p)
    ensures Lower(s) == p <==> IsUnfolded(s)
  {
    if IsUnfolded(s) {
      LowerUnfolded(s, p);
    } else {
      var i :| 0 <= i < |s| && Folded(s[i]);
      LowerKeepsFolded(s, i);
    }
  }

  // ----- its tokens -----

  lemma MatchesPoint(s: string, p: string, i: nat)
    requires Matches(s, p) && i < |s|
    ensures p[i] == '.' ==> s[i] == '.'
    ensures p[i] == '\'' <==> s[i] == '\''
    ensures 'a' <= p[i] <= 'z' ==> Word(s[i])
    ensures p[i] == 'g' ==> NameStart(s[i])
    ensures IsPattern(p) ==> !Space(s[i]) || p[i] == s[i]
  {
    assert MatchesChar(s[i], p[i]);
  }

  lemma NameAtFront(t: string)
    requires IsMainRefTest(t)
    ensures Munch(t) == 10 && NameStart(t[0]) && !Space(t[0])
  {
    hide Word, MatchesChar, Matches, Space;
    var name := RefName(t);
    RefParts(t);
    NameShape(name);
    var rest := t[10..];
    assert t[10] == rest[0] by {
      assert Unspaced(rest) != "";
    }
    AfterName(rest);
    assert forall i :: 0 <= i < 10 ==> t[i] == name[i];
    RunUnique(NameChar, t, 10);
    NameMunch(t);
  }

  lemma NameShape(name: string)
    requires Matches(name, REF_NAME)
    ensures |name| == 10 && NameStart(name[0]) && forall i :: 0 <= i < 10 ==> NameChar(name[i])
  {
    hide Word, MatchesChar;
    forall i | 0 <= i < 10
      ensures NameChar(name[i]) && (i == 0 ==> NameStart(name[i]))
    {
      MatchesPoint(name, REF_NAME, i);
      assert i != 6 ==> 'a' <= REF_NAME[i] <= 'z';
    }
  }

  lemma AfterName(rest: string)
    requires rest != "" && "==" <= Unspaced(rest)
    ensures !NameChar(rest[0])
  {
    if Run(Space, rest) == 0 {
      assert Unspaced(rest) == rest;
    } else {
      SpaceIsNoName(rest[0]);
    }
  }

  lemma SpaceIsNoName(c: char)
    ensures Space(c) ==> !NameChar(c)
  {
  }

  lemma NameMunch(t: string)
    requires t != "" && NameStart(t[0])
    ensures Munch(t) == Run(NameChar, t) && !Space(t[0])
  {
    assert |t| >= 2 ==> t[..2][0] == t[0];
  }

  lemma LexEquals(u: string)
    requires "==" <= u
    ensures Lex(u) == Behind(["=="], Lex(u[2..]))
  {
    assert u[..2] == "==" && u[0] == '=';
    LexStep(u);
  }

  lemma {:induction false} ClosingOf(s: string)
    requires s != "" && s[|s| - 1] == '\'' && forall i :: 0 <= i < |s| - 1 ==> s[i] != '\''
    ensures ClosingLength(s) == |s|
  {
    if |s| > 1 {
      ClosingOf(s[1..]);
    }
  }

  lemma LiteralShape(q: string)
    requires Matches(q, REF_LITERAL)
    ensures |q| == 17 && forall i :: 0 <= i < 17 ==> (q[i] == '\'' <==> i == 0 || i == 16)
  {
    forall i | 0 <= i < 17
      ensures q[i] == '\'' <==> i == 0 || i == 16
    {
      MatchesPoint(q, REF_LITERAL, i);
    }
  }

  lemma QuoteIsNoSpace(c: char)
    ensures c == '\'' ==> !Space(c)
  {
  }

  lemma LexLiteral(q: string)
    requires Matches(q, REF_LITERAL)
    ensures Lex(q) == Some([q]) && "'" <= q
  {
    hide Matches, Lex;
    LiteralShape(q);
    ClosingOf(q[1..]);
    assert q[0] == '\'' && q[..2][0] == '\'';
    QuoteIsNoSpace(q[0]);
    assert Munch(q) == |q|;
    LexStep(q);
    assert q[..|q|] == q && q[|q|..] == "";
    LexOfNothing();
    assert [q] + [] == [q];
  }

  /** Whatever the pattern matches is the three tokens of a comparison. */
  lemma LexMainRefTest(t: string)
    requires IsMainRefTest(t)
    ensures Lex(t) == Some([RefName(t), "==", RefLiteral(t)])
  {
    hide Lex, Munch, Matches, Run, Space;
    var name, literal := RefName(t), RefLiteral(t);
    var rest := t[10..];
    var u := Unspaced(rest);
    NameAtFront(t);
    LexStep(t);
    SkipSpace(rest);
    LexEquals(u);
    SkipSpace(u[2..]);
    LexLiteral(literal);
    assert [name] + (["=="] + [literal]) == [name, "==", literal];
  }

  // ----- its value -----

  function RefValue(name: string, literal: string, ctx: Context): Value {
    if name in ctx && !ctx[name].Unknown? then Bool(Shown(ctx[name]) == Lower(Inner(literal))) else Unknown
  }

  lemma LiteralText(q: string)
    requires Matches(q, REF_LITERAL)
    ensures QuotedText(q) == Inner(q) && Matches(Inner(q), REF_TEXT)
  {
    LiteralShape(q);
    EscapePlain(Inner(q));
    UnescapeEscape(Inner(q));
    forall i | 0 <= i < 15
      ensures MatchesChar(Inner(q)[i], REF_TEXT[i])
    {
      assert MatchesChar(q[i + 1], REF_LITERAL[i + 1]) && REF_LITERAL[i + 1] == REF_TEXT[i];
    }
  }

  lemma NameIsName(name: string)
    requires Matches(name, REF_NAME)
    ensures IsName(name)
  {
    NameShape(name);
    MatchesPoint(name, REF_NAME, 6);
    assert name != "true" && name != "false";
  }

  lemma RefTestValue(name: string, literal: string, ctx: Context)
    requires Matches(name, REF_NAME) && Matches(literal, REF_LITERAL)
    ensures ParseComparison([name, "==", literal], ctx) == Ok(RefValue(name, literal, ctx), [])
  {
    hide Matches, Lower, IsNumber, QuotedText;
    LexLiteral(literal);
    LiteralText(literal);
    NameIsName(name);
    NameToken(name);
    var ts := [name, "==", literal];
    assert ts[1..] == ["==", literal] && ts[1..][1..] == [literal] && [literal][1..] == [];
    var left := if name in ctx then ctx[name] else Unknown;
    assert ParsePrimary(ts, ctx) == Ok(left, ["==", literal]);
    assert ParsePrimary([literal], ctx) == Ok(Text(Inner(literal)), []);
    var v := CompareValues("==", left, Text(Inner(literal)));
    assert ComparisonLoop(left, ["==", literal], ctx) == ComparisonLoop(v, [], ctx) == Ok(v, []);
    assert ParseComparison(ts, ctx) == Ok(v, []);
  }

  lemma RefTestVerdict(name: string, literal: string, ctx: Context)
    requires Matches(name, REF_NAME) && Matches(literal, REF_LITERAL)
    ensures EvaluateTokens([name, "==", literal], ctx) == RefValue(name, literal, ctx)
  {
    hide Matches, ParseComparison;
    var ts, v := [name, "==", literal], RefValue(name, literal, ctx);
    RefTestValue(name, literal, ctx);
    assert ParseConjunction(ts, ctx) == Ok(v, []);
    assert ParseDisjunction(ts, ctx) == Ok(v, []);
  }

  // ----- where it holds -----

  /** No name that reads `github.ref`, up to case, holds `refs/heads/main`, up to case. */
  predicate OffMain(ctx: Context) {
    forall name :: name in ctx && Lower(name) == REF_NAME && !ctx[name].Unknown? ==> Shown(ctx[name]) != REF_TEXT
  }

  lemma UnfoldedParts(t: string)
    requires IsMainRefTest(t)
    ensures IsUnfolded(t) <==> IsUnfolded(RefName(t)) && IsUnfolded(Inner(RefLiteral(t)))
  {
    hide IsMainRefTest, Matches, AllSpace, IsUnfolded;
    var q := RefLiteral(t);
    var w1, w2 := RefSpaces(t);
    RefParts(t);
    LiteralShape(q);
    assert q == "'" + Inner(q) + "'";
    SpaceIsUnfolded(w1);
    SpaceIsUnfolded(w2);
    AsciiIsUnfolded();
    var front := RefName(t) + w1;
    UnfoldedConcat(RefName(t), w1);
    UnfoldedConcat(front, "==");
    UnfoldedConcat(front + "==", w2);
    UnfoldedConcat(front + "==" + w2, q);
    UnfoldedConcat("'" + Inner(q), "'");
    UnfoldedConcat("'", Inner(q));
  }

  lemma AsciiIsUnfolded()
    ensures IsUnfolded("==") && IsUnfolded("'")
  {
  }

  lemma SpaceIsUnfolded(w: string)
    requires AllSpace(w)
    ensures IsUnfolded(w)
  {
  }

  lemma UnfoldedConcat(a: string, b: string)
    ensures IsUnfolded(a + b) <==> IsUnfolded(a) && IsUnfolded(b)
  {
    hide Folded;
    var s := a + b;
    assert forall i :: 0 <= i < |a| ==> a[i] == s[i];
    assert forall i :: 0 <= i < |b| ==> b[i] == s[|a| + i];
  }

  /** Without the three letters the test is true on `refs/heads/main` only. */
  lemma UnfoldedNeverTrueOffMain(t: string, ctx: Context)
    requires IsMainRefTest(t) && IsUnfolded(t) && OffMain(ctx)
    ensures EvaluateTokens([RefName(t), "==", RefLiteral(t)], ctx) != Bool(true)
  {
    hide Matches, EvaluateTokens, Lower, IsUnfolded;
    RefParts(t);
    UnfoldedParts(t);
    LiteralText(RefLiteral(t));
    Patterns();
    LowersIff(RefName(t), REF_NAME);
    LowersIff(Inner(RefLiteral(t)), REF_TEXT);
    RefTestVerdict(RefName(t), RefLiteral(t), ctx);
  }

  /** The context that gives the compared name the very text of the literal. */
  function Selecting(t: string): Context
    requires IsMainRefTest(t)
  {
    map[RefName(t) := Text(Inner(RefLiteral(t)))]
  }

  /** With one of them it is true in a context off main. */
  lemma FoldedTrueOffMain(t: string)
    requires IsMainRefTest(t) && !IsUnfolded(t)
    ensures OffMain(Selecting(t)) && EvaluateTokens([RefName(t), "==", RefLiteral(t)], Selecting(t)) == Bool(true)
  {
    hide Matches, EvaluateTokens, Lower, IsUnfolded;
    RefParts(t);
    UnfoldedParts(t);
    LiteralText(RefLiteral(t));
    Patterns();
    LowersIff(RefName(t), REF_NAME);
    LowersIff(Inner(RefLiteral(t)), REF_TEXT);
    RefTestVerdict(RefName(t), RefLiteral(t), Selecting(t));
  }
}
