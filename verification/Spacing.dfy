/** Every expression, in every spacing, is the text of its tokens. */
module Spacing {
  import opened Bytes
  import opened Lexing
  import opened Splitting
  import opened Expressions
  import opened Grammar
  import opened MainGate

  // ----- tokens -----

  /** The classes of characters, over ASCII, by code point. */
  lemma AsciiClasses(c: char)
    requires c as int < 128
    ensures Digit(c) <==> 48 <= c as int <= 57
    ensures NameStart(c) <==> 65 <= c as int <= 90 || 97 <= c as int <= 122 || c as int == 95
    ensures NameChar(c) <==> NameStart(c) || Digit(c) || c as int in {42, 45, 46}
    ensures Space(c) <==> 9 <= c as int <= 13 || 28 <= c as int <= 32
  {
  }

  predicate AllOf(p: char -> bool, s: string) {
    s != "" && forall i :: 0 <= i < |s| ==> p(s[i])
  }

  ghost predicate IsQuotedToken(t: string) {
    exists text :: t == "'" + Escape(text) + "'"
  }

  predicate IsNameToken(t: string) {
    t != "" && NameStart(t[0]) && AllOf(NameChar, t)
  }

  ghost predicate IsNumberToken(t: string) {
    AllOf(Digit, t) || exists whole, part :: AllOf(Digit, whole) && AllOf(Digit, part) && t == whole + "." + part
  }

  const OPERATORS: set<string> := {"==", "!=", "&&", "||", "<=", ">=", "<", ">", "!", "(", ")", ","}

  ghost predicate IsExpressionToken(t: string) {
    t in OPERATORS || IsQuotedToken(t) || IsNameToken(t) || IsNumberToken(t)
  }

  /** A character that may stand right behind a token and not become part of it. */
  predicate MayTouch(t: string, c: char) {
    if t in {"==", "!=", "&&", "||", "<=", ">=", "(", ")", ","} then true
    else if t in {"<", ">", "!"} then c != '='
    else if "'" <= t then c != '\''
    else !NameChar(c) && !Digit(c)
  }

  predicate Cut(t: string, f: string) {
    f == "" || MayTouch(t, f[0])
  }

  lemma OperatorMunch(t: string, f: string)
    requires t in OPERATORS && Cut(t, f)
    ensures Munch(t + f) == |t| && !Space(t[0])
  {
    var s := t + f;
    assert s[0] == t[0];
    if |t| == 2 {
      assert s[..2] == t;
    } else if |s| >= 2 {
      assert s[..2] == [t[0], f[0]];
      assert s[..2][1] == f[0] && s[..2][0] == t[0];
    }
  }

  lemma {:induction false} EscapeCloses(text: string, f: string)
    requires f == "" || f[0] != '\''
    ensures ClosingLength(Escape(text) + "'" + f) == |Escape(text)| + 1
    decreases |text|
  {
    var s := Escape(text) + "'" + f;
    if text == "" {
      assert s == "'" + f;
    } else {
      var rest := Escape(text[1..]) + "'" + f;
      EscapeCloses(text[1..], f);
      if text[0] == '\'' {
        assert s == "''" + rest && s[2..] == rest;
      } else {
        assert s == [text[0]] + rest && s[1..] == rest;
      }
    }
  }

  lemma QuotedMunch(t: string, f: string)
    requires IsQuotedToken(t) && Cut(t, f)
    ensures Munch(t + f) == |t| && !Space(t[0])
  {
    hide Escape, ClosingLength;
    var text :| t == "'" + Escape(text) + "'";
    var s := t + f;
    assert s[0] == '\'' && s[1..] == Escape(text) + "'" + f;
    EscapeCloses(text, f);
    assert |s| >= 2 ==> s[..2][0] == '\'';
  }

  lemma NoOperator(s: string)
    requires s != "" && (NameStart(s[0]) || Digit(s[0]))
    ensures OperatorLength(s) == 0 && s[0] != '\'' && !Space(s[0])
  {
    assert |s| >= 2 ==> s[..2][0] == s[0];
  }

  lemma NameMunch(t: string, f: string)
    requires IsNameToken(t) && Cut(t, f)
    ensures Munch(t + f) == |t| && !Space(t[0])
  {
    var s := t + f;
    assert s[0] == t[0];
    NoOperator(s);
    NoOperator(t);
    assert t !in {"==", "!=", "&&", "||", "<=", ">=", "(", ")", ",", "<", ">", "!"};
    RunUnique(NameChar, s, |t|);
  }

  lemma DigitsRun(ds: string, f: string)
    requires AllOf(Digit, ds) && (f == "" || !Digit(f[0]))
    ensures Run(Digit, ds + f) == |ds|
  {
    RunUnique(Digit, ds + f, |ds|);
  }

  lemma NumberMunch(t: string, f: string)
    requires IsNumberToken(t) && Cut(t, f)
    ensures Munch(t + f) == |t| && !Space(t[0])
  {
    hide Digit, NameChar;
    NumberStarts(t);
    assert f == "" || (!NameChar(f[0]) && !Digit(f[0]));
    DotIsNameChar();
    var s := t + f;
    assert s[0] == t[0];
    NoOperator(s);
    if AllOf(Digit, t) {
      DigitsRun(t, f);
    } else {
      var whole, part :| AllOf(Digit, whole) && AllOf(Digit, part) && t == whole + "." + part;
      assert s == whole + ("." + part + f) && s[|whole| + 1..] == part + f;
      DigitsRun(whole, "." + part + f);
      DigitsRun(part, f);
    }
  }

  lemma DotIsNameChar()
    ensures NameChar('.') && !Digit('.')
  {
  }

  lemma NumberStarts(t: string)
    requires IsNumberToken(t)
    ensures t != "" && Digit(t[0]) && !NameStart(t[0]) && t !in OPERATORS && !("'" <= t)
  {
    if !AllOf(Digit, t) {
      var whole, part :| AllOf(Digit, whole) && AllOf(Digit, part) && t == whole + "." + part;
      assert t[0] == whole[0];
    }
    NoOperator(t);
  }

  /** Whatever follows, a token is read as itself where the next character may touch it. */
  lemma TokenMunch(t: string, f: string)
    requires IsExpressionToken(t) && Cut(t, f)
    ensures t != "" && !Space(t[0]) && Munch(t + f) == |t|
  {
    hide Munch, Cut, IsNameToken, IsNumberToken, IsQuotedToken, OPERATORS;
    if t in OPERATORS {
      OperatorMunch(t, f);
    } else if IsQuotedToken(t) {
      QuotedMunch(t, f);
    } else if IsNameToken(t) {
      NameMunch(t, f);
    } else {
      NumberMunch(t, f);
    }
    TokenNotEmpty(t);
  }

  lemma TokenNotEmpty(t: string)
    requires IsExpressionToken(t)
    ensures t != ""
  {
    if IsNumberToken(t) {
      NumberStarts(t);
    }
  }

  lemma SpaceTouches(t: string, c: char)
    requires Space(c)
    ensures MayTouch(t, c)
  {
  }

  // ----- texts -----

  /** Each token with the space behind it. */
  function Spaced(ts: seq<string>, gaps: seq<string>): string
    requires |gaps| == |ts|
  {
    if ts == [] then "" else ts[0] + (gaps[0] + Spaced(ts[1..], gaps[1..]))
  }

  ghost predicate Separates(ts: seq<string>, gaps: seq<string>) {
    && |gaps| == |ts|
    && (forall i :: 0 <= i < |ts| ==> IsExpressionToken(ts[i]) && AllSpace(gaps[i]))
    && (forall i, j :: 0 <= i < j < |ts| && j == i + 1 && gaps[i] == "" ==> ts[j] != "" && MayTouch(ts[i], ts[j][0]))
  }

  lemma FirstCut(ts: seq<string>, gaps: seq<string>)
    requires Separates(ts, gaps) && ts != []
    ensures Separates(ts[1..], gaps[1..]) && Cut(ts[0], gaps[0] + Spaced(ts[1..], gaps[1..]))
    ensures |ts| > 1 ==> ts[1] != "" && !Space(ts[1][0]) && ts[1] <= Spaced(ts[1..], gaps[1..])
  {
    hide IsExpressionToken, MayTouch, Munch;
    var f := gaps[0] + Spaced(ts[1..], gaps[1..]);
    if |ts| > 1 {
      TokenMunch(ts[1], "");
      assert ts[1..][0] == ts[1];
    }
    if gaps[0] != "" {
      assert f[0] == gaps[0][0];
      SpaceTouches(ts[0], f[0]);
    } else if |ts| > 1 {
      assert f == Spaced(ts[1..], gaps[1..]) && f[0] == ts[1][0];
    }
  }

  /** In every spacing that keeps its tokens apart, a text has exactly those tokens. */
  lemma {:induction false} LexSpaced(ts: seq<string>, gaps: seq<string>)
    requires |gaps| == |ts| && Separates(ts, gaps)
    ensures Lex(Spaced(ts, gaps)) == Some(ts)
    decreases |ts|
  {
    hide Lex, Separates, IsExpressionToken, Munch, Space, Cut;
    if ts == [] {
      LexOfNothing();
    } else {
      var t, g, rest := ts[0], gaps[0], Spaced(ts[1..], gaps[1..]);
      FirstCut(ts, gaps);
      FirstToken(ts, gaps);
      TokenMunch(t, g + rest);
      var s := t + (g + rest);
      assert s[0] == t[0] && s[..|t|] == t && s[|t|..] == g + rest;
      LexStep(s);
      LexSpaced(ts[1..], gaps[1..]);
      GapSkipped(g, rest);
      assert [t] + ts[1..] == ts;
    }
  }

  lemma FirstToken(ts: seq<string>, gaps: seq<string>)
    requires Separates(ts, gaps) && ts != []
    ensures IsExpressionToken(ts[0]) && AllSpace(gaps[0]) && (|ts| == 1 ==> Spaced(ts[1..], gaps[1..]) == "")
  {
  }

  lemma GapSkipped(g: string, rest: string)
    requires AllSpace(g) && (rest == "" || !Space(rest[0]))
    ensures Lex(g + rest) == Lex(rest)
  {
    hide Lex;
    RunUnique(Space, g + rest, |g|);
    SkipSpace(g + rest);
    assert (g + rest)[|g|..] == rest;
  }

  // ----- the evaluator on text -----

  lemma WrappedText(inner: string)
    ensures EvaluatedText("${{" + inner + "}}") == Some(inner)
  {
    hide Strip, Contains;
    WrappedIsStripped(inner);
    WrapsIff("${{" + inner + "}}", inner);
  }

  lemma DelimitersAreNoSpace()
    ensures !Space('$') && !Space('}')
  {
  }

  /** A wrapped expression behind any space and in any spacing. */
  function Wrapped(d: Disj, lead: string, gaps: seq<string>): string
    requires |gaps| == |PrintDisj(d)|
  {
    "${{" + (lead + Spaced(PrintDisj(d), gaps)) + "}}"
  }

  lemma LexWrapped(d: Disj, lead: string, gaps: seq<string>)
    requires AllSpace(lead) && |gaps| == |PrintDisj(d)| && Separates(PrintDisj(d), gaps)
    ensures Lex(lead + Spaced(PrintDisj(d), gaps)) == Some(PrintDisj(d))
    ensures EvaluatedText(Wrapped(d, lead, gaps)) == Some(lead + Spaced(PrintDisj(d), gaps))
  {
    hide PrintDisj, Lex, EvaluatedText, Separates;
    var ts := PrintDisj(d);
    WrappedText(lead + Spaced(ts, gaps));
    LexSpaced(ts, gaps);
    if ts != [] {
      FirstToken(ts, gaps);
      TokenMunch(ts[0], "");
    }
    GapSkipped(lead, Spaced(ts, gaps));
  }

  /** A field that wraps an expression, in any spacing, is given the expression's meaning. */
  lemma EvaluateSpaced(d: Disj, lead: string, gaps: seq<string>, ctx: Context)
    requires WfDisj(d) && AllSpace(lead) && |gaps| == |PrintDisj(d)| && Separates(PrintDisj(d), gaps)
    ensures Evaluate(Str(Wrapped(d, lead, gaps)), ctx) == Truthy(EvalDisj(d, ctx))
  {
    hide EvaluateTokens, EvalDisj, PrintDisj, WfDisj, Lex, EvaluatedText, Separates, Wrapped;
    LexWrapped(d, lead, gaps);
    EvaluatePrinted(d, ctx);
  }

  /** And the gate decides it by its tree, where no literal opens a `${{`. */
  lemma GatedSpaced(d: Disj, lead: string, gaps: seq<string>, bare: bool)
    requires WfDisj(d) && AllSpace(lead) && |gaps| == |PrintDisj(d)| && Separates(PrintDisj(d), gaps)
    requires Unopened(lead + Spaced(PrintDisj(d), gaps))
    ensures GatedToMain(Str(Wrapped(d, lead, gaps)), bare) <==> IsGatedTree(d)
  {
    hide PrintDisj, WfDisj, Lex, EvaluatedText, Separates, Unopened, Strip, ExpressionBody, GatedToMain, IsGatedTree, Space;
    var text, inner := Wrapped(d, lead, gaps), lead + Spaced(PrintDisj(d), gaps);
    LexWrapped(d, lead, gaps);
    EvaluatedIff(text, inner);
    WrappedIsStripped(inner);
    BodyIff(text, bare, Strip(inner));
    assert Wraps(Strip(text), inner);
    GatedIff(Str(text), bare, d);
  }

  lemma WrappedIsStripped(inner: string)
    ensures Strip("${{" + inner + "}}") == "${{" + inner + "}}"
  {
    hide Space;
    var t := "${{" + inner + "}}";
    assert t[0] == '$' && t[|t| - 1] == '}';
    DelimitersAreNoSpace();
    RunUnique(Space, t, 0);
    assert t[0..] == t && TrimRight(t) == t;
  }
}
