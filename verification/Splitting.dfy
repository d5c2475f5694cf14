/** Splitting an expression's text at its top-level operators, character by character, is splitting its tokens. */
module Splitting {
  import opened Bytes
  import opened Lexing

  // ----- the source's scan -----

  /** The scan over the rest of the text: cur is the part begun, depth and quoted the state.
      None when parentheses or quotes do not balance. */
  function Scan(s: string, cur: string, depth: nat, quoted: bool, op: string): Option<seq<string>>
    requires op != ""
    decreases |s|
  {
    if s == "" then if quoted || depth != 0 then None else Some([cur])
    else
      var c := s[0];
      if quoted then
        if c != '\'' then Scan(s[1..], cur + [c], depth, true, op)
        else if |s| >= 2 && s[1] == '\'' then Scan(s[2..], cur + s[..2], depth, true, op)
        else Scan(s[1..], cur + [c], depth, false, op)
      else if c == '\'' then Scan(s[1..], cur + [c], depth, true, op)
      else if c == '(' then Scan(s[1..], cur + [c], depth + 1, false, op)
      else if c == ')' then if depth == 0 then None else Scan(s[1..], cur + [c], depth - 1, false, op)
      else if depth == 0 && op <= s then Ahead([cur], Scan(s[|op|..], "", 0, false, op))
      else Scan(s[1..], cur + [c], depth, false, op)
  }

  function Ahead(parts: seq<string>, rest: Option<seq<string>>): Option<seq<string>> {
    if rest.None? then None else Some(parts + rest.value)
  }

  function SplitTop(body: string, op: string): Option<seq<string>>
    requires op != ""
  {
    Scan(body, "", 0, false, op)
  }

  lemma AheadAhead(parts: seq<string>, part: string, rest: Option<seq<string>>)
    ensures Ahead(parts, Ahead([part], rest)) == Ahead(parts + [part], rest)
  {
    if rest.Some? {
      assert parts + ([part] + rest.value) == parts + [part] + rest.value;
    }
  }

  method SplitTopLoop(body: string, op: string) returns (r: Option<seq<string>>)
    requires op != ""
    ensures r == SplitTop(body, op)
  {
    var parts: seq<string> := [];
    var depth, start, index, quoted := 0, 0, 0, false;
    assert body[0..] == body;
    assert SplitTop(body, op) == Ahead([], SplitTop(body, op)) by {
      assert SplitTop(body, op).Some? ==> [] + SplitTop(body, op).value == SplitTop(body, op).value;
    }
    while index < |body|
      invariant 0 <= start <= index <= |body| && depth >= 0
      invariant SplitTop(body, op) == Ahead(parts, Scan(body[index..], body[start..index], depth, quoted, op))
      decreases |body| - index
    {
      var c := body[index];
      var rest := body[index..];
      assert rest[1..] == body[index + 1..] && body[start..index] + [c] == body[start..index + 1];
      if quoted {
        if c == '\'' {
          if "''" <= rest {
            assert rest[2..] == body[index + 2..] && body[start..index] + rest[..2] == body[start..index + 2];
            index := index + 2;
            continue;
          }
          quoted := false;
        }
      } else if c == '\'' {
        quoted := true;
      } else if c == '(' {
        depth := depth + 1;
      } else if c == ')' {
        depth := depth - 1;
        if depth < 0 {
          return None;
        }
      } else if depth == 0 && op <= rest {
        assert rest[|op|..] == body[index + |op|..];
        AheadAhead(parts, body[start..index], Scan(body[index + |op|..], "", 0, false, op));
        parts := parts + [body[start..index]];
        index := index + |op|;
        start := index;
        assert body[start..index] == "";
        continue;
      }
      index := index + 1;
    }
    assert body[index..] == "" && body[start..index] == body[start..];
    if quoted || depth != 0 {
      return None;
    }
    return Some(parts + [body[start..]]);
  }

  // ----- the scan over one token -----

  /** The operators the source splits at; "\0" is in no token. */
  predicate Splitter(op: string) {
    op == "&&" || op == "||" || op == "\0"
  }

  predicate Plain(c: char) {
    c != '\'' && c != '(' && c != ')' && c != '&' && c != '|' && c != '\0'
  }

  lemma NotPrefix(op: string, s: string)
    requires op != "" && s != "" && op[0] != s[0]
    ensures !(op <= s)
  {
  }

  lemma {:induction false} ScanPlain(t: string, y: string, cur: string, depth: nat, op: string)
    requires Splitter(op) && forall i :: 0 <= i < |t| ==> Plain(t[i])
    ensures Scan(t + y, cur, depth, false, op) == Scan(y, cur + t, depth, false, op)
    decreases |t|
  {
    if t == "" {
      assert t + y == y && cur + t == cur;
    } else {
      var s := t + y;
      assert s[0] == t[0] && s[1..] == t[1..] + y;
      NotPrefix(op, s);
      ScanPlain(t[1..], y, cur + [t[0]], depth, op);
      assert cur + [t[0]] + t[1..] == cur + t;
    }
  }

  lemma {:induction false} ScanQuoted(t: string, y: string, cur: string, depth: nat, op: string)
    requires op != "" && ClosingLength(t + y) == |t| > 0
    ensures Scan(t + y, cur, depth, true, op) == Scan(y, cur + t, depth, false, op)
    decreases |t|
  {
    var s := t + y;
    assert s[0] == t[0];
    if t[0] != '\'' {
      assert s[1..] == t[1..] + y;
      ScanQuoted(t[1..], y, cur + [t[0]], depth, op);
      assert cur + [t[0]] + t[1..] == cur + t;
    } else if |s| >= 2 && s[1] == '\'' {
      assert |t| >= 2 && s[..2] == t[..2] && s[2..] == t[2..] + y;
      ScanQuoted(t[2..], y, cur + t[..2], depth, op);
      assert cur + t[..2] + t[2..] == cur + t;
    } else {
      assert |t| == 1 && s[1..] == y && cur + [t[0]] == cur + t;
    }
  }

  /** A token that is neither quoted, nor a parenthesis, nor a connective holds plain characters only. */
  lemma PlainToken(t: string, y: string)
    requires t != "" && Munch(t + y) == |t| && t[0] != '\''
    requires t != "(" && t != ")" && t != "&&" && t != "||"
    ensures forall i :: 0 <= i < |t| ==> Plain(t[i])
  {
    var s := t + y;
    assert s[0] == t[0] && s[..|t|] == t;
    if OperatorLength(s) == 2 {
      assert t in PAIRS;
    } else if OperatorLength(s) == 0 {
      if NameStart(t[0]) {
        assert forall i :: 0 <= i < |t| ==> NameChar(s[i]) && s[i] == t[i];
      } else {
        NumberIsPlain(s);
        assert forall i :: 0 <= i < |t| ==> s[i] == t[i];
      }
    }
  }

  lemma NumberIsPlain(s: string)
    ensures forall i :: 0 <= i < NumberLength(s) ==> Plain(s[i])
  {
    var n, d := NumberLength(s), Run(Digit, s);
    if n > d {
      assert forall i :: d + 1 <= i < n ==> s[i] == s[d + 1..][i - d - 1];
    }
  }

  /** What scanning one token does: a parenthesis moves the depth, the operator at depth 0 closes a part, and any
      other token, quoted ones with what they quote included, joins the part begun. */
  function Step(t: string, y: string, cur: string, depth: nat, op: string): Option<seq<string>>
    requires op != ""
  {
    if t == "(" then Scan(y, cur + t, depth + 1, false, op)
    else if t == ")" then if depth == 0 then None else Scan(y, cur + t, depth - 1, false, op)
    else if t == op && depth == 0 then Ahead([cur], Scan(y, "", 0, false, op))
    else Scan(y, cur + t, depth, false, op)
  }

  lemma ScanToken(t: string, y: string, cur: string, depth: nat, op: string)
    requires Splitter(op) && t != "" && Munch(t + y) == |t|
    ensures Scan(t + y, cur, depth, false, op) == Step(t, y, cur, depth, op)
  {
    var s := t + y;
    assert s[0] == t[0];
    if t == "(" || t == ")" {
      assert s[1..] == y && cur + [t[0]] == cur + t;
    } else if t[0] == '\'' {
      QuotedToken(t, y);
      assert s[1..] == t[1..] + y;
      ScanQuoted(t[1..], y, cur + [t[0]], depth, op);
      assert cur + [t[0]] + t[1..] == cur + t;
    } else if t == "&&" || t == "||" {
      ScanConnective(t, y, cur, depth, op);
    } else {
      PlainToken(t, y);
      ScanPlain(t, y, cur, depth, op);
    }
  }

  lemma QuotedToken(t: string, y: string)
    requires t != "" && t[0] == '\'' && Munch(t + y) == |t|
    ensures ClosingLength(t[1..] + y) == |t| - 1 > 0
  {
    var s := t + y;
    assert s[0] == t[0] && s[1..] == t[1..] + y;
    if |s| >= 2 {
      assert s[..2][0] == '\'';
    }
    assert OperatorLength(s) == 0;
  }

  lemma ScanConnective(t: string, y: string, cur: string, depth: nat, op: string)
    requires Splitter(op) && (t == "&&" || t == "||")
    ensures Scan(t + y, cur, depth, false, op) == Step(t, y, cur, depth, op)
  {
    var s := t + y;
    assert s[0] == t[0] && s[1..] == t[1..] + y && s[1..][1..] == y && s[..2] == t && s[2..] == y;
    if depth == 0 && op <= s {
      assert op[0] == s[0];
    } else {
      assert cur + [t[0]] + [t[1]] == cur + t;
      if depth == 0 {
        NotPrefix(op, s[1..]);
      }
    }
  }

  // ----- the scan over all tokens -----

  /** Tokens split at the operator where no parenthesis is open; None when parentheses do not balance. */
  function SplitTokens(ts: seq<string>, cur: seq<string>, depth: nat, op: string): Option<seq<seq<string>>> {
    if ts == [] then if depth != 0 then None else Some([cur])
    else
      var t, rest := ts[0], ts[1..];
      if t == "(" then SplitTokens(rest, cur + [t], depth + 1, op)
      else if t == ")" then if depth == 0 then None else SplitTokens(rest, cur + [t], depth - 1, op)
      else if t == op && depth == 0 then
        var more := SplitTokens(rest, [], 0, op);
        if more.None? then None else Some([cur] + more.value)
      else SplitTokens(rest, cur + [t], depth, op)
  }

  ghost predicate PartsLex(parts: Option<seq<string>>, segments: Option<seq<seq<string>>>) {
    (parts.Some? <==> segments.Some?) &&
    (parts.Some? ==> |parts.value| == |segments.value| &&
                     forall i :: 0 <= i < |parts.value| ==> Lex(parts.value[i]) == Some(segments.value[i]))
  }

  lemma {:induction false} ScanLexes(s: string, cur: string, done: seq<string>, depth: nat, op: string)
    requires Splitter(op) && Lexes(cur, done, s) && Lex(s).Some?
    ensures PartsLex(Scan(s, cur, depth, false, op), SplitTokens(Lex(s).value, done, depth, op))
    decreases |s|
  {
    hide Lexes, Munch, Lex, Scan;
    if s == "" {
      LexesThenLex(cur, done);
      LexOfNothing();
      ScanOfNothing(cur, depth, op);
    } else if Space(s[0]) {
      var w := [s[0]];
      assert s == w + s[1..];
      LexesSpace(cur, done, w, s[1..]);
      LexSpace(s);
      ScanSpace(s, cur, depth, op);
      ScanLexes(s[1..], cur + w, done, depth, op);
    } else {
      LexStep(s);
      var n := Munch(s);
      var t, y := s[..n], s[n..];
      assert s == t + y;
      ScanToken(t, y, cur, depth, op);
      assert t[0] == s[0] && Lex(s).value == [t] + Lex(y).value && Lex(s).value[1..] == Lex(y).value;
      if t == op && depth == 0 && t != "(" && t != ")" {
        LexesCut(cur, done, s, "");
        LexesThenLex(cur, done);
        LexesNothing(y);
        ScanLexes(y, "", [], 0, op);
      } else {
        LexesSnoc(cur, done, t, y);
        if t == "(" {
          ScanLexes(y, cur + t, done + [t], depth + 1, op);
        } else if t != ")" {
          ScanLexes(y, cur + t, done + [t], depth, op);
        } else if depth > 0 {
          ScanLexes(y, cur + t, done + [t], depth - 1, op);
        }
      }
    }
  }

  lemma ScanOfNothing(cur: string, depth: nat, op: string)
    requires op != ""
    ensures Scan("", cur, depth, false, op) == if depth != 0 then None else Some([cur])
  {
  }

  lemma LexesNothing(y: string)
    ensures Lexes("", [], y)
  {
  }

  lemma LexSpace(s: string)
    requires s != "" && Space(s[0])
    ensures Lex(s[1..]) == Lex(s)
  {
    hide Munch;
    var k := Run(Space, s);
    assert s[k..] == s[1..][k - 1..];
    RunUnique(Space, s[1..], k - 1);
  }

  lemma ScanSpace(s: string, cur: string, depth: nat, op: string)
    requires Splitter(op) && s != "" && Space(s[0])
    ensures Scan(s, cur, depth, false, op) == Scan(s[1..], cur + [s[0]], depth, false, op)
  {
    NotPrefix(op, s);
  }

  /** Splitting text that is all tokens gives, part for part, the split of its tokens. */
  lemma SplitTopIsSplitTokens(body: string, op: string)
    requires Splitter(op) && Lex(body).Some?
    ensures PartsLex(SplitTop(body, op), SplitTokens(Lex(body).value, [], 0, op))
  {
    LexesNothing(body);
    ScanLexes(body, "", [], 0, op);
  }

  // ----- stripping -----

  function TrimRight(s: string): (r: string)
    ensures r <= s && (r == "" || !Space(r[|r| - 1])) && AllSpace(s[|r|..])
  {
    if s == "" || !Space(s[|s| - 1]) then s
    else
      var r := TrimRight(s[..|s| - 1]);
      assert s[|r|..] == s[..|s| - 1][|r|..] + [s[|s| - 1]];
      r
  }

  /** Python's `str.strip`. */
  function Strip(s: string): string {
    TrimRight(s[Run(Space, s)..])
  }

  lemma {:induction false} TrimLex(u: string, w: string)
    requires AllSpace(w) && Lex(u + w).Some?
    ensures Lex(u) == Lex(u + w)
    decreases |u|
  {
    hide Munch, Lex;
    var s := u + w;
    if u == "" {
      assert s == w;
      LexOfSpace(w);
      LexOfNothing();
    } else if Space(u[0]) {
      assert s[0] == u[0] && s[1..] == u[1..] + w;
      LexSpace(s);
      LexSpace(u);
      TrimLex(u[1..], w);
    } else {
      assert s[0] == u[0];
      LexStep(s);
      LexStep(u);
      var n := Munch(s);
      TokenEndsInText(s);
      assert n <= |u|;
      var t := u[..n];
      assert s[..n] == t && s == t + (u[n..] + w) && u == t + u[n..] && s[n..] == u[n..] + w;
      MunchCut(t, u[n..] + w, u[n..]);
      TrimLex(u[n..], w);
    }
  }

  lemma LexOfSpace(w: string)
    requires AllSpace(w)
    ensures Lex(w) == Some([])
  {
    RunUnique(Space, w, |w|);
  }

  /** A token does not end in space. */
  lemma TokenEndsInText(s: string)
    requires Munch(s) > 0
    ensures !Space(s[Munch(s) - 1])
  {
    var n := Munch(s);
    if OperatorLength(s) == 2 {
      assert s[1] == s[..2][1];
    } else if OperatorLength(s) == 0 {
      if s[0] == '\'' {
        ClosesInQuote(s[1..]);
        assert s[n - 1] == s[1..][n - 2];
      } else if !NameStart(s[0]) {
        var d := Run(Digit, s);
        if n > d {
          assert s[n - 1] == s[d + 1..][n - d - 2];
        }
      }
    }
  }

  lemma {:induction false} ClosesInQuote(s: string)
    ensures ClosingLength(s) > 0 ==> s[ClosingLength(s) - 1] == '\''
    decreases |s|
  {
    var n := ClosingLength(s);
    if n > 0 {
      if s[0] != '\'' {
        ClosesInQuote(s[1..]);
      } else if |s| >= 2 && s[1] == '\'' {
        ClosesInQuote(s[2..]);
      }
    }
  }

  /** Stripping keeps the tokens. */
  lemma StripLex(s: string)
    requires Lex(s).Some?
    ensures Lex(Strip(s)) == Lex(s)
  {
    hide Munch, Lex, Run;
    var u := s[Run(Space, s)..];
    SkipSpace(s);
    var r := TrimRight(u);
    assert u == r + u[|r|..];
    TrimLex(r, u[|r|..]);
  }

  predicate Enclosed(term: string) {
    |term| >= 2 && term[0] == '(' && term[|term| - 1] == ')' && SplitTop(term[1..|term| - 1], "\0").Some?
  }

  /** The source's `strip_parentheses` from a stripped term on. */
  function StripPairs(term: string): string
    decreases |term|
  {
    if Enclosed(term) then StripPairs(Strip(term[1..|term| - 1])) else term
  }

  function StripParentheses(term: string): string {
    StripPairs(Strip(term))
  }

  method StripParenthesesLoop(s: string) returns (term: string)
    ensures term == StripParentheses(s)
  {
    term := Strip(s);
    while Enclosed(term)
      invariant StripPairs(term) == StripParentheses(s)
      decreases |term|
    {
      term := Strip(term[1..|term| - 1]);
    }
  }

  /** A last character that is a parenthesis is the last token. */
  lemma {:induction false} LexLastParen(x: string)
    requires Lex(x + ")").Some?
    ensures Lex(x).Some? && Lex(x + ")").value == Lex(x).value + [")"]
    decreases |x|
  {
    hide Munch, Lex;
    var s := x + ")";
    if x == "" {
      LexOfNothing();
      LexOnlyParen();
      assert s == ")";
    } else if Space(x[0]) {
      assert s[0] == x[0] && s[1..] == x[1..] + ")";
      LexSpace(s);
      LexSpace(x);
      LexLastParen(x[1..]);
    } else {
      assert s[0] == x[0];
      LexStep(s);
      LexStep(x);
      var n := Munch(s);
      TokenEndsBeforeParen(x);
      var t := x[..n];
      assert s[..n] == t && s == t + (x[n..] + ")") && x == t + x[n..] && s[n..] == x[n..] + ")";
      MunchCut(t, x[n..] + ")", x[n..]);
      LexLastParen(x[n..]);
      assert [t] + (Lex(x[n..]).value + [")"]) == [t] + Lex(x[n..]).value + [")"];
    }
  }

  lemma LexOnlyParen()
    ensures Lex(")") == Some([")"])
  {
    var s := ")";
    assert OperatorLength(s) == 1 && Munch(s) == 1 && s[..1] == s && s[1..] == "";
    LexStep(s);
    LexOfNothing();
    assert [")"] + [] == [")"];
  }

  lemma TokenEndsBeforeParen(x: string)
    requires x != "" && !Space(x[0]) && Munch(x + ")") > 0
    ensures Munch(x + ")") <= |x|
  {
    var s := x + ")";
    if Munch(s) > 1 {
      LongTokenEnd(s);
    }
    assert s[|s| - 1] == ')';
  }

  /** Only a one-character token ends in a parenthesis. */
  lemma LongTokenEnd(s: string)
    requires Munch(s) > 1
    ensures s[Munch(s) - 1] != ')'
  {
    var n := Munch(s);
    if OperatorLength(s) == 2 {
      assert s[1] == s[..2][1];
    } else if s[0] == '\'' {
      ClosesInQuote(s[1..]);
      assert s[n - 1] == s[1..][n - 2];
    } else if !NameStart(s[0]) {
      NumberIsPlain(s);
    }
  }

  /** Removing an enclosing pair of characters removes the first and the last token. */
  lemma LexEnclosed(term: string)
    requires |term| >= 2 && term[0] == '(' && term[|term| - 1] == ')' && Lex(term).Some?
    ensures var inner := term[1..|term| - 1];
            Lex(inner).Some? && Lex(term).value == ["("] + Lex(inner).value + [")"]
  {
    hide Lex, Munch;
    var x := term[1..|term| - 1];
    assert term == "(" + (x + ")");
    FirstParen(x + ")");
    LexLastParen(x);
    assert ["("] + (Lex(x).value + [")"]) == ["("] + Lex(x).value + [")"];
  }

  lemma FirstParen(y: string)
    ensures Lex("(" + y) == Behind(["("], Lex(y))
  {
    var s := "(" + y;
    if |s| >= 2 {
      assert s[..2][0] == '(';
    }
    assert Munch(s) == 1 && s[..1] == "(" && s[1..] == y;
    LexStep(s);
  }
}
