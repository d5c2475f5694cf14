/** The tokens of a workflow expression, and what a cut between two of them leaves of either side. */
module Lexing {
  import opened Bytes

  // ----- characters -----

  /** Python's `str.isspace`, which is also what `\s` matches. */
  predicate Space(c: char) {
    var i := c as int;
    9 <= i <= 13 || 28 <= i <= 32 || i == 0x85 || i == 0xA0 || i == 0x1680 || 0x2000 <= i <= 0x200A ||
    i == 0x2028 || i == 0x2029 || i == 0x202F || i == 0x205F || i == 0x3000
  }

  /** Python's word characters and decimal digits beyond ASCII. Nothing below depends on which they are. */
  const OTHER_WORDS: set<char>
  const OTHER_DIGITS: set<char>

  /** The letters beyond ASCII that a pattern's `i` or `s` matches where case is ignored. */
  const DOTTED_I := '\U{130}'
  const DOTLESS_I := '\U{131}'
  const LONG_S := '\U{17F}'

  predicate Folded(c: char) {
    c == DOTTED_I || c == DOTLESS_I || c == LONG_S
  }

  predicate Beyond(c: char) {
    c as int >= 128 && !Space(c)
  }

  predicate AsciiDigit(c: char) {
    '0' <= c <= '9'
  }

  /** `\d`. */
  predicate Digit(c: char) {
    AsciiDigit(c) || (Beyond(c) && c in OTHER_DIGITS)
  }

  predicate NameStart(c: char) {
    'a' <= c <= 'z' || 'A' <= c <= 'Z' || c == '_'
  }

  /** `\w`. */
  predicate Word(c: char) {
    NameStart(c) || AsciiDigit(c) || Folded(c) || (Beyond(c) && c in OTHER_WORDS)
  }

  predicate NameChar(c: char) {
    Word(c) || c == '.' || c == '-' || c == '*'
  }

  /** The length of the longest prefix whose characters all satisfy p. */
  function Run(p: char -> bool, s: string): (n: nat)
    ensures n <= |s| && (n == |s| || !p(s[n]))
    ensures forall i :: 0 <= i < n ==> p(s[i])
  {
    if s == "" || !p(s[0]) then 0 else 1 + Run(p, s[1..])
  }

  lemma RunUnique(p: char -> bool, s: string, n: nat)
    requires n <= |s| && (n == |s| || !p(s[n])) && forall i :: 0 <= i < n ==> p(s[i])
    ensures Run(p, s) == n
  {
  }

  predicate AllSpace(s: string) {
    forall i :: 0 <= i < |s| ==> Space(s[i])
  }

  // ----- one token -----

  const PAIRS: set<string> := {"==", "!=", "&&", "||", "<=", ">="}
  const SINGLES: set<char> := {'<', '>', '!', '(', ')', ','}

  function OperatorLength(s: string): (n: nat)
    ensures n <= |s|
  {
    if |s| >= 2 && s[..2] in PAIRS then 2
    else if |s| >= 1 && s[0] in SINGLES then 1
    else 0
  }

  /** The length of the rest of a quoted string up to and with its closing quote; 0 when nothing closes it.
      A doubled quote does not close. (Where nothing closes it the regular expression backtracks to an earlier
      doubled quote, and then fails on the quote left over, so the whole text has no tokens either way.) */
  function ClosingLength(s: string): (n: nat)
    ensures n <= |s|
  {
    if s == "" then 0
    else if s[0] != '\'' then
      var n := ClosingLength(s[1..]);
      if n == 0 then 0 else n + 1
    else if |s| >= 2 && s[1] == '\'' then
      var n := ClosingLength(s[2..]);
      if n == 0 then 0 else n + 2
    else 1
  }

  function QuotedLength(s: string): (n: nat)
    requires s != "" && s[0] == '\''
    ensures n <= |s|
  {
    var n := ClosingLength(s[1..]);
    if n == 0 then 0 else n + 1
  }

  function NumberLength(s: string): (n: nat)
    ensures n <= |s|
  {
    var d := Run(Digit, s);
    if d == 0 || d == |s| || s[d] != '.' then d
    else
      var f := Run(Digit, s[d + 1..]);
      if f == 0 then d else d + 1 + f
  }

  /** The length of the token at the front of s; 0 when there is none. */
  function Munch(s: string): (n: nat)
    ensures n <= |s|
  {
    if s == "" then 0
    else if OperatorLength(s) > 0 then OperatorLength(s)
    else if s[0] == '\'' then QuotedLength(s)
    else if NameStart(s[0]) then Run(NameChar, s)
    else NumberLength(s)
  }

  // ----- all tokens -----

  /** None where some text between two tokens is not one. */
  function Lex(s: string): Option<seq<string>>
    decreases |s|
  {
    var u := s[Run(Space, s)..];
    if u == "" then Some([])
    else
      var n := Munch(u);
      if n == 0 then None
      else
        var rest := Lex(u[n..]);
        if rest.None? then None else Some([u[..n]] + rest.value)
  }

  /** The source's list: empty for text that is not all tokens. */
  function Tokens(s: string): seq<string> {
    if Lex(s).Some? then Lex(s).value else []
  }

  lemma SkipSpace(s: string)
    ensures Lex(s[Run(Space, s)..]) == Lex(s)
  {
    hide Munch, Run, Space;
    var u := s[Run(Space, s)..];
    RunUnique(Space, u, 0);
    assert u[0..] == u;
  }

  function Behind(ts: seq<string>, rest: Option<seq<string>>): Option<seq<string>> {
    if rest.None? then None else Some(ts + rest.value)
  }

  lemma BehindBehind(ts: seq<string>, t: string, rest: Option<seq<string>>)
    ensures Behind(ts, Behind([t], rest)) == Behind(ts + [t], rest)
  {
    if rest.Some? {
      assert ts + ([t] + rest.value) == ts + [t] + rest.value;
    }
  }

  lemma LexStep(s: string)
    requires s != "" && !Space(s[0])
    ensures Munch(s) == 0 ==> Lex(s) == None
    ensures Munch(s) > 0 ==> Lex(s) == Behind([s[..Munch(s)]], Lex(s[Munch(s)..]))
  {
    hide Munch;
    RunUnique(Space, s, 0);
    assert s[0..] == s;
  }

  method Tokenize(s: string) returns (tokens: seq<string>)
    ensures tokens == Tokens(s)
  {
    hide Munch, Run, Lex;
    tokens := [];
    var position := 0;
    assert s[0..] == s && Lex(s) == Behind([], Lex(s)) by {
      assert Lex(s).Some? ==> [] + Lex(s).value == Lex(s).value;
    }
    while true
      invariant 0 <= position <= |s| && Lex(s) == Behind(tokens, Lex(s[position..]))
      decreases |s| - position
    {
      var w := Run(Space, s[position..]);
      assert s[position..][w..] == s[position + w..];
      SkipSpace(s[position..]);
      position := position + w;
      var rest := s[position..];
      if rest == "" {
        LexOfNothing();
        return;
      }
      LexStep(rest);
      var n := Munch(rest);
      if n == 0 {
        return [];
      }
      assert rest[..n] == s[position..position + n] && rest[n..] == s[position + n..];
      BehindBehind(tokens, rest[..n], Lex(rest[n..]));
      tokens := tokens + [rest[..n]];
      position := position + n;
    }
  }

  lemma LexOfNothing()
    ensures Lex("") == Some([])
  {
  }

  // ----- cutting text at a token boundary -----

  lemma OperatorCut(t: string, f: string, f': string)
    requires t != "" && f' <= f && OperatorLength(t + f) <= |t|
    ensures OperatorLength(t + f') == OperatorLength(t + f)
  {
    var a, b := t + f, t + f';
    assert a[0] == t[0] == b[0];
    if |b| >= 2 {
      assert a[..2] == b[..2];
    }
  }

  lemma {:induction false} ClosingCut(t: string, f: string, f': string)
    requires f' <= f && ClosingLength(t + f) == |t| > 0
    ensures ClosingLength(t + f') == |t|
    decreases |t|
  {
    var a, b := t + f, t + f';
    assert a[0] == t[0] == b[0];
    if t[0] != '\'' {
      assert a[1..] == t[1..] + f && b[1..] == t[1..] + f';
      ClosingCut(t[1..], f, f');
    } else if |a| >= 2 && a[1] == '\'' {
      assert |t| >= 2 && a[2..] == t[2..] + f && b[2..] == t[2..] + f';
      ClosingCut(t[2..], f, f');
    }
  }

  lemma RunCut(p: char -> bool, t: string, f: string, f': string)
    requires f' <= f && Run(p, t + f) == |t|
    ensures Run(p, t + f') == |t|
  {
    var a, b := t + f, t + f';
    assert forall i :: 0 <= i < |t| ==> p(a[i]) && b[i] == a[i];
    if f' != "" {
      assert a[|t|] == b[|t|];
    }
    RunUnique(p, b, |t|);
  }

  lemma NumberCut(t: string, f: string, f': string)
    requires f' <= f && NumberLength(t + f) == |t| > 0
    ensures NumberLength(t + f') == |t|
  {
    hide Digit;
    var a, b := t + f, t + f';
    var d := Run(Digit, a);
    assert forall i :: 0 <= i < |b| ==> a[i] == b[i];
    RunUnique(Digit, b, if d <= |t| then d else |t|);
    if d < |t| {
      var u := t[d + 1..];
      assert a[d + 1..] == u + f && b[d + 1..] == u + f';
      RunCut(Digit, u, f, f');
    } else if d < |b| && b[d] == '.' {
      var x, y := a[d + 1..], b[d + 1..];
      assert Run(Digit, x) == 0;
      RunUnique(Digit, y, 0);
    }
  }

  /** Cutting the text after a token leaves the token. */
  lemma MunchCut(t: string, f: string, f': string)
    requires f' <= f && Munch(t + f) == |t| > 0
    ensures Munch(t + f') == |t|
  {
    var a, b := t + f, t + f';
    assert a[0] == t[0] == b[0];
    OperatorCut(t, f, f');
    if OperatorLength(a) == 0 {
      if t[0] == '\'' {
        assert a[1..] == t[1..] + f && b[1..] == t[1..] + f';
        ClosingCut(t[1..], f, f');
      } else if NameStart(t[0]) {
        RunCut(NameChar, t, f, f');
      } else {
        NumberCut(t, f, f');
      }
    }
  }

  /** Reading x + y, the tokens read within x are exactly ts, and nothing is left of x but space. */
  ghost predicate Lexes(x: string, ts: seq<string>, y: string)
    decreases |ts|
  {
    if ts == [] then AllSpace(x)
    else
      var u := x[Run(Space, x)..];
      var n := |ts[0]|;
      0 < n <= |u| && u[..n] == ts[0] && Munch(u + y) == n && Lexes(u[n..], ts[1..], y)
  }

  lemma {:induction false} LexesCut(x: string, ts: seq<string>, y: string, y': string)
    requires Lexes(x, ts, y) && y' <= y
    ensures Lexes(x, ts, y')
    decreases |ts|
  {
    hide Munch, Run, Space;
    if ts != [] {
      var u := x[Run(Space, x)..];
      var n := |ts[0]|;
      assert u + y == ts[0] + (u[n..] + y) && u + y' == ts[0] + (u[n..] + y');
      MunchCut(ts[0], u[n..] + y, u[n..] + y');
      LexesCut(u[n..], ts[1..], y, y');
    }
  }

  lemma {:induction false} LexesThenLex(x: string, ts: seq<string>)
    requires Lexes(x, ts, "")
    ensures Lex(x) == Some(ts)
    decreases |ts|
  {
    hide Munch, Run, Space, Lex;
    var u := x[Run(Space, x)..];
    SkipSpace(x);
    if ts == [] {
      RunUnique(Space, x, |x|);
      LexOfNothing();
    } else {
      assert u + "" == u;
      LexStep(u);
      LexesThenLex(u[|ts[0]|..], ts[1..]);
      assert [ts[0]] + ts[1..] == ts;
    }
  }

  lemma {:induction false} LexThenLexes(x: string)
    requires Lex(x).Some?
    ensures Lexes(x, Lex(x).value, "")
    decreases |x|
  {
    hide Munch, Run, Space;
    var u := x[Run(Space, x)..];
    if u != "" {
      var n := Munch(u);
      LexThenLexes(u[n..]);
      var ts := Lex(x).value;
      assert u + "" == u && ts == [u[..n]] + Lex(u[n..]).value;
      assert ts[1..] == Lex(u[n..]).value;
    } else {
      assert AllSpace(x);
    }
  }

  /** Space at the cut may go to either side. */
  lemma {:induction false} LexesSpace(x: string, ts: seq<string>, w: string, y: string)
    requires Lexes(x, ts, w + y) && AllSpace(w)
    ensures Lexes(x + w, ts, y)
    decreases |ts|
  {
    hide Munch, Run;
    if ts != [] {
      var k, n := Run(Space, x), |ts[0]|;
      var u := x[k..];
      RunUnique(Space, x + w, k);
      assert (x + w)[k..] == u + w && u + w + y == u + (w + y);
      assert (u + w)[..n] == u[..n] && (u + w)[n..] == u[n..] + w;
      LexesSpace(u[n..], ts[1..], w, y);
    }
  }

  /** The next token may move from the text after the cut to the text before it. */
  lemma {:induction false} LexesSnoc(x: string, ts: seq<string>, t: string, y: string)
    requires Lexes(x, ts, t + y) && t != "" && !Space(t[0]) && Munch(t + y) == |t|
    ensures Lexes(x + t, ts + [t], y)
    decreases |ts|
  {
    hide Munch, Run, Lexes, Space;
    var k := Run(Space, x);
    RunUnique(Space, x + t, k);
    var u := x[k..];
    assert (x + t)[k..] == u + t;
    LexesUncons(x, ts, t + y);
    if ts == [] {
      assert u + t == t;
      LexesOne(x + t, t, y);
      assert ts + [t] == [t];
    } else {
      var n := |ts[0]|;
      assert u + t + y == u + (t + y);
      assert (u + t)[..n] == u[..n] && (u + t)[n..] == u[n..] + t;
      LexesSnoc(u[n..], ts[1..], t, y);
      LexesCons(x + t, ts[0], ts[1..] + [t], y);
      assert ts + [t] == [ts[0]] + (ts[1..] + [t]);
    }
  }

  lemma LexesUncons(x: string, ts: seq<string>, y: string)
    requires Lexes(x, ts, y)
    ensures var u := x[Run(Space, x)..];
            if ts == [] then u == ""
            else ts[0] != "" && ts[0] <= u && Munch(u + y) == |ts[0]| && Lexes(u[|ts[0]|..], ts[1..], y)
  {
    hide Munch, Run;
    if ts == [] {
      RunUnique(Space, x, |x|);
    }
  }

  lemma LexesOne(x: string, t: string, y: string)
    requires t != "" && x[Run(Space, x)..] == t && Munch(t + y) == |t|
    ensures Lexes(x, [t], y)
  {
    hide Munch, Run;
  }

  lemma LexesCons(x: string, t: string, ts: seq<string>, y: string)
    requires var u := x[Run(Space, x)..];
             t != "" && t <= u && Munch(u + y) == |t| && Lexes(u[|t|..], ts, y)
    ensures Lexes(x, [t] + ts, y)
  {
    hide Munch, Run;
    assert ([t] + ts)[1..] == ts;
  }
}
