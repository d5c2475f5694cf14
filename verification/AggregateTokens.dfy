/** The tokens of a condition as the merge gate reads them: white space is collapsed first, and only literals notice. */
module AggregateTokens {
  import opened Bytes
  import opened Lexing
  import opened Aggregate
  import opened AggregateGrammar

  // ----- from text to tokens -----

  predicate NonSpace(c: char) {
    !Space(c)
  }

  predicate NonQuote(c: char) {
    c != '\''
  }

  predicate OperandChar(c: char) {
    Word(c) || c == '.' || c == '-'
  }

  /** `" ".join(s.split())`. */
  function Collapse(s: string): string
    decreases |s|
  {
    var u := s[Lexing.Run(Space, s)..];
    if u == "" then ""
    else
      var n := Lexing.Run(NonSpace, u);
      Spaced(u[..n], Collapse(u[n..]))
  }

  function Spaced(word: string, rest: string): string {
    if rest == "" then word else word + " " + rest
  }

  /** The length of the token at the front of s; 0 when there is none. */
  function TokenLength(s: string): (n: nat)
    ensures n <= |s|
  {
    if s == "" then 0
    else if |s| >= 2 && s[..2] in {"&&", "||", "==", "!="} then 2
    else if s[0] == '(' || s[0] == ')' then 1
    else if s[0] == '\'' then
      var n := Lexing.Run(NonQuote, s[1..]);
      if n == |s| - 1 then 0 else n + 2
    else if NameStart(s[0]) then Lexing.Run(OperandChar, s)
    else 0
  }

  /** None is the exception Unreadable. */
  function ReadText(s: string): Option<seq<string>>
    decreases |s|
  {
    var u := s[Lexing.Run(Space, s)..];
    if u == "" then Some([])
    else
      var n := TokenLength(u);
      if n == 0 then None else Behind([u[..n]], ReadText(u[n..]))
  }

  lemma ReadStep(s: string)
    requires s != "" && !Space(s[0])
    ensures ReadText(s) == if TokenLength(s) == 0 then None else Behind([s[..TokenLength(s)]], ReadText(s[TokenLength(s)..]))
  {
    hide TokenLength;
    RunUnique(Space, s, 0);
    assert s[0..] == s;
  }

  lemma ReadSkipsSpace(s: string)
    ensures ReadText(s[Lexing.Run(Space, s)..]) == ReadText(s)
  {
    hide TokenLength, Lexing.Run, Space;
    var u := s[Lexing.Run(Space, s)..];
    RunUnique(Space, u, 0);
    assert u[0..] == u;
  }

  method TokenizeText(s: string) returns (tokens: Option<seq<string>>)
    ensures tokens == ReadText(s)
  {
    hide TokenLength, ReadText;
    var found: seq<string> := [];
    var position := 0;
    assert s[0..] == s && ReadText(s) == Behind([], ReadText(s)) by {
      assert ReadText(s).Some? ==> [] + ReadText(s).value == ReadText(s).value;
    }
    while true
      invariant 0 <= position <= |s| && ReadText(s) == Behind(found, ReadText(s[position..]))
      decreases |s| - position
    {
      var w := Lexing.Run(Space, s[position..]);
      assert s[position..][w..] == s[position + w..];
      ReadSkipsSpace(s[position..]);
      position := position + w;
      var rest := s[position..];
      if rest == "" {
        ReadNothing();
        assert found + [] == found;
        return Some(found);
      }
      ReadStep(rest);
      var n := TokenLength(rest);
      if n == 0 {
        return None;
      }
      assert rest[n..] == s[position + n..];
      BehindBehind(found, rest[..n], ReadText(rest[n..]));
      found := found + [rest[..n]];
      position := position + n;
    }
  }

  lemma ReadNothing()
    ensures ReadText("") == Some([])
  {
  }

  // ----- what the tokens are -----

  lemma TokenIsToken(s: string)
    requires TokenLength(s) > 0
    ensures IsToken(s[..TokenLength(s)])
  {
    var t := s[..TokenLength(s)];
    if |s| >= 2 && s[..2] in {"&&", "||", "==", "!="} {
    } else if s[0] == '(' || s[0] == ')' {
      assert t == [s[0]];
    } else if s[0] == '\'' {
      var n := Lexing.Run(NonQuote, s[1..]);
      assert forall i :: 1 <= i < |t| - 1 ==> t[i] == s[1..][i - 1];
      assert t[|t| - 1] == s[1..][n];
    }
  }

  lemma {:induction false} ReadTokens(s: string)
    ensures ReadText(s).Some? ==> forall i :: 0 <= i < |ReadText(s).value| ==> IsToken(ReadText(s).value[i])
    decreases |s|
  {
    hide TokenLength, IsToken;
    var u := s[Lexing.Run(Space, s)..];
    if u != "" && TokenLength(u) > 0 {
      TokenIsToken(u);
      ReadTokens(u[TokenLength(u)..]);
    }
  }

  // ----- collapsing white space keeps tokens that hold none -----

  /** What collapsing leaves after a stretch without space. */
  function Glued(y: string): string {
    var rest := Collapse(y);
    if y != "" && Space(y[0]) && rest != "" then " " + rest else rest
  }

  lemma CollapseSkipsSpace(s: string)
    ensures Collapse(s[Lexing.Run(Space, s)..]) == Collapse(s)
  {
    var u := s[Lexing.Run(Space, s)..];
    RunUnique(Space, u, 0);
    assert u[0..] == u;
  }

  lemma CollapseStep(u: string)
    requires u != "" && !Space(u[0])
    ensures var n := Lexing.Run(NonSpace, u);
            Collapse(u) == Spaced(u[..n], Collapse(u[n..]))
  {
    RunUnique(Space, u, 0);
    assert u[0..] == u;
  }

  lemma CollapseFront(t: string, y: string)
    requires t != "" && forall i :: 0 <= i < |t| ==> !Space(t[i])
    ensures Collapse(t + y) == t + Glued(y)
  {
    hide Space, Collapse, Lexing.Run, Spaced;
    var u, m := t + y, Lexing.Run(NonSpace, y);
    WordOf(t, y);
    CollapseStep(u);
    assert u[..|t| + m] == t + y[..m] && u[|t| + m..] == y[m..];
    if m > 0 {
      CollapseStep(y);
      SpacedFront(t, y[..m], Collapse(y[m..]));
    } else {
      assert y[0..] == y && t + y[..0] == t;
      CollapseNothing();
      SpacedFront(t, "", Collapse(y));
    }
  }

  lemma WordOf(t: string, y: string)
    requires forall i :: 0 <= i < |t| ==> !Space(t[i])
    ensures Lexing.Run(NonSpace, t + y) == |t| + Lexing.Run(NonSpace, y)
  {
    hide Space;
    var u, m := t + y, Lexing.Run(NonSpace, y);
    assert forall i :: 0 <= i < |y| ==> u[|t| + i] == y[i];
    RunUnique(NonSpace, u, |t| + m);
  }

  lemma SpacedFront(t: string, w: string, rest: string)
    ensures Spaced(t + w, rest) == t + Spaced(w, rest)
    ensures Spaced(t, rest) == t + if rest == "" then "" else " " + rest
  {
    assert t + w + " " + rest == t + (w + " " + rest);
  }

  lemma CollapseNothing()
    ensures Collapse("") == ""
  {
  }

  lemma CollapseStarts(s: string)
    ensures var u := s[Lexing.Run(Space, s)..];
            if u == "" then Collapse(s) == "" else Collapse(s) != "" && Collapse(s)[0] == u[0]
  {
  }

  /** Two texts that a token before them cannot tell apart. */
  predicate Alike(f: string, f': string) {
    if f == "" || Space(f[0]) then f' == "" || Space(f'[0]) else f' != "" && f'[0] == f[0]
  }

  lemma GluedAlike(y: string)
    ensures Alike(y, Glued(y))
  {
    CollapseStarts(y);
    if y != "" && !Space(y[0]) {
      RunUnique(Space, y, 0);
      assert y[0..] == y;
    }
  }

  lemma ReadGlued(y: string)
    ensures ReadText(Glued(y)) == ReadText(Collapse(y))
  {
    var rest := Collapse(y);
    if Glued(y) != rest {
      CollapseStarts(y);
      var g := " " + rest;
      RunUnique(Space, g, 1);
      assert g[1..] == rest;
      ReadSkipsSpace(g);
    }
  }

  lemma TokenStays(t: string, f: string, f': string)
    requires t != "" && TokenLength(t + f) == |t| && Alike(f, f')
    ensures TokenLength(t + f') == |t|
  {
    hide Space;
    var a, b := t + f, t + f';
    assert a[0] == t[0] == b[0] && forall i :: 0 <= i < |t| ==> a[i] == b[i];
    if |a| >= 2 && a[..2] in {"&&", "||", "==", "!="} {
      assert b[..2] == a[..2];
    } else if t[0] == '(' || t[0] == ')' {
      NoPairStarts(b);
    } else if t[0] == '\'' {
      NoPairStarts(b);
      assert a[1..][|t| - 2] == a[|t| - 1] && b[1..][|t| - 2] == b[|t| - 1];
      assert forall i :: 0 <= i < |t| - 2 ==> b[1..][i] == b[i + 1] && a[1..][i] == a[i + 1];
      RunUnique(NonQuote, b[1..], |t| - 2);
    } else {
      NoPairStarts(b);
      assert f != "" ==> a[|t|] == f[0];
      assert f' != "" ==> b[|t|] == f'[0];
      SpaceIsNoOperand(f');
      RunUnique(OperandChar, b, |t|);
    }
  }

  lemma NoPairStarts(s: string)
    ensures s != "" && (s[0] == '(' || s[0] == ')' || s[0] == '\'' || NameStart(s[0])) ==>
              !(|s| >= 2 && s[..2] in {"&&", "||", "==", "!="})
  {
    if |s| >= 2 {
      assert s[..2][0] == s[0];
    }
  }

  lemma SpaceIsNoOperand(f: string)
    ensures f != "" && Space(f[0]) ==> !OperandChar(f[0])
  {
  }

  predicate SpaceFree(t: string) {
    forall i :: 0 <= i < |t| ==> !Space(t[i])
  }

  /** Collapsing a text whose front neither starts nor ends in space collapses the front by itself. */
  lemma {:induction false} CollapseJoin(t: string, y: string)
    requires t != "" && !Space(t[0]) && !Space(t[|t| - 1])
    ensures Collapse(t + y) == Collapse(t) + Glued(y)
    decreases |t|
  {
    hide Collapse, Space, Glued, Lexing.Run;
    var n := Lexing.Run(NonSpace, t);
    var w := t[..n];
    if n == |t| {
      assert w == t && t + "" == t;
      CollapseFront(t, y);
      CollapseFront(t, "");
      GluedNothing();
      assert t + "" == t;
    } else {
      var m := Lexing.Run(Space, t[n..]);
      var gap, rest := t[n..][..m], t[n..][m..];
      InnerGap(t, n, m);
      assert t == w + gap + rest && t + y == w + gap + (rest + y);
      CollapseWord(w, gap, rest);
      CollapseWord(w, gap, rest + y);
      CollapseJoin(rest, y);
      assert w + " " + (Collapse(rest) + Glued(y)) == w + " " + Collapse(rest) + Glued(y);
    }
  }

  lemma InnerGap(t: string, n: nat, m: nat)
    requires t != "" && !Space(t[0]) && !Space(t[|t| - 1]) && n == Lexing.Run(NonSpace, t) < |t| && m == Lexing.Run(Space, t[n..])
    ensures 0 < n && SpaceFree(t[..n]) && 0 < m < |t| - n && AllSpace(t[n..][..m])
    ensures var rest := t[n..][m..]; rest != "" && !Space(rest[0]) && !Space(rest[|rest| - 1])
  {
    hide Space;
    var x := t[n..];
    assert x[0] == t[n] && x[|x| - 1] == t[|t| - 1];
  }

  lemma GluedNothing()
    ensures Glued("") == ""
  {
  }

  lemma CollapseWord(w: string, gap: string, rest: string)
    requires w != "" && SpaceFree(w) && gap != "" && AllSpace(gap) && rest != "" && !Space(rest[0])
    ensures Collapse(w + gap + rest) == w + " " + Collapse(rest)
  {
    hide Collapse, Space;
    var y := gap + rest;
    assert w + gap + rest == w + y;
    CollapseFront(w, y);
    RunUnique(Space, y, |gap|);
    assert y[|gap|..] == rest;
    CollapseSkipsSpace(y);
    CollapseStarts(rest);
    RunUnique(Space, rest, 0);
    assert rest[0..] == rest;
  }

  // ----- what collapsing does to one token -----

  predicate NoQuote(s: string) {
    forall i :: 0 <= i < |s| ==> s[i] != '\''
  }

  lemma {:induction false} CollapseNoQuote(s: string)
    requires NoQuote(s)
    ensures NoQuote(Collapse(s))
    decreases |s|
  {
    hide Collapse, Space, Lexing.Run, NoQuote;
    var k := Lexing.Run(Space, s);
    var u := s[k..];
    CollapseSkipsSpace(s);
    if u == "" {
      CollapseNothing();
      NoQuoteParts("", "");
    } else {
      var n := Lexing.Run(NonSpace, u);
      NoQuoteSlices(s, k, n);
      CollapseNoQuote(u[n..]);
      CollapseStep(u);
      NoQuoteParts(u[..n], Collapse(u[n..]));
      assert Spaced(u[..n], Collapse(u[n..])) == u[..n] || Spaced(u[..n], Collapse(u[n..])) == u[..n] + (" " + Collapse(u[n..]));
    }
  }

  lemma GluedNoQuote(y: string)
    requires NoQuote(y)
    ensures NoQuote(Glued(y))
  {
    hide Collapse;
    CollapseNoQuote(y);
  }

  /** Up to a closing quote, collapsing brings in no other. */
  lemma {:induction false} CollapseToQuote(x: string) returns (z: string)
    requires NoQuote(x)
    ensures Collapse(x + "'") == z + "'" && NoQuote(z)
    decreases |x|
  {
    hide Collapse, Space, Lexing.Run, NoQuote;
    var k := Lexing.Run(Space, x);
    var u := x[k..];
    QuoteAlone();
    SpaceBefore(x, "'");
    assert (x + "'")[k..] == u + "'";
    CollapseSkipsSpace(x + "'");
    if u == "" {
      z := "";
      NoQuoteParts("", "");
      assert u + "'" == "'" && z + "'" == "'";
    } else {
      var n := Lexing.Run(NonSpace, u);
      var w, y := u[..n], u[n..];
      NoQuoteSlices(x, k, n);
      if n == |u| {
        assert w == u && SpaceFree(u);
        CollapseFront(u, "'");
        z := u;
      } else {
        assert SpaceFree(w) && u + "'" == w + (y + "'") && Space(y[0]) && y[0] == (y + "'")[0];
        CollapseFront(w, y + "'");
        var z' := CollapseToQuote(y);
        z := w + (" " + z');
        NoQuoteParts(w, z');
        assert w + (" " + (z' + "'")) == z + "'";
      }
    }
  }

  lemma QuoteAlone()
    ensures !Space('\'') && Collapse("'") == "'" && Glued("'") == "'"
  {
    var q := "'";
    RunUnique(Space, q, 0);
    RunUnique(NonSpace, q, 1);
    assert q[0..] == q && q[..1] == q && q[1..] == "";
    CollapseNothing();
  }

  lemma SpaceBefore(x: string, y: string)
    requires y != "" && !Space(y[0])
    ensures Lexing.Run(Space, x + y) == Lexing.Run(Space, x)
  {
    hide Space;
    RunUnique(Space, x + y, Lexing.Run(Space, x));
  }

  lemma NoQuoteSlices(x: string, k: nat, n: nat)
    requires NoQuote(x) && k + n <= |x|
    ensures NoQuote(x[k..]) && NoQuote(x[k..][..n]) && NoQuote(x[k..][n..])
  {
  }

  lemma NoQuoteParts(a: string, b: string)
    ensures NoQuote("") && (NoQuote(a) && NoQuote(b) ==> NoQuote(a + (" " + b)) && NoQuote(" " + b))
  {
  }

  /** A literal collapses to a literal. */
  lemma CollapseLiteral(t: string)
    requires IsQuoted(t)
    ensures IsQuoted(Collapse(t))
  {
    hide Collapse, Space;
    var x := t[1..|t| - 1];
    QuoteAlone();
    assert t == "'" + (x + "'") && NoQuote(x);
    CollapseFront("'", x + "'");
    var z := CollapseToQuote(x);
    NoQuoteParts("", z);
    var g := Glued(x + "'");
    assert g == z + "'" || g == (" " + z) + "'";
    QuotedShape(z);
    QuotedShape(" " + z);
    assert "'" + g == "'" + z + "'" || "'" + g == "'" + (" " + z) + "'";
  }

  lemma QuotedShape(z: string)
    requires NoQuote(z)
    ensures IsQuoted("'" + z + "'")
  {
    var t := "'" + z + "'";
    assert forall i :: 1 <= i < |t| - 1 ==> t[i] == z[i - 1];
  }

  lemma LiteralLength(t: string, f: string)
    requires IsQuoted(t)
    ensures TokenLength(t + f) == |t|
  {
    var s := t + f;
    NoPairStarts(s);
    assert s[0] == '\'' && s[1..][|t| - 2] == t[|t| - 1] && forall i :: 0 <= i < |t| - 2 ==> s[1..][i] == t[i + 1];
    RunUnique(NonQuote, s[1..], |t| - 2);
  }

  /** Collapsed, a token at the front of a text is the token at the front of the collapsed text. */
  lemma CollapseToken(u: string)
    requires TokenLength(u) > 0 && !Space(u[0])
    ensures var t, y := u[..TokenLength(u)], u[TokenLength(u)..];
            Collapse(t) != "" && Collapse(u) == Collapse(t) + Glued(y) && TokenLength(Collapse(u)) == |Collapse(t)|
    ensures !IsQuoted(u[..TokenLength(u)]) ==> Collapse(u[..TokenLength(u)]) == u[..TokenLength(u)]
  {
    hide Collapse, Space, Glued, TokenLength, Alike, IsQuoted;
    var t, y := u[..TokenLength(u)], u[TokenLength(u)..];
    assert u == t + y;
    TokenEnds(u);
    CollapseJoin(t, y);
    if IsQuoted(t) {
      CollapseLiteral(t);
      LiteralLength(Collapse(t), Glued(y));
      QuotedIsText(Collapse(t));
    } else {
      CollapseFront(t, "");
      GluedNothing();
      assert t + "" == t;
      GluedAlike(y);
      TokenStays(t, y, Glued(y));
    }
  }

  lemma QuotedIsText(t: string)
    requires IsQuoted(t)
    ensures t != ""
  {
  }

  /** A token ends in no space, and holds none unless it is a literal. */
  lemma TokenEnds(u: string)
    requires TokenLength(u) > 0
    ensures var t := u[..TokenLength(u)]; !Space(t[|t| - 1]) && (IsQuoted(t) || SpaceFree(t))
  {
    hide Space;
    var t := u[..TokenLength(u)];
    TokenIsToken(u);
    QuoteAlone();
    OperatorsSpaceFree();
    if NameStart(t[0]) {
      NoPairStarts(u);
      assert forall i :: 0 <= i < |t| ==> OperandChar(t[i]);
      OperandSpaceFree(t);
    }
  }

  lemma OperatorsSpaceFree()
    ensures forall t :: t in OPERATORS ==> t != "" && SpaceFree(t)
  {
  }

  lemma OperandSpaceFree(t: string)
    requires forall i :: 0 <= i < |t| ==> OperandChar(t[i])
    ensures SpaceFree(t)
  {
  }

  /** Text that starts with no token does not start with one when collapsed. */
  lemma CollapseNoToken(u: string)
    requires u != "" && !Space(u[0]) && TokenLength(u) == 0
    ensures TokenLength(Collapse(u)) == 0
  {
    hide Collapse, Space, Glued;
    var y := u[1..];
    var c := Collapse(u);
    assert u == [u[0]] + y;
    CollapseFront([u[0]], y);
    GluedStarts(y);
    assert c == [u[0]] + Glued(y);
    PairsAlike(u, c);
    FirstIsToken(u);
    if u[0] == '\'' {
      assert c[1..] == Glued(y);
      AllNonQuote(y);
      GluedNoQuote(y);
      RunUnique(NonQuote, Glued(y), |Glued(y)|);
    }
  }

  lemma PairsAlike(u: string, c: string)
    requires |c| >= 2 ==> |u| >= 2 && c[0] == u[0] && (c[1] == ' ' || c[1] == u[1])
    ensures |c| >= 2 && c[..2] in {"&&", "||", "==", "!="} ==> u[..2] == c[..2]
  {
    if |c| >= 2 && c[1] == u[1] {
      assert u[..2] == c[..2];
    }
    assert |c| >= 2 ==> c[..2][1] == c[1];
  }

  lemma FirstIsToken(u: string)
    ensures u != "" && (u[0] == '(' || u[0] == ')' || NameStart(u[0])) ==> TokenLength(u) > 0
  {
    if u != "" && NameStart(u[0]) {
      assert OperandChar(u[0]);
    }
  }

  lemma AllNonQuote(y: string)
    requires Lexing.Run(NonQuote, y) == |y|
    ensures NoQuote(y)
  {
  }

  lemma GluedStarts(y: string)
    ensures var g := Glued(y); g != "" ==> y != "" && (g[0] == ' ' || g[0] == y[0])
  {
    hide Space;
    CollapseStarts(y);
    if y != "" && !Space(y[0]) {
      RunUnique(Space, y, 0);
      assert y[0..] == y;
    }
  }

  // ----- collapsing a text collapses its tokens -----

  function CollapseAll(ts: seq<string>): (r: seq<string>)
    ensures |r| == |ts| && forall i :: 0 <= i < |ts| ==> r[i] == Collapse(ts[i])
  {
    if ts == [] then [] else [Collapse(ts[0])] + CollapseAll(ts[1..])
  }

  /** Collapsing a text squeezes the white space inside its literals and changes no token otherwise; and one text is
      readable exactly when the other is. */
  lemma {:induction false} ReadCollapsed(s: string)
    ensures ReadText(Collapse(s)) ==
            if ReadText(s).None? then None else Some(CollapseAll(ReadText(s).value))
    decreases |s|
  {
    hide TokenLength, ReadText, Collapse, Space, Glued, IsQuoted;
    var u := s[Lexing.Run(Space, s)..];
    CollapseSkipsSpace(s);
    ReadSkipsSpace(s);
    CollapseStarts(s);
    if u == "" {
      ReadNothing();
    } else {
      var c := Collapse(u);
      ReadStep(c);
      ReadStep(u);
      if TokenLength(u) == 0 {
        CollapseNoToken(u);
      } else {
        var t, y := u[..TokenLength(u)], u[TokenLength(u)..];
        CollapseToken(u);
        assert c[..|Collapse(t)|] == Collapse(t) && c[|Collapse(t)|..] == Glued(y);
        ReadGlued(y);
        ReadCollapsed(y);
        CollapseCons(t, ReadText(y));
      }
    }
  }

  lemma CollapseCons(t: string, rest: Option<seq<string>>)
    ensures Behind([Collapse(t)], if rest.None? then None else Some(CollapseAll(rest.value)))
         == if Behind([t], rest).None? then None else Some(CollapseAll(Behind([t], rest).value))
  {
    hide Collapse;
    if rest.Some? {
      assert ([t] + rest.value)[1..] == rest.value;
    }
  }

  /** A text and its collapsed form have the same tokens exactly when each literal is collapsed already. */
  lemma SameTokensIff(s: string)
    requires ReadText(s).Some?
    ensures ReadText(Collapse(s)) == ReadText(s) <==>
            forall i :: 0 <= i < |ReadText(s).value| && IsQuoted(ReadText(s).value[i]) ==> IsCollapsed(ReadText(s).value[i])
  {
    hide ReadText, Collapse, IsQuoted;
    var ts := ReadText(s).value;
    ReadCollapsed(s);
    forall i | 0 <= i < |ts| && !IsQuoted(ts[i])
      ensures Collapse(ts[i]) == ts[i]
    {
      ReadWords(s, i);
    }
    assert CollapseAll(ts) == ts <==> forall i :: 0 <= i < |ts| ==> IsCollapsed(ts[i]) by {
      if forall i :: 0 <= i < |ts| ==> IsCollapsed(ts[i]) {
        assert CollapseAll(ts) == ts;
      } else {
        var i :| 0 <= i < |ts| && !IsCollapsed(ts[i]);
        assert CollapseAll(ts)[i] != ts[i];
      }
    }
  }

  /** No white space but single blanks inside. */
  predicate IsCollapsed(t: string) {
    Collapse(t) == t
  }

  lemma {:induction false} ReadWords(s: string, i: nat)
    requires ReadText(s).Some? && i < |ReadText(s).value| && !IsQuoted(ReadText(s).value[i])
    ensures Collapse(ReadText(s).value[i]) == ReadText(s).value[i]
    decreases |s|
  {
    hide TokenLength, Collapse, Space, IsQuoted;
    var u := s[Lexing.Run(Space, s)..];
    var n := TokenLength(u);
    if i == 0 {
      CollapseToken(u);
    } else {
      ReadWords(u[n..], i - 1);
    }
  }
}
