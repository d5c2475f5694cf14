/** Workflow expressions: their grammar, and the evaluator on three values. */
module Expressions {
  import opened Bytes
  import opened Lexing

  // ----- values -----

  datatype Value = Unknown | Bool(b: bool) | Text(s: string) | Number(repr: string, zero: bool)

  type Context = map<string, Value>

  /** Python's lower case of the other characters beyond ASCII. Nothing below depends on what it is. */
  const OTHER_LOWER: map<char, string>

  function LowerChar(c: char): string {
    if 'A' <= c <= 'Z' then [(c as int + 32) as char]
    else if c == DOTTED_I then "i\U{307}"
    else if c as int < 128 || Folded(c) || c !in OTHER_LOWER then [c]
    else OTHER_LOWER[c]
  }

  /** `str.lower`. */
  function Lower(s: string): string {
    if s == "" then "" else LowerChar(s[0]) + Lower(s[1..])
  }

  lemma {:induction false} LowerConcat(a: string, b: string)
    ensures Lower(a + b) == Lower(a) + Lower(b)
  {
    if a == "" {
      assert a + b == b;
    } else {
      assert (a + b)[1..] == a[1..] + b;
      LowerConcat(a[1..], b);
    }
  }

  /** `str(value).lower()`. */
  function Shown(v: Value): string
    requires !v.Unknown?
  {
    match v
    case Bool(b) => if b then "true" else "false"
    case Text(s) => Lower(s)
    case Number(repr, _) => Lower(repr)
  }

  function Truthy(v: Value): (r: Value)
    ensures r.Unknown? || r.Bool?
  {
    match v
    case Unknown => Unknown
    case Bool(b) => v
    case Text(s) => Bool(s != "")
    case Number(_, zero) => Bool(!zero)
  }

  function NotValue(v: Value): Value {
    var t := Truthy(v);
    if t.Unknown? then Unknown else Bool(!t.b)
  }

  const COMPARISONS: set<string> := {"==", "!=", "<", ">", "<=", ">="}

  function CompareValues(op: string, left: Value, right: Value): Value {
    if left.Unknown? || right.Unknown? || (op != "==" && op != "!=") then Unknown
    else Bool((Shown(left) == Shown(right)) == (op == "=="))
  }

  function AndValues(left: Value, right: Value): Value {
    var lt, rt := Truthy(left), Truthy(right);
    if lt == Bool(false) || rt == Bool(false) then Bool(false)
    else if lt.Unknown? || rt.Unknown? then Unknown
    else right
  }

  function OrValues(left: Value, right: Value): Value {
    var lt, rt := Truthy(left), Truthy(right);
    if lt == Bool(true) then left
    else if rt == Bool(true) then right
    else if lt.Unknown? || rt.Unknown? then Unknown
    else right
  }

  // ----- literal tokens -----

  predicate IsNumber(t: string) {
    t != "" && NumberLength(t) == |t|
  }

  /** `replace("''", "'")`. */
  function Unescape(s: string): string {
    if s == "" then ""
    else if |s| >= 2 && s[0] == '\'' && s[1] == '\'' then "'" + Unescape(s[2..])
    else [s[0]] + Unescape(s[1..])
  }

  function Escape(s: string): string {
    if s == "" then "" else (if s[0] == '\'' then "''" else [s[0]]) + Escape(s[1..])
  }

  lemma {:induction false} UnescapeEscape(s: string)
    ensures Unescape(Escape(s)) == s
  {
    if s != "" {
      UnescapeEscape(s[1..]);
      var rest := Escape(s[1..]);
      if s[0] == '\'' {
        assert ("''" + rest)[2..] == rest;
      } else {
        assert ([s[0]] + rest)[1..] == rest;
      }
      assert [s[0]] + s[1..] == s;
    }
  }

  lemma {:induction false} EscapePlain(s: string)
    requires forall i :: 0 <= i < |s| ==> s[i] != '\''
    ensures Escape(s) == s
  {
    if s != "" {
      EscapePlain(s[1..]);
      assert [s[0]] + s[1..] == s;
    }
  }

  function QuotedText(t: string): string {
    if |t| >= 2 then Unescape(t[1..|t| - 1]) else ""
  }

  // ----- the source's recursive descent; Fail is its IndexError -----

  datatype Parse = Fail | Ok(value: Value, rest: seq<string>)

  /** What is left after a call's parentheses: tokens are taken until the depth is 0 again. */
  function SkipCall(ts: seq<string>, depth: int): (rest: seq<string>)
    ensures |rest| <= |ts|
  {
    if ts == [] then []
    else
      var d := depth + (if ts[0] == "(" then 1 else if ts[0] == ")" then -1 else 0);
      if d == 0 then ts[1..] else SkipCall(ts[1..], d)
  }

  function ParsePrimary(ts: seq<string>, ctx: Context): (r: Parse)
    ensures r.Ok? ==> |r.rest| < |ts|
    decreases |ts|, 0
  {
    if ts == [] then Fail
    else
      var t, rest := ts[0], ts[1..];
      if t == "(" then
        var d := ParseDisjunction(rest, ctx);
        if d.Ok? && d.rest != [] && d.rest[0] == ")" then Ok(d.value, d.rest[1..]) else d
      else if t == "!" then
        var p := ParsePrimary(rest, ctx);
        if p.Ok? then Ok(NotValue(p.value), p.rest) else p
      else if "'" <= t then Ok(Text(QuotedText(t)), rest)
      else if IsNumber(t) then Ok(Text(t), rest)
      else if t == "true" || t == "false" then Ok(Bool(t == "true"), rest)
      else if rest != [] && rest[0] == "(" then Ok(Unknown, SkipCall(rest, 0))
      else Ok(if t in ctx then ctx[t] else Unknown, rest)
  }

  function ParseComparison(ts: seq<string>, ctx: Context): (r: Parse)
    ensures r.Ok? ==> |r.rest| < |ts|
    decreases |ts|, 1
  {
    var p := ParsePrimary(ts, ctx);
    if p.Ok? then ComparisonLoop(p.value, p.rest, ctx) else p
  }

  function ComparisonLoop(left: Value, ts: seq<string>, ctx: Context): (r: Parse)
    ensures r.Ok? ==> |r.rest| <= |ts|
    decreases |ts|, 1
  {
    if ts != [] && ts[0] in COMPARISONS then
      var p := ParsePrimary(ts[1..], ctx);
      if p.Ok? then ComparisonLoop(CompareValues(ts[0], left, p.value), p.rest, ctx) else p
    else Ok(left, ts)
  }

  function ParseConjunction(ts: seq<string>, ctx: Context): (r: Parse)
    ensures r.Ok? ==> |r.rest| < |ts|
    decreases |ts|, 2
  {
    var c := ParseComparison(ts, ctx);
    if c.Ok? then ConjunctionLoop(c.value, c.rest, ctx) else c
  }

  function ConjunctionLoop(left: Value, ts: seq<string>, ctx: Context): (r: Parse)
    ensures r.Ok? ==> |r.rest| <= |ts|
    decreases |ts|, 2
  {
    if ts != [] && ts[0] == "&&" then
      var c := ParseComparison(ts[1..], ctx);
      if c.Ok? then ConjunctionLoop(AndValues(left, c.value), c.rest, ctx) else c
    else Ok(left, ts)
  }

  function ParseDisjunction(ts: seq<string>, ctx: Context): (r: Parse)
    ensures r.Ok? ==> |r.rest| < |ts|
    decreases |ts|, 3
  {
    var c := ParseConjunction(ts, ctx);
    if c.Ok? then DisjunctionLoop(c.value, c.rest, ctx) else c
  }

  function DisjunctionLoop(left: Value, ts: seq<string>, ctx: Context): (r: Parse)
    ensures r.Ok? ==> |r.rest| <= |ts|
    decreases |ts|, 3
  {
    if ts != [] && ts[0] == "||" then
      var c := ParseConjunction(ts[1..], ctx);
      if c.Ok? then DisjunctionLoop(OrValues(left, c.value), c.rest, ctx) else c
    else Ok(left, ts)
  }

  lemma ComparisonStep(left: Value, ts: seq<string>, ctx: Context)
    ensures (ts == [] || ts[0] !in COMPARISONS) ==> ComparisonLoop(left, ts, ctx) == Ok(left, ts)
    ensures ts != [] && ts[0] in COMPARISONS && ParsePrimary(ts[1..], ctx).Ok? ==>
              var p := ParsePrimary(ts[1..], ctx);
              ComparisonLoop(left, ts, ctx) == ComparisonLoop(CompareValues(ts[0], left, p.value), p.rest, ctx)
  {
    hide ParsePrimary, CompareValues;
  }

  lemma ConjunctionStep(left: Value, ts: seq<string>, ctx: Context)
    ensures (ts == [] || ts[0] != "&&") ==> ConjunctionLoop(left, ts, ctx) == Ok(left, ts)
    ensures ts != [] && ts[0] == "&&" && ParseComparison(ts[1..], ctx).Ok? ==>
              var c := ParseComparison(ts[1..], ctx);
              ConjunctionLoop(left, ts, ctx) == ConjunctionLoop(AndValues(left, c.value), c.rest, ctx)
  {
    hide ParseComparison, AndValues;
  }

  lemma DisjunctionStep(left: Value, ts: seq<string>, ctx: Context)
    ensures (ts == [] || ts[0] != "||") ==> DisjunctionLoop(left, ts, ctx) == Ok(left, ts)
    ensures ts != [] && ts[0] == "||" && ParseConjunction(ts[1..], ctx).Ok? ==>
              var c := ParseConjunction(ts[1..], ctx);
              DisjunctionLoop(left, ts, ctx) == DisjunctionLoop(OrValues(left, c.value), c.rest, ctx)
  {
    hide ParseConjunction, OrValues;
  }

  /** The verdict on a token list. */
  function EvaluateTokens(ts: seq<string>, ctx: Context): Value {
    if ts == [] then Unknown
    else
      var d := ParseDisjunction(ts, ctx);
      if d.Fail? || d.rest != [] then Unknown else Truthy(d.value)
  }

  // ----- the same, as the source runs it: one cursor over the tokens -----

  class Evaluator {
    const tokens: seq<string>
    const ctx: Context
    var position: nat

    constructor (tokens: seq<string>, ctx: Context)
      ensures this.tokens == tokens && this.ctx == ctx && position == 0
    {
      this.tokens, this.ctx, position := tokens, ctx, 0;
    }

    ghost predicate Valid()
      reads this
    {
      position <= |tokens|
    }

    ghost function Ahead(): seq<string>
      reads this
      requires Valid()
    {
      tokens[position..]
    }

    /** None is the IndexError a take past the end raises. */
    ghost predicate Parsed(parse: Parse, r: Option<Value>)
      reads this
    {
      Valid() && match parse case Fail => r.None? case Ok(v, rest) => r == Some(v) && Ahead() == rest
    }

    predicate Peek(t: string)
      reads this
    {
      position < |tokens| && tokens[position] == t
    }

    /** The loop over a call's parentheses. */
    method SkipArguments()
      requires Valid()
      modifies this
      ensures Valid() && Ahead() == SkipCall(old(Ahead()), 0)
    {
      var depth := 0;
      while position < |tokens|
        invariant Valid() && SkipCall(Ahead(), depth) == SkipCall(old(Ahead()), 0)
        decreases |tokens| - position
      {
        var inner := tokens[position];
        assert Ahead()[1..] == tokens[position + 1..];
        position := position + 1;
        depth := depth + (if inner == "(" then 1 else if inner == ")" then -1 else 0);
        if depth == 0 {
          return;
        }
      }
    }

    method Primary() returns (r: Option<Value>)
      requires Valid()
      modifies this
      ensures Parsed(ParsePrimary(old(Ahead()), ctx), r)
      decreases |tokens| - position, 0
    {
      hide IsNumber, QuotedText, NotValue, ParseDisjunction, SkipCall;
      if position == |tokens| {
        return None;
      }
      var token := tokens[position];
      assert Ahead()[0] == token && Ahead()[1..] == tokens[position + 1..];
      position := position + 1;
      if token == "(" {
        var value := Disjunction();
        if value.Some? && Peek(")") {
          assert Ahead()[1..] == tokens[position + 1..];
          position := position + 1;
        }
        return value;
      }
      if token == "!" {
        var value := Primary();
        return if value.None? then None else Some(NotValue(value.value));
      }
      if "'" <= token {
        return Some(Text(QuotedText(token)));
      }
      if IsNumber(token) {
        return Some(Text(token));
      }
      if token == "true" || token == "false" {
        return Some(Bool(token == "true"));
      }
      if Peek("(") {
        SkipArguments();
        return Some(Unknown);
      }
      return Some(if token in ctx then ctx[token] else Unknown);
    }

    method Comparison() returns (r: Option<Value>)
      requires Valid()
      modifies this
      ensures Parsed(ParseComparison(old(Ahead()), ctx), r)
      decreases |tokens| - position, 1
    {
      hide ParsePrimary, CompareValues;
      r := Primary();
      if r.None? {
        return;
      }
      var left := r.value;
      while position < |tokens| && tokens[position] in COMPARISONS
        invariant Valid() && |Ahead()| < |old(Ahead())|
        invariant ComparisonLoop(left, Ahead(), ctx) == ParseComparison(old(Ahead()), ctx)
        decreases |tokens| - position
      {
        var operator := tokens[position];
        assert Ahead()[1..] == tokens[position + 1..];
        position := position + 1;
        var right := Primary();
        if right.None? {
          return None;
        }
        left := CompareValues(operator, left, right.value);
      }
      return Some(left);
    }

    method Conjunction() returns (r: Option<Value>)
      requires Valid()
      modifies this
      ensures Parsed(ParseConjunction(old(Ahead()), ctx), r)
      decreases |tokens| - position, 2
    {
      hide ParseComparison, AndValues;
      r := Comparison();
      if r.None? {
        return;
      }
      var left := r.value;
      while Peek("&&")
        invariant Valid() && |Ahead()| < |old(Ahead())|
        invariant ConjunctionLoop(left, Ahead(), ctx) == ParseConjunction(old(Ahead()), ctx)
        decreases |tokens| - position
      {
        assert Ahead()[1..] == tokens[position + 1..];
        position := position + 1;
        var right := Comparison();
        if right.None? {
          return None;
        }
        left := AndValues(left, right.value);
      }
      return Some(left);
    }

    method Disjunction() returns (r: Option<Value>)
      requires Valid()
      modifies this
      ensures Parsed(ParseDisjunction(old(Ahead()), ctx), r)
      decreases |tokens| - position, 3
    {
      hide ParseConjunction, OrValues;
      r := Conjunction();
      if r.None? {
        return;
      }
      var left := r.value;
      while Peek("||")
        invariant Valid() && |Ahead()| < |old(Ahead())|
        invariant DisjunctionLoop(left, Ahead(), ctx) == ParseDisjunction(old(Ahead()), ctx)
        decreases |tokens| - position
      {
        assert Ahead()[1..] == tokens[position + 1..];
        position := position + 1;
        var right := Conjunction();
        if right.None? {
          return None;
        }
        left := OrValues(left, right.value);
      }
      return Some(left);
    }
  }
}
