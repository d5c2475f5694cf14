/** Two static readings of a Rust `cfg` predicate: "false in every build without test", and "test-gated". */
module Cfg {
  import opened Bytes
  import opened Lexing

  /** A `cfg` predicate; a combinator may end its list with a comma. */
  datatype Pred =
    | Option(name: string)
    | KeyValue(name: string, text: string)
    | All(ps: seq<Pred>, comma: bool)
    | Any(ps: seq<Pred>, comma: bool)
    | Not(p: Pred, comma: bool)

  predicate IsIdentifier(t: string) {
    t != "" && NameStart(t[0]) && forall i :: 0 <= i < |t| ==> NameStart(t[i]) || AsciiDigit(t[i])
  }

  predicate IsString(t: string) {
    "\"" <= t
  }

  predicate Wf(p: Pred)
    decreases p
  {
    match p
    case Option(name) => IsIdentifier(name)
    case KeyValue(name, text) => IsIdentifier(name) && IsString(text)
    case All(ps, comma) => (forall q :: q in ps ==> Wf(q)) && (comma ==> ps != [])
    case Any(ps, comma) => (forall q :: q in ps ==> Wf(q)) && (comma ==> ps != [])
    case Not(q, _) => Wf(q)
  }

  // ----- meaning: a build turns options on and sets key-value pairs -----

  datatype Build = Build(options: set<string>, pairs: set<(string, string)>)

  predicate Holds(p: Pred, b: Build)
    decreases p
  {
    match p
    case Option(name) => name in b.options
    case KeyValue(name, text) => (name, text) in b.pairs
    case All(ps, _) => forall q :: q in ps ==> Holds(q, b)
    case Any(ps, _) => exists q :: q in ps && Holds(q, b)
    case Not(q, _) => !Holds(q, b)
  }

  // ----- the reading on three values: `test` is false, everything else unknown -----

  /** None is unknown. */
  type Truth = Bytes.Option<bool>

  const FALSE: Truth := Some(false)
  const TRUE: Truth := Some(true)

  function AllOf(values: seq<Truth>): Truth {
    if FALSE in values then FALSE
    else if forall v :: v in values ==> v == TRUE then TRUE else None
  }

  function AnyOf(values: seq<Truth>): Truth {
    if TRUE in values then TRUE
    else if forall v :: v in values ==> v == FALSE then FALSE else None
  }

  function Negated(v: Truth): Truth {
    if v.None? then None else Some(!v.value)
  }

  /** A ValueError, or a value with the tokens after the predicate. */
  datatype Parse = Malformed | Parsed(value: Truth, rest: seq<string>)
  datatype ParseList = MalformedList | ParsedList(values: seq<Truth>, rest: seq<string>)

  predicate IsCombinator(name: string) {
    name == "all" || name == "any" || name == "not"
  }

  function Combine(name: string, args: ParseList): Parse {
    if args.MalformedList? then Malformed
    else if name == "not" then
      if |args.values| != 1 then Malformed else Parsed(Negated(args.values[0]), args.rest)
    else Parsed(if name == "all" then AllOf(args.values) else AnyOf(args.values), args.rest)
  }

  function CfgValue(ts: seq<string>): (r: Parse)
    ensures r.Parsed? ==> |r.rest| < |ts|
    decreases |ts|, 0
  {
    if ts == [] || !IsIdentifier(ts[0]) then Malformed
    else
      var name, rest := ts[0], ts[1..];
      if rest != [] && rest[0] == "=" then
        if |rest| < 2 || !IsString(rest[1]) then Malformed else Parsed(None, rest[2..])
      else if rest != [] && rest[0] == "(" then
        if IsCombinator(name) then Combine(name, CfgList(rest[1..])) else Malformed
      else Parsed(if name == "test" then FALSE else None, rest)
  }

  function CfgList(ts: seq<string>): (r: ParseList)
    ensures r.ParsedList? ==> |r.rest| < |ts|
    decreases |ts|, 1
  {
    if ts == [] then MalformedList
    else if ts[0] == ")" then ParsedList([], ts[1..])
    else
      var v := CfgValue(ts);
      if v.Malformed? then MalformedList
      else
        var more := CfgList(if v.rest != [] && v.rest[0] == "," then v.rest[1..] else v.rest);
        if more.MalformedList? then more else ParsedList([v.value] + more.values, more.rest)
  }

  /** The source's form: an index into the tokens, and a list of values filled in a loop. */
  method CfgValueAt(tokens: seq<string>, i0: nat) returns (ok: bool, value: Truth, i: nat)
    requires i0 <= |tokens|
    ensures ok == CfgValue(tokens[i0..]).Parsed?
    ensures ok ==> i0 < i <= |tokens| && CfgValue(tokens[i0..]) == Parsed(value, tokens[i..])
    decreases |tokens| - i0, 0
  {
    hide IsIdentifier, AllOf, AnyOf, CfgList;
    ok, value, i := false, None, i0;
    var ts := tokens[i0..];
    if i >= |tokens| || !IsIdentifier(tokens[i]) {
      return;
    }
    var name := tokens[i];
    assert ts[0] == name && ts[1..] == tokens[i0 + 1..];
    i := i + 1;
    if i < |tokens| && tokens[i] == "=" {
      if i + 1 >= |tokens| || !IsString(tokens[i + 1]) {
        return;
      }
      assert ts[1..][2..] == tokens[i + 2..];
      ok, i := true, i + 2;
      return;
    }
    if i < |tokens| && tokens[i] == "(" {
      if !IsCombinator(name) {
        return;
      }
      assert ts[1..][1..] == tokens[i + 1..];
      var okList, values, next := CfgListAt(tokens, i + 1);
      if !okList || (name == "not" && |values| != 1) {
        return;
      }
      ok, i := true, next;
      value := if name == "not" then Negated(values[0]) else if name == "all" then AllOf(values) else AnyOf(values);
      return;
    }
    ok, value := true, if name == "test" then FALSE else None;
  }

  /** The loop over a combinator's arguments, up to and with the closing parenthesis. */
  method CfgListAt(tokens: seq<string>, i0: nat) returns (ok: bool, values: seq<Truth>, i: nat)
    requires i0 <= |tokens|
    ensures ok == CfgList(tokens[i0..]).ParsedList?
    ensures ok ==> i0 < i <= |tokens| && CfgList(tokens[i0..]) == ParsedList(values, tokens[i..])
    decreases |tokens| - i0, 1
  {
    hide CfgValue;
    ok, values, i := false, [], i0;
    ghost var list := CfgList(tokens[i..]);
    assert Joined([], list) == list;
    while i < |tokens| && tokens[i] != ")"
      invariant i0 <= i <= |tokens| && Joined(values, CfgList(tokens[i..])) == list
      decreases |tokens| - i
    {
      var okArg, v, next := CfgValueAt(tokens, i);
      if !okArg {
        return;
      }
      i := next;
      if i < |tokens| && tokens[i] == "," {
        assert tokens[next..][1..] == tokens[i + 1..];
        i := i + 1;
      }
      JoinedJoined(values, v, CfgList(tokens[i..]));
      values := values + [v];
    }
    if i >= |tokens| {
      assert tokens[i..] == [];
      return;
    }
    assert tokens[i..][1..] == tokens[i + 1..] && values + [] == values;
    ok, i := true, i + 1;
  }

  function Joined(values: seq<Truth>, rest: ParseList): ParseList {
    if rest.MalformedList? then rest else ParsedList(values + rest.values, rest.rest)
  }

  lemma JoinedJoined(values: seq<Truth>, v: Truth, rest: ParseList)
    ensures Joined(values, Joined([v], rest)) == Joined(values + [v], rest)
  {
    if rest.ParsedList? {
      assert values + ([v] + rest.values) == values + [v] + rest.values;
    }
  }

  // ----- printing, and the value of a printed predicate -----

  function Print(p: Pred): seq<string>
    decreases p, 0
  {
    match p
    case Option(name) => [name]
    case KeyValue(name, text) => [name, "=", text]
    case All(ps, comma) => ["all", "("] + PrintList(ps, comma) + [")"]
    case Any(ps, comma) => ["any", "("] + PrintList(ps, comma) + [")"]
    case Not(q, comma) => ["not", "("] + Print(q) + (if comma then [","] else []) + [")"]
  }

  function PrintList(ps: seq<Pred>, comma: bool): seq<string>
    decreases ps
  {
    if ps == [] then []
    else Print(ps[0]) + (if |ps| > 1 || comma then [","] else []) + PrintList(ps[1..], comma)
  }

  function Value(p: Pred): Truth
    decreases p, 0
  {
    match p
    case Option(name) => if name == "test" then FALSE else None
    case KeyValue(_, _) => None
    case All(ps, _) => AllOf(Values(ps))
    case Any(ps, _) => AnyOf(Values(ps))
    case Not(q, _) => Negated(Value(q))
  }

  function Values(ps: seq<Pred>): (vs: seq<Truth>)
    ensures |vs| == |ps|
    decreases ps
  {
    if ps == [] then [] else [Value(ps[0])] + Values(ps[1..])
  }

  lemma {:induction false} ValuesAt(ps: seq<Pred>, i: nat)
    requires i < |ps|
    ensures Values(ps)[i] == Value(ps[i])
  {
    if i > 0 {
      ValuesAt(ps[1..], i - 1);
    }
  }

  predicate Follows(rest: seq<string>) {
    rest == [] || rest[0] == "," || rest[0] == ")"
  }

  /** The reader terminates on every token list, and consumes exactly a printed predicate's own tokens. */
  lemma {:induction false} CfgValueOf(p: Pred, rest: seq<string>)
    requires Wf(p) && Follows(rest)
    ensures CfgValue(Print(p) + rest) == Parsed(Value(p), rest)
    decreases p, 0
  {
    hide CfgValue, CfgList;
    match p
    case Option(_) => CfgLeafOf(p, rest);
    case KeyValue(_, _) => CfgLeafOf(p, rest);
    case All(ps, comma) =>
      CfgListOf(ps, comma, rest);
      CombinatorOf("all", PrintList(ps, comma), rest);
    case Any(ps, comma) =>
      CfgListOf(ps, comma, rest);
      CombinatorOf("any", PrintList(ps, comma), rest);
    case Not(q, comma) =>
      var ts := PrintList([q], comma);
      assert [q][1..] == [] && Values([q]) == [Value(q)];
      assert ts == Print(q) + (if comma then [","] else []) by { assert PrintList([], comma) == []; }
      CfgListOfOne(q, comma, rest);
      CombinatorOf("not", ts, rest);
      assert ["not", "("] + ts + [")"] == Print(p);
  }

  lemma CfgLeafOf(p: Pred, rest: seq<string>)
    requires Wf(p) && Follows(rest) && (p.Option? || p.KeyValue?)
    ensures CfgValue(Print(p) + rest) == Parsed(Value(p), rest)
  {
    hide IsIdentifier;
    var ts := Print(p) + rest;
    if p.Option? {
      assert ts[0] == p.name && ts[1..] == rest;
    } else {
      assert ts[0] == p.name && ts[1..] == ["=", p.text] + rest && ts[1..][2..] == rest;
    }
  }

  lemma CombinatorOf(name: string, ts: seq<string>, rest: seq<string>)
    requires IsCombinator(name)
    ensures CfgValue([name, "("] + ts + [")"] + rest) == Combine(name, CfgList(ts + ([")"] + rest)))
  {
    hide IsIdentifier, Combine, CfgList;
    Identifiers();
    var all := [name, "("] + ts + [")"] + rest;
    assert all[0] == name && all[1] == "(" && all[1..][1..] == ts + ([")"] + rest);
  }

  lemma CfgListStep(ts: seq<string>, v: Truth, rest: seq<string>)
    requires ts != [] && ts[0] != ")" && CfgValue(ts) == Parsed(v, rest)
    ensures var more := CfgList(if rest != [] && rest[0] == "," then rest[1..] else rest);
            CfgList(ts) == if more.MalformedList? then more else ParsedList([v] + more.values, more.rest)
  {
    hide CfgValue;
  }

  lemma CfgListEnd(rest: seq<string>)
    ensures CfgList([")"] + rest) == ParsedList([], rest)
  {
    assert ([")"] + rest)[1..] == rest;
  }

  lemma {:induction false} CfgListOfOne(q: Pred, comma: bool, rest: seq<string>)
    requires Wf(q)
    ensures CfgList(Print(q) + (if comma then [","] else []) + ([")"] + rest)) == ParsedList([Value(q)], rest)
    decreases q, 1
  {
    hide CfgValue, Value, CfgList, Print;
    var end := [")"] + rest;
    var after := (if comma then [","] else []) + end;
    assert Print(q) + (if comma then [","] else []) + end == Print(q) + after;
    CfgValueOf(q, after);
    FirstIsIdentifier(q, after);
    CfgListStep(Print(q) + after, Value(q), after);
    assert if comma then after[0] == "," && after[1..] == end else after == end;
    CfgListEnd(rest);
    assert [Value(q)] + [] == [Value(q)];
  }

  lemma Identifiers()
    ensures IsIdentifier("all") && IsIdentifier("any") && IsIdentifier("not") && !IsIdentifier(")")
  {
  }

  lemma FirstIsIdentifier(p: Pred, rest: seq<string>)
    requires Wf(p)
    ensures var ts := Print(p) + rest; ts != [] && ts[0] != ")"
  {
    Identifiers();
    if p.Option? || p.KeyValue? {
      assert (Print(p) + rest)[0] == p.name;
    }
  }

  lemma {:induction false} CfgListOf(ps: seq<Pred>, comma: bool, rest: seq<string>)
    requires forall q :: q in ps ==> Wf(q)
    ensures CfgList(PrintList(ps, comma) + ([")"] + rest)) == ParsedList(Values(ps), rest)
    decreases ps
  {
    hide CfgValue, Value, CfgList, Print;
    var end := [")"] + rest;
    if ps == [] {
      assert [] + end == end;
      CfgListEnd(rest);
    } else {
      var sep := if |ps| > 1 || comma then [","] else [];
      var more := PrintList(ps[1..], comma) + end;
      var after := sep + more;
      assert PrintList(ps, comma) + end == Print(ps[0]) + after;
      assert ps[0] in ps && forall q :: q in ps[1..] ==> q in ps;
      if |ps| == 1 {
        assert more == end;
      }
      CfgValueOf(ps[0], after);
      FirstIsIdentifier(ps[0], after);
      CfgListStep(Print(ps[0]) + after, Value(ps[0]), after);
      CfgListOf(ps[1..], comma, rest);
      assert sep != [] ==> after[1..] == more;
      if sep == [] {
        assert after == more == end;
      }
    }
  }

  /** `_cfg_excludes_production`: only a fully read predicate that is false counts. */
  predicate ExcludesProduction(ts: seq<string>) {
    var r := CfgValue(ts);
    r.Parsed? && r.rest == [] && r.value == FALSE
  }

  // ----- soundness -----

  lemma {:induction false} ValueIsSound(p: Pred, b: Build)
    requires "test" !in b.options
    ensures Value(p).Some? ==> Holds(p, b) == Value(p).value
    decreases p
  {
    match p
    case Option(_) =>
    case KeyValue(_, _) =>
    case Not(q, _) => ValueIsSound(q, b);
    case All(ps, _) =>
      forall i | 0 <= i < |ps|
        ensures Values(ps)[i].Some? ==> Holds(ps[i], b) == Values(ps)[i].value
      {
        ValueIsSound(ps[i], b);
        ValuesAt(ps, i);
      }
      ListSound(ps, b);
    case Any(ps, _) =>
      forall i | 0 <= i < |ps|
        ensures Values(ps)[i].Some? ==> Holds(ps[i], b) == Values(ps)[i].value
      {
        ValueIsSound(ps[i], b);
        ValuesAt(ps, i);
      }
      ListSound(ps, b);
  }

  lemma ListSound(ps: seq<Pred>, b: Build)
    requires forall i :: 0 <= i < |ps| ==> (Values(ps)[i].Some? ==> Holds(ps[i], b) == Values(ps)[i].value)
    ensures AllOf(Values(ps)).Some? ==> (forall q :: q in ps ==> Holds(q, b)) == AllOf(Values(ps)).value
    ensures AnyOf(Values(ps)).Some? ==> (exists q :: q in ps && Holds(q, b)) == AnyOf(Values(ps)).value
  {
    var vs := Values(ps);
    if FALSE in vs {
      var i :| 0 <= i < |vs| && vs[i] == FALSE;
      assert ps[i] in ps && !Holds(ps[i], b);
    }
    if TRUE in vs {
      var i :| 0 <= i < |vs| && vs[i] == TRUE;
      assert ps[i] in ps && Holds(ps[i], b);
    }
    forall q | q in ps
      ensures (forall v :: v in vs ==> v == TRUE) ==> Holds(q, b)
      ensures (forall v :: v in vs ==> v == FALSE) ==> !Holds(q, b)
    {
      var i :| 0 <= i < |ps| && ps[i] == q;
      assert vs[i] in vs;
    }
  }

  /** A predicate the check excludes is false in every build without `test`. */
  lemma ExcludedNeverInProduction(p: Pred, b: Build)
    requires Wf(p) && ExcludesProduction(Print(p)) && "test" !in b.options
    ensures !Holds(p, b)
  {
    CfgValueOf(p, []);
    assert Print(p) + [] == Print(p);
    ValueIsSound(p, b);
  }

  // ----- the tables of the reading, over the parts of a predicate -----

  /** A predicate on which the reading gives this value. */
  ghost predicate Gives(ps: seq<Pred>, i: int, v: Truth) {
    0 <= i < |ps| && Value(ps[i]) == v
  }

  lemma ValuesHold(ps: seq<Pred>, v: Truth)
    ensures v in Values(ps) <==> exists i :: Gives(ps, i, v)
    ensures (forall w :: w in Values(ps) ==> w == v) <==> forall i :: 0 <= i < |ps| ==> Value(ps[i]) == v
  {
    var vs := Values(ps);
    forall i | 0 <= i < |ps|
      ensures vs[i] == Value(ps[i]) && vs[i] in vs
    {
      ValuesAt(ps, i);
    }
    if v in vs {
      var i :| 0 <= i < |vs| && vs[i] == v;
      assert Gives(ps, i, v);
    }
    if i :| Gives(ps, i, v) {
      assert vs[i] == v;
    }
  }

  /** `all` is false where a part is and true where all are; `any` is true where a part is and false where all are;
      `not` exchanges the two; and whatever is neither is unknown. */
  lemma ValueTable(p: Pred)
    ensures p.All? ==> (Value(p) == FALSE <==> exists i :: Gives(p.ps, i, FALSE))
    ensures p.All? ==> (Value(p) == TRUE <==> forall i :: 0 <= i < |p.ps| ==> Value(p.ps[i]) == TRUE)
    ensures p.Any? ==> (Value(p) == TRUE <==> exists i :: Gives(p.ps, i, TRUE))
    ensures p.Any? ==> (Value(p) == FALSE <==> forall i :: 0 <= i < |p.ps| ==> Value(p.ps[i]) == FALSE)
    ensures p.Not? ==> (Value(p) == FALSE <==> Value(p.p) == TRUE) && (Value(p) == TRUE <==> Value(p.p) == FALSE)
  {
    hide Values;
    if p.All? || p.Any? {
      ValuesHold(p.ps, FALSE);
      ValuesHold(p.ps, TRUE);
    }
  }

  lemma ExcludesIff(p: Pred)
    requires Wf(p)
    ensures ExcludesProduction(Print(p)) <==> Value(p) == FALSE
  {
    CfgValueOf(p, []);
    assert Print(p) + [] == Print(p);
  }
}
