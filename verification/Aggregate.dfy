/** The merge gate's own evaluator, which never short-circuits, and its agreement with the one on three values. */
module Aggregate {
  import opened Bytes
  import opened Expressions
  import opened Grammar

  /** The filter outputs and the event name a run publishes. */
  datatype Run = Run(outputs: map<string, string>, event: string)

  const OPERATORS: set<string> := {"&&", "||", "==", "!=", "(", ")"}
  const EVENT_NAME := "github.event_name"
  const OUTPUT_PREFIX := "needs.changes.outputs."

  predicate IsQuoted(t: string) {
    |t| >= 2 && t[0] == '\'' && t[|t| - 1] == '\'' && forall i :: 1 <= i < |t| - 1 ==> t[i] != '\''
  }

  /** None is the exception Unreadable. */
  function ResolveOperand(t: string, run: Run): Option<string> {
    if IsQuoted(t) then Some(t[1..|t| - 1])
    else if t == "true" || t == "false" then Some(t)
    else if t == EVENT_NAME then Some(run.event)
    else if OUTPUT_PREFIX <= t then
      var key := t[|OUTPUT_PREFIX|..];
      if key in run.outputs then Some(run.outputs[key]) else None
    else None
  }

  datatype Answer = Unreadable | Read(b: bool, rest: seq<string>)

  function TermOf(ts: seq<string>, run: Run): (r: Answer)
    ensures r.Read? ==> |r.rest| < |ts|
    decreases |ts|, 0
  {
    if ts == [] then Unreadable
    else if ts[0] == "(" then
      var d := DisjunctionOf(ts[1..], run);
      if d.Read? && d.rest != [] && d.rest[0] == ")" then Read(d.b, d.rest[1..]) else Unreadable
    else if ts[0] in OPERATORS || |ts| < 3 || (ts[1] != "==" && ts[1] != "!=") || ts[2] in OPERATORS then Unreadable
    else
      var left, right := ResolveOperand(ts[0], run), ResolveOperand(ts[2], run);
      if left.None? || right.None? then Unreadable
      else Read((left.value == right.value) == (ts[1] == "=="), ts[3..])
  }

  function ConjunctionOf(ts: seq<string>, run: Run): (r: Answer)
    ensures r.Read? ==> |r.rest| < |ts|
    decreases |ts|, 1
  {
    var t := TermOf(ts, run);
    if t.Read? then MoreTerms(t.b, t.rest, run) else t
  }

  /** The rest of a conjunction whose terms so far all answered `all`. */
  function MoreTerms(all: bool, ts: seq<string>, run: Run): (r: Answer)
    ensures r.Read? ==> |r.rest| <= |ts|
    decreases |ts|, 1
  {
    if ts != [] && ts[0] == "&&" then
      var t := TermOf(ts[1..], run);
      if t.Read? then MoreTerms(all && t.b, t.rest, run) else t
    else Read(all, ts)
  }

  function DisjunctionOf(ts: seq<string>, run: Run): (r: Answer)
    ensures r.Read? ==> |r.rest| < |ts|
    decreases |ts|, 2
  {
    var c := ConjunctionOf(ts, run);
    if c.Read? then MoreConjunctions(c.b, c.rest, run) else c
  }

  function MoreConjunctions(any: bool, ts: seq<string>, run: Run): (r: Answer)
    ensures r.Read? ==> |r.rest| <= |ts|
    decreases |ts|, 2
  {
    if ts != [] && ts[0] == "||" then
      var c := ConjunctionOf(ts[1..], run);
      if c.Read? then MoreConjunctions(any || c.b, c.rest, run) else c
    else Read(any, ts)
  }

  lemma MoreTermsStep(all: bool, ts: seq<string>, run: Run)
    ensures (ts == [] || ts[0] != "&&") ==> MoreTerms(all, ts, run) == Read(all, ts)
    ensures ts != [] && ts[0] == "&&" ==>
              var t := TermOf(ts[1..], run);
              MoreTerms(all, ts, run) == if t.Read? then MoreTerms(all && t.b, t.rest, run) else t
  {
    hide TermOf;
  }

  lemma MoreConjunctionsStep(any: bool, ts: seq<string>, run: Run)
    ensures (ts == [] || ts[0] != "||") ==> MoreConjunctions(any, ts, run) == Read(any, ts)
    ensures ts != [] && ts[0] == "||" ==>
              var c := ConjunctionOf(ts[1..], run);
              MoreConjunctions(any, ts, run) == if c.Read? then MoreConjunctions(any || c.b, c.rest, run) else c
  {
    hide ConjunctionOf;
  }

  function AggregateEvaluate(ts: seq<string>, run: Run): Option<bool> {
    var d := DisjunctionOf(ts, run);
    if d.Read? && d.rest == [] then Some(d.b) else None
  }

  // ----- the same with the source's cursor and result lists -----

  predicate Any(results: seq<bool>) {
    results != [] && (results[0] || Any(results[1..]))
  }

  predicate All(results: seq<bool>) {
    results == [] || (results[0] && All(results[1..]))
  }

  lemma {:induction false} AnyAllSnoc(results: seq<bool>, b: bool)
    ensures Any(results + [b]) == (Any(results) || b)
    ensures All(results + [b]) == (All(results) && b)
  {
    if results != [] {
      AnyAllSnoc(results[1..], b);
      assert (results + [b])[1..] == results[1..] + [b];
    }
  }

  class Reader {
    const tokens: seq<string>
    const run: Run
    var position: nat

    constructor (tokens: seq<string>, run: Run)
      ensures this.tokens == tokens && this.run == run && position == 0
    {
      this.tokens, this.run, position := tokens, run, 0;
    }

    ghost predicate Valid()
      reads this
    {
      position <= |tokens|
    }

    ghost function Ahead(): seq<string>
      reads this
      requires Valid()
    {
      tokens[position..]
    }

    ghost predicate Answered(answer: Answer, r: Option<bool>)
      reads this
    {
      Valid() && match answer case Unreadable => r.None? case Read(b, rest) => r == Some(b) && Ahead() == rest
    }

    predicate Peek(t: string)
      reads this
    {
      position < |tokens| && tokens[position] == t
    }

    method Disjunction() returns (r: Option<bool>)
      requires Valid()
      modifies this
      ensures Answered(DisjunctionOf(old(Ahead()), run), r)
      decreases |tokens| - position, 2
    {
      hide ConjunctionOf;
      r := Conjunction();
      if r.None? {
        return;
      }
      var results := [r.value];
      while Peek("||")
        invariant Valid() && |Ahead()| < |old(Ahead())|
        invariant MoreConjunctions(Any(results), Ahead(), run) == DisjunctionOf(old(Ahead()), run)
        decreases |tokens| - position
      {
        assert Ahead()[1..] == tokens[position + 1..];
        position := position + 1;
        var next := Conjunction();
        if next.None? {
          return None;
        }
        AnyAllSnoc(results, next.value);
        results := results + [next.value];
      }
      return Some(Any(results));
    }

    method Conjunction() returns (r: Option<bool>)
      requires Valid()
      modifies this
      ensures Answered(ConjunctionOf(old(Ahead()), run), r)
      decreases |tokens| - position, 1
    {
      hide TermOf;
      r := Term();
      if r.None? {
        return;
      }
      var results := [r.value];
      while Peek("&&")
        invariant Valid() && |Ahead()| < |old(Ahead())|
        invariant MoreTerms(All(results), Ahead(), run) == ConjunctionOf(old(Ahead()), run)
        decreases |tokens| - position
      {
        assert Ahead()[1..] == tokens[position + 1..];
        position := position + 1;
        var next := Term();
        if next.None? {
          return None;
        }
        AnyAllSnoc(results, next.value);
        results := results + [next.value];
      }
      return Some(All(results));
    }

    method Term() returns (r: Option<bool>)
      requires Valid()
      modifies this
      ensures Answered(TermOf(old(Ahead()), run), r)
      decreases |tokens| - position, 0
    {
      hide ResolveOperand;
      if position == |tokens| {
        return None;
      }
      var text := tokens[position];
      assert Ahead()[1..] == tokens[position + 1..];
      position := position + 1;
      if text == "(" {
        var value := Disjunction();
        if value.None? || !Peek(")") {
          return None;
        }
        assert Ahead()[1..] == tokens[position + 1..];
        position := position + 1;
        return value;
      }
      if text in OPERATORS || |tokens| - position < 2 {
        return None;
      }
      var operator, rightText := tokens[position], tokens[position + 1];
      assert old(Ahead())[1] == operator && old(Ahead())[2] == rightText;
      assert old(Ahead())[3..] == tokens[position + 2..];
      position := position + 2;
      if (operator != "==" && operator != "!=") || rightText in OPERATORS {
        return None;
      }
      var left := ResolveOperand(text, run);
      var right := ResolveOperand(rightText, run);
      if left.None? || right.None? {
        return None;
      }
      return Some((left.value == right.value) == (operator == "=="));
    }
  }

  // ----- the grammar it reads, as part of the full one -----

  predicate IsOperand(p: Prim) {
    match p
    case Quoted(text) => forall i :: 0 <= i < |text| ==> text[i] != '\''
    case Lit(_) => true
    case Name(name) => IsName(name)
    case _ => false
  }

  predicate ReadsComp(c: Comp)
    decreases c
  {
    if c.first.Paren? then c.tail == CompEnd && ReadsDisj(c.first.d)
    else
      IsOperand(c.first) && c.tail.Compare? && (c.tail.op == "==" || c.tail.op == "!=") &&
      IsOperand(c.tail.right) && c.tail.tail == CompEnd
  }

  predicate ReadsConjTail(t: ConjTail)
    decreases t
  {
    t.And? ==> ReadsComp(t.right) && ReadsConjTail(t.tail)
  }

  predicate ReadsConj(c: Conj)
    decreases c
  {
    ReadsComp(c.first) && ReadsConjTail(c.tail)
  }

  predicate ReadsDisjTail(t: DisjTail)
    decreases t
  {
    t.Or? ==> ReadsConj(t.right) && ReadsDisjTail(t.tail)
  }

  predicate ReadsDisj(d: Disj)
    decreases d
  {
    ReadsConj(d.first) && ReadsDisjTail(d.tail)
  }

  // ----- its meaning: unreadable as a whole where any operand is, and Boolean logic otherwise -----

  function Operand(p: Prim, run: Run): Option<string> {
    match p
    case Quoted(text) => Some(text)
    case Lit(b) => Some(if b then "true" else "false")
    case Name(name) => ResolveOperand(name, run)
    case _ => None
  }

  /** A name has a value exactly where it is the event's, or an output's that the filter job published. */
  lemma OperandIs(p: Prim, run: Run, v: string)
    requires IsOperand(p)
    ensures Operand(p, run) == Some(v) <==>
              match p
              case Quoted(text) => v == text
              case Lit(b) => v == if b then "true" else "false"
              case Name(name) =>
                || (name == "github.event_name" && v == run.event)
                || exists key :: key in run.outputs && name == "needs.changes.outputs." + key && v == run.outputs[key]
              case _ => false
  {
    if p.Name? {
      assert p.name[0] != '\'';
      var prefix := "needs.changes.outputs.";
      if prefix <= p.name {
        var key := p.name[|prefix|..];
        assert p.name == prefix + key;
        assert forall k :: p.name == prefix + k ==> k == (prefix + k)[|prefix|..] == key;
      }
    }
  }

  function MeanComp(c: Comp, run: Run): Option<bool>
    requires ReadsComp(c)
    decreases c
  {
    if c.first.Paren? then MeanDisj(c.first.d, run)
    else
      var left, right := Operand(c.first, run), Operand(c.tail.right, run);
      if left.None? || right.None? then None else Some((left.value == right.value) == (c.tail.op == "=="))
  }

  function Both(a: Option<bool>, b: Option<bool>, and: bool): Option<bool> {
    if a.None? || b.None? then None else Some(if and then a.value && b.value else a.value || b.value)
  }

  function MeanConjTail(t: ConjTail, run: Run): Option<bool>
    requires ReadsConjTail(t)
    decreases t
  {
    if t.ConjEnd? then Some(true) else Both(MeanComp(t.right, run), MeanConjTail(t.tail, run), true)
  }

  function MeanConj(c: Conj, run: Run): Option<bool>
    requires ReadsConj(c)
    decreases c
  {
    Both(MeanComp(c.first, run), MeanConjTail(c.tail, run), true)
  }

  function MeanDisjTail(t: DisjTail, run: Run): Option<bool>
    requires ReadsDisjTail(t)
    decreases t
  {
    if t.DisjEnd? then Some(false) else Both(MeanConj(t.right, run), MeanDisjTail(t.tail, run), false)
  }

  function MeanDisj(d: Disj, run: Run): Option<bool>
    requires ReadsDisj(d)
    decreases d
  {
    Both(MeanConj(d.first, run), MeanDisjTail(d.tail, run), false)
  }

  // ----- the evaluator computes that meaning -----

  function Answering(meaning: Option<bool>, rest: seq<string>): Answer {
    if meaning.None? then Unreadable else Read(meaning.value, rest)
  }

  lemma OperandToken(p: Prim, run: Run)
    requires IsOperand(p)
    ensures var ts := PrintPrim(p);
            |ts| == 1 && ts[0] !in OPERATORS && ResolveOperand(ts[0], run) == Operand(p, run)
  {
    match p
    case Quoted(text) =>
      EscapePlain(text);
      var t := "'" + text + "'";
      assert PrintPrim(p) == [t] && t[0] == '\'' && t[1..|t| - 1] == text;
      assert forall i :: 1 <= i < |t| - 1 ==> t[i] == text[i - 1];
    case Lit(b) =>
    case Name(name) =>
  }

  lemma {:induction false} TermPrinted(c: Comp, rest: seq<string>, run: Run)
    requires ReadsComp(c)
    ensures TermOf(PrintComp(c) + rest, run) == Answering(MeanComp(c, run), rest)
    decreases c, 0
  {
    hide ResolveOperand, Operand;
    var ts := PrintComp(c) + rest;
    if c.first.Paren? {
      var d, after := c.first.d, [")"] + rest;
      assert PrintComp(c) == ["("] + PrintDisj(d) + [")"] + [];
      assert ts[0] == "(" && ts[1..] == PrintDisj(d) + after && after[1..] == rest;
      DisjPrinted(d, after, run);
    } else {
      OperandToken(c.first, run);
      OperandToken(c.tail.right, run);
      assert PrintCompTail(c.tail) == [c.tail.op] + PrintPrim(c.tail.right) + [];
      assert ts[0] == PrintPrim(c.first)[0] && ts[1] == c.tail.op && ts[2] == PrintPrim(c.tail.right)[0] && ts[3..] == rest;
    }
  }

  lemma {:induction false} TermsPrinted(all: bool, t: ConjTail, rest: seq<string>, run: Run)
    requires ReadsConjTail(t) && !StartsWith(rest, "&&")
    ensures MoreTerms(all, PrintConjTail(t) + rest, run) == Answering(Both(Some(all), MeanConjTail(t, run), true), rest)
    decreases t, 1
  {
    hide TermOf, PrintComp, MeanComp, MoreTerms;
    MoreTermsStep(all, PrintConjTail(t) + rest, run);
    if t.ConjEnd? {
      assert [] + rest == rest;
    } else {
      var ts, after := PrintConjTail(t) + rest, PrintConjTail(t.tail) + rest;
      assert ts[0] == "&&" && ts[1..] == PrintComp(t.right) + after;
      TermPrinted(t.right, after, run);
      if MeanComp(t.right, run).Some? {
        TermsPrinted(all && MeanComp(t.right, run).value, t.tail, rest, run);
      }
    }
  }

  lemma {:induction false} ConjPrinted(c: Conj, rest: seq<string>, run: Run)
    requires ReadsConj(c) && !StartsWith(rest, "&&")
    ensures ConjunctionOf(PrintConj(c) + rest, run) == Answering(MeanConj(c, run), rest)
    decreases c, 1
  {
    hide TermOf, PrintComp, MeanComp;
    var after := PrintConjTail(c.tail) + rest;
    assert PrintConj(c) + rest == PrintComp(c.first) + after;
    TermPrinted(c.first, after, run);
    if MeanComp(c.first, run).Some? {
      TermsPrinted(MeanComp(c.first, run).value, c.tail, rest, run);
    }
  }

  lemma {:induction false} ConjunctionsPrinted(any: bool, t: DisjTail, rest: seq<string>, run: Run)
    requires ReadsDisjTail(t) && !StartsWith(rest, "&&") && !StartsWith(rest, "||")
    ensures MoreConjunctions(any, PrintDisjTail(t) + rest, run) == Answering(Both(Some(any), MeanDisjTail(t, run), false), rest)
    decreases t, 2
  {
    hide ConjunctionOf, PrintConj, MeanConj, MoreConjunctions;
    MoreConjunctionsStep(any, PrintDisjTail(t) + rest, run);
    if t.DisjEnd? {
      assert [] + rest == rest;
    } else {
      var ts, after := PrintDisjTail(t) + rest, PrintDisjTail(t.tail) + rest;
      assert ts[0] == "||" && ts[1..] == PrintConj(t.right) + after;
      ConjPrinted(t.right, after, run);
      if MeanConj(t.right, run).Some? {
        ConjunctionsPrinted(any || MeanConj(t.right, run).value, t.tail, rest, run);
      }
    }
  }

  lemma {:induction false} DisjPrinted(d: Disj, rest: seq<string>, run: Run)
    requires ReadsDisj(d) && !StartsWith(rest, "&&") && !StartsWith(rest, "||")
    ensures DisjunctionOf(PrintDisj(d) + rest, run) == Answering(MeanDisj(d, run), rest)
    decreases d, 2
  {
    hide ConjunctionOf, PrintConj, MeanConj;
    var after := PrintDisjTail(d.tail) + rest;
    assert PrintDisj(d) + rest == PrintConj(d.first) + after;
    ConjPrinted(d.first, after, run);
    if MeanConj(d.first, run).Some? {
      ConjunctionsPrinted(MeanConj(d.first, run).value, d.tail, rest, run);
    }
  }

  lemma AggregateMeans(d: Disj, run: Run)
    requires ReadsDisj(d)
    ensures AggregateEvaluate(PrintDisj(d), run) == MeanDisj(d, run)
  {
    DisjPrinted(d, [], run);
    assert PrintDisj(d) + [] == PrintDisj(d);
  }

  // ----- unreadable exactly when some operand is -----

  function Operands(d: Disj): set<Prim>
    requires ReadsDisj(d)
    decreases d
  {
    ConjOperands(d.first) + DisjTailOperands(d.tail)
  }

  function DisjTailOperands(t: DisjTail): set<Prim>
    requires ReadsDisjTail(t)
    decreases t
  {
    if t.DisjEnd? then {} else ConjOperands(t.right) + DisjTailOperands(t.tail)
  }

  function ConjOperands(c: Conj): set<Prim>
    requires ReadsConj(c)
    decreases c
  {
    CompOperands(c.first) + ConjTailOperands(c.tail)
  }

  function ConjTailOperands(t: ConjTail): set<Prim>
    requires ReadsConjTail(t)
    decreases t
  {
    if t.ConjEnd? then {} else CompOperands(t.right) + ConjTailOperands(t.tail)
  }

  function CompOperands(c: Comp): set<Prim>
    requires ReadsComp(c)
    decreases c
  {
    if c.first.Paren? then Operands(c.first.d) else {c.first, c.tail.right}
  }

  ghost predicate SomeUnresolvable(ps: set<Prim>, run: Run) {
    exists p :: p in ps && Operand(p, run).None?
  }

  lemma {:induction false} CompUnreadable(c: Comp, run: Run)
    requires ReadsComp(c)
    ensures MeanComp(c, run).None? <==> SomeUnresolvable(CompOperands(c), run)
    decreases c, 0
  {
    if c.first.Paren? {
      UnreadableIff(c.first.d, run);
    } else {
      assert c.first in CompOperands(c) && c.tail.right in CompOperands(c);
    }
  }

  lemma UnresolvableUnion(ps: set<Prim>, qs: set<Prim>, run: Run)
    ensures SomeUnresolvable(ps + qs, run) <==> SomeUnresolvable(ps, run) || SomeUnresolvable(qs, run)
  {
    if SomeUnresolvable(ps, run) {
      var p :| p in ps && Operand(p, run).None?;
      assert p in ps + qs;
    }
    if SomeUnresolvable(qs, run) {
      var q :| q in qs && Operand(q, run).None?;
      assert q in ps + qs;
    }
  }

  lemma {:induction false} ConjTailUnreadable(t: ConjTail, run: Run)
    requires ReadsConjTail(t)
    ensures MeanConjTail(t, run).None? <==> SomeUnresolvable(ConjTailOperands(t), run)
    decreases t, 1
  {
    if t.And? {
      CompUnreadable(t.right, run);
      ConjTailUnreadable(t.tail, run);
      UnresolvableUnion(CompOperands(t.right), ConjTailOperands(t.tail), run);
    }
  }

  lemma {:induction false} ConjUnreadable(c: Conj, run: Run)
    requires ReadsConj(c)
    ensures MeanConj(c, run).None? <==> SomeUnresolvable(ConjOperands(c), run)
    decreases c, 1
  {
    CompUnreadable(c.first, run);
    ConjTailUnreadable(c.tail, run);
    UnresolvableUnion(CompOperands(c.first), ConjTailOperands(c.tail), run);
  }

  lemma {:induction false} DisjTailUnreadable(t: DisjTail, run: Run)
    requires ReadsDisjTail(t)
    ensures MeanDisjTail(t, run).None? <==> SomeUnresolvable(DisjTailOperands(t), run)
    decreases t, 2
  {
    if t.Or? {
      ConjUnreadable(t.right, run);
      DisjTailUnreadable(t.tail, run);
      UnresolvableUnion(ConjOperands(t.right), DisjTailOperands(t.tail), run);
    }
  }

  lemma {:induction false} UnreadableIff(d: Disj, run: Run)
    requires ReadsDisj(d)
    ensures MeanDisj(d, run).None? <==> SomeUnresolvable(Operands(d), run)
    decreases d, 2
  {
    ConjUnreadable(d.first, run);
    DisjTailUnreadable(d.tail, run);
    UnresolvableUnion(ConjOperands(d.first), DisjTailOperands(d.tail), run);
  }

  /** Unreadable exactly when an operand anywhere is unresolvable, whatever the other clauses answer. */
  lemma AggregateUnreadableIff(d: Disj, run: Run)
    requires ReadsDisj(d)
    ensures AggregateEvaluate(PrintDisj(d), run).None? <==> SomeUnresolvable(Operands(d), run)
  {
    AggregateMeans(d, run);
    UnreadableIff(d, run);
  }

  // ----- agreement with the evaluator on three values -----

  /** A context that holds what the run publishes under the names expressions use. */
  ghost predicate Publishes(ctx: Context, run: Run) {
    && EVENT_NAME in ctx && ctx[EVENT_NAME] == Text(run.event)
    && forall key :: key in run.outputs ==>
         OUTPUT_PREFIX + key in ctx && ctx[OUTPUT_PREFIX + key] == Text(run.outputs[key])
  }

  predicate IsLower(s: string) {
    Lower(s) == s
  }

  ghost predicate LowerRun(run: Run) {
    IsLower(run.event) && forall key :: key in run.outputs ==> IsLower(run.outputs[key])
  }

  ghost predicate LowerLiterals(ps: set<Prim>) {
    forall p :: p in ps && p.Quoted? ==> IsLower(p.text)
  }

  lemma OperandAgrees(p: Prim, ctx: Context, run: Run)
    requires IsOperand(p) && Operand(p, run).Some? && Publishes(ctx, run) && LowerRun(run)
    requires p.Quoted? ==> IsLower(p.text)
    ensures var v := EvalPrim(p, ctx); !v.Unknown? && Shown(v) == Operand(p, run).value
  {
    if p.Name? {
      var t := p.name;
      assert !IsQuoted(t);
      if t != EVENT_NAME {
        assert t == OUTPUT_PREFIX + t[|OUTPUT_PREFIX|..];
      }
    }
  }

  lemma {:induction false} CompAgrees(c: Comp, ctx: Context, run: Run)
    requires ReadsComp(c) && MeanComp(c, run).Some? && Publishes(ctx, run) && LowerRun(run) && LowerLiterals(CompOperands(c))
    ensures EvalComp(c, ctx) == Bool(MeanComp(c, run).value)
    decreases c, 0
  {
    hide ResolveOperand;
    if c.first.Paren? {
      DisjAgrees(c.first.d, ctx, run);
      assert EvalPrim(c.first, ctx) == EvalDisj(c.first.d, ctx);
    } else {
      assert c.first in CompOperands(c) && c.tail.right in CompOperands(c);
      OperandAgrees(c.first, ctx, run);
      OperandAgrees(c.tail.right, ctx, run);
      var left, right := EvalPrim(c.first, ctx), EvalPrim(c.tail.right, ctx);
      assert EvalCompTail(left, c.tail, ctx) == EvalCompTail(CompareValues(c.tail.op, left, right), CompEnd, ctx);
    }
  }

  lemma {:induction false} ConjTailAgrees(left: bool, t: ConjTail, ctx: Context, run: Run)
    requires ReadsConjTail(t) && MeanConjTail(t, run).Some? && Publishes(ctx, run) && LowerRun(run)
    requires LowerLiterals(ConjTailOperands(t))
    ensures EvalConjTail(Bool(left), t, ctx) == Bool(left && MeanConjTail(t, run).value)
    decreases t, 1
  {
    hide MeanComp, CompOperands;
    if t.And? {
      CompAgrees(t.right, ctx, run);
      ConjTailAgrees(left && MeanComp(t.right, run).value, t.tail, ctx, run);
    }
  }

  lemma {:induction false} ConjAgrees(c: Conj, ctx: Context, run: Run)
    requires ReadsConj(c) && MeanConj(c, run).Some? && Publishes(ctx, run) && LowerRun(run) && LowerLiterals(ConjOperands(c))
    ensures EvalConj(c, ctx) == Bool(MeanConj(c, run).value)
    decreases c, 1
  {
    hide MeanComp, CompOperands;
    CompAgrees(c.first, ctx, run);
    ConjTailAgrees(MeanComp(c.first, run).value, c.tail, ctx, run);
  }

  lemma {:induction false} DisjTailAgrees(left: bool, t: DisjTail, ctx: Context, run: Run)
    requires ReadsDisjTail(t) && MeanDisjTail(t, run).Some? && Publishes(ctx, run) && LowerRun(run)
    requires LowerLiterals(DisjTailOperands(t))
    ensures EvalDisjTail(Bool(left), t, ctx) == Bool(left || MeanDisjTail(t, run).value)
    decreases t, 2
  {
    hide MeanConj, ConjOperands;
    if t.Or? {
      ConjAgrees(t.right, ctx, run);
      DisjTailAgrees(left || MeanConj(t.right, run).value, t.tail, ctx, run);
    }
  }

  lemma {:induction false} DisjAgrees(d: Disj, ctx: Context, run: Run)
    requires ReadsDisj(d) && MeanDisj(d, run).Some? && Publishes(ctx, run) && LowerRun(run) && LowerLiterals(Operands(d))
    ensures EvalDisj(d, ctx) == Bool(MeanDisj(d, run).value)
    decreases d, 2
  {
    hide MeanConj, ConjOperands;
    ConjAgrees(d.first, ctx, run);
    DisjTailAgrees(MeanConj(d.first, run).value, d.tail, ctx, run);
  }

  lemma {:induction false} ReadsIsWf(d: Disj)
    requires ReadsDisj(d)
    ensures WfDisj(d)
    decreases d, 2
  {
    ReadsConjIsWf(d.first);
    ReadsDisjTailIsWf(d.tail);
  }

  lemma {:induction false} ReadsDisjTailIsWf(t: DisjTail)
    requires ReadsDisjTail(t)
    ensures WfDisjTail(t)
    decreases t, 2
  {
    if t.Or? {
      ReadsConjIsWf(t.right);
      ReadsDisjTailIsWf(t.tail);
    }
  }

  lemma {:induction false} ReadsConjIsWf(c: Conj)
    requires ReadsConj(c)
    ensures WfConj(c)
    decreases c, 1
  {
    ReadsCompIsWf(c.first);
    ReadsConjTailIsWf(c.tail);
  }

  lemma {:induction false} ReadsConjTailIsWf(t: ConjTail)
    requires ReadsConjTail(t)
    ensures WfConjTail(t)
    decreases t, 1
  {
    if t.And? {
      ReadsCompIsWf(t.right);
      ReadsConjTailIsWf(t.tail);
    }
  }

  lemma {:induction false} ReadsCompIsWf(c: Comp)
    requires ReadsComp(c)
    ensures WfComp(c)
    decreases c, 0
  {
    if c.first.Paren? {
      ReadsIsWf(c.first.d);
    } else {
      assert WfCompTail(CompEnd) && WfCompTail(c.tail);
    }
  }

  /** Where the gate's evaluator returns and values are lower case, the evaluator on three values, in a context
      that publishes the same, gives the same answer. */
  lemma EvaluatorsAgree(d: Disj, ctx: Context, run: Run)
    requires ReadsDisj(d) && AggregateEvaluate(PrintDisj(d), run).Some?
    requires Publishes(ctx, run) && LowerRun(run) && LowerLiterals(Operands(d))
    ensures EvaluateTokens(PrintDisj(d), ctx) == Bool(AggregateEvaluate(PrintDisj(d), run).value)
  {
    ReadsIsWf(d);
    AggregateMeans(d, run);
    EvaluatePrinted(d, ctx);
    DisjAgrees(d, ctx, run);
  }
}
