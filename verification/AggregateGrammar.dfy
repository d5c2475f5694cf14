/** The merge gate's evaluator answers on nothing but expressions of its grammar. */
module AggregateGrammar {
  import opened Lexing
  import opened Expressions
  import opened Grammar
  import opened Aggregate

  /** What the tokenizer cuts text into. */
  predicate IsToken(t: string) {
    t in OPERATORS || IsQuoted(t) || (t != "" && NameStart(t[0]))
  }

  ghost predicate AllTokens(ts: seq<string>) {
    forall i :: 0 <= i < |ts| ==> IsToken(ts[i])
  }

  ghost predicate LowerTokens(ts: seq<string>) {
    forall i :: 0 <= i < |ts| && IsQuoted(ts[i]) ==> IsLower(ts[i])
  }

  /** No operand stands next to an operand. */
  ghost predicate NoPair(ts: seq<string>) {
    forall i, j :: 0 <= i < j < |ts| && j == i + 1 ==> ts[i] in OPERATORS || ts[j] in OPERATORS
  }

  lemma NoPairJoin(a: seq<string>, b: seq<string>)
    requires NoPair(a) && NoPair(b) && (a == [] || b == [] || a[|a| - 1] in OPERATORS || b[0] in OPERATORS)
    ensures NoPair(a + b)
  {
  }

  lemma NoPairSmall(t: string)
    ensures NoPair([]) && NoPair([t])
  {
  }

  /** An operator, a stretch after it, and a stretch that starts with an operator. */
  lemma NoPairChain(op: string, a: seq<string>, b: seq<string>)
    requires op in OPERATORS && NoPair(a) && NoPair(b) && (b == [] || b[0] in OPERATORS)
    ensures NoPair([op] + a + b)
  {
    NoPairSmall(op);
    NoPairJoin([op], a);
    NoPairJoin([op] + a, b);
  }

  lemma NoPairComparison(left: string, op: string, right: string)
    requires op in OPERATORS
    ensures NoPair([left, op, right])
  {
  }

  lemma LowerUnion(a: set<Prim>, b: set<Prim>)
    requires LowerLiterals(a) && LowerLiterals(b)
    ensures LowerLiterals(a + b)
  {
  }

  lemma LowerQuoted(text: string)
    ensures IsLower("'" + text + "'") <==> IsLower(text)
  {
    var t, lower := "'" + text + "'", Lower(text);
    assert Lower("'") == "'" by { assert "'"[1..] == ""; }
    LowerConcat("'" + text, "'");
    LowerConcat("'", text);
    assert t[1..|t| - 1] == text && ("'" + lower + "'")[1..|lower| + 1] == lower;
  }

  lemma OperandParsed(t: string) returns (p: Prim)
    requires IsToken(t) && t !in OPERATORS
    ensures IsOperand(p) && PrintPrim(p) == [t]
    ensures p.Quoted? ==> IsQuoted(t) && (IsLower(t) ==> IsLower(p.text))
  {
    if IsQuoted(t) {
      var text := t[1..|t| - 1];
      EscapePlain(text);
      assert t == "'" + text + "'";
      LowerQuoted(text);
      p := Quoted(text);
    } else if t == "true" || t == "false" {
      p := Lit(t == "true");
    } else {
      p := Name(t);
    }
  }

  lemma {:induction false} TermParsed(ts: seq<string>, run: Aggregate.Run) returns (c: Comp)
    requires TermOf(ts, run).Read? && AllTokens(ts)
    ensures ReadsComp(c) && ts == PrintComp(c) + TermOf(ts, run).rest && NoPair(PrintComp(c))
    ensures LowerTokens(ts) ==> LowerLiterals(CompOperands(c))
    decreases |ts|, 0
  {
    hide ResolveOperand, IsToken, IsQuoted, IsLower, NoPair;
    if ts[0] == "(" {
      var inner := DisjunctionOf(ts[1..], run);
      var d := DisjParsed(ts[1..], run);
      c := Comp(Paren(d), CompEnd);
      NoPairSmall(")");
      NoPairChain("(", PrintDisj(d), [")"]);
      assert PrintComp(c) == ["("] + PrintDisj(d) + [")"];
      Regrouped(ts, "(", PrintDisj(d), [")"], inner.rest[1..]);
    } else {
      var left := OperandParsed(ts[0]);
      var right := OperandParsed(ts[2]);
      c := Comp(left, Compare(ts[1], right, CompEnd));
      assert PrintCompTail(CompEnd) == [];
      assert PrintCompTail(c.tail) == [ts[1], ts[2]];
      assert PrintComp(c) == [ts[0], ts[1], ts[2]];
      assert ts == [ts[0], ts[1], ts[2]] + ts[3..];
      NoPairComparison(ts[0], ts[1], ts[2]);
    }
  }

  lemma Regrouped(ts: seq<string>, op: string, a: seq<string>, b: seq<string>, rest: seq<string>)
    requires ts != [] && ts[0] == op && ts[1..] == a + (b + rest)
    ensures ts == [op] + a + b + rest
  {
  }

  lemma {:induction false} TermsParsed(all: bool, ts: seq<string>, run: Aggregate.Run) returns (t: ConjTail)
    requires MoreTerms(all, ts, run).Read? && AllTokens(ts)
    ensures ReadsConjTail(t) && ts == PrintConjTail(t) + MoreTerms(all, ts, run).rest && NoPair(PrintConjTail(t))
    ensures PrintConjTail(t) == [] || PrintConjTail(t)[0] in OPERATORS
    ensures LowerTokens(ts) ==> LowerLiterals(ConjTailOperands(t))
    decreases |ts|, 1
  {
    hide NoPair, LowerTokens, AllTokens, TermOf, MoreTerms, CompOperands, PrintComp, ReadsComp;
    MoreTermsStep(all, ts, run);
    if ts != [] && ts[0] == "&&" {
      assert ts == ["&&"] + ts[1..];
      Suffix(ts, ["&&"], ts[1..]);
      var first := TermOf(ts[1..], run);
      var c := TermParsed(ts[1..], run);
      Suffix(ts[1..], PrintComp(c), first.rest);
      var more := TermsParsed(all && first.b, first.rest, run);
      t := And(c, more);
      NoPairChain("&&", PrintComp(c), PrintConjTail(more));
      if LowerTokens(ts) {
        LowerUnion(CompOperands(c), ConjTailOperands(more));
      }
      Regrouped(ts, "&&", PrintComp(c), PrintConjTail(more), MoreTerms(all, ts, run).rest);
    } else {
      t := ConjEnd;
      NoPairSmall("");
    }
  }

  lemma Suffix(ts: seq<string>, front: seq<string>, rest: seq<string>)
    requires ts == front + rest
    ensures AllTokens(ts) ==> AllTokens(rest)
    ensures LowerTokens(ts) ==> LowerTokens(rest)
  {
    hide IsToken, IsQuoted, IsLower;
    assert forall i :: 0 <= i < |rest| ==> rest[i] == ts[|front| + i];
  }

  lemma {:induction false} ConjParsed(ts: seq<string>, run: Aggregate.Run) returns (c: Conj)
    requires ConjunctionOf(ts, run).Read? && AllTokens(ts)
    ensures ReadsConj(c) && ts == PrintConj(c) + ConjunctionOf(ts, run).rest && NoPair(PrintConj(c))
    ensures LowerTokens(ts) ==> LowerLiterals(ConjOperands(c))
    decreases |ts|, 2
  {
    hide NoPair, LowerTokens, AllTokens, TermOf, MoreTerms, CompOperands, PrintComp, ReadsComp;
    var first := TermOf(ts, run);
    var comp := TermParsed(ts, run);
    Suffix(ts, PrintComp(comp), first.rest);
    var tail := TermsParsed(first.b, first.rest, run);
    c := Conj(comp, tail);
    NoPairJoin(PrintComp(comp), PrintConjTail(tail));
  }

  lemma {:induction false} ConjsParsed(any: bool, ts: seq<string>, run: Aggregate.Run) returns (t: DisjTail)
    requires MoreConjunctions(any, ts, run).Read? && AllTokens(ts)
    ensures ReadsDisjTail(t) && ts == PrintDisjTail(t) + MoreConjunctions(any, ts, run).rest && NoPair(PrintDisjTail(t))
    ensures PrintDisjTail(t) == [] || PrintDisjTail(t)[0] in OPERATORS
    ensures LowerTokens(ts) ==> LowerLiterals(DisjTailOperands(t))
    decreases |ts|, 2
  {
    hide NoPair, LowerTokens, AllTokens, ConjunctionOf, MoreConjunctions, ConjOperands, PrintConj, ReadsConj;
    MoreConjunctionsStep(any, ts, run);
    if ts != [] && ts[0] == "||" {
      assert ts == ["||"] + ts[1..];
      Suffix(ts, ["||"], ts[1..]);
      var first := ConjunctionOf(ts[1..], run);
      var c := ConjParsed(ts[1..], run);
      Suffix(ts[1..], PrintConj(c), first.rest);
      var more := ConjsParsed(any || first.b, first.rest, run);
      t := Or(c, more);
      NoPairChain("||", PrintConj(c), PrintDisjTail(more));
      if LowerTokens(ts) {
        LowerUnion(ConjOperands(c), DisjTailOperands(more));
      }
      Regrouped(ts, "||", PrintConj(c), PrintDisjTail(more), MoreConjunctions(any, ts, run).rest);
    } else {
      t := DisjEnd;
      NoPairSmall("");
    }
  }

  lemma {:induction false} DisjParsed(ts: seq<string>, run: Aggregate.Run) returns (d: Disj)
    requires DisjunctionOf(ts, run).Read? && AllTokens(ts)
    ensures ReadsDisj(d) && ts == PrintDisj(d) + DisjunctionOf(ts, run).rest && NoPair(PrintDisj(d))
    ensures LowerTokens(ts) ==> LowerLiterals(Operands(d))
    decreases |ts|, 3
  {
    hide NoPair, LowerTokens, AllTokens, ConjunctionOf, MoreConjunctions, ConjOperands, PrintConj, ReadsConj;
    var first := ConjunctionOf(ts, run);
    var conj := ConjParsed(ts, run);
    Suffix(ts, PrintConj(conj), first.rest);
    var tail := ConjsParsed(first.b, first.rest, run);
    d := Disj(conj, tail);
    NoPairJoin(PrintConj(conj), PrintDisjTail(tail));
  }

  /** Tokens on which the evaluator answers are the print of an expression of its grammar, every operand resolvable;
      and on such tokens it answers. */
  lemma AnswersIff(ts: seq<string>, run: Aggregate.Run)
    requires AllTokens(ts)
    ensures AggregateEvaluate(ts, run).Some? <==>
            exists d :: ReadsDisj(d) && ts == PrintDisj(d) && !SomeUnresolvable(Operands(d), run)
  {
    hide DisjunctionOf, ReadsDisj, PrintDisj, Operands, IsToken;
    if AggregateEvaluate(ts, run).Some? {
      var d := DisjParsed(ts, run);
      assert PrintDisj(d) + [] == PrintDisj(d);
      AggregateUnreadableIff(d, run);
    }
    if d :| ReadsDisj(d) && ts == PrintDisj(d) && !SomeUnresolvable(Operands(d), run) {
      AggregateUnreadableIff(d, run);
    }
  }
}
