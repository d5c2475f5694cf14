/** What the token-level split finds in a printed expression. */
module Structure {
  import opened Bytes
  import opened Splitting
  import opened Grammar

  predicate Ordinary(t: string, op: string) {
    t != "(" && t != ")" && t != op
  }

  lemma SkipToken(t: string, rest: seq<string>, cur: seq<string>, depth: nat, op: string)
    requires Ordinary(t, op) || (depth >= 1 && t != "(" && t != ")")
    ensures SplitTokens([t] + rest, cur, depth, op) == SplitTokens(rest, cur + [t], depth, op)
  {
    assert ([t] + rest)[1..] == rest;
  }

  lemma OpenClose(rest: seq<string>, cur: seq<string>, depth: nat, op: string)
    ensures SplitTokens(["("] + rest, cur, depth, op) == SplitTokens(rest, cur + ["("], depth + 1, op)
    ensures depth >= 1 ==> SplitTokens([")"] + rest, cur, depth, op) == SplitTokens(rest, cur + [")"], depth - 1, op)
  {
    assert (["("] + rest)[1..] == rest && ([")"] + rest)[1..] == rest;
  }

  lemma {:induction false} SkipBalancedTokens(ts: seq<string>, rest: seq<string>, cur: seq<string>, inner: nat, depth: nat, op: string)
    requires Balanced(ts, inner) && depth >= 1 && Splitter(op)
    ensures SplitTokens(ts + rest, cur, inner + depth, op) == SplitTokens(rest, cur + ts, depth, op)
    decreases |ts|
  {
    if ts == [] {
      assert ts + rest == rest && cur + ts == cur;
    } else {
      var t, more := ts[0], ts[1..] + rest;
      assert ts + rest == [t] + more && cur + [t] + ts[1..] == cur + ts;
      if t == "(" {
        OpenClose(more, cur, inner + depth, op);
        SkipBalancedTokens(ts[1..], rest, cur + [t], inner + 1, depth, op);
      } else if t == ")" {
        OpenClose(more, cur, inner + depth, op);
        SkipBalancedTokens(ts[1..], rest, cur + [t], inner - 1, depth, op);
      } else {
        SkipToken(t, more, cur, inner + depth, op);
        SkipBalancedTokens(ts[1..], rest, cur + [t], inner, depth, op);
      }
    }
  }

  lemma LeafIsOrdinary(p: Prim, op: string)
    requires WfPrim(p) && Splitter(op) && (p.Quoted? || p.Num? || p.Lit? || p.Name?)
    ensures |PrintPrim(p)| == 1 && Ordinary(PrintPrim(p)[0], op)
  {
    var t := PrintPrim(p)[0];
    if p.Quoted? {
      assert t[0] == '\'';
    } else if p.Num? {
      NumberToken(t);
    }
  }

  /** A primary passes whole through every split. */
  lemma {:induction false} SkipPrim(p: Prim, rest: seq<string>, cur: seq<string>, depth: nat, op: string)
    requires WfPrim(p) && Splitter(op)
    ensures SplitTokens(PrintPrim(p) + rest, cur, depth, op) == SplitTokens(rest, cur + PrintPrim(p), depth, op)
    decreases p, 0
  {
    hide SplitTokens;
    match p
    case Paren(d) =>
      var ts, after := PrintDisj(d), [")"] + rest;
      assert PrintPrim(p) + rest == ["("] + (ts + after);
      OpenClose(ts + after, cur, depth, op);
      SkipDisj(d, after, cur + ["("], depth + 1, op);
      OpenClose(rest, cur + ["("] + ts, depth + 1, op);
      assert cur + ["("] + ts + [")"] == cur + PrintPrim(p);
    case Not(q) =>
      assert PrintPrim(p) + rest == ["!"] + (PrintPrim(q) + rest);
      SkipToken("!", PrintPrim(q) + rest, cur, depth, op);
      SkipPrim(q, rest, cur + ["!"], depth, op);
      assert cur + ["!"] + PrintPrim(q) == cur + PrintPrim(p);
    case Call(name, args) =>
      SkipCallTokens(name, args, rest, cur, depth, op);
    case _ =>
      LeafIsOrdinary(p, op);
      var t := PrintPrim(p)[0];
      assert PrintPrim(p) == [t];
      SkipToken(t, rest, cur, depth, op);
  }

  lemma SkipCallTokens(name: string, args: seq<string>, rest: seq<string>, cur: seq<string>, depth: nat, op: string)
    requires IsName(name) && Balanced(args, 0) && Splitter(op)
    ensures var ts := [name, "("] + args + [")"];
            SplitTokens(ts + rest, cur, depth, op) == SplitTokens(rest, cur + ts, depth, op)
  {
    hide SplitTokens;
    var ts, after := [name, "("] + args + [")"], [")"] + rest;
    assert ts + rest == [name] + (["("] + (args + after));
    SkipToken(name, ["("] + (args + after), cur, depth, op);
    OpenClose(args + after, cur + [name], depth, op);
    SkipBalancedTokens(args, after, cur + [name] + ["("], 0, depth + 1, op);
    OpenClose(rest, cur + [name] + ["("] + args, depth + 1, op);
    assert cur + [name] + ["("] + args + [")"] == cur + ts;
  }

  lemma {:induction false} SkipComp(c: Comp, rest: seq<string>, cur: seq<string>, depth: nat, op: string)
    requires WfComp(c) && Splitter(op)
    ensures SplitTokens(PrintComp(c) + rest, cur, depth, op) == SplitTokens(rest, cur + PrintComp(c), depth, op)
    decreases c, 1
  {
    hide SplitTokens, PrintPrim;
    var ts, after := PrintPrim(c.first), PrintCompTail(c.tail) + rest;
    assert PrintComp(c) + rest == ts + after && cur + ts + PrintCompTail(c.tail) == cur + PrintComp(c);
    SkipPrim(c.first, after, cur, depth, op);
    SkipCompTail(c.tail, rest, cur + ts, depth, op);
  }

  lemma {:induction false} SkipCompTail(t: CompTail, rest: seq<string>, cur: seq<string>, depth: nat, op: string)
    requires WfCompTail(t) && Splitter(op)
    ensures SplitTokens(PrintCompTail(t) + rest, cur, depth, op) == SplitTokens(rest, cur + PrintCompTail(t), depth, op)
    decreases t, 1
  {
    hide SplitTokens, PrintPrim;
    var all := PrintCompTail(t);
    if t.CompEnd? {
      assert all + rest == rest && cur + all == cur;
    } else {
      var ts, after := PrintPrim(t.right), PrintCompTail(t.tail) + rest;
      assert all + rest == [t.op] + (ts + after);
      SkipToken(t.op, ts + after, cur, depth, op);
      SkipPrim(t.right, after, cur + [t.op], depth, op);
      SkipCompTail(t.tail, rest, cur + [t.op] + ts, depth, op);
      assert cur + [t.op] + ts + PrintCompTail(t.tail) == cur + all;
    }
  }

  /** A conjunction passes whole through every split but the one at a top-level `&&`. */
  lemma {:induction false} SkipConj(c: Conj, rest: seq<string>, cur: seq<string>, depth: nat, op: string)
    requires WfConj(c) && Splitter(op) && (depth >= 1 || op != "&&")
    ensures SplitTokens(PrintConj(c) + rest, cur, depth, op) == SplitTokens(rest, cur + PrintConj(c), depth, op)
    decreases c, 2
  {
    hide SplitTokens, PrintComp;
    var ts, after := PrintComp(c.first), PrintConjTail(c.tail) + rest;
    assert PrintConj(c) + rest == ts + after && cur + ts + PrintConjTail(c.tail) == cur + PrintConj(c);
    SkipComp(c.first, after, cur, depth, op);
    SkipConjTail(c.tail, rest, cur + ts, depth, op);
  }

  lemma {:induction false} SkipConjTail(t: ConjTail, rest: seq<string>, cur: seq<string>, depth: nat, op: string)
    requires WfConjTail(t) && Splitter(op) && (depth >= 1 || op != "&&")
    ensures SplitTokens(PrintConjTail(t) + rest, cur, depth, op) == SplitTokens(rest, cur + PrintConjTail(t), depth, op)
    decreases t, 2
  {
    hide SplitTokens, PrintComp;
    var all := PrintConjTail(t);
    if t.ConjEnd? {
      assert all + rest == rest && cur + all == cur;
    } else {
      var ts, after := PrintComp(t.right), PrintConjTail(t.tail) + rest;
      assert all + rest == ["&&"] + (ts + after);
      SkipToken("&&", ts + after, cur, depth, op);
      SkipComp(t.right, after, cur + ["&&"], depth, op);
      SkipConjTail(t.tail, rest, cur + ["&&"] + ts, depth, op);
      assert cur + ["&&"] + ts + PrintConjTail(t.tail) == cur + all;
    }
  }

  lemma {:induction false} SkipDisj(d: Disj, rest: seq<string>, cur: seq<string>, depth: nat, op: string)
    requires WfDisj(d) && Splitter(op) && (depth >= 1 || op == "\0")
    ensures SplitTokens(PrintDisj(d) + rest, cur, depth, op) == SplitTokens(rest, cur + PrintDisj(d), depth, op)
    decreases d, 3
  {
    hide SplitTokens, PrintConj;
    var ts, after := PrintConj(d.first), PrintDisjTail(d.tail) + rest;
    assert PrintDisj(d) + rest == ts + after && cur + ts + PrintDisjTail(d.tail) == cur + PrintDisj(d);
    SkipConj(d.first, after, cur, depth, op);
    SkipDisjTail(d.tail, rest, cur + ts, depth, op);
  }

  lemma {:induction false} SkipDisjTail(t: DisjTail, rest: seq<string>, cur: seq<string>, depth: nat, op: string)
    requires WfDisjTail(t) && Splitter(op) && (depth >= 1 || op == "\0")
    ensures SplitTokens(PrintDisjTail(t) + rest, cur, depth, op) == SplitTokens(rest, cur + PrintDisjTail(t), depth, op)
    decreases t, 3
  {
    hide SplitTokens, PrintConj;
    var all := PrintDisjTail(t);
    if t.DisjEnd? {
      assert all + rest == rest && cur + all == cur;
    } else {
      var ts, after := PrintConj(t.right), PrintDisjTail(t.tail) + rest;
      assert all + rest == ["||"] + (ts + after);
      SkipToken("||", ts + after, cur, depth, op);
      SkipConj(t.right, after, cur + ["||"], depth, op);
      SkipDisjTail(t.tail, rest, cur + ["||"] + ts, depth, op);
      assert cur + ["||"] + ts + PrintDisjTail(t.tail) == cur + all;
    }
  }

  // ----- top-level structure -----

  function Comps(c: Conj): seq<Comp> {
    [c.first] + TailComps(c.tail)
  }

  function TailComps(t: ConjTail): seq<Comp>
    decreases t
  {
    if t.ConjEnd? then [] else [t.right] + TailComps(t.tail)
  }

  function Printed(cs: seq<Comp>): (tss: seq<seq<string>>)
    ensures |tss| == |cs| && forall i :: 0 <= i < |cs| ==> tss[i] == PrintComp(cs[i])
  {
    if cs == [] then [] else [PrintComp(cs[0])] + Printed(cs[1..])
  }

  /** The terms between top-level `&&` are the comparisons of the conjunction. */
  lemma SplitConj(c: Conj)
    requires WfConj(c)
    ensures SplitTokens(PrintConj(c), [], 0, "&&") == Some(Printed(Comps(c)))
  {
    hide SplitTokens, PrintComp;
    SkipComp(c.first, PrintConjTail(c.tail), [], 0, "&&");
    assert [] + PrintComp(c.first) == PrintComp(c.first);
    SplitConjTail(c.tail, PrintComp(c.first));
    assert Comps(c)[1..] == TailComps(c.tail);
  }

  lemma {:induction false} SplitConjTail(t: ConjTail, cur: seq<string>)
    requires WfConjTail(t)
    ensures SplitTokens(PrintConjTail(t), cur, 0, "&&") == Some([cur] + Printed(TailComps(t)))
    decreases t
  {
    hide PrintComp;
    if t.And? {
      var ts, after := PrintComp(t.right), PrintConjTail(t.tail);
      assert PrintConjTail(t)[0] == "&&" && PrintConjTail(t)[1..] == ts + after;
      SkipComp(t.right, after, [], 0, "&&");
      assert [] + ts == ts;
      SplitConjTail(t.tail, ts);
      assert TailComps(t)[1..] == TailComps(t.tail);
      assert [cur] + Printed(TailComps(t)) == [cur] + ([ts] + Printed(TailComps(t.tail)));
    } else {
      assert [cur] + [] == [cur];
    }
  }

  /** One part between top-level `||` means no disjunct but the first. */
  lemma SplitDisj(d: Disj)
    requires WfDisj(d) && SplitTokens(PrintDisj(d), [], 0, "||").Some?
    requires |SplitTokens(PrintDisj(d), [], 0, "||").value| == 1
    ensures d.tail == DisjEnd && PrintDisj(d) == PrintConj(d.first)
  {
    hide PrintConj;
    SkipConj(d.first, PrintDisjTail(d.tail), [], 0, "||");
    if d.tail.Or? {
      var t := d.tail;
      var ts := PrintDisjTail(t);
      assert ts[0] == "||";
      SplitIsNonempty(ts[1..], [], 0, "||");
    }
  }

  lemma {:induction false} SplitIsNonempty(ts: seq<string>, cur: seq<string>, depth: nat, op: string)
    ensures SplitTokens(ts, cur, depth, op).Some? ==> |SplitTokens(ts, cur, depth, op).value| >= 1
    decreases |ts|
  {
    if ts != [] {
      var t := ts[0];
      if t == "(" {
        SplitIsNonempty(ts[1..], cur + [t], depth + 1, op);
      } else if t == ")" {
        if depth > 0 { SplitIsNonempty(ts[1..], cur + [t], depth - 1, op); }
      } else if !(t == op && depth == 0) {
        SplitIsNonempty(ts[1..], cur + [t], depth, op);
      }
    }
  }

  function Alone(c: Comp): Disj {
    Disj(Conj(c, ConjEnd), DisjEnd)
  }

  lemma PrintAlone(c: Comp)
    ensures PrintDisj(Alone(c)) == PrintComp(c)
  {
    hide PrintComp;
    assert PrintConj(Conj(c, ConjEnd)) == PrintComp(c) + [] == PrintComp(c);
  }

  /** Only a parenthesised primary prints a first token `(`. */
  lemma FirstToken(p: Prim)
    requires WfPrim(p)
    ensures PrintPrim(p) != [] && (PrintPrim(p)[0] == "(" ==> p.Paren?)
  {
    match p
    case Paren(_) =>
    case Not(_) =>
    case Call(_, _) =>
    case _ => LeafIsOrdinary(p, "&&");
  }

  lemma CloseAtZero(rest: seq<string>, cur: seq<string>, op: string)
    ensures SplitTokens([")"] + rest, cur, 0, op) == None
  {
  }

  /** A pair of parentheses that encloses all tokens, what is inside balancing, is one parenthesised primary. */
  lemma EnclosedIsParen(d: Disj, inner: seq<string>) returns (d': Disj)
    requires WfDisj(d) && PrintDisj(d) == ["("] + inner + [")"] && SplitTokens(inner, [], 0, "\0").Some?
    ensures WfDisj(d') && PrintDisj(d') == inner && d == Alone(Comp(Paren(d'), CompEnd))
  {
    hide SplitTokens;
    var c := d.first.first;
    var p := c.first;
    var tail := PrintCompTail(c.tail) + PrintConjTail(d.first.tail) + PrintDisjTail(d.tail);
    assert WfConj(d.first) && WfComp(c) && WfPrim(p);
    FirstToken(p);
    assert PrintConj(d.first) == PrintComp(c) + PrintConjTail(d.first.tail);
    assert PrintDisj(d) == PrintPrim(p) + tail;
    assert PrintDisj(d)[0] == "(";
    d' := p.d;
    var ts := PrintDisj(d');
    assert PrintDisj(d)[1..] == inner + [")"] == ts + [")"] + tail;
    if tail != [] {
      var rest := tail[..|tail| - 1];
      assert inner == ts + ([")"] + rest) by {
        assert (inner + [")"])[..|inner|] == inner;
        assert (ts + [")"] + tail)[..|inner|] == ts + ([")"] + rest);
      }
      SkipDisj(d', [")"] + rest, [], 0, "\0");
      CloseAtZero(rest, [] + ts, "\0");
      assert false;
    }
    assert inner == ts by {
      assert (inner + [")"])[..|inner|] == inner && (ts + [")"])[..|ts|] == ts && ts + [")"] + [] == ts + [")"];
    }
    EmptyTails(c.tail, d.first.tail, d.tail);
  }

  lemma EmptyTails(c: CompTail, a: ConjTail, o: DisjTail)
    requires PrintCompTail(c) + PrintConjTail(a) + PrintDisjTail(o) == []
    ensures c == CompEnd && a == ConjEnd && o == DisjEnd
  {
  }
}
