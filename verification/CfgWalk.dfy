/** The second reading: a walk over the attribute's token tree that folds "test-gated" upwards. */
module CfgWalk {
  import opened Bytes
  import opened Cfg

  /** The syntax tree of a `cfg(...)` argument. */
  datatype Node = Ident(name: string) | Tree(children: seq<Node>) | Comment | Other

  datatype Op = AllOp | AnyOp

  predicate SomeTrue(results: seq<bool>) {
    exists i :: 0 <= i < |results| && results[i]
  }

  predicate EveryTrue(results: seq<bool>) {
    forall i :: 0 <= i < |results| ==> results[i]
  }

  function SkipComments(nodes: seq<Node>): (rest: seq<Node>)
    ensures |rest| <= |nodes| && rest == nodes[|nodes| - |rest|..]
  {
    if nodes != [] && nodes[0].Comment? then SkipComments(nodes[1..]) else nodes
  }

  function Walk(nodes: seq<Node>, underNot: bool, op: Op): bool
    decreases nodes, 1
  {
    Folded(Results(nodes, underNot, op), op)
  }

  predicate Folded(results: seq<bool>, op: Op) {
    results != [] && if op == AnyOp then EveryTrue(results) else SomeTrue(results)
  }

  /** One result for each child predicate, in order. */
  function Results(nodes: seq<Node>, underNot: bool, op: Op): seq<bool>
    decreases nodes, 0
  {
    if nodes == [] then []
    else
      var child, rest := nodes[0], nodes[1..];
      if child.Ident? then
        var after := SkipComments(rest);
        if after != [] && after[0].Tree? then
          assert after[0] in nodes;
          Nested(child.name, after[0].children, underNot) + Results(after[1..], underNot, op)
        else [child.name == "test" && !underNot] + Results(rest, underNot, op)
      else if child.Tree? then
        assert child in nodes;
        [Walk(child.children, underNot, op)] + Results(rest, underNot, op)
      else Results(rest, underNot, op)
  }

  /** The result, if any, an identifier followed by a token tree adds. */
  function Nested(name: string, nested: seq<Node>, underNot: bool): seq<bool>
    decreases nested, 2
  {
    if name == "not" then [Walk(nested, !underNot, AllOp)]
    else if name == "all" then [Walk(nested, underNot, AllOp)]
    else if name == "any" then [Walk(nested, underNot, AnyOp)]
    else []
  }

  lemma StepIdent(nodes: seq<Node>, after: seq<Node>, underNot: bool, op: Op)
    requires nodes != [] && nodes[0].Ident? && after == SkipComments(nodes[1..])
    ensures Results(nodes, underNot, op) ==
              if after != [] && after[0].Tree?
              then Nested(nodes[0].name, after[0].children, underNot) + Results(after[1..], underNot, op)
              else [nodes[0].name == "test" && !underNot] + Results(nodes[1..], underNot, op)
  {
    hide Walk, Nested;
  }

  lemma StepOther(nodes: seq<Node>, underNot: bool, op: Op)
    requires nodes != [] && !nodes[0].Ident?
    ensures Results(nodes, underNot, op) ==
              (if nodes[0].Tree? then [Walk(nodes[0].children, underNot, op)] else []) + Results(nodes[1..], underNot, op)
  {
    hide Walk;
  }

  /** One round of the loop: what a child adds, and the index after it. */
  method StepLoop(nodes: seq<Node>, i: nat, underNot: bool, op: Op) returns (added: seq<bool>, next: nat)
    requires i < |nodes|
    ensures i < next <= |nodes| && Results(nodes[i..], underNot, op) == added + Results(nodes[next..], underNot, op)
    decreases nodes, 1
  {
    hide Results, Walk, Nested, SkipComments, Folded;
    var child := nodes[i];
    added, next := [], i + 1;
    assert child in nodes;
    if child.Ident? {
      var j := NextSibling(nodes, i + 1);
      if j < |nodes| && nodes[j].Tree? {
        assert nodes[j] in nodes;
        added := NestedLoop(child.name, nodes[j].children, underNot);
        next := j + 1;
        NestedAt(nodes, i, j, underNot, op);
      } else {
        added := [child.name == "test" && !underNot];
        BareAt(nodes, i, j, underNot, op);
      }
    } else {
      if child.Tree? {
        var r := WalkLoop(child.children, underNot, op);
        added := [r];
      }
      OtherAt(nodes, i, underNot, op);
    }
  }

  /** The source's form: an index over the children and a list of results. */
  method WalkLoop(nodes: seq<Node>, underNot: bool, op: Op) returns (gated: bool)
    ensures gated == Walk(nodes, underNot, op)
    decreases nodes, 2
  {
    hide Results, Walk, Nested, SkipComments, Folded;
    var results: seq<bool> := [];
    var i := 0;
    assert nodes[0..] == nodes && [] + Results(nodes, underNot, op) == Results(nodes, underNot, op);
    while i < |nodes|
      invariant 0 <= i <= |nodes| && results + Results(nodes[i..], underNot, op) == Results(nodes, underNot, op)
      decreases |nodes| - i
    {
      var added, next := StepLoop(nodes, i, underNot, op);
      Reassociate(results, added, Results(nodes[next..], underNot, op));
      results := results + added;
      i := next;
    }
    NoResults(underNot, op);
    assert nodes[i..] == [] && results + [] == results;
    WalkIsFolded(nodes, underNot, op);
    gated := Folded(results, op);
  }

  lemma WalkIsFolded(nodes: seq<Node>, underNot: bool, op: Op)
    ensures Walk(nodes, underNot, op) == Folded(Results(nodes, underNot, op), op)
  {
  }

  lemma NestedAt(nodes: seq<Node>, i: nat, j: nat, underNot: bool, op: Op)
    requires i < j < |nodes| && nodes[i].Ident? && nodes[j].Tree? && SkipComments(nodes[i + 1..]) == nodes[j..]
    ensures Results(nodes[i..], underNot, op)
         == Nested(nodes[i].name, nodes[j].children, underNot) + Results(nodes[j + 1..], underNot, op)
  {
    hide Results, Nested, SkipComments;
    assert nodes[i..][1..] == nodes[i + 1..] && nodes[j..][1..] == nodes[j + 1..];
    StepIdent(nodes[i..], nodes[j..], underNot, op);
  }

  lemma BareAt(nodes: seq<Node>, i: nat, j: nat, underNot: bool, op: Op)
    requires i < j <= |nodes| && nodes[i].Ident? && SkipComments(nodes[i + 1..]) == nodes[j..]
    requires j == |nodes| || !nodes[j].Tree?
    ensures Results(nodes[i..], underNot, op)
         == [nodes[i].name == "test" && !underNot] + Results(nodes[i + 1..], underNot, op)
  {
    hide Results, SkipComments;
    assert nodes[i..][1..] == nodes[i + 1..];
    StepIdent(nodes[i..], nodes[j..], underNot, op);
  }

  lemma OtherAt(nodes: seq<Node>, i: nat, underNot: bool, op: Op)
    requires i < |nodes| && !nodes[i].Ident?
    ensures Results(nodes[i..], underNot, op) ==
              (if nodes[i].Tree? then [Walk(nodes[i].children, underNot, op)] else []) + Results(nodes[i + 1..], underNot, op)
  {
    hide Results, Walk;
    assert nodes[i..][1..] == nodes[i + 1..];
    StepOther(nodes[i..], underNot, op);
  }

  method NestedLoop(name: string, nested: seq<Node>, underNot: bool) returns (added: seq<bool>)
    ensures added == Nested(name, nested, underNot)
    decreases nested, 3
  {
    hide Walk;
    if name == "not" {
      var r := WalkLoop(nested, !underNot, AllOp);
      return [r];
    } else if name == "all" {
      var r := WalkLoop(nested, underNot, AllOp);
      return [r];
    } else if name == "any" {
      var r := WalkLoop(nested, underNot, AnyOp);
      return [r];
    }
    return [];
  }

  /** The index of the first child from i on that is no comment. */
  method NextSibling(nodes: seq<Node>, i: nat) returns (j: nat)
    requires i <= |nodes|
    ensures i <= j <= |nodes| && SkipComments(nodes[i..]) == nodes[j..]
  {
    j := i;
    while j < |nodes| && nodes[j].Comment?
      invariant i <= j <= |nodes| && SkipComments(nodes[j..]) == SkipComments(nodes[i..])
    {
      assert nodes[j..][1..] == nodes[j + 1..];
      j := j + 1;
    }
  }

  lemma Reassociate(a: seq<bool>, b: seq<bool>, c: seq<bool>)
    ensures a + (b + c) == a + b + c
  {
  }

  // ----- comments -----

  /** The tree without its comments, at every depth. */
  function Stripped(nodes: seq<Node>): seq<Node>
    decreases nodes
  {
    if nodes == [] then []
    else
      var child, rest := nodes[0], Stripped(nodes[1..]);
      assert child in nodes;
      if child.Comment? then rest
      else [if child.Tree? then Tree(Stripped(child.children)) else child] + rest
  }

  lemma {:induction false} StrippedSkips(nodes: seq<Node>)
    ensures Stripped(SkipComments(nodes)) == Stripped(nodes)
    ensures SkipComments(Stripped(nodes)) == Stripped(nodes)
    decreases nodes
  {
    if nodes != [] {
      StrippedSkips(nodes[1..]);
    }
  }

  lemma {:induction false} StrippedNested(name: string, nested: seq<Node>, underNot: bool)
    ensures Nested(name, Stripped(nested), underNot) == Nested(name, nested, underNot)
    decreases nested, 2
  {
    hide Walk, Stripped;
    CommentsIgnored(nested, !underNot, AllOp);
    CommentsIgnored(nested, underNot, AllOp);
    CommentsIgnored(nested, underNot, AnyOp);
  }

  lemma {:induction false} StrippedResults(nodes: seq<Node>, underNot: bool, op: Op)
    ensures Results(Stripped(nodes), underNot, op) == Results(nodes, underNot, op)
    decreases nodes, 0
  {
    hide Results, Walk, Nested, SkipComments;
    if nodes != [] {
      var child, rest := nodes[0], nodes[1..];
      var stripped := Stripped(nodes);
      assert child in nodes;
      StrippedResults(rest, underNot, op);
      if child.Ident? {
        var after := SkipComments(rest);
        StrippedSkips(rest);
        SkippedStart(rest);
        assert stripped[0] == child && stripped[1..] == Stripped(rest);
        StepIdent(nodes, after, underNot, op);
        StepIdent(stripped, Stripped(after), underNot, op);
        if after != [] && after[0].Tree? {
          assert after[0] in nodes;
          StrippedNested(child.name, after[0].children, underNot);
          StrippedResults(after[1..], underNot, op);
          assert Stripped(after)[0] == Tree(Stripped(after[0].children)) && Stripped(after)[1..] == Stripped(after[1..]);
        }
      } else {
        StepOther(nodes, underNot, op);
        if child.Tree? {
          CommentsIgnored(child.children, underNot, op);
        }
        if !child.Comment? {
          assert stripped[1..] == Stripped(rest);
          StepOther(stripped, underNot, op);
        }
      }
    }
  }

  lemma SkippedStart(nodes: seq<Node>)
    ensures var after := SkipComments(nodes);
            && (after != [] ==> !after[0].Comment? && after[0] in nodes)
            && (after != [] ==> Stripped(after) != [] && (Stripped(after)[0].Tree? <==> after[0].Tree?))
            && (after == [] ==> Stripped(after) == [])
  {
    SkippedFirst(nodes);
  }

  lemma {:induction false} SkippedFirst(nodes: seq<Node>)
    ensures var after := SkipComments(nodes); after != [] ==> !after[0].Comment? && after[0] in nodes
    decreases nodes
  {
    if nodes != [] {
      SkippedFirst(nodes[1..]);
    }
  }

  /** Comments, wherever they stand, do not change what the walk finds. */
  lemma {:induction false} CommentsIgnored(nodes: seq<Node>, underNot: bool, op: Op)
    ensures Walk(Stripped(nodes), underNot, op) == Walk(nodes, underNot, op)
    decreases nodes, 1
  {
    hide Results, Stripped;
    StrippedResults(nodes, underNot, op);
  }

  // ----- the walk over a predicate's tree -----

  function Nodes(p: Pred): seq<Node>
    decreases p, 0
  {
    match p
    case Option(name) => [Ident(name)]
    case KeyValue(name, _) => [Ident(name), Other, Other]
    case All(ps, comma) => [Ident("all"), Tree([Other] + NodesList(ps, comma) + [Other])]
    case Any(ps, comma) => [Ident("any"), Tree([Other] + NodesList(ps, comma) + [Other])]
    case Not(q, comma) => [Ident("not"), Tree([Other] + Nodes(q) + (if comma then [Other] else []) + [Other])]
  }

  function NodesList(ps: seq<Pred>, comma: bool): seq<Node>
    decreases ps
  {
    if ps == [] then []
    else Nodes(ps[0]) + (if |ps| > 1 || comma then [Other] else []) + NodesList(ps[1..], comma)
  }

  /** What the walk folds, on the predicate itself. */
  function Gated(p: Pred, underNot: bool): bool
    decreases p, 0
  {
    match p
    case Option(name) => name == "test" && !underNot
    case KeyValue(name, _) => name == "test" && !underNot
    case All(ps, _) => SomeTrue(GatedList(ps, underNot))
    case Any(ps, _) => ps != [] && EveryTrue(GatedList(ps, underNot))
    case Not(q, _) => Gated(q, !underNot)
  }

  function GatedList(ps: seq<Pred>, underNot: bool): (rs: seq<bool>)
    ensures |rs| == |ps|
    decreases ps
  {
    if ps == [] then [] else [Gated(ps[0], underNot)] + GatedList(ps[1..], underNot)
  }

  lemma {:induction false} GatedAt(ps: seq<Pred>, underNot: bool, i: nat)
    requires i < |ps|
    ensures GatedList(ps, underNot)[i] == Gated(ps[i], underNot)
  {
    if i > 0 {
      GatedAt(ps[1..], underNot, i - 1);
    }
  }

  predicate Separated(rest: seq<Node>) {
    rest == [] || rest[0].Other?
  }

  lemma OtherIsSkipped(rest: seq<Node>, underNot: bool, op: Op)
    ensures Results([Other] + rest, underNot, op) == Results(rest, underNot, op)
  {
    assert ([Other] + rest)[1..] == rest;
  }

  lemma {:induction false} ResultsOf(p: Pred, rest: seq<Node>, underNot: bool, op: Op)
    requires Separated(rest)
    ensures Results(Nodes(p) + rest, underNot, op) == [Gated(p, underNot)] + Results(rest, underNot, op)
    decreases p, 1
  {
    hide Results, Walk;
    match p
    case Option(name) => BareName(name, rest, underNot, op);
    case KeyValue(name, _) =>
      assert Nodes(p) + rest == [Ident(name)] + ([Other] + ([Other] + rest));
      BareName(name, [Other] + ([Other] + rest), underNot, op);
      OtherIsSkipped([Other] + rest, underNot, op);
      OtherIsSkipped(rest, underNot, op);
    case All(ps, comma) =>
      WalkList(ps, comma, underNot, AllOp);
      Combinator("all", [Other] + NodesList(ps, comma) + [Other], rest, underNot, op);
    case Any(ps, comma) =>
      WalkList(ps, comma, underNot, AnyOp);
      Combinator("any", [Other] + NodesList(ps, comma) + [Other], rest, underNot, op);
    case Not(q, comma) =>
      WalkOne(q, comma, !underNot);
      Combinator("not", [Other] + Nodes(q) + (if comma then [Other] else []) + [Other], rest, underNot, op);
  }

  lemma BareName(name: string, rest: seq<Node>, underNot: bool, op: Op)
    requires Separated(rest)
    ensures Results([Ident(name)] + rest, underNot, op) == [name == "test" && !underNot] + Results(rest, underNot, op)
  {
    assert ([Ident(name)] + rest)[1..] == rest;
  }

  lemma Combinator(name: string, nested: seq<Node>, rest: seq<Node>, underNot: bool, op: Op)
    ensures Results([Ident(name), Tree(nested)] + rest, underNot, op) == Nested(name, nested, underNot) + Results(rest, underNot, op)
  {
    hide Walk, Results, Nested;
    var nodes := [Ident(name), Tree(nested)] + rest;
    assert nodes[1..] == [Tree(nested)] + rest && SkipComments(nodes[1..]) == nodes[1..] && nodes[1..][1..] == rest;
    StepIdent(nodes, nodes[1..], underNot, op);
  }

  lemma {:induction false} WalkList(ps: seq<Pred>, comma: bool, underNot: bool, op: Op)
    ensures Walk([Other] + NodesList(ps, comma) + [Other], underNot, op)
         == (ps != [] && if op == AnyOp then EveryTrue(GatedList(ps, underNot)) else SomeTrue(GatedList(ps, underNot)))
    decreases ps, 2
  {
    hide Results;
    assert [Other] + NodesList(ps, comma) + [Other] == [Other] + (NodesList(ps, comma) + [Other]);
    OtherIsSkipped(NodesList(ps, comma) + [Other], underNot, op);
    ResultsOfList(ps, comma, underNot, op);
  }

  lemma {:induction false} ResultsOfList(ps: seq<Pred>, comma: bool, underNot: bool, op: Op)
    ensures Results(NodesList(ps, comma) + [Other], underNot, op) == GatedList(ps, underNot)
    decreases ps, 1
  {
    hide Results;
    if ps == [] {
      assert [] + [Other] == [Other] + [];
      OtherIsSkipped([], underNot, op);
      NoResults(underNot, op);
    } else {
      var sep := if |ps| > 1 || comma then [Other] else [];
      var more := NodesList(ps[1..], comma) + [Other];
      assert NodesList(ps, comma) + [Other] == Nodes(ps[0]) + (sep + more);
      if sep == [] {
        assert more == [Other] && sep + more == [Other];
      } else {
        OtherIsSkipped(more, underNot, op);
      }
      ResultsOf(ps[0], sep + more, underNot, op);
      ResultsOfList(ps[1..], comma, underNot, op);
    }
  }

  lemma NoResults(underNot: bool, op: Op)
    ensures Results([], underNot, op) == []
  {
  }

  lemma {:induction false} WalkOne(q: Pred, comma: bool, underNot: bool)
    ensures Walk([Other] + Nodes(q) + (if comma then [Other] else []) + [Other], underNot, AllOp) == Gated(q, underNot)
    decreases q, 2
  {
    hide Results;
    var end := (if comma then [Other] else []) + [Other];
    var nodes := [Other] + Nodes(q) + (if comma then [Other] else []) + [Other];
    assert nodes == [Other] + (Nodes(q) + end);
    OtherIsSkipped(Nodes(q) + end, underNot, AllOp);
    ResultsOf(q, end, underNot, AllOp);
    assert end == [Other] + (if comma then [Other] else []);
    OtherIsSkipped(if comma then [Other] else [], underNot, AllOp);
    assert [Other] == [Other] + [];
    OtherIsSkipped([], underNot, AllOp);
    NoResults(underNot, AllOp);
    var results := Results(nodes, underNot, AllOp);
    assert results == [Gated(q, underNot)];
    assert results[0] ==> SomeTrue(results);
  }

  /** The top level is the implicit conjunction around one predicate. */
  function TestGated(p: Pred): bool {
    Walk([Other] + Nodes(p) + [Other], false, AllOp)
  }

  lemma TestGatedIs(p: Pred)
    ensures TestGated(p) == Gated(p, false)
  {
    hide Walk, Gated;
    WalkOne(p, false, false);
    assert [Other] + Nodes(p) + [] + [Other] == [Other] + Nodes(p) + [Other];
  }

  // ----- how the two readings relate -----

  predicate NoNot(p: Pred)
    decreases p
  {
    match p
    case All(ps, _) => forall q :: q in ps ==> NoNot(q)
    case Any(ps, _) => forall q :: q in ps ==> NoNot(q)
    case Not(_, _) => false
    case _ => true
  }

  /** No `not` inside a `not`. */
  predicate NoNestedNot(p: Pred)
    decreases p
  {
    match p
    case All(ps, _) => forall q :: q in ps ==> NoNestedNot(q)
    case Any(ps, _) => forall q :: q in ps ==> NoNestedNot(q)
    case Not(q, _) => NoNot(q)
    case _ => true
  }

  /** No key-value pair whose key is `test`. */
  predicate NoTestKey(p: Pred)
    decreases p
  {
    match p
    case KeyValue(name, _) => name != "test"
    case All(ps, _) => forall q :: q in ps ==> NoTestKey(q)
    case Any(ps, _) => forall q :: q in ps ==> NoTestKey(q)
    case Not(q, _) => NoTestKey(q)
    case _ => true
  }

  predicate NoEmptyAny(p: Pred)
    decreases p
  {
    match p
    case All(ps, _) => forall q :: q in ps ==> NoEmptyAny(q)
    case Any(ps, _) => ps != [] && forall q :: q in ps ==> NoEmptyAny(q)
    case Not(q, _) => NoEmptyAny(q)
    case _ => true
  }

  /** Under one `not` the walk never reports. */
  lemma {:induction false} UnderNotNeverGated(p: Pred)
    requires NoNot(p)
    ensures !Gated(p, true)
    decreases p
  {
    if p.All? || p.Any? {
      forall i | 0 <= i < |p.ps|
        ensures !GatedList(p.ps, true)[i]
      {
        UnderNotNeverGated(p.ps[i]);
        GatedAt(p.ps, true, i);
      }
      assert p.ps != [] ==> !GatedList(p.ps, true)[0];
    }
  }

  /** What the walk calls test-gated, the other reading finds false without `test`. */
  lemma {:induction false} GatedIsFalse(p: Pred)
    requires NoNestedNot(p) && NoTestKey(p) && Gated(p, false)
    ensures Value(p) == FALSE
    decreases p
  {
    match p
    case Option(_) =>
    case KeyValue(_, _) =>
    case Not(q, _) => UnderNotNeverGated(q);
    case All(ps, _) =>
      var i :| 0 <= i < |ps| && GatedList(ps, false)[i];
      GatedAt(ps, false, i);
      GatedIsFalse(ps[i]);
      ValuesAt(ps, i);
      assert Values(ps)[i] in Values(ps);
    case Any(ps, _) =>
      forall i | 0 <= i < |ps|
        ensures Values(ps)[i] == FALSE
      {
        GatedAt(ps, false, i);
        GatedIsFalse(ps[i]);
        ValuesAt(ps, i);
      }
  }

  /** Without `not`, and with no empty `any`, the two readings decide the same. */
  lemma {:induction false} FalseIsGated(p: Pred)
    requires NoNot(p) && NoTestKey(p) && NoEmptyAny(p)
    ensures Value(p) == FALSE ==> Gated(p, false)
    decreases p
  {
    match p
    case Option(_) =>
    case KeyValue(_, _) =>
    case All(ps, _) =>
      if Value(p) == FALSE {
        var i :| 0 <= i < |ps| && Values(ps)[i] == FALSE;
        ValuesAt(ps, i);
        FalseIsGated(ps[i]);
        GatedAt(ps, false, i);
      }
    case Any(ps, _) =>
      if Value(p) == FALSE {
        forall i | 0 <= i < |ps|
          ensures GatedList(ps, false)[i]
        {
          assert Values(ps)[i] in Values(ps);
          ValuesAt(ps, i);
          FalseIsGated(ps[i]);
          GatedAt(ps, false, i);
        }
      }
  }

  /** The two checks on one attribute: a test-gated one is excluded from production, and the converse holds where
      nothing is negated. */
  lemma GatesAgree(p: Pred)
    requires Wf(p) && NoNestedNot(p) && NoTestKey(p)
    ensures TestGated(p) ==> ExcludesProduction(Print(p))
    ensures NoNot(p) && NoEmptyAny(p) && ExcludesProduction(Print(p)) ==> TestGated(p)
  {
    TestGatedIs(p);
    ExcludesIff(p);
    if Gated(p, false) {
      GatedIsFalse(p);
    }
    if NoNot(p) && NoEmptyAny(p) {
      FalseIsGated(p);
    }
  }

  // ----- each side condition is needed -----

  /** `not(all(not(test), a))` and `test = "x"` are called test-gated and not excluded: the first breaks only the
      condition on nested `not`, the second only the one on a key named `test`. */
  lemma GatedNotExcluded()
    ensures var p := Not(All([Not(Option("test"), false), Option("a")], false), false);
            Wf(p) && !NoNestedNot(p) && NoTestKey(p) && TestGated(p) && !ExcludesProduction(Print(p))
    ensures var p := KeyValue("test", "\"x\"");
            Wf(p) && NoNestedNot(p) && !NoTestKey(p) && TestGated(p) && !ExcludesProduction(Print(p))
  {
    var inner := [Not(Option("test"), false), Option("a")];
    var nested := Not(All(inner, false), false);
    TestGatedIs(nested);
    GatedAt(inner, true, 0);
    assert Gated(inner[0], true) == Gated(Option("test"), false) == true;
    assert GatedList(inner, true)[0];
    assert Gated(All(inner, false), true);
    NestedValue();
    Words();
    assert Wf(inner[0]) && Wf(inner[1]) && !NoNot(inner[0]);
    ExcludesIff(nested);
    TestGatedIs(KeyValue("test", "\"x\""));
    ExcludesIff(KeyValue("test", "\"x\""));
  }

  lemma Words()
    ensures IsIdentifier("test") && IsIdentifier("a") && IsString("\"x\"")
  {
  }

  lemma NestedValue()
    ensures Value(Not(All([Not(Option("test"), false), Option("a")], false), false)) == None
  {
    var inner := [Not(Option("test"), false), Option("a")];
    ValuesAt(inner, 0);
    ValuesAt(inner, 1);
    assert Value(Option("test")) == FALSE && Value(inner[0]) == TRUE && Value(inner[1]) == None;
    assert Values(inner) == [TRUE, None];
    assert [TRUE, None][1] in [TRUE, None];
    assert Value(All(inner, false)) == None;
  }

  /** `any()` and `not(all())` are excluded and not called test-gated: the first breaks only the condition on an empty
      `any`, the second only the one on `not`. */
  lemma ExcludedNotGated()
    ensures var p := Any([], false);
            Wf(p) && NoNot(p) && NoTestKey(p) && !NoEmptyAny(p) && ExcludesProduction(Print(p)) && !TestGated(p)
    ensures var p := Not(All([], false), false);
            Wf(p) && !NoNot(p) && NoNestedNot(p) && NoTestKey(p) && NoEmptyAny(p) && ExcludesProduction(Print(p)) && !TestGated(p)
  {
    var none, no := Any([], false), Not(All([], false), false);
    TestGatedIs(none);
    TestGatedIs(no);
    assert Value(none) == FALSE;
    assert Value(All([], false)) == TRUE && Value(no) == FALSE;
    assert Wf(All([], false)) && NoNot(All([], false)) && NoTestKey(All([], false)) && NoEmptyAny(All([], false));
    assert !Gated(All([], false), true);
    ExcludesIff(none);
    ExcludesIff(no);
  }
}
