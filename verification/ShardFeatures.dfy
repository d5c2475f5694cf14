/** Comparing a test shard's feature resolution with the whole workspace's, and searching for the features to name. */
module ShardFeatures {
  import opened Bytes

  /** Each resolved package, keyed `name version (path)`, with the feature sets it is built with. */
  type FeatureGraph = map<string, set<set<string>>>

  /** The part of a package key before its first space, or all of it. */
  function NameOf(package: string): (name: string)
    ensures name <= package && ' ' !in name && (|name| < |package| ==> package[|name|] == ' ')
  {
    if package == "" || package[0] == ' ' then "" else [package[0]] + NameOf(package[1..])
  }

  function Union(variants: set<set<string>>): (features: set<string>)
    ensures forall f :: f in features <==> exists v :: v in variants && f in v
  {
    set v, f | v in variants && f in v :: f
  }

  /** No package and no feature that the canonical resolution lacks. */
  ghost predicate Within(canonical: FeatureGraph, graph: FeatureGraph) {
    forall p :: p in graph ==> p in canonical && Union(graph[p]) <= Union(canonical[p])
  }

  // ----- comparing one shard with the canonical resolution -----

  datatype Failure =
    | NotCanonical(package: string)
    | Extra(package: string, features: set<string>)
    | Differs(package: string)
    | Absent(name: string)

  datatype Note = Lacks(name: string, features: set<string>)

  ghost predicate IsFailure(canonical: FeatureGraph, graph: FeatureGraph, selected: seq<string>, f: Failure) {
    match f
    case NotCanonical(p) => p in graph && p !in canonical
    case Extra(p, features) =>
      p in graph && p in canonical && features == Union(graph[p]) - Union(canonical[p]) && features != {}
    case Differs(p) => p in graph && p in canonical && NameOf(p) in selected && graph[p] != canonical[p]
    case Absent(name) => name in selected && forall p :: p in graph ==> NameOf(p) != name
  }

  /** An unselected package that lacks canonical features: not a failure. */
  ghost predicate IsNote(canonical: FeatureGraph, graph: FeatureGraph, selected: seq<string>, package: string, n: Note) {
    && package in graph && package in canonical && NameOf(package) !in selected
    && n.features != {} && n == Lacks(NameOf(package), Union(canonical[package]) - Union(graph[package]))
  }

  /** The failures and the notes of one resolved package. */
  method PackageFailures(canonical: FeatureGraph, graph: FeatureGraph, selected: seq<string>, package: string)
    returns (failures: seq<Failure>, notes: seq<Note>)
    requires package in graph
    ensures forall f :: f in failures <==> IsFailure(canonical, graph, selected, f) && !f.Absent? && f.package == package
    ensures forall n :: n in notes <==> IsNote(canonical, graph, selected, package, n)
  {
    failures, notes := [], [];
    var name := NameOf(package);
    if package !in canonical {
      failures := [NotCanonical(package)];
      return;
    }
    var variants, expected := graph[package], canonical[package];
    var union := Union(expected);
    var extra := Union(variants) - union;
    if extra != {} {
      failures := failures + [Extra(package, extra)];
    }
    if name in selected {
      if variants != expected {
        failures := failures + [Differs(package)];
      }
    } else if variants != expected {
      var missing := union - Union(variants);
      if missing != {} {
        notes := [Lacks(name, missing)];
      }
    }
  }

  method FeatureFailures(canonical: FeatureGraph, graph: FeatureGraph, selected: seq<string>)
    returns (failures: seq<Failure>, notes: seq<Note>)
    ensures forall f :: f in failures <==> IsFailure(canonical, graph, selected, f)
    ensures forall n :: n in notes <==> exists p :: IsNote(canonical, graph, selected, p, n)
  {
    failures, notes := [], [];
    var packages := graph.Keys;
    while packages != {}
      invariant packages <= graph.Keys
      invariant forall f :: f in failures <==>
                  IsFailure(canonical, graph, selected, f) && !f.Absent? && f.package !in packages
      invariant forall n :: n in notes <==> exists p :: p !in packages && IsNote(canonical, graph, selected, p, n)
      decreases packages
    {
      var package :| package in packages;
      var found, noted := PackageFailures(canonical, graph, selected, package);
      packages := packages - {package};
      failures, notes := failures + found, notes + noted;
    }
    for i := 0 to |selected|
      invariant forall f :: f in failures <==>
                  IsFailure(canonical, graph, selected, f) && (f.Absent? ==> f.name in selected[..i])
    {
      assert selected[..i + 1] == selected[..i] + [selected[i]];
      if forall p :: p in graph.Keys ==> NameOf(p) != selected[i] {
        failures := failures + [Absent(selected[i])];
      }
    }
    assert selected[..|selected|] == selected;
  }

  lemma NothingExtra(a: set<string>, b: set<string>)
    ensures a - b == {} <==> a <= b
  {
    assert forall x :: x in a && x !in b ==> x in a - b;
  }

  /** A shard passes exactly when it stays within the canonical resolution, every selected package is resolved, and
      every resolved package with a selected name has its canonical feature sets. */
  lemma PassesIff(canonical: FeatureGraph, graph: FeatureGraph, selected: seq<string>)
    ensures (forall f :: !IsFailure(canonical, graph, selected, f)) <==>
            && Within(canonical, graph)
            && (forall p :: p in graph && NameOf(p) in selected ==> p in canonical && graph[p] == canonical[p])
            && (forall name :: name in selected ==> exists p :: p in graph && NameOf(p) == name)
  {
    if forall f :: !IsFailure(canonical, graph, selected, f) {
      forall p | p in graph
        ensures p in canonical && Union(graph[p]) <= Union(canonical[p])
        ensures NameOf(p) in selected ==> graph[p] == canonical[p]
      {
        assert !IsFailure(canonical, graph, selected, NotCanonical(p));
        NothingExtra(Union(graph[p]), Union(canonical[p]));
        assert !IsFailure(canonical, graph, selected, Extra(p, Union(graph[p]) - Union(canonical[p])));
        assert !IsFailure(canonical, graph, selected, Differs(p));
      }
      forall name | name in selected
        ensures exists p :: p in graph && NameOf(p) == name
      {
        assert !IsFailure(canonical, graph, selected, Absent(name));
      }
    }
  }

  /** The failures that make the search drop a candidate: the ones about what the canonical run lacks. */
  predicate IsForeign(f: Failure) {
    f.NotCanonical? || f.Extra?
  }

  lemma ForeignIff(canonical: FeatureGraph, graph: FeatureGraph, selected: seq<string>)
    ensures (exists f :: IsFailure(canonical, graph, selected, f) && IsForeign(f)) <==> !Within(canonical, graph)
  {
    if !Within(canonical, graph) {
      var p :| p in graph && !(p in canonical && Union(graph[p]) <= Union(canonical[p]));
      if p in canonical {
        NothingExtra(Union(graph[p]), Union(canonical[p]));
        assert IsFailure(canonical, graph, selected, Extra(p, Union(graph[p]) - Union(canonical[p])));
      } else {
        assert IsFailure(canonical, graph, selected, NotCanonical(p));
      }
    }
  }

  // ----- the search -----

  /** The canonical features a resolved package lacks. */
  function Missing(canonical: FeatureGraph, graph: FeatureGraph, package: string): (features: set<string>)
    requires package in graph
    ensures forall f :: f in features <==> package in canonical && f in Union(canonical[package]) && f !in Union(graph[package])
  {
    (if package in canonical then Union(canonical[package]) else {}) - Union(graph[package])
  }

  predicate HasUniqueName(graph: FeatureGraph, package: string) {
    forall other :: other in graph.Keys && NameOf(other) == NameOf(package) ==> other == package
  }

  function Spelling(package: string, feature: string): string {
    NameOf(package) + "/" + feature
  }

  ghost predicate IsCandidate(canonical: FeatureGraph, graph: FeatureGraph, c: string) {
    exists p, f ::
      && p in graph && (forall other :: other in graph && NameOf(other) == NameOf(p) ==> other == p)
      && p in canonical && f in Union(canonical[p]) && f !in Union(graph[p])
      && c == NameOf(p) + "/" + f
  }

  /** Everything the search could ever name: a canonical package with one of its canonical features. */
  ghost function Universe(canonical: FeatureGraph): set<string> {
    set p, f | p in canonical && f in Union(canonical[p]) :: Spelling(p, f)
  }

  /** What the search has yet to decide. */
  ghost function Undecided(canonical: FeatureGraph, rejected: set<string>, features: seq<string>): set<string> {
    set c | c in Universe(canonical) && c !in rejected && c !in features
  }

  function AllCandidates(canonical: FeatureGraph, graph: FeatureGraph): set<string> {
    set p, f | p in graph && HasUniqueName(graph, p) && f in Missing(canonical, graph, p) :: Spelling(p, f)
  }

  lemma CandidateIff(canonical: FeatureGraph, graph: FeatureGraph, c: string)
    ensures c in AllCandidates(canonical, graph) <==> IsCandidate(canonical, graph, c)
  {
    hide NameOf;
    if c in AllCandidates(canonical, graph) {
      var p, f :| p in graph && HasUniqueName(graph, p) && f in Missing(canonical, graph, p) && c == Spelling(p, f);
    }
    if IsCandidate(canonical, graph, c) {
      var p, f :| && p in graph && (forall other :: other in graph && NameOf(other) == NameOf(p) ==> other == p)
                  && p in canonical && f in Union(canonical[p]) && f !in Union(graph[p])
                  && c == NameOf(p) + "/" + f;
      assert HasUniqueName(graph, p) && f in Missing(canonical, graph, p) && c == Spelling(p, f);
    }
  }

  method Candidates(canonical: FeatureGraph, graph: FeatureGraph, rejected: set<string>, features: seq<string>)
    returns (candidates: seq<string>)
    ensures forall c :: c in candidates <==> IsCandidate(canonical, graph, c) && c !in rejected && c !in features
  {
    hide IsCandidate, AllCandidates;
    var all := AllCandidates(canonical, graph);
    forall c { CandidateIff(canonical, graph, c); }
    candidates := [];
    while all != {}
      invariant forall c :: c in all ==> IsCandidate(canonical, graph, c)
      invariant forall c :: IsCandidate(canonical, graph, c) && c !in rejected && c !in features <==>
                              c in candidates || (c in all && c !in rejected && c !in features)
      decreases all
    {
      var c :| c in all;
      all := all - {c};
      if c !in rejected && c !in features {
        candidates := candidates + [c];
      }
    }
  }

  /** A list of features that resolves, to nothing the canonical resolution lacks. */
  ghost predicate Keeps(canonical: FeatureGraph, resolution: Option<FeatureGraph>) {
    resolution.Some? && Within(canonical, resolution.value)
  }

  ghost predicate WasRejected(canonical: FeatureGraph, resolve: seq<string> -> Option<FeatureGraph>,
                              first: nat, features: seq<string>, c: string)
  {
    exists n :: first <= n <= |features| && !Keeps(canonical, resolve(features[..n] + [c]))
  }

  /** The feature at the end of a prefix came from the canonical resolution, and the prefix keeps within it. */
  ghost predicate WasKept(canonical: FeatureGraph, resolve: seq<string> -> Option<FeatureGraph>, features: seq<string>, n: nat)
    requires 0 < n <= |features|
  {
    features[n - 1] in Universe(canonical) && Keeps(canonical, resolve(features[..n]))
  }

  /** What holds of the features and the rejected candidates throughout a search. */
  ghost predicate Searched(canonical: FeatureGraph, resolve: seq<string> -> Option<FeatureGraph>, initial: seq<string>,
                           features: seq<string>, rejected: set<string>)
  {
    && initial <= features
    && (forall n :: |initial| < n <= |features| ==> WasKept(canonical, resolve, features, n))
    && (forall c :: c in rejected ==> c in Universe(canonical) && WasRejected(canonical, resolve, |initial|, features, c))
  }

  lemma {:induction false} CandidateInUniverse(canonical: FeatureGraph, graph: FeatureGraph, c: string)
    requires IsCandidate(canonical, graph, c)
    ensures c in Universe(canonical)
  {
  }

  lemma {:induction false} Accept(canonical: FeatureGraph, resolve: seq<string> -> Option<FeatureGraph>, initial: seq<string>,
                                  features: seq<string>, rejected: set<string>, c: string)
    requires Searched(canonical, resolve, initial, features, rejected) && c in Universe(canonical)
    requires Keeps(canonical, resolve(features + [c]))
    ensures Searched(canonical, resolve, initial, features + [c], rejected)
  {
    var longer := features + [c];
    assert longer[..|longer|] == longer;
    forall n | |initial| < n <= |longer|
      ensures WasKept(canonical, resolve, longer, n)
    {
      if n < |longer| {
        assert WasKept(canonical, resolve, features, n);
        assert longer[..n] == features[..n];
      }
    }
    forall r | r in rejected
      ensures WasRejected(canonical, resolve, |initial|, longer, r)
    {
      assert WasRejected(canonical, resolve, |initial|, features, r);
      var n :| |initial| <= n <= |features| && !Keeps(canonical, resolve(features[..n] + [r]));
      assert longer[..n] == features[..n];
      assert !Keeps(canonical, resolve(longer[..n] + [r]));
    }
  }

  lemma {:induction false} Reject(canonical: FeatureGraph, resolve: seq<string> -> Option<FeatureGraph>, initial: seq<string>,
                                  features: seq<string>, rejected: set<string>, c: string)
    requires Searched(canonical, resolve, initial, features, rejected) && c in Universe(canonical)
    requires !Keeps(canonical, resolve(features + [c]))
    ensures Searched(canonical, resolve, initial, features, rejected + {c})
  {
    assert features[..|features|] == features;
    assert WasRejected(canonical, resolve, |initial|, features, c);
  }

  /** Whether the search keeps a candidate that resolves as given. */
  method Accepted(canonical: FeatureGraph, trial: Option<FeatureGraph>, selected: seq<string>) returns (ok: bool)
    ensures ok <==> Keeps(canonical, trial)
  {
    if trial.None? {
      return false;
    }
    var failures, _ := FeatureFailures(canonical, trial.value, selected);
    ForeignIff(canonical, trial.value, selected);
    return forall f :: f in failures ==> !IsForeign(f);
  }

  /** The inner loop: each candidate is either kept or rejected. */
  method TryAll(canonical: FeatureGraph, resolve: seq<string> -> Option<FeatureGraph>, selected: seq<string>,
                ghost initial: seq<string>, candidates: seq<string>, features0: seq<string>, rejected0: set<string>)
    returns (features: seq<string>, rejected: set<string>)
    requires Searched(canonical, resolve, initial, features0, rejected0)
    requires forall c :: c in candidates ==> c in Universe(canonical)
    ensures Searched(canonical, resolve, initial, features, rejected)
    ensures features0 <= features && rejected0 <= rejected
    ensures forall c :: c in candidates ==> c in features || c in rejected
  {
    features, rejected := features0, rejected0;
    for i := 0 to |candidates|
      invariant Searched(canonical, resolve, initial, features, rejected)
      invariant features0 <= features && rejected0 <= rejected
      invariant forall k :: 0 <= k < i ==> candidates[k] in features || candidates[k] in rejected
    {
      var candidate := candidates[i];
      var ok := Accepted(canonical, resolve(features + [candidate]), selected);
      if ok {
        Accept(canonical, resolve, initial, features, rejected, candidate);
        features := features + [candidate];
      } else {
        Reject(canonical, resolve, initial, features, rejected, candidate);
        rejected := rejected + {candidate};
      }
    }
  }

  /** The search for one shard, for any resolver. It ends because every round decides at least one canonical feature.
      It gives up only when the initial features do not resolve. Otherwise every list after the initial one stayed
      within the canonical resolution, every rejected candidate broke that for some list on the way, and no canonical
      feature of a uniquely named package is left undecided. */
  method Suggest(canonical: FeatureGraph, resolve: seq<string> -> Option<FeatureGraph>, selected: seq<string>, initial: seq<string>)
    returns (r: Option<seq<string>>, rejected: set<string>)
    ensures r.None? <==> resolve(initial).None?
    ensures r.Some? ==>
              && Searched(canonical, resolve, initial, r.value, rejected)
              && resolve(r.value).Some?
              && forall c :: IsCandidate(canonical, resolve(r.value).value, c) ==> c in rejected || c in r.value
  {
    var features := initial;
    rejected := {};
    while true
      invariant Searched(canonical, resolve, initial, features, rejected)
      invariant resolve(features).Some? <==> resolve(initial).Some?
      decreases Undecided(canonical, rejected, features)
    {
      var graph := resolve(features);
      if graph.None? {
        return None, rejected;
      }
      var candidates := Candidates(canonical, graph.value, rejected, features);
      if candidates == [] {
        return Some(features), rejected;
      }
      forall c | c in candidates ensures c in Universe(canonical) { CandidateInUniverse(canonical, graph.value, c); }
      ghost var before := Undecided(canonical, rejected, features);
      assert candidates[0] in before;
      features, rejected := TryAll(canonical, resolve, selected, initial, candidates, features, rejected);
      assert candidates[0] !in Undecided(canonical, rejected, features);
      SuggestionKeeps(canonical, resolve, initial, features, rejected);
      assert |features| == |initial| ==> features == initial;
    }
  }

  /** The final list adds no package and no feature to the canonical resolution exactly when the search kept a
      candidate or the initial list already added none. */
  lemma {:induction false} SuggestionKeeps(canonical: FeatureGraph, resolve: seq<string> -> Option<FeatureGraph>, initial: seq<string>,
                        features: seq<string>, rejected: set<string>)
    requires Searched(canonical, resolve, initial, features, rejected)
    ensures Keeps(canonical, resolve(features)) <==> |features| > |initial| || Keeps(canonical, resolve(initial))
  {
    assert features[..|features|] == features;
    assert |features| > |initial| ==> WasKept(canonical, resolve, features, |features|);
    assert |features| == |initial| ==> features == initial;
  }
}
