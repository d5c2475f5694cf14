/** The gate over which workspace crates a release publishes, and in which order. */
module PublishGraph {

  datatype Kind = Normal | Build | Dev

  /** One declared dependency; `byPath` when it names a path in the checkout. */
  datatype Dependency = Dependency(name: string, kind: Kind, byPath: bool)

  datatype Package = Package(publishable: bool, dependencies: seq<Dependency>)

  type Packages = map<string, Package>

  /** A local crate that the published package must be able to resolve: it is declared by path, as a normal or a build
      dependency. */
  ghost predicate IsShipped(package: Package, local: Packages, dep: string) {
    && dep in local
    && exists i :: 0 <= i < |package.dependencies| &&
                   var d := package.dependencies[i]; d.name == dep && d.byPath && (d.kind == Normal || d.kind == Build)
  }

  function ShippedDeps(package: Package, local: Packages): (deps: set<string>)
    ensures forall dep :: dep in deps <==> IsShipped(package, local, dep)
  {
    set d <- package.dependencies | d.kind != Dev && d.byPath && d.name in local :: d.name
  }

  datatype Error =
    | DependsOnPrivate(name: string, dep: string)
    | Twice(name: string)
    | NotPublishable(name: string)
    | Never(name: string)
    | Before(name: string, dep: string)

  // ----- the edge check -----

  /** A publishable crate with a shipped dependency that is never published. */
  ghost predicate IsPrivateEdge(local: Packages, name: string, dep: string) {
    && name in local && local[name].publishable
    && IsShipped(local[name], local, dep) && !local[dep].publishable
  }

  method CheckEdges(local: Packages) returns (errors: seq<Error>)
    ensures forall e :: e in errors <==> e.DependsOnPrivate? && IsPrivateEdge(local, e.name, e.dep)
  {
    errors := [];
    var names := local.Keys;
    while names != {}
      invariant names <= local.Keys
      invariant forall e :: e in errors <==> e.DependsOnPrivate? && e.name !in names && IsPrivateEdge(local, e.name, e.dep)
      decreases names
    {
      var name :| name in names;
      names := names - {name};
      if local[name].publishable {
        var deps := ShippedDeps(local[name], local);
        while deps != {}
          invariant deps <= ShippedDeps(local[name], local)
          invariant forall e :: e in errors <==>
                      && e.DependsOnPrivate? && e.name !in names && IsPrivateEdge(local, e.name, e.dep)
                      && (e.name == name ==> e.dep !in deps)
          decreases deps
        {
          var dep :| dep in deps;
          deps := deps - {dep};
          if !local[dep].publishable {
            errors := errors + [DependsOnPrivate(name, dep)];
          }
        }
      }
    }
  }

  // ----- the release check -----

  function Expected(local: Packages, members: set<string>): set<string>
    requires members <= local.Keys
  {
    set n <- members | local[n].publishable
  }

  /** The first step that publishes a name. */
  function FirstIndex(steps: seq<string>, name: string): (i: nat)
    requires name in steps
    ensures i < |steps| && steps[i] == name && name !in steps[..i]
  {
    if steps[0] == name then 0 else
      var i := FirstIndex(steps[1..], name) + 1;
      assert steps[..i] == [steps[0]] + steps[1..][..i - 1];
      i
  }

  /** The release errors, each by what it says of the steps. */
  ghost predicate IsReleaseError(local: Packages, members: set<string>, steps: seq<string>, e: Error)
    requires members <= local.Keys
  {
    var expected := Expected(local, members);
    match e
    case DependsOnPrivate(_, _) => false
    case Twice(name) => exists i, j :: 0 <= i < j < |steps| && steps[i] == steps[j] == name
    case NotPublishable(name) => name in steps && name !in expected
    case Never(name) => name in expected && name !in steps
    case Before(name, dep) =>
      && name in expected && name in steps && IsShipped(local[name], local, dep)
      && dep in steps && FirstIndex(steps, dep) > FirstIndex(steps, name)
  }

  ghost predicate IsStepError(expected: set<string>, steps: seq<string>, e: Error) {
    || (e.Twice? && exists i, j :: 0 <= i < j < |steps| && steps[i] == steps[j] == e.name)
    || (e.NotPublishable? && e.name in steps && e.name !in expected)
  }

  /** The table of first indices after a prefix of the steps. */
  ghost predicate IsSeen(seen: map<string, nat>, steps: seq<string>) {
    && (forall name :: name in seen <==> name in steps)
    && forall name :: name in seen ==> seen[name] == FirstIndex(steps, name)
  }

  lemma {:induction false} FirstIndexUnique(steps: seq<string>, i: nat)
    requires i < |steps| && steps[i] !in steps[..i]
    ensures FirstIndex(steps, steps[i]) == i
  {
    var k := FirstIndex(steps, steps[i]);
    assert forall j :: 0 <= j < i ==> steps[..i][j] == steps[j];
    assert forall j :: 0 <= j < k ==> steps[..k][j] == steps[j];
  }

  lemma {:induction false} SeenStep(seen: map<string, nat>, steps: seq<string>, i: nat)
    requires i < |steps| && IsSeen(seen, steps[..i])
    ensures IsSeen(if steps[i] in seen then seen else seen[steps[i] := i], steps[..i + 1])
  {
    var before, after := steps[..i], steps[..i + 1];
    assert after == before + [steps[i]];
    forall name | name in before
      ensures FirstIndex(after, name) == FirstIndex(before, name)
    {
      var k := FirstIndex(before, name);
      assert after[..k] == before[..k];
      FirstIndexUnique(after, k);
    }
    if steps[i] !in before {
      assert after[..i] == before;
      FirstIndexUnique(after, i);
    }
  }

  lemma {:induction false} StepErrors(expected: set<string>, steps: seq<string>, i: nat, e: Error)
    requires i < |steps|
    ensures IsStepError(expected, steps[..i + 1], e) <==>
            || IsStepError(expected, steps[..i], e)
            || (e == Twice(steps[i]) && steps[i] in steps[..i])
            || (e == NotPublishable(steps[i]) && steps[i] !in expected)
  {
    var before, after := steps[..i], steps[..i + 1];
    assert after == before + [steps[i]];
    if e.Twice? {
      if a, b :| 0 <= a < b < |before| && before[a] == before[b] == e.name {
        assert after[a] == after[b] == e.name;
      }
      if a :| 0 <= a < |before| && before[a] == steps[i] == e.name {
        assert after[a] == after[i] == e.name;
      }
      if a, b :| 0 <= a < b < |after| && after[a] == after[b] == e.name {
        assert b < i ==> before[a] == before[b] == e.name;
        assert b == i ==> before[a] == steps[i];
      }
    }
  }

  /** The first loop: the index of each name's first step, and the errors of single steps. */
  method ReadSteps(expected: set<string>, steps: seq<string>) returns (seen: map<string, nat>, errors: seq<Error>)
    ensures IsSeen(seen, steps)
    ensures forall e :: e in errors <==> IsStepError(expected, steps, e)
  {
    errors, seen := [], map[];
    for index := 0 to |steps|
      invariant IsSeen(seen, steps[..index])
      invariant forall e :: e in errors <==> IsStepError(expected, steps[..index], e)
    {
      var name := steps[index];
      ghost var was := errors;
      SeenStep(seen, steps, index);
      forall e { StepErrors(expected, steps, index, e); }
      if name in seen {
        errors := errors + [Twice(name)];
      } else {
        seen := seen[name := index];
      }
      if name !in expected {
        errors := errors + [NotPublishable(name)];
      }
    }
    assert steps[..|steps|] == steps;
  }

  ghost predicate IsOrderError(local: Packages, seen: map<string, nat>, name: string, dep: string)
    requires name in local && name in seen
  {
    IsShipped(local[name], local, dep) && dep in seen && seen[dep] > seen[name]
  }

  method CheckRelease(local: Packages, members: set<string>, steps: seq<string>) returns (errors: seq<Error>)
    requires members <= local.Keys
    ensures forall e :: e in errors <==> IsReleaseError(local, members, steps, e)
  {
    var expected := Expected(local, members);
    var seen;
    seen, errors := ReadSteps(expected, steps);
    var names := expected - seen.Keys;
    while names != {}
      invariant names <= expected - seen.Keys
      invariant forall e :: e in errors <==>
                  IsStepError(expected, steps, e) || (e.Never? && e.name in expected - seen.Keys - names)
      decreases names
    {
      var name :| name in names;
      names := names - {name};
      errors := errors + [Never(name)];
    }
    names := expected * seen.Keys;
    while names != {}
      invariant names <= expected * seen.Keys
      invariant forall e :: e in errors <==>
                  || IsStepError(expected, steps, e) || (e.Never? && e.name in expected - seen.Keys)
                  || (e.Before? && e.name in expected * seen.Keys - names && IsOrderError(local, seen, e.name, e.dep))
      decreases names
    {
      var name :| name in names;
      names := names - {name};
      var late := LateDeps(local, seen, name);
      errors := errors + late;
    }
  }

  /** The dependencies of one published crate whose first step comes after its own. */
  method LateDeps(local: Packages, seen: map<string, nat>, name: string) returns (errors: seq<Error>)
    requires name in local && name in seen
    ensures forall e :: e in errors <==> e.Before? && e.name == name && IsOrderError(local, seen, name, e.dep)
  {
    errors := [];
    var deps := ShippedDeps(local[name], local);
    while deps != {}
      invariant deps <= ShippedDeps(local[name], local)
      invariant forall e :: e in errors <==>
                  e.Before? && e.name == name && e.dep !in deps && IsOrderError(local, seen, name, e.dep)
      decreases deps
    {
      var dep :| dep in deps;
      deps := deps - {dep};
      if dep in seen && seen[dep] > seen[name] {
        errors := errors + [Before(name, dep)];
      }
    }
  }

  // ----- both checks over the workspaces -----

  /** One name space over every workspace, a later one's entry standing. */
  function Combine(workspaces: seq<Packages>): Packages {
    if workspaces == [] then map[] else Combine(workspaces[..|workspaces| - 1]) + workspaces[|workspaces| - 1]
  }

  /** The last workspace that has a name stands for it. */
  lemma {:induction false} LastStands(workspaces: seq<Packages>, i: nat, name: string)
    requires i < |workspaces| && name in workspaces[i] && forall j :: i < j < |workspaces| ==> name !in workspaces[j]
    ensures name in Combine(workspaces) && Combine(workspaces)[name] == workspaces[i][name]
  {
    if i < |workspaces| - 1 {
      LastStands(workspaces[..|workspaces| - 1], i, name);
    }
  }

  /** The first workspace is the one released. */
  method Run(workspaces: seq<Packages>, members: set<string>, steps: seq<string>) returns (errors: seq<Error>)
    requires workspaces != [] && members <= workspaces[0].Keys
    ensures errors == [] <==>
            NoPrivateEdges(Combine(workspaces)) && IsReleaseOrder(workspaces[0], members, steps)
  {
    var combined: Packages := map[];
    for i := 0 to |workspaces|
      invariant combined == Combine(workspaces[..i])
    {
      assert workspaces[..i + 1][..i] == workspaces[..i];
      combined := combined + workspaces[i];
    }
    assert workspaces[..|workspaces|] == workspaces;
    var edges := CheckEdges(combined);
    var release := CheckRelease(workspaces[0], members, steps);
    errors := edges + release;
    NoErrors(edges);
    NoErrors(release);
    EdgesClean(combined);
    ReleaseClean(workspaces[0], members, steps);
  }

  lemma NoErrors(errors: seq<Error>)
    ensures errors == [] <==> forall e :: e !in errors
  {
    assert errors != [] ==> errors[0] in errors;
  }

  // ----- what a clean run means -----

  /** Every shipped dependency of a publishable crate is itself publishable. */
  ghost predicate NoPrivateEdges(local: Packages) {
    forall name, dep :: name in local && local[name].publishable && IsShipped(local[name], local, dep) ==>
                          local[dep].publishable
  }

  /** The steps list each publishable member once, and a member's shipped dependencies among the members no later
      than the member itself. */
  ghost predicate IsReleaseOrder(local: Packages, members: set<string>, steps: seq<string>)
    requires members <= local.Keys
  {
    && (forall i, j :: 0 <= i < j < |steps| ==> steps[i] != steps[j])
    && (forall name :: name in steps <==> name in members && local[name].publishable)
    && (forall i, j :: 0 <= i < |steps| && 0 <= j < |steps| && IsShipped(local[steps[i]], local, steps[j]) ==> j <= i)
  }

  lemma EdgesClean(local: Packages)
    ensures NoPrivateEdges(local) <==> forall e: Error :: !(e.DependsOnPrivate? && IsPrivateEdge(local, e.name, e.dep))
  {
    EdgesIff(local);
    if name, dep :| IsPrivateEdge(local, name, dep) {
      assert IsPrivateEdge(local, DependsOnPrivate(name, dep).name, DependsOnPrivate(name, dep).dep);
    }
  }

  lemma {:induction false} ReleaseClean(local: Packages, members: set<string>, steps: seq<string>)
    requires members <= local.Keys
    ensures IsReleaseOrder(local, members, steps) <==> forall e :: !IsReleaseError(local, members, steps, e)
  {
    if forall e :: !IsReleaseError(local, members, steps, e) {
      CleanIsOrder(local, members, steps);
    }
    if IsReleaseOrder(local, members, steps) {
      forall e ensures !IsReleaseError(local, members, steps, e) {}
    }
  }

  lemma {:induction false} CleanIsOrder(local: Packages, members: set<string>, steps: seq<string>)
    requires members <= local.Keys && forall e :: !IsReleaseError(local, members, steps, e)
    ensures IsReleaseOrder(local, members, steps)
  {
    forall i, j | 0 <= i < j < |steps|
      ensures steps[i] != steps[j]
    {
      assert !IsReleaseError(local, members, steps, Twice(steps[i]));
    }
    forall name
      ensures name in steps <==> name in members && local[name].publishable
    {
      assert !IsReleaseError(local, members, steps, Never(name));
      assert !IsReleaseError(local, members, steps, NotPublishable(name));
    }
    forall i, j | 0 <= i < |steps| && 0 <= j < |steps| && IsShipped(local[steps[i]], local, steps[j])
      ensures j <= i
    {
      assert !IsReleaseError(local, members, steps, Before(steps[i], steps[j]));
      FirstIndexUnique(steps, i);
      FirstIndexUnique(steps, j);
    }
  }

  // ----- other workspaces' crates -----

  /** The names the later workspaces use. */
  ghost function LaterNames(workspaces: seq<Packages>): set<string> {
    set i, name | 0 < i < |workspaces| && name in workspaces[i] :: name
  }

  lemma {:induction false} CombinedEntry(workspaces: seq<Packages>, name: string)
    requires workspaces != []
    ensures name in Combine(workspaces) <==> name in workspaces[0] || name in LaterNames(workspaces)
    ensures name in workspaces[0] && name !in LaterNames(workspaces) ==> Combine(workspaces)[name] == workspaces[0][name]
  {
    var last := |workspaces| - 1;
    var front := workspaces[..last];
    assert Combine(workspaces) == Combine(front) + workspaces[last];
    if last > 0 {
      CombinedEntry(front, name);
      assert name in LaterNames(workspaces) <==> name in LaterNames(front) || name in workspaces[last] by {
        assert forall i :: 0 <= i < last ==> front[i] == workspaces[i];
      }
    } else {
      assert front == [] && Combine(front) == map[];
    }
  }

  /** An edge with neither end reused is still an edge of the combined name space. */
  lemma EdgeStays(workspaces: seq<Packages>, name: string, dep: string)
    requires workspaces != [] && IsPrivateEdge(workspaces[0], name, dep)
    requires name !in LaterNames(workspaces) && dep !in LaterNames(workspaces)
    ensures IsPrivateEdge(Combine(workspaces), name, dep)
  {
    hide Combine, LaterNames;
    CombinedEntry(workspaces, name);
    CombinedEntry(workspaces, dep);
  }

  /** Every private edge of a package table has an end among the given names. */
  ghost predicate AllTouched(local: Packages, names: set<string>) {
    forall name, dep :: IsPrivateEdge(local, name, dep) ==> name in names || dep in names
  }

  lemma EdgesIff(local: Packages)
    ensures NoPrivateEdges(local) <==> forall name, dep :: !IsPrivateEdge(local, name, dep)
  {
    if !NoPrivateEdges(local) {
      var name, dep :| name in local && local[name].publishable && IsShipped(local[name], local, dep) && !local[dep].publishable;
      assert IsPrivateEdge(local, name, dep);
    }
  }

  /** What a clean edge check over all workspaces says of the released one. */
  lemma CombinedCovers(workspaces: seq<Packages>)
    requires workspaces != [] && NoPrivateEdges(Combine(workspaces))
    ensures AllTouched(workspaces[0], LaterNames(workspaces))
    ensures workspaces[0].Keys !! LaterNames(workspaces) ==> NoPrivateEdges(workspaces[0])
  {
    hide Combine, LaterNames;
    EdgesIff(Combine(workspaces));
    forall name, dep | IsPrivateEdge(workspaces[0], name, dep)
      ensures name in LaterNames(workspaces) || dep in LaterNames(workspaces)
    {
      if name !in LaterNames(workspaces) && dep !in LaterNames(workspaces) {
        EdgeStays(workspaces, name, dep);
      }
    }
  }

  /** Later workspaces that use exactly the given names can make the check pass exactly when every private edge of the
      released one has an end among them. */
  lemma HidesIff(root: Packages, names: set<string>)
    ensures (exists later :: LaterNames([root] + later) == names && NoPrivateEdges(Combine([root] + later)))
            <==> AllTouched(root, names)
  {
    hide LaterNames, NoPrivateEdges, AllTouched, Combine;
    if later :| LaterNames([root] + later) == names && NoPrivateEdges(Combine([root] + later)) {
      CombinedCovers([root] + later);
      assert ([root] + later)[0] == root;
    }
    if AllTouched(root, names) {
      HidingWorkspace(root, names);
    }
  }

  /** So a clean check speaks for the released workspace, whatever later workspaces hold under the given names, exactly
      when it has no private edge or one that none of the names touches. */
  lemma CoversIff(root: Packages, names: set<string>)
    ensures (forall later :: LaterNames([root] + later) == names && NoPrivateEdges(Combine([root] + later)) ==> NoPrivateEdges(root))
            <==> NoPrivateEdges(root) || !AllTouched(root, names)
  {
    hide LaterNames, NoPrivateEdges, AllTouched, Combine;
    HidesIff(root, names);
  }

  /** One workspace does it: its crates are all publishable and ship nothing. */
  lemma HidingWorkspace(root: Packages, names: set<string>)
    requires AllTouched(root, names)
    ensures var later: Packages := map name | name in names :: Package(true, []);
            LaterNames([root] + [later]) == names && NoPrivateEdges(Combine([root] + [later]))
  {
    var later: Packages := map name | name in names :: Package(true, []);
    var workspaces := [root] + [later];
    assert workspaces[1] == later && LaterNames(workspaces) == later.Keys == names;
    assert workspaces[..1] == [root] && [root][..0] == [];
    assert Combine([root]) == root;
    var combined := Combine(workspaces);
    assert combined == root + later;
    forall name, dep | name in combined && combined[name].publishable && IsShipped(combined[name], combined, dep)
      ensures combined[dep].publishable
    {
      if name !in names && dep !in names {
        assert !IsPrivateEdge(root, name, dep);
      }
    }
  }

  /** A reused name hides an edge: the released crate `a` depends on a private crate, a second workspace has its own
      `a`, and both checks pass. */
  lemma ReusedNameHidesEdge(a: string, k: string)
    requires a != k
    ensures var root: Packages := map[a := Package(true, [Dependency(k, Normal, true)]), k := Package(false, [])];
            var other: Packages := map[a := Package(true, [])];
            && NoPrivateEdges(Combine([root, other])) && IsReleaseOrder(root, root.Keys, [a])
            && !NoPrivateEdges(root)
  {
    var root: Packages := map[a := Package(true, [Dependency(k, Normal, true)]), k := Package(false, [])];
    var other: Packages := map[a := Package(true, [])];
    assert [root, other][..1] == [root] && [root][..0] == [];
    assert Combine([root]) == root;
    assert Combine([root, other]) == root + other;
    assert root[a].dependencies[0] == Dependency(k, Normal, true);
    assert k in ShippedDeps(root[a], root);
  }

  // ----- transitive dependencies and cycles -----

  ghost predicate Ships(local: Packages, name: string, dep: string) {
    name in local && IsShipped(local[name], local, dep)
  }

  /** Crates each of which ships the next. */
  ghost predicate IsPath(local: Packages, path: seq<string>) {
    && path != [] && path[0] in local
    && forall j, k :: 0 <= j < k < |path| && k == j + 1 ==> Ships(local, path[j], path[k])
  }

  lemma IsPathParts(local: Packages, path: seq<string>, k: nat)
    requires IsPath(local, path) && k < |path|
    ensures IsPath(local, path[..k + 1]) && IsPath(local, path[k..])
  {
    assert path[k] in local by {
      assert k > 0 ==> Ships(local, path[k - 1], path[k]);
    }
  }

  ghost predicate IsLoop(local: Packages, path: seq<string>) {
    IsPath(local, path) && local[path[0]].publishable && path[|path| - 1] == path[0]
  }

  /** No publishable crate ships itself through another crate. */
  ghost predicate Acyclic(local: Packages) {
    forall path :: IsLoop(local, path) ==> forall k :: 0 <= k < |path| ==> path[k] == path[0]
  }

  /** In a clean release everything a crate ships, directly or not, is published, and strictly before the crate
      unless it is the crate itself. */
  lemma {:induction false} DependenciesFirst(local: Packages, steps: seq<string>, path: seq<string>, i: nat)
    requires NoPrivateEdges(local) && IsReleaseOrder(local, local.Keys, steps)
    requires IsPath(local, path) && i < |steps| && steps[i] == path[0]
    ensures exists j :: 0 <= j <= i && steps[j] == path[|path| - 1] && (j == i <==> path[|path| - 1] == path[0])
    decreases |path|
  {
    if |path| > 1 {
      var dep := path[1];
      IsPathParts(local, path, 1);
      assert Ships(local, path[0], dep);
      assert path[0] in steps && dep in steps;
      var j :| 0 <= j < |steps| && steps[j] == dep;
      DependenciesFirst(local, steps, path[1..], j);
    }
  }

  lemma {:induction false} ReleasedIsAcyclic(local: Packages, steps: seq<string>)
    requires NoPrivateEdges(local) && IsReleaseOrder(local, local.Keys, steps)
    ensures Acyclic(local)
  {
    forall path, k | IsLoop(local, path) && 0 <= k < |path|
      ensures path[k] == path[0]
    {
      assert path[0] in steps;
      var i :| 0 <= i < |steps| && steps[i] == path[0];
      var there, back := path[..k + 1], path[k..];
      IsPathParts(local, path, k);
      DependenciesFirst(local, steps, there, i);
      var j :| 0 <= j <= i && steps[j] == path[k] && (j == i <==> path[k] == path[0]);
      DependenciesFirst(local, steps, back, j);
    }
  }

  // ----- an order exists for every graph without a cycle -----

  lemma {:induction false} NotVisited(local: Packages, path: seq<string>, dep: string)
    requires Acyclic(local) && IsPath(local, path) && Ships(local, path[|path| - 1], dep) && dep != path[|path| - 1]
    requires dep in local && local[dep].publishable
    ensures dep !in path
  {
    if i :| 0 <= i < |path| && path[i] == dep {
      LoopBack(local, path, i);
    }
  }

  lemma {:induction false} LoopBack(local: Packages, path: seq<string>, i: nat)
    requires IsPath(local, path) && i < |path| && Ships(local, path[|path| - 1], path[i]) && local[path[i]].publishable
    ensures var cycle := path[i..] + [path[i]];
            IsLoop(local, cycle) && cycle[|cycle| - 2] == path[|path| - 1] && cycle[0] == path[i]
  {
    IsPathParts(local, path, i);
    var cycle := path[i..] + [path[i]];
    assert cycle[|cycle| - 2] == path[|path| - 1];
  }

  /** Following shipped dependencies inside a set without a cycle ends at a crate that ships no other one of the set. */
  lemma {:induction false} FindLeaf(local: Packages, crates: set<string>, path: seq<string>) returns (leaf: string)
    requires Acyclic(local) && IsPath(local, path) && forall k :: 0 <= k < |path| ==> path[k] in crates
    requires forall name :: name in crates ==> name in local && local[name].publishable
    ensures leaf in crates && ShippedDeps(local[leaf], local) * crates <= {leaf}
    decreases crates - (set name <- path)
  {
    leaf := path[|path| - 1];
    if dep :| dep in ShippedDeps(local[leaf], local) * crates && dep != leaf {
      NotVisited(local, path, dep);
      var longer := path + [dep];
      assert dep in longer && forall name :: name in longer <==> name in path || name == dep;
      assert dep in crates - (set name <- path);
      leaf := FindLeaf(local, crates, longer);
    }
  }

  lemma {:induction false} OrderExists(local: Packages, crates: set<string>) returns (steps: seq<string>)
    requires Acyclic(local) && forall name :: name in crates ==> name in local && local[name].publishable
    ensures forall i, j :: 0 <= i < j < |steps| ==> steps[i] != steps[j]
    ensures forall name :: name in steps <==> name in crates
    ensures forall i, j :: 0 <= i < |steps| && 0 <= j < |steps| && IsShipped(local[steps[i]], local, steps[j]) ==> j <= i
    decreases crates
  {
    if crates == {} {
      steps := [];
    } else {
      var name :| name in crates;
      var leaf := FindLeaf(local, crates, [name]);
      var rest := OrderExists(local, crates - {leaf});
      steps := [leaf] + rest;
      forall i, j | 0 <= i < |steps| && 0 <= j < |steps| && IsShipped(local[steps[i]], local, steps[j])
        ensures j <= i
      {
        if i == 0 {
          assert steps[j] in ShippedDeps(local[leaf], local) * crates;
        }
      }
    }
  }

  /** Where every shipped dependency is publishable, some list of steps passes the gate exactly when no publishable
      crate ships itself through another. */
  lemma {:induction false} ReleasableIffAcyclic(local: Packages)
    requires NoPrivateEdges(local)
    ensures (exists steps :: IsReleaseOrder(local, local.Keys, steps)) <==> Acyclic(local)
  {
    if steps :| IsReleaseOrder(local, local.Keys, steps) {
      ReleasedIsAcyclic(local, steps);
    }
    if Acyclic(local) {
      var steps := OrderExists(local, set name <- local.Keys | local[name].publishable);
      assert IsReleaseOrder(local, local.Keys, steps);
    }
  }
}
