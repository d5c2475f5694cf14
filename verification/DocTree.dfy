/** Resolving a documentation tree, then checking it. */
module DocTree {
  import opened DocIncludes
  import opened DocBlocks

  datatype File = File(path: string, lines: seq<Line>)

  /** The fragment table, every include, and how many errors the scan found. */
  datatype Collected = Collected(table: Table, includes: seq<Include>, errors: nat)

  /** The first definition of an id stands; each later one is an error. */
  function Define(table: Table, fragments: seq<Fragment>): (Table, nat)
    decreases |fragments|
  {
    if fragments == [] then (table, 0)
    else
      var f := fragments[0];
      if f.id in table then
        var (t, errors) := Define(table, fragments[1..]);
        (t, errors + 1)
      else Define(table[f.id := f], fragments[1..])
  }

  function CollectFrom(files: seq<File>, table: Table): Collected
    decreases |files|
  {
    if files == [] then Collected(table, [], 0)
    else
      var scan := ScanLines(files[0].lines, files[0].path);
      if scan.MarkerError? then
        var rest := CollectFrom(files[1..], table);
        rest.(errors := rest.errors + 1)
      else
        var (table', errors) := Define(table, scan.fragments);
        var rest := CollectFrom(files[1..], table');
        Collected(rest.table, scan.includes + rest.includes, errors + rest.errors)
  }

  function Collect(files: seq<File>): Collected {
    CollectFrom(files, map[])
  }

  method CollectTree(files: seq<File>) returns (c: Collected)
    ensures c == Collect(files)
  {
    hide ScanFrom;
    var table: Table := map[];
    var includes: seq<Include> := [];
    var errors := 0;
    assert files[0..] == files;
    for i := 0 to |files|
      invariant errors >= 0
      invariant var rest := CollectFrom(files[i..], table);
                Collect(files) == Collected(rest.table, includes + rest.includes, errors + rest.errors)
    {
      assert files[i..][0] == files[i] && files[i..][1..] == files[i + 1..];
      var scan := ScanFile(files[i].lines, files[i].path);
      if scan.MarkerError? {
        errors := errors + 1;
        continue;
      }
      ghost var before := errors;
      ghost var (all, dups) := Define(table, scan.fragments);
      for j := 0 to |scan.fragments|
        invariant errors >= before
        invariant Define(table, scan.fragments[j..]).0 == all && errors + Define(table, scan.fragments[j..]).1 == before + dups
      {
        var f := scan.fragments[j];
        assert scan.fragments[j..][1..] == scan.fragments[j + 1..];
        if f.id in table {
          errors := errors + 1;
        } else {
          table := table[f.id := f];
        }
      }
      assert includes + (scan.includes + CollectFrom(files[i + 1..], table).includes)
          == includes + scan.includes + CollectFrom(files[i + 1..], table).includes;
      includes := includes + scan.includes;
    }
    assert includes + [] == includes;
    c := Collected(table, includes, errors);
  }

  // ----- resolving -----

  predicate Touched(f: File) {
    var scan := ScanLines(f.lines, f.path);
    scan.Scanned? && scan.includes != []
  }

  function ResolveFile(f: File, table: Table): File {
    if Touched(f) then f.(lines := Expand(f.lines, table).lines) else f
  }

  function Resolve(files: seq<File>, table: Table): (r: seq<File>)
    ensures |r| == |files| && forall i :: 0 <= i < |files| ==> r[i] == ResolveFile(files[i], table)
  {
    if files == [] then [] else [ResolveFile(files[0], table)] + Resolve(files[1..], table)
  }

  /** The source's form: every touched file is expanded and, where that changes it, written back. */
  method ResolveTree(files: seq<File>) returns (r: seq<File>, problems: seq<Problem>)
    ensures r == if Collect(files).errors > 0 then files else Resolve(files, Collect(files).table)
    ensures Collect(files).errors == 0 ==> (problems == [] <==> NoProblems(files, Collect(files).table))
  {
    hide Expand, ScanFrom;
    r, problems := files, [];
    var c := CollectTree(files);
    if c.errors > 0 {
      return;
    }
    for i := 0 to |files|
      invariant |r| == |files| && r[i..] == files[i..]
      invariant forall k :: 0 <= k < i ==> r[k] == ResolveFile(files[k], c.table)
      invariant problems == [] <==>
                  forall k :: 0 <= k < i && Touched(files[k]) ==> Expand(files[k].lines, c.table).problems == []
    {
      var f := files[i];
      var scan := ScanFile(f.lines, f.path);
      if scan.Scanned? && scan.includes != [] {
        var resolved, found := ExpandFile(f.lines, c.table);
        problems := problems + found;
        if resolved != f.lines {
          r := r[i := f.(lines := resolved)];
        }
      }
    }
  }

  // ----- the check's drift comparison -----

  /** A site whose file would change, and whose body is not its fragment's. */
  predicate Drifts(f: File, site: Include, table: Table) {
    Expand(f.lines, table).lines != f.lines && site.id in table && site.body != table[site.id].body
  }

  ghost predicate NoDrift(files: seq<File>, table: Table) {
    forall i, k :: 0 <= i < |files| && Touched(files[i]) &&
                   0 <= k < |ScanLines(files[i].lines, files[i].path).includes| ==>
                     !Drifts(files[i], ScanLines(files[i].lines, files[i].path).includes[k], table)
  }

  /** Every file with an include expands without a problem. */
  ghost predicate NoProblems(files: seq<File>, table: Table) {
    forall i :: 0 <= i < |files| && Touched(files[i]) ==> Expand(files[i].lines, table).problems == []
  }

  datatype Failure = Expanding(path: string, problem: Problem) | Differing(site: Include)

  ghost predicate IsFailure(f: File, table: Table, failure: Failure) {
    var scan := ScanLines(f.lines, f.path);
    && Touched(f)
    && match failure
       case Expanding(path, problem) => path == f.path && problem in Expand(f.lines, table).problems
       case Differing(site) => site in scan.includes && Drifts(f, site, table)
  }

  /** The comparison the check makes at the sites of one file. */
  method FileFailures(f: File, table: Table) returns (failures: seq<Failure>)
    ensures forall e :: e in failures <==> IsFailure(f, table, e)
  {
    hide Expand, ScanFrom;
    failures := [];
    var scan := ScanFile(f.lines, f.path);
    if scan.MarkerError? || scan.includes == [] {
      return;
    }
    var resolved, problems := ExpandFile(f.lines, table);
    for i := 0 to |problems|
      invariant forall e :: e in failures <==> e.Expanding? && e.path == f.path && e.problem in problems[..i]
    {
      assert problems[..i + 1] == problems[..i] + [problems[i]];
      failures := failures + [Expanding(f.path, problems[i])];
    }
    assert problems[..|problems|] == problems;
    if resolved == f.lines {
      return;
    }
    for k := 0 to |scan.includes|
      invariant forall e :: e in failures <==>
                  || (e.Expanding? && e.path == f.path && e.problem in problems)
                  || (e.Differing? && e.site in scan.includes[..k] && Drifts(f, e.site, table))
    {
      var site := scan.includes[k];
      assert scan.includes[..k + 1] == scan.includes[..k] + [site];
      if site.id in table && site.body != table[site.id].body {
        failures := failures + [Differing(site)];
      }
    }
    assert scan.includes[..|scan.includes|] == scan.includes;
  }

  /** The check passes exactly when no file with an include has a problem and no site drifts. */
  method ScanTree(files: seq<File>, table: Table) returns (failures: seq<Failure>)
    ensures failures == [] <==> NoProblems(files, table) && NoDrift(files, table)
    ensures JoinedTable(table) && OwnEndFree(table) ==> (failures == [] <==> NoProblems(files, table) && SitesAgree(files, table))
  {
    hide Expand, ScanFrom, JoinedTable, OwnEndFree, SitesAgree;
    failures := [];
    for i := 0 to |files|
      invariant failures == [] <==> NoProblems(files[..i], table) && NoDrift(files[..i], table)
    {
      var found := FileFailures(files[i], table);
      NoneFailing(files[i], table, found);
      assert files[..i + 1] == files[..i] + [files[i]];
      failures := failures + found;
    }
    assert files[..|files|] == files;
    if JoinedTable(table) && OwnEndFree(table) {
      PassingMeans(files, table);
    }
  }

  lemma NoneFailing(f: File, table: Table, failures: seq<Failure>)
    requires forall e :: e in failures <==> IsFailure(f, table, e)
    ensures failures == [] <==> NoProblems([f], table) && NoDrift([f], table)
  {
    hide Expand, ScanFrom;
    var scan, problems := ScanLines(f.lines, f.path), Expand(f.lines, table).problems;
    if failures == [] && Touched(f) {
      assert problems != [] ==> IsFailure(f, table, Expanding(f.path, problems[0]));
      forall k | 0 <= k < |scan.includes|
        ensures !Drifts(f, scan.includes[k], table)
      {
        assert !IsFailure(f, table, Differing(scan.includes[k]));
      }
    }
    if failures != [] {
      var e := failures[0];
      assert IsFailure(f, table, e) && [f][0] == f;
      if e.Differing? {
        var k :| 0 <= k < |scan.includes| && scan.includes[k] == e.site;
        assert Drifts([f][0], ScanLines([f][0].lines, [f][0].path).includes[k], table);
      }
    }
  }

  // ----- what a clean collection says -----

  ghost predicate Extends(big: Table, small: Table) {
    forall id :: id in small ==> id in big && big[id] == small[id]
  }

  lemma {:induction false} DefineExtends(table: Table, fragments: seq<Fragment>)
    ensures Extends(Define(table, fragments).0, table)
    ensures Define(table, fragments).1 == 0 ==>
              forall i :: 0 <= i < |fragments| ==>
                fragments[i].id in Define(table, fragments).0 && Define(table, fragments).0[fragments[i].id] == fragments[i]
    decreases |fragments|
  {
    if fragments != [] {
      var f := fragments[0];
      DefineExtends(if f.id in table then table else table[f.id := f], fragments[1..]);
    }
  }

  lemma {:induction false} CollectExtends(files: seq<File>, table: Table)
    ensures Extends(CollectFrom(files, table).table, table)
    decreases |files|
  {
    if files != [] {
      var scan := ScanLines(files[0].lines, files[0].path);
      if scan.MarkerError? {
        CollectExtends(files[1..], table);
      } else {
        DefineExtends(table, scan.fragments);
        CollectExtends(files[1..], Define(table, scan.fragments).0);
      }
    }
  }

  /** Every entry is filed under its own id. */
  ghost predicate OwnIds(table: Table) {
    forall id :: id in table ==> table[id].id == id
  }

  ghost predicate ReadByPatterns(files: seq<File>) {
    forall i :: 0 <= i < |files| ==> ByPatterns(files[i].lines)
  }

  ghost predicate GoodEntry(f: Fragment, patterns: bool) {
    IsJoined(f.body) && (patterns ==> OwnEndFreeBody(f))
  }

  ghost predicate GoodTable(table: Table, patterns: bool) {
    OwnIds(table) && forall id :: id in table ==> GoodEntry(table[id], patterns)
  }

  lemma {:induction false} DefineGood(table: Table, fragments: seq<Fragment>, patterns: bool)
    requires GoodTable(table, patterns) && forall f :: f in fragments ==> GoodEntry(f, patterns)
    ensures GoodTable(Define(table, fragments).0, patterns)
    decreases |fragments|
  {
    hide GoodEntry;
    if fragments != [] {
      var f := fragments[0];
      DefineGood(if f.id in table then table else table[f.id := f], fragments[1..], patterns);
    }
  }

  lemma {:induction false} CollectGood(files: seq<File>, table: Table, patterns: bool)
    requires GoodTable(table, patterns) && (patterns ==> ReadByPatterns(files))
    ensures GoodTable(CollectFrom(files, table).table, patterns)
    decreases |files|
  {
    hide ScanFrom, GoodTable, ByPatterns, OwnEndFreeBody;
    if files != [] {
      var scan := ScanLines(files[0].lines, files[0].path);
      if scan.MarkerError? {
        CollectGood(files[1..], table, patterns);
      } else {
        ScannedFragments(files[0].lines, files[0].path);
        DefineGood(table, scan.fragments, patterns);
        CollectGood(files[1..], Define(table, scan.fragments).0, patterns);
      }
    }
  }

  /** Whatever the files hold, the collected bodies are joined texts; none closes its own fragment where the lines are
      what the patterns find. */
  lemma CollectedTable(files: seq<File>)
    ensures var table := Collect(files).table;
            JoinedTable(table) && (ReadByPatterns(files) ==> OwnEndFree(table))
  {
    hide GoodEntry;
    CollectGood(files, map[], ReadByPatterns(files));
    EntriesGood(Collect(files).table, ReadByPatterns(files));
  }

  lemma EntriesGood(table: Table, patterns: bool)
    requires GoodTable(table, patterns)
    ensures JoinedTable(table) && (patterns ==> OwnEndFree(table))
  {
  }

  // ----- what a collection is -----

  /** The files' fragments and includes, in order; a file that does not scan has none. */
  function AllFragments(files: seq<File>): seq<Fragment> {
    if files == [] then []
    else
      var scan := ScanLines(files[0].lines, files[0].path);
      (if scan.Scanned? then scan.fragments else []) + AllFragments(files[1..])
  }

  function AllIncludes(files: seq<File>): seq<Include> {
    if files == [] then []
    else
      var scan := ScanLines(files[0].lines, files[0].path);
      (if scan.Scanned? then scan.includes else []) + AllIncludes(files[1..])
  }

  ghost predicate Fresh(fragments: seq<Fragment>, ids: set<string>) {
    && (forall i :: 0 <= i < |fragments| ==> fragments[i].id !in ids)
    && (forall i, j :: 0 <= i < j < |fragments| ==> fragments[i].id != fragments[j].id)
  }

  function Ids(fragments: seq<Fragment>): set<string> {
    set f <- fragments :: f.id
  }

  lemma FreshConcat(a: seq<Fragment>, b: seq<Fragment>, ids: set<string>)
    ensures Fresh(a + b, ids) <==> Fresh(a, ids) && Fresh(b, ids + Ids(a))
  {
    var s := a + b;
    assert forall i :: 0 <= i < |a| ==> s[i] == a[i];
    assert forall i :: 0 <= i < |b| ==> s[|a| + i] == b[i];
    if Fresh(s, ids) {
      forall i | 0 <= i < |b|
        ensures b[i].id !in ids + Ids(a)
      {
        assert s[|a| + i].id == b[i].id;
      }
    }
    if Fresh(a, ids) && Fresh(b, ids + Ids(a)) {
      forall i, j | 0 <= i < j < |s|
        ensures s[i].id != s[j].id
      {
        assert i < |a| ==> a[i].id in Ids(a);
      }
    }
  }

  lemma {:induction false} DefineIff(table: Table, fragments: seq<Fragment>)
    ensures Define(table, fragments).0.Keys == table.Keys + Ids(fragments)
    ensures Define(table, fragments).1 == 0 <==> Fresh(fragments, table.Keys)
    decreases |fragments|
  {
    hide Fresh, Ids;
    if fragments == [] {
      FreshNothing(table.Keys);
    } else {
      var f, more := fragments[0], fragments[1..];
      var table' := if f.id in table then table else table[f.id := f];
      DefineIff(table', more);
      assert fragments == [f] + more;
      FreshConcat([f], more, table.Keys);
      IdsConcat([f], more);
      FreshOne(f, table.Keys);
      assert table'.Keys == table.Keys + {f.id};
    }
  }

  lemma FreshOne(f: Fragment, ids: set<string>)
    ensures Ids([f]) == {f.id} && (Fresh([f], ids) <==> f.id !in ids)
  {
    assert [f][0] == f;
  }

  lemma {:induction false} CollectFromIff(files: seq<File>, table: Table)
    ensures var c := CollectFrom(files, table);
            && c.includes == AllIncludes(files) && c.table.Keys == table.Keys + Ids(AllFragments(files))
            && (c.errors == 0 <==>
                  && (forall i :: 0 <= i < |files| ==> ScanLines(files[i].lines, files[i].path).Scanned?)
                  && Fresh(AllFragments(files), table.Keys))
    decreases |files|
  {
    hide ScanFrom, Fresh, Define, Ids;
    FreshNothing(table.Keys);
    if files != [] {
      var scan := ScanLines(files[0].lines, files[0].path);
      var fragments := if scan.Scanned? then scan.fragments else [];
      var table' := if scan.Scanned? then Define(table, fragments).0 else table;
      DefineIff(table, fragments);
      CollectFromIff(files[1..], table');
      FreshConcat(fragments, AllFragments(files[1..]), table.Keys);
      IdsConcat(fragments, AllFragments(files[1..]));
      assert files == [files[0]] + files[1..];
    }
  }

  lemma IdsConcat(a: seq<Fragment>, b: seq<Fragment>)
    ensures Ids(a + b) == Ids(a) + Ids(b)
  {
  }

  lemma FreshNothing(ids: set<string>)
    ensures Fresh([], ids) && Ids([]) == {}
  {
  }

  /** A tree collects without an error exactly when every file scans and no id is defined twice; it lists every include
      in order, and the ids of the table are those of the fragments. */
  lemma CollectsIff(files: seq<File>)
    ensures var c := Collect(files);
            && c.includes == AllIncludes(files) && c.table.Keys == Ids(AllFragments(files))
            && (c.errors == 0 <==>
                  && (forall i :: 0 <= i < |files| ==> ScanLines(files[i].lines, files[i].path).Scanned?)
                  && Fresh(AllFragments(files), {}))
  {
    hide ScanFrom, Fresh, CollectFrom, AllFragments, AllIncludes;
    var nothing: Table := map[];
    assert nothing.Keys == {};
    CollectFromIff(files, nothing);
  }

  /** Without errors every file scans and every fragment is the table's entry for its id. */
  lemma {:induction false} CleanFile(files: seq<File>, table: Table, i: nat)
    requires CollectFrom(files, table).errors == 0 && i < |files|
    ensures var scan := ScanLines(files[i].lines, files[i].path);
            var t := CollectFrom(files, table).table;
            scan.Scanned? && forall k :: 0 <= k < |scan.fragments| ==>
              scan.fragments[k].id in t && t[scan.fragments[k].id] == scan.fragments[k]
    decreases |files|
  {
    var scan := ScanLines(files[0].lines, files[0].path);
    var table' := Define(table, scan.fragments).0;
    if i == 0 {
      DefineExtends(table, scan.fragments);
      CollectExtends(files[1..], table');
    } else {
      CleanFile(files[1..], table', i - 1);
    }
  }

  /** Rewriting files one by one so that each still scans with its own fragments keeps the whole table. */
  lemma {:induction false} SameTable(files: seq<File>, files': seq<File>, table: Table, final: Table)
    requires |files| == |files'| && CollectFrom(files, table).errors == 0
    requires forall i :: 0 <= i < |files| ==>
               var s, s' := ScanLines(files[i].lines, files[i].path), ScanLines(files'[i].lines, files'[i].path);
               s.Scanned? && s' == Scanned(s.fragments, Fill(s.includes, final))
    ensures var c := CollectFrom(files, table);
            CollectFrom(files', table) == Collected(c.table, Fill(c.includes, final), 0)
    decreases |files|
  {
    if files != [] {
      var scan := ScanLines(files[0].lines, files[0].path);
      var table' := Define(table, scan.fragments).0;
      assert forall i :: 0 <= i < |files[1..]| ==> files[1..][i] == files[i + 1] && files'[1..][i] == files'[i + 1];
      SameTable(files[1..], files'[1..], table', final);
      FillConcat(scan.includes, CollectFrom(files[1..], table').includes, final);
    }
  }

  /** One resolve pass over a tree that collects cleanly and expands without a problem: the tree still collects
      cleanly, with the same fragments and the same includes now filled; the check finds no expansion problem and no
      site that drifts; and a second pass changes nothing. */
  lemma {:induction false} ResolveThenCheck(files: seq<File>)
    requires Collect(files).errors == 0 && PlainTable(Collect(files).table)
    requires NoProblems(files, Collect(files).table)
    ensures var c := Collect(files);
            var files' := Resolve(files, c.table);
            && Collect(files') == Collected(c.table, Fill(c.includes, c.table), 0)
            && NoProblems(files', c.table) && NoDrift(files', c.table) && Resolve(files', c.table) == files'
  {
    hide Expand, ScanFrom, Fill;
    var table := Collect(files).table;
    var files' := Resolve(files, table);
    forall i | 0 <= i < |files|
      ensures FileSettles(files[i], files'[i], table)
    {
      ResolvedFileSettles(files, i);
    }
    SameTable(files, files', map[], table);
    assert Resolve(files', table) == files' by {
      assert forall i :: 0 <= i < |files'| ==> ResolveFile(files'[i], table) == files'[i];
    }
  }

  ghost predicate FileSettles(f: File, f': File, table: Table) {
    var s := ScanLines(f.lines, f.path);
    && s.Scanned?
    && f'.path == f.path && ScanLines(f'.lines, f'.path) == Scanned(s.fragments, Fill(s.includes, table))
    && (Touched(f') ==> Expand(f'.lines, table) == Expansion(f'.lines, []))
  }

  lemma ResolvedFileSettles(files: seq<File>, i: nat)
    requires Collect(files).errors == 0 && PlainTable(Collect(files).table) && i < |files|
    requires Touched(files[i]) ==> Expand(files[i].lines, Collect(files).table).problems == []
    ensures FileSettles(files[i], ResolveFile(files[i], Collect(files).table), Collect(files).table)
  {
    hide Expand, ScanFrom;
    var f, table := files[i], Collect(files).table;
    CollectedTable(files);
    CleanFile(files, map[], i);
    var scan := ScanLines(f.lines, f.path);
    if Touched(f) {
      ExpandSettles(f.lines, f.path, table);
    }
  }

  // ----- what passing the comparison means -----

  /** Every site has the body of the fragment it names. */
  ghost predicate SitesAgree(files: seq<File>, table: Table) {
    forall i, site :: 0 <= i < |files| && Touched(files[i]) && site in ScanLines(files[i].lines, files[i].path).includes ==>
      Agrees(site, table)
  }

  predicate Agrees(site: Include, table: Table) {
    site.id in table && site.body == table[site.id].body
  }

  /** The comparison reports every site that does not agree with its fragment. */
  lemma StaleSiteReported(f: File, site: Include, table: Table) returns (e: Failure)
    requires JoinedTable(table) && OwnEndFree(table) && Touched(f)
    requires site in ScanLines(f.lines, f.path).includes && !Agrees(site, table)
    ensures IsFailure(f, table, e) && (e == Differing(site) || (e.Expanding? && (e.problem == Undefined(site.id) || e.problem == MultiLine(site.id))))
  {
    hide Expand, ScanFrom;
    ScannedSites(f.lines, f.path, table);
    var expansion := Expand(f.lines, table);
    assert DefinedOrReported(site, table, expansion.problems);
    assert expansion.lines == f.lines ==> AgreesOrReported(site, table, expansion.problems);
    if site.id !in table {
      e := Expanding(f.path, Undefined(site.id));
    } else if expansion.lines == f.lines {
      e := Expanding(f.path, MultiLine(site.id));
    } else {
      e := Differing(site);
    }
  }

  /** Passing the comparison means that every file with an include expands without a problem and every site has its
      fragment's body. */
  lemma PassingMeans(files: seq<File>, table: Table)
    requires JoinedTable(table) && OwnEndFree(table)
    ensures NoProblems(files, table) && NoDrift(files, table) <==> NoProblems(files, table) && SitesAgree(files, table)
  {
    hide Expand, ScanFrom, JoinedTable, OwnEndFree;
    if NoProblems(files, table) && NoDrift(files, table) {
      forall i, site | 0 <= i < |files| && Touched(files[i]) && site in ScanLines(files[i].lines, files[i].path).includes
        ensures Agrees(site, table)
      {
        var includes := ScanLines(files[i].lines, files[i].path).includes;
        var k :| 0 <= k < |includes| && includes[k] == site;
        assert !Drifts(files[i], includes[k], table);
        if !Agrees(site, table) {
          var e := StaleSiteReported(files[i], site, table);
        }
      }
    }
    if SitesAgree(files, table) {
      forall i, k | 0 <= i < |files| && Touched(files[i]) && 0 <= k < |ScanLines(files[i].lines, files[i].path).includes|
        ensures !Drifts(files[i], ScanLines(files[i].lines, files[i].path).includes[k], table)
      {
        assert Agrees(ScanLines(files[i].lines, files[i].path).includes[k], table);
      }
    }
  }
}
