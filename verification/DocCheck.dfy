/** The whole of the documentation check: the lock of include sites, fragments no site names, and drift. */
module DocCheck {
  import opened Bytes
  import opened DocIncludes
  import opened DocBlocks
  import opened DocTree

  /** A line of the lock file: a site with its number of directives, or any other text. */
  datatype SiteLine = Site(path: string, id: string, count: nat) | Other(text: string)

  type Key = (string, string)

  function KeyOf(i: Include): Key {
    (i.path, i.id)
  }

  function Count(includes: seq<Include>, key: Key): nat {
    if includes == [] then 0 else (if KeyOf(includes[0]) == key then 1 else 0) + Count(includes[1..], key)
  }

  /** One line per file and fragment id, with how many directives name that id in that file. */
  function SiteLines(includes: seq<Include>): set<SiteLine> {
    set i <- includes :: Site(i.path, i.id, Count(includes, KeyOf(i)))
  }

  lemma {:induction false} CountSnoc(includes: seq<Include>, i: Include, key: Key)
    ensures Count(includes + [i], key) == Count(includes, key) + if KeyOf(i) == key then 1 else 0
  {
    if includes == [] {
      assert includes + [i] == [i] && [i][1..] == [];
    } else {
      assert (includes + [i])[1..] == includes[1..] + [i];
      CountSnoc(includes[1..], i, key);
    }
  }

  lemma {:induction false} CountPositive(includes: seq<Include>, key: Key)
    ensures Count(includes, key) > 0 <==> exists i :: 0 <= i < |includes| && KeyOf(includes[i]) == key
  {
    if includes != [] {
      CountPositive(includes[1..], key);
      if i :| 0 <= i < |includes| && KeyOf(includes[i]) == key {
        assert i > 0 ==> includes[1..][i - 1] == includes[i];
      }
    }
  }

  method SiteCounts(includes: seq<Include>) returns (lines: set<SiteLine>)
    ensures lines == SiteLines(includes)
  {
    var counts: map<Key, nat> := map[];
    for n := 0 to |includes|
      invariant forall key :: key in counts <==> Count(includes[..n], key) > 0
      invariant forall key :: key in counts ==> counts[key] == Count(includes[..n], key)
    {
      var key := KeyOf(includes[n]);
      assert includes[..n + 1] == includes[..n] + [includes[n]];
      forall k { CountSnoc(includes[..n], includes[n], k); }
      counts := counts[key := (if key in counts then counts[key] else 0) + 1];
    }
    assert includes[..|includes|] == includes;
    lines := set key <- counts.Keys :: Site(key.0, key.1, counts[key]);
    forall line
      ensures line in lines <==> line in SiteLines(includes)
    {
      if line in lines {
        var key :| key in counts && line == Site(key.0, key.1, counts[key]);
        CountPositive(includes, key);
        var i :| 0 <= i < |includes| && KeyOf(includes[i]) == key;
        assert includes[i] in includes;
      }
      if line in SiteLines(includes) {
        var i :| i in includes && line == Site(i.path, i.id, Count(includes, KeyOf(i)));
        var n :| 0 <= n < |includes| && includes[n] == i;
        CountPositive(includes, KeyOf(i));
        assert KeyOf(i) in counts.Keys;
      }
    }
  }

  /** The file and the fragment of each directive. */
  function Keys(includes: seq<Include>): seq<Key> {
    seq(|includes|, i requires 0 <= i < |includes| => KeyOf(includes[i]))
  }

  lemma {:induction false} CountIs(includes: seq<Include>, key: Key)
    ensures Count(includes, key) == multiset(Keys(includes))[key]
  {
    if includes == [] {
      assert Keys(includes) == [];
    } else {
      CountIs(includes[1..], key);
      assert Keys(includes) == [KeyOf(includes[0])] + Keys(includes[1..]);
    }
  }

  /** Two trees have the same lock exactly when they have the same directives, counted per file and fragment: no
      directive can be lost, added or moved to another file while the lock stands. */
  lemma SameLockIff(a: seq<Include>, b: seq<Include>)
    ensures SiteLines(a) == SiteLines(b) <==> multiset(Keys(a)) == multiset(Keys(b))
  {
    if SiteLines(a) == SiteLines(b) {
      forall key
        ensures multiset(Keys(a))[key] == multiset(Keys(b))[key]
      {
        CountIs(a, key);
        CountIs(b, key);
        LineOf(a, key);
        LineOf(b, key);
      }
    }
    if multiset(Keys(a)) == multiset(Keys(b)) {
      forall line
        ensures line in SiteLines(a) <==> line in SiteLines(b)
      {
        if line.Site? {
          var key := (line.path, line.id);
          CountIs(a, key);
          CountIs(b, key);
          LineOf(a, key);
          LineOf(b, key);
        }
      }
    }
  }

  /** The line of a key is there where the key occurs, with its count. */
  lemma LineOf(includes: seq<Include>, key: Key)
    ensures forall n :: Site(key.0, key.1, n) in SiteLines(includes) <==> n == Count(includes, key) > 0
  {
    CountPositive(includes, key);
    if Count(includes, key) > 0 {
      var i :| 0 <= i < |includes| && KeyOf(includes[i]) == key;
      assert includes[i] in includes;
    }
    forall n | Site(key.0, key.1, n) in SiteLines(includes)
      ensures n == Count(includes, key) > 0
    {
      var x :| x in includes && Site(key.0, key.1, n) == Site(x.path, x.id, Count(includes, KeyOf(x)));
      var i :| 0 <= i < |includes| && includes[i] == x;
      assert KeyOf(includes[i]) == key;
    }
  }

  datatype Finding =
    | Unscannable
    | LockAbsent
    | Lost(line: SiteLine)
    | Added(line: SiteLine)
    | Unnamed(id: string)
    | At(failure: Failure)

  /** The lock file is there and records exactly the tree's sites. */
  predicate LockAgrees(locked: Option<set<SiteLine>>, includes: seq<Include>) {
    locked == Some(SiteLines(includes))
  }

  ghost predicate AllNamed(c: Collected) {
    forall id :: id in c.table ==> exists i :: 0 <= i < |c.includes| && c.includes[i].id == id
  }

  /** What the check promises of a tree it passes: it collects without an error, the lock records its sites, every
      fragment has a site, every file with an include expands without a problem, and every site has its fragment's body. */
  ghost predicate Conforms(files: seq<File>, locked: Option<set<SiteLine>>) {
    var c := Collect(files);
    && c.errors == 0 && LockAgrees(locked, c.includes) && AllNamed(c)
    && NoProblems(files, c.table) && SitesAgree(files, c.table)
  }

  /** What it looks at: sites are compared only in files that expansion changes. */
  ghost predicate Passes(files: seq<File>, locked: Option<set<SiteLine>>) {
    var c := Collect(files);
    && c.errors == 0 && LockAgrees(locked, c.includes) && AllNamed(c)
    && NoProblems(files, c.table) && NoDrift(files, c.table)
  }

  method LockFindings(locked: Option<set<SiteLine>>, includes: seq<Include>) returns (findings: seq<Finding>)
    ensures findings == [] <==> LockAgrees(locked, includes)
  {
    if locked.None? {
      return [LockAbsent];
    }
    var present := SiteCounts(includes);
    findings := [];
    var lost, added := locked.value - present, present - locked.value;
    while lost != {}
      invariant lost <= locked.value - present && (findings == [] <==> lost == locked.value - present)
      decreases lost
    {
      var line :| line in lost;
      lost := lost - {line};
      findings := findings + [Lost(line)];
    }
    ghost var before := findings;
    while added != {}
      invariant added <= present - locked.value
      invariant findings == [] <==> before == [] && added == present - locked.value
      decreases added
    {
      var line :| line in added;
      added := added - {line};
      findings := findings + [Added(line)];
    }
    SameSet(locked.value, present);
  }

  lemma SameSet(a: set<SiteLine>, b: set<SiteLine>)
    ensures a == b <==> a - b == {} && b - a == {}
  {
    if a - b == {} && b - a == {} {
      assert forall x :: x in a && x !in b ==> x in a - b;
      assert forall x :: x in b && x !in a ==> x in b - a;
    }
  }

  method UnnamedFindings(c: Collected) returns (findings: seq<Finding>)
    ensures findings == [] <==> AllNamed(c)
  {
    var named := set i <- c.includes :: i.id;
    findings := [];
    var ids := c.table.Keys;
    while ids != {}
      invariant ids <= c.table.Keys
      invariant findings == [] <==> forall id :: id in c.table.Keys - ids ==> id in named
      decreases ids
    {
      var id :| id in ids;
      ids := ids - {id};
      if id !in named {
        findings := findings + [Unnamed(id)];
      }
    }
    assert c.table.Keys - ids == c.table.Keys;
    assert forall id :: id in named <==> exists i :: 0 <= i < |c.includes| && c.includes[i].id == id;
  }

  lemma PassesIff(files: seq<File>, locked: Option<set<SiteLine>>)
    ensures ReadByPatterns(files) ==> (Passes(files, locked) <==> Conforms(files, locked))
  {
    hide NoProblems, NoDrift, SitesAgree, JoinedTable, OwnEndFree, ReadByPatterns;
    CollectedTable(files);
    if ReadByPatterns(files) {
      PassingMeans(files, Collect(files).table);
    }
  }

  /** One site with another body than its fragment's fails the check, whatever else the tree holds. */
  lemma StaleSiteFails(files: seq<File>, locked: Option<set<SiteLine>>, i: nat, site: Include)
    requires ReadByPatterns(files) && i < |files| && Touched(files[i])
    requires site in ScanLines(files[i].lines, files[i].path).includes && !Agrees(site, Collect(files).table)
    ensures !Passes(files, locked)
  {
    hide NoProblems, NoDrift, ReadByPatterns;
    PassesIff(files, locked);
  }

  /** The source's eight conditions over a tree. */
  method RunScan(files: seq<File>, locked: Option<set<SiteLine>>) returns (findings: seq<Finding>)
    ensures findings == [] <==> Passes(files, locked)
    ensures ReadByPatterns(files) ==> (findings == [] <==> Conforms(files, locked))
  {
    hide SitesAgree, ReadByPatterns;
    PassesIff(files, locked);
    var c := CollectTree(files);
    findings := [];
    for i := 0 to c.errors
      invariant |findings| == i
    {
      findings := findings + [Unscannable];
    }
    var lock := LockFindings(locked, c.includes);
    var unnamed := UnnamedFindings(c);
    var failures := ScanTree(files, c.table);
    findings := findings + lock + unnamed;
    ghost var before := findings;
    for i := 0 to |failures|
      invariant |findings| == |before| + i
    {
      findings := findings + [At(failures[i])];
    }
  }

  // ----- after a resolve pass -----

  lemma {:induction false} FillKeepsKeys(includes: seq<Include>, table: Table, key: Key)
    ensures Count(Fill(includes, table), key) == Count(includes, key)
    ensures forall i :: 0 <= i < |includes| ==> KeyOf(Fill(includes, table)[i]) == KeyOf(includes[i])
  {
    if includes != [] {
      FillKeepsKeys(includes[1..], table, key);
      assert Fill(includes, table)[1..] == Fill(includes[1..], table);
    }
  }

  lemma FillKeepsSites(includes: seq<Include>, table: Table)
    ensures SiteLines(Fill(includes, table)) == SiteLines(includes)
  {
    var filled := Fill(includes, table);
    forall i | 0 <= i < |includes|
      ensures Site(filled[i].path, filled[i].id, Count(filled, KeyOf(filled[i])))
           == Site(includes[i].path, includes[i].id, Count(includes, KeyOf(includes[i])))
    {
      FillKeepsKeys(includes, table, KeyOf(includes[i]));
      assert KeyOf(filled[i]) == KeyOf(includes[i]);
    }
    forall line
      ensures line in SiteLines(filled) <==> line in SiteLines(includes)
    {
      if line in SiteLines(filled) {
        var x :| x in filled && line == Site(x.path, x.id, Count(filled, KeyOf(x)));
        var i :| 0 <= i < |filled| && filled[i] == x;
        assert includes[i] in includes;
      }
      if line in SiteLines(includes) {
        var x :| x in includes && line == Site(x.path, x.id, Count(includes, KeyOf(x)));
        var i :| 0 <= i < |includes| && includes[i] == x;
        assert filled[i] in filled;
      }
    }
  }

  /** One resolve pass over a tree that collects cleanly and expands without a problem leaves a tree the whole check
      passes exactly when the lock records the tree's sites and every fragment has one. */
  lemma {:induction false} ResolvedPassesIff(files: seq<File>, locked: Option<set<SiteLine>>)
    requires Collect(files).errors == 0 && PlainTable(Collect(files).table) && NoProblems(files, Collect(files).table)
    ensures var c := Collect(files);
            Passes(Resolve(files, c.table), locked) <==> LockAgrees(locked, c.includes) && AllNamed(c)
  {
    hide Resolve, SiteLines, Fill, NoProblems, NoDrift, Expand, ScanFrom;
    var c := Collect(files);
    ResolveThenCheck(files);
    FillKeepsSites(c.includes, c.table);
    FillKeepsKeys(c.includes, c.table, ("", ""));
    var c' := Collect(Resolve(files, c.table));
    assert forall i :: 0 <= i < |c.includes| ==> c'.includes[i].id == c.includes[i].id by {
      assert forall i :: 0 <= i < |c.includes| ==> KeyOf(c'.includes[i]) == KeyOf(c.includes[i]);
    }
  }
}
