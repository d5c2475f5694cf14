/** When a tree the check passes is still one that a resolve pass changes: the first of the check's conditions, that no
    file differs after the expansion, holds of the sites and not of the files. */
module DocDrift {
  import opened Bytes
  import opened DocIncludes
  import opened DocBlocks
  import opened DocTree
  import opened DocCheck

  ghost predicate AllAgree(includes: seq<Include>, table: Table) {
    forall i :: 0 <= i < |includes| ==> Agrees(includes[i], table)
  }

  /** An inline include inside a fragment is rewritten, though it is no site. */
  predicate PartFresh(part: Part, table: Table) {
    part.InlineInclude? && part.id in table ==> part.body == table[part.id].body
  }

  /** A site whose one line is empty agrees with an empty fragment, and loses the line. */
  predicate KeepsText(part: Part) {
    part.InlineInclude? ==> IsJoined(part.body)
  }

  predicate Stays(b: Block, table: Table) {
    match b
    case Single(line) => line.Inline? ==> forall i :: 0 <= i < |line.parts| ==> KeepsText(line.parts[i])
    case Fragmented(_, body, _) =>
      forall i :: 0 <= i < |body| && body[i].Inline? ==> forall k :: 0 <= k < |body[i].parts| ==> PartFresh(body[i].parts[k], table)
    case Included(_, body, _) => IsJoined(body)
  }

  lemma AgreeConcat(a: seq<Include>, b: seq<Include>, table: Table)
    requires AllAgree(a + b, table)
    ensures AllAgree(a, table) && AllAgree(b, table)
  {
    assert forall i :: 0 <= i < |a| ==> (a + b)[i] == a[i];
    assert forall i :: 0 <= i < |b| ==> (a + b)[|a| + i] == b[i];
  }

  lemma {:induction false} PartAgrees(parts: seq<Part>, path: string, table: Table, i: nat)
    requires AllAgree(PartIncludes(parts, path), table) && i < |parts| && parts[i].InlineInclude?
    ensures parts[i].id in table && Joined(parts[i].body) == table[parts[i].id].body
  {
    var first: seq<Include> := if parts[0].InlineInclude? then [Include(parts[0].id, parts[0].source, path, Joined(parts[0].body))] else [];
    AgreeConcat(first, PartIncludes(parts[1..], path), table);
    if i == 0 {
      assert Agrees(first[0], table);
    } else {
      PartAgrees(parts[1..], path, table, i - 1);
    }
  }

  lemma PartsStay(parts: seq<Part>, table: Table)
    requires forall i :: 0 <= i < |parts| ==> PartOk(parts[i], table)
    ensures ExpandParts(parts, table).0 == parts <==> forall i :: 0 <= i < |parts| ==> PartFresh(parts[i], table)
  {
    hide SourceMatches, ExpandParts;
    PartsAt(parts, table);
    if forall i :: 0 <= i < |parts| ==> PartFresh(parts[i], table) {
      assert ExpandParts(parts, table).0 == parts;
    }
    if ExpandParts(parts, table).0 == parts {
      forall i | 0 <= i < |parts|
        ensures PartFresh(parts[i], table)
      {
        assert ExpandPart(parts[i], table).0 == parts[i];
        assert PartOk(parts[i], table);
      }
    }
  }

  lemma BlockStays(b: Block, path: string, table: Table)
    requires WfBlock(b) && BlockOk(b, table) && JoinedTable(table) && AllAgree(BlockIncludes(b, path), table)
    ensures FillBlock(b, table) == b <==> Stays(b, table)
  {
    hide ExpandParts, PartIncludes, SourceMatches, HasStray, PartOk;
    match b
    case Single(line) =>
      if line.Inline? {
        PartsStay(line.parts, table);
        forall i | 0 <= i < |line.parts| && line.parts[i].InlineInclude?
          ensures PartFresh(line.parts[i], table) <==> KeepsText(line.parts[i])
        {
          PartAgrees(line.parts, path, table, i);
        }
      }
    case Fragmented(_, body, _) =>
      forall i | 0 <= i < |body| && body[i].Inline?
        ensures FillLine(body[i], table) == body[i] <==> forall k :: 0 <= k < |body[i].parts| ==> PartFresh(body[i].parts[k], table)
      {
        assert LineOk(body[i], table);
        PartsStay(body[i].parts, table);
      }
      assert FillLines(body, table) == body <==> forall i :: 0 <= i < |body| ==> FillLine(body[i], table) == body[i];
    case Included(open, body, _) =>
      assert Agrees(BlockIncludes(b, path)[0], table);
  }

  /** A file without a problem whose every site agrees is left alone exactly where no site is one empty line and no
      fragment holds an inline include with other text. */
  lemma {:induction false} UnchangedIff(blocks: seq<Block>, path: string, table: Table)
    requires Wf(blocks) && Problems(blocks, table) == [] && JoinedTable(table) && OwnEndFree(table)
    requires AllAgree(Includes(blocks, path), table)
    ensures Expand(Print(blocks), table).lines == Print(blocks) <==> forall i :: 0 <= i < |blocks| ==> Stays(blocks[i], table)
  {
    hide Expand, WfBlock, BlockOk, Stays, FillBlock, JoinedTable, OwnEndFree;
    ExpandPrinted(blocks, table);
    if Print(FillBlocks(blocks, table)) == Print(blocks) {
      UnchangedBlocks(blocks, table);
    }
    ProblemFreeIff(blocks, table);
    forall i | 0 <= i < |blocks|
      ensures FillBlock(blocks[i], table) == blocks[i] <==> Stays(blocks[i], table)
    {
      BlockAgrees(blocks, path, table, i);
      BlockStays(blocks[i], path, table);
    }
    assert FillBlocks(blocks, table) == blocks <==> forall i :: 0 <= i < |blocks| ==> FillBlock(blocks[i], table) == blocks[i];
  }

  lemma {:induction false} BlockAgrees(blocks: seq<Block>, path: string, table: Table, i: nat)
    requires Wf(blocks) && AllAgree(Includes(blocks, path), table) && i < |blocks|
    ensures AllAgree(BlockIncludes(blocks[i], path), table)
  {
    hide WfBlock, BlockIncludes, AllAgree;
    AgreeConcat(BlockIncludes(blocks[0], path), Includes(blocks[1..], path), table);
    if i > 0 {
      BlockAgrees(blocks[1..], path, table, i - 1);
    }
  }

  // ----- a tree that passes and is not yet resolved -----

  function EmptySite(): seq<Block> {
    [Fragmented(FragmentOpen("x", ""), [], End("x", "")), Included(IncludeOpen("x", "", ""), [Plain("")], End("x", ""))]
  }

  /** An empty fragment and a site of one empty line: the check finds nothing, and the resolver drops the line. */
  lemma PassesYetChanges()
    ensures var files := [File("a", Print(EmptySite()))];
            && Passes(files, Some(SiteLines(Collect(files).includes)))
            && Resolve(files, Collect(files).table) != files
  {
    hide Collect, Expand, ScanFrom, SiteLines, Resolve, EmptySite, Print, NoProblems, NoDrift, FillBlocks;
    var f := File("a", Print(EmptySite()));
    var table: Table := map["x" := Fragment("x", "a", [])];
    var site := Include("x", "", "a", []);
    SiteCollected();
    SiteContents();
    ScanPrinted(EmptySite(), "a");
    ExpandPrinted(EmptySite(), table);
    FilledSite(table);
    OneFile(f, site, table);
    assert [site][0].id == "x";
  }

  lemma OneFile(f: File, site: Include, table: Table)
    requires ScanLines(f.lines, f.path).Scanned? && ScanLines(f.lines, f.path).includes == [site] && Agrees(site, table)
    requires Expand(f.lines, table).problems == [] && Expand(f.lines, table).lines != f.lines
    ensures NoProblems([f], table) && NoDrift([f], table) && Resolve([f], table) != [f]
  {
    hide Expand, ScanFrom;
    assert Resolve([f], table)[0] == ResolveFile(f, table);
  }

  lemma SiteCollected()
    ensures Collect([File("a", Print(EmptySite()))]) == Collected(map["x" := Fragment("x", "a", [])], [Include("x", "", "a", [])], 0)
  {
    hide ScanFrom, EmptySite, Print;
    var files := [File("a", Print(EmptySite()))];
    var x, site := Fragment("x", "a", []), Include("x", "", "a", []);
    var table: Table := map["x" := x];
    SiteContents();
    ScanPrinted(EmptySite(), "a");
    assert Define(map[], [x]) == Define(table, [x][1..]);
    assert files[1..] == [] && [site] + [] == [site];
    assert CollectFrom([], table) == Collected(table, [], 0);
  }

  lemma SiteContents()
    ensures Wf(EmptySite())
    ensures Fragments(EmptySite(), "a") == [Fragment("x", "a", [])] && Includes(EmptySite(), "a") == [Include("x", "", "a", [])]
  {
    var owner, site := EmptySite()[0], EmptySite()[1];
    assert WfBlock(owner) && WfBlock(site);
    assert EmptySite()[1..] == [site] && [site][1..] == [];
    var x, i := Fragment("x", "a", []), Include("x", "", "a", []);
    assert BlockFragments(owner, "a") == [x] && BlockIncludes(owner, "a") == [];
    assert BlockFragments(site, "a") == [] && BlockIncludes(site, "a") == [i];
    assert Fragments([site], "a") == [] + Fragments([], "a");
    assert Includes([site], "a") == [i] + Includes([], "a");
    assert [x] + [] == [x] && [i] + [] == [i] && [] + [i] == [i];
  }

  lemma FilledSite(table: Table)
    requires table == map["x" := Fragment("x", "a", [])]
    ensures Wf(EmptySite()) && Problems(EmptySite(), table) == [] && Print(FillBlocks(EmptySite(), table)) != Print(EmptySite())
  {
    SiteContents();
    var blocks := EmptySite();
    var filled := FillBlocks(blocks, table);
    assert SourceMatches("a", "");
    assert BlockOk(blocks[0], table) && BlockOk(blocks[1], table);
    ProblemFreeIff(blocks, table);
    assert filled[1] == Included(IncludeOpen("x", "", ""), [], End("x", ""));
    assert OwnEndFree(table);
    if Print(filled) == Print(blocks) {
      UnchangedBlocks(blocks, table);
    }
  }
}
