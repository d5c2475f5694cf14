/** A documentation file as a list of blocks, and what scanning and expanding mean on it. */
module DocBlocks {
  import opened DocIncludes

  datatype Block =
    | Single(line: Line)
    | Fragmented(open: Line, body: seq<Line>, end: Line)
    | Included(open: Line, body: seq<Line>, end: Line)

  /** Lines a block may hold: the scanner takes them as they are. */
  predicate BodyLine(line: Line) {
    line.Plain? || line.Stray? || line.Inline?
  }

  predicate BodyLines(lines: seq<Line>) {
    forall i :: 0 <= i < |lines| ==> BodyLine(lines[i])
  }

  predicate WfBlock(b: Block) {
    match b
    case Single(line) => line.Plain? || (line.Inline? && !HasStray(line.parts))
    case Fragmented(open, body, end) => open.FragmentOpen? && BodyLines(body) && end.End? && end.id == open.id
    case Included(open, body, end) => open.IncludeOpen? && BodyLines(body) && end.End? && end.id == open.id
  }

  predicate Wf(blocks: seq<Block>) {
    forall i :: 0 <= i < |blocks| ==> WfBlock(blocks[i])
  }

  function PrintBlock(b: Block): seq<Line> {
    if b.Single? then [b.line] else [b.open] + (b.body + [b.end])
  }

  function Print(blocks: seq<Block>): seq<Line> {
    if blocks == [] then [] else PrintBlock(blocks[0]) + Print(blocks[1..])
  }

  // ----- scanning reads blocks -----

  function BlockFragments(b: Block, path: string): seq<Fragment>
    requires WfBlock(b)
  {
    match b
    case Single(line) => if line.Inline? then PartFragments(line.parts, path) else []
    case Fragmented(open, body, _) => [Fragment(open.id, path, Joined(body))]
    case Included(_, _, _) => []
  }

  function BlockIncludes(b: Block, path: string): seq<Include>
    requires WfBlock(b)
  {
    match b
    case Single(line) => if line.Inline? then PartIncludes(line.parts, path) else []
    case Fragmented(_, _, _) => []
    case Included(open, body, _) => [Include(open.id, open.source, path, Joined(body))]
  }

  function Fragments(blocks: seq<Block>, path: string): seq<Fragment>
    requires Wf(blocks)
  {
    if blocks == [] then [] else BlockFragments(blocks[0], path) + Fragments(blocks[1..], path)
  }

  function Includes(blocks: seq<Block>, path: string): seq<Include>
    requires Wf(blocks)
  {
    if blocks == [] then [] else BlockIncludes(blocks[0], path) + Includes(blocks[1..], path)
  }

  /** Body lines and an end delimiter close an open block. */
  lemma {:induction false} ScanBody(body: seq<Line>, end: Line, rest: seq<Line>, open: Open, path: string)
    requires !open.Closed? && end.End? && end.id == open.id && BodyLines(body)
    ensures ScanFrom(body + [end] + rest, open, path) ==
              if open.InFragment? then Behind([Fragment(open.id, path, Joined(open.lines + body))], [], ScanFrom(rest, Closed, path))
              else Behind([], [Include(open.id, open.source, path, Joined(open.lines + body))], ScanFrom(rest, Closed, path))
    decreases |body|
  {
    hide Joined, HasStray;
    var lines := body + [end] + rest;
    if body == [] {
      assert lines[0] == end && lines[1..] == rest && open.lines + body == open.lines;
    } else {
      assert lines[0] == body[0] && lines[1..] == body[1..] + [end] + rest;
      var open' := open.(lines := open.lines + [body[0]]);
      ScanBody(body[1..], end, rest, open', path);
      assert open.lines + body == open'.lines + body[1..];
    }
  }

  lemma ScanSingle(line: Line, rest: seq<Line>, path: string)
    requires WfBlock(Single(line))
    ensures ScanLines([line] + rest, path) ==
              Behind(BlockFragments(Single(line), path), BlockIncludes(Single(line), path), ScanLines(rest, path))
  {
    hide HasStray, PartFragments, PartIncludes;
    assert ([line] + rest)[1..] == rest;
    BehindNothing(ScanLines(rest, path));
  }

  lemma ScanOpening(line: Line, rest: seq<Line>, path: string)
    requires line.FragmentOpen? || line.IncludeOpen?
    ensures ScanLines([line] + rest, path) ==
              ScanFrom(rest, if line.FragmentOpen? then InFragment(line.id, []) else InInclude(line.id, line.source, []), path)
  {
    hide HasStray, PartFragments, PartIncludes;
    assert ([line] + rest)[1..] == rest;
  }

  lemma ScanBlock(b: Block, rest: seq<Line>, path: string)
    requires WfBlock(b)
    ensures ScanLines(PrintBlock(b) + rest, path) == Behind(BlockFragments(b, path), BlockIncludes(b, path), ScanLines(rest, path))
  {
    hide Joined, HasStray, ScanFrom, BodyLines;
    if b.Single? {
      ScanSingle(b.line, rest, path);
    } else {
      assert PrintBlock(b) + rest == [b.open] + (b.body + [b.end] + rest) && [] + b.body == b.body;
      ScanOpening(b.open, b.body + [b.end] + rest, path);
      ScanBody(b.body, b.end, rest, if b.Fragmented? then InFragment(b.open.id, []) else InInclude(b.open.id, b.open.source, []), path);
    }
  }

  lemma BehindNothing(rest: Scan)
    ensures Behind([], [], rest) == rest
  {
    if rest.Scanned? {
      assert [] + rest.fragments == rest.fragments && [] + rest.includes == rest.includes;
    }
  }

  /** The lines of blocks scan to the blocks' fragments and includes, in order. */
  lemma {:induction false} ScanPrinted(blocks: seq<Block>, path: string)
    requires Wf(blocks)
    ensures ScanLines(Print(blocks), path) == Scanned(Fragments(blocks, path), Includes(blocks, path))
  {
    hide ScanFrom;
    if blocks == [] {
      ScanNothing(path);
    } else {
      ScanPrinted(blocks[1..], path);
      ScanBlock(blocks[0], Print(blocks[1..]), path);
    }
  }

  lemma ScanNothing(path: string)
    ensures ScanLines([], path) == Scanned([], [])
  {
  }

  /** The next line of an open block that scans: its end delimiter, or a line of its body. */
  lemma {:induction false} ScanOpen(lines: seq<Line>, open: Open, path: string)
    requires !open.Closed? && ScanFrom(lines, open, path).Scanned?
    ensures lines != [] && (BodyLine(lines[0]) || (lines[0].End? && lines[0].id == open.id))
    ensures if lines[0].End? then ScanLines(lines[1..], path).Scanned?
            else ScanFrom(lines[1..], open.(lines := open.lines + [lines[0]]), path).Scanned?
  {
  }

  /** An open block that scans holds body lines up to an end delimiter of its id, and what follows scans. */
  lemma {:induction false} ParseBody(lines: seq<Line>, open: Open, path: string)
    requires !open.Closed? && ScanFrom(lines, open, path).Scanned?
    ensures var k := FindEnd(lines, open.id);
            k < |lines| && BodyLines(lines[..k]) && ScanLines(lines[k + 1..], path).Scanned?
    decreases |lines|
  {
    hide ScanFrom;
    ScanOpen(lines, open, path);
    if !lines[0].End? {
      ParseBody(lines[1..], open.(lines := open.lines + [lines[0]]), path);
      var k := FindEnd(lines, open.id);
      assert lines[..k] == [lines[0]] + lines[1..][..k - 1] && lines[k + 1..] == lines[1..][k..];
    }
  }

  /** How a file that scans begins. */
  lemma {:induction false} ScannedLine(lines: seq<Line>, path: string)
    requires lines != [] && ScanLines(lines, path).Scanned?
    ensures lines[0].FragmentOpen? || lines[0].IncludeOpen? || (WfBlock(Single(lines[0])) && ScanLines(lines[1..], path).Scanned?)
  {
    hide HasStray, PartFragments, PartIncludes;
  }

  lemma BlockLines(line: Line, after: seq<Line>, k: nat) returns (b: Block)
    requires (line.FragmentOpen? || line.IncludeOpen?) && k < |after|
    requires BodyLines(after[..k]) && after[k].End? && after[k].id == line.id
    ensures WfBlock(b) && [line] + after == PrintBlock(b) + after[k + 1..]
  {
    hide BodyLines;
    b := if line.FragmentOpen? then Fragmented(line, after[..k], after[k]) else Included(line, after[..k], after[k]);
    assert after == after[..k] + [after[k]] + after[k + 1..];
  }

  /** The first block of a file that scans; what follows it scans. */
  lemma {:induction false} FirstBlock(lines: seq<Line>, path: string) returns (b: Block, rest: seq<Line>)
    requires lines != [] && ScanLines(lines, path).Scanned?
    ensures WfBlock(b) && lines == PrintBlock(b) + rest && ScanLines(rest, path).Scanned?
  {
    hide ScanFrom, WfBlock, BodyLines;
    var line, after := lines[0], lines[1..];
    assert lines == [line] + after;
    if line.FragmentOpen? || line.IncludeOpen? {
      ScanOpening(line, after, path);
      ParseBody(after, if line.FragmentOpen? then InFragment(line.id, []) else InInclude(line.id, line.source, []), path);
      var k := FindEnd(after, line.id);
      b := BlockLines(line, after, k);
      rest := after[k + 1..];
    } else {
      ScannedLine(lines, path);
      b, rest := Single(line), after;
    }
  }

  /** A file that scans is the lines of some blocks. */
  lemma {:induction false} ScanParses(lines: seq<Line>, path: string) returns (blocks: seq<Block>)
    requires ScanLines(lines, path).Scanned?
    ensures Wf(blocks) && Print(blocks) == lines
    decreases |lines|
  {
    hide ScanFrom, WfBlock;
    if lines == [] {
      return [];
    }
    var first, rest := FirstBlock(lines, path);
    var more := ScanParses(rest, path);
    blocks := [first] + more;
    assert blocks[1..] == more;
  }

  /** The scanner takes exactly the files that are the lines of blocks. */
  lemma ScansIff(lines: seq<Line>, path: string)
    ensures ScanLines(lines, path).Scanned? <==> exists blocks :: Wf(blocks) && Print(blocks) == lines
  {
    hide ScanFrom;
    if ScanLines(lines, path).Scanned? {
      var blocks := ScanParses(lines, path);
    }
    if blocks :| Wf(blocks) && Print(blocks) == lines {
      ScanPrinted(blocks, path);
    }
  }

  // ----- expanding fills blocks -----

  function FillLine(line: Line, table: Table): Line {
    if line.Inline? then Inline(ExpandParts(line.parts, table).0) else line
  }

  function LineProblems(line: Line, table: Table): seq<Problem> {
    if line.Inline? then ExpandParts(line.parts, table).1 else []
  }

  function FillLines(lines: seq<Line>, table: Table): (r: seq<Line>)
    ensures |r| == |lines| && forall i :: 0 <= i < |lines| ==> r[i] == FillLine(lines[i], table)
  {
    seq(|lines|, i requires 0 <= i < |lines| => FillLine(lines[i], table))
  }

  function LinesProblems(lines: seq<Line>, table: Table): seq<Problem> {
    if lines == [] then [] else LineProblems(lines[0], table) + LinesProblems(lines[1..], table)
  }

  /** An include block takes its fragment's body; anywhere else only the inline includes of a line change. */
  function FillBlock(b: Block, table: Table): Block {
    match b
    case Single(line) => Single(FillLine(line, table))
    case Fragmented(open, body, end) => Fragmented(open, FillLines(body, table), end)
    case Included(open, body, end) =>
      if open.IncludeOpen? && open.id in table then Included(open, table[open.id].body, end) else b
  }

  function BlockProblems(b: Block, table: Table): seq<Problem>
    requires WfBlock(b)
  {
    match b
    case Single(line) => LineProblems(line, table)
    case Fragmented(open, body, end) => LinesProblems(body, table)
    case Included(open, body, end) =>
      if open.id !in table then [Undefined(open.id)] else SourceProblem(table[open.id], open.source)
  }

  function FillBlocks(blocks: seq<Block>, table: Table): (r: seq<Block>)
    ensures |r| == |blocks| && forall i :: 0 <= i < |blocks| ==> r[i] == FillBlock(blocks[i], table)
  {
    if blocks == [] then [] else [FillBlock(blocks[0], table)] + FillBlocks(blocks[1..], table)
  }

  function Problems(blocks: seq<Block>, table: Table): seq<Problem>
    requires Wf(blocks)
  {
    if blocks == [] then [] else BlockProblems(blocks[0], table) + Problems(blocks[1..], table)
  }

  lemma ExpandLine(line: Line, rest: seq<Line>, table: Table)
    requires !line.IncludeOpen?
    ensures Expand([line] + rest, table) == Before([FillLine(line, table)], LineProblems(line, table), Expand(rest, table))
  {
    hide ExpandParts;
    assert ([line] + rest)[1..] == rest;
  }

  lemma {:induction false} ExpandBody(body: seq<Line>, rest: seq<Line>, table: Table)
    requires BodyLines(body)
    ensures Expand(body + rest, table) == Before(FillLines(body, table), LinesProblems(body, table), Expand(rest, table))
    decreases |body|
  {
    hide Expand, FillLine, LineProblems;
    if body == [] {
      assert body + rest == rest && FillLines(body, table) == [];
      assert Before([], [], Expand(rest, table)) == Expand(rest, table);
    } else {
      assert body + rest == [body[0]] + (body[1..] + rest);
      ExpandLine(body[0], body[1..] + rest, table);
      ExpandBody(body[1..], rest, table);
      BeforeBefore([FillLine(body[0], table)], LineProblems(body[0], table), FillLines(body[1..], table), LinesProblems(body[1..], table), Expand(rest, table));
      assert FillLines(body, table) == [FillLine(body[0], table)] + FillLines(body[1..], table);
    }
  }

  lemma {:induction false} FindEndOf(body: seq<Line>, end: Line, rest: seq<Line>)
    requires end.End? && forall i :: 0 <= i < |body| ==> !(body[i].End? && body[i].id == end.id)
    ensures FindEnd(body + [end] + rest, end.id) == |body|
    decreases |body|
  {
    var lines := body + [end] + rest;
    if body != [] {
      assert lines[0] == body[0] && lines[1..] == body[1..] + [end] + rest;
      FindEndOf(body[1..], end, rest);
    }
  }

  lemma ExpandFragmented(b: Block, rest: seq<Line>, table: Table)
    requires WfBlock(b) && b.Fragmented?
    ensures Expand(PrintBlock(b) + rest, table) == Before(PrintBlock(FillBlock(b, table)), BlockProblems(b, table), Expand(rest, table))
  {
    hide Expand, LinesProblems, BodyLines;
    var tail := [b.end] + rest;
    var body, problems := FillLines(b.body, table), LinesProblems(b.body, table);
    assert PrintBlock(b) + rest == [b.open] + (b.body + tail);
    ExpandLine(b.open, b.body + tail, table);
    ExpandBody(b.body, tail, table);
    ExpandLine(b.end, rest, table);
    BeforeBefore(body, problems, [b.end], [], Expand(rest, table));
    BeforeBefore([b.open], [], body + [b.end], problems + [], Expand(rest, table));
    assert [] + (problems + []) == problems;
  }

  lemma IncludedLines(b: Block, rest: seq<Line>)
    requires WfBlock(b) && b.Included?
    ensures var lines, end := PrintBlock(b) + rest, |b.body| + 1;
            && lines[0] == b.open && lines[end] == b.end && lines[end + 1..] == rest && lines[1..end + 1] == b.body + [b.end]
            && FindEnd(lines[1..], b.open.id) == end - 1
  {
    hide FindEnd;
    FindEndOf(b.body, b.end, rest);
    assert (PrintBlock(b) + rest)[1..] == b.body + [b.end] + rest;
  }

  lemma ExpandIncluded(b: Block, rest: seq<Line>, table: Table)
    requires WfBlock(b) && b.Included?
    ensures Expand(PrintBlock(b) + rest, table) == Before(PrintBlock(FillBlock(b, table)), BlockProblems(b, table), Expand(rest, table))
  {
    hide FindEnd, SourceProblem, Expand, Before, BodyLines;
    var lines := PrintBlock(b) + rest;
    IncludedLines(b, rest);
    assert lines[0..] == lines;
    ExpandBlockAt(lines, 0, |b.body| + 1, table);
    if b.open.id in table {
      var body := table[b.open.id].body;
      assert [b.open] + body + [b.end] == [b.open] + (body + [b.end]);
    }
  }

  /** Expanding the lines of blocks fills each block where it stands and reports each block's problems, in order. */
  lemma {:induction false} ExpandPrinted(blocks: seq<Block>, table: Table)
    requires Wf(blocks)
    ensures Expand(Print(blocks), table) == Expansion(Print(FillBlocks(blocks, table)), Problems(blocks, table))
  {
    hide Expand, PrintBlock, FillBlock, BlockProblems;
    if blocks == [] {
      ExpandOfNothing(table);
    } else {
      ExpandPrinted(blocks[1..], table);
      ExpandBlock(blocks[0], Print(blocks[1..]), table);
      assert FillBlocks(blocks, table)[1..] == FillBlocks(blocks[1..], table);
    }
  }

  lemma ExpandBlock(b: Block, rest: seq<Line>, table: Table)
    requires WfBlock(b)
    ensures Expand(PrintBlock(b) + rest, table) == Before(PrintBlock(FillBlock(b, table)), BlockProblems(b, table), Expand(rest, table))
  {
    hide Expand;
    match b
    case Single(line) => ExpandLine(line, rest, table);
    case Fragmented(_, _, _) => ExpandFragmented(b, rest, table);
    case Included(_, _, _) => ExpandIncluded(b, rest, table);
  }

  // ----- when nothing is reported -----

  /** The declared source, without the dots and slashes it begins with, ends the owner's path. */
  lemma SourceMatchesIff(owner: string, declared: string)
    ensures SourceMatches(owner, declared) <==>
              exists k, n :: 0 <= k <= |declared| && 0 <= n <= |owner| && StripsTo(declared, k) && owner[n..] == declared[k..]
  {
    var k := Strip(declared);
    if SourceMatches(owner, declared) {
      var n := |owner| - |declared[k..]|;
      assert owner[n..] == declared[k..];
    }
    if k', n :| 0 <= k' <= |declared| && 0 <= n <= |owner| && StripsTo(declared, k') && owner[n..] == declared[k'..] {
      assert k' == k;
      assert |owner[n..]| == |owner| - n;
    }
  }

  /** The first k characters, and no more, are dots and slashes. */
  predicate StripsTo(s: string, k: nat)
    requires k <= |s|
  {
    (forall i :: 0 <= i < k ==> s[i] == '.' || s[i] == '/') && (k < |s| ==> s[k] != '.' && s[k] != '/')
  }

  lemma {:induction false} Strip(s: string) returns (k: nat)
    ensures k <= |s| && StripsTo(s, k) && LeftStripped(s) == s[k..]
  {
    k := 0;
    if s != "" && (s[0] == '.' || s[0] == '/') {
      var j := Strip(s[1..]);
      k := j + 1;
    }
  }

  /** An inline include names a fragment of at most one line, in the file it declares. */
  predicate PartOk(part: Part, table: Table) {
    part.InlineInclude? ==>
      part.id in table && |table[part.id].body| <= 1 && SourceMatches(table[part.id].path, part.source)
  }

  predicate LineOk(line: Line, table: Table) {
    line.Inline? ==> forall i :: 0 <= i < |line.parts| ==> PartOk(line.parts[i], table)
  }

  predicate BlockOk(b: Block, table: Table)
    requires WfBlock(b)
  {
    match b
    case Single(line) => LineOk(line, table)
    case Fragmented(_, body, _) => forall i :: 0 <= i < |body| ==> LineOk(body[i], table)
    case Included(open, _, _) => open.id in table && SourceMatches(table[open.id].path, open.source)
  }

  /** Each part is filled where it stands. */
  lemma {:induction false} PartsAt(parts: seq<Part>, table: Table)
    ensures var (out, problems) := ExpandParts(parts, table);
            && |out| == |parts| && (forall i :: 0 <= i < |parts| ==> out[i] == ExpandPart(parts[i], table).0)
            && (problems == [] <==> forall i :: 0 <= i < |parts| ==> PartOk(parts[i], table))
  {
    hide SourceMatches;
    if parts != [] {
      PartsAt(parts[1..], table);
      assert parts == [parts[0]] + parts[1..];
    }
  }

  lemma {:induction false} LinesOk(lines: seq<Line>, table: Table)
    ensures LinesProblems(lines, table) == [] <==> forall i :: 0 <= i < |lines| ==> LineOk(lines[i], table)
  {
    hide PartOk, ExpandParts;
    if lines != [] {
      LinesOk(lines[1..], table);
      if lines[0].Inline? {
        PartsAt(lines[0].parts, table);
      }
      assert lines == [lines[0]] + lines[1..];
    }
  }

  lemma BlockOkIff(b: Block, table: Table)
    requires WfBlock(b)
    ensures BlockProblems(b, table) == [] <==> BlockOk(b, table)
  {
    hide PartOk, ExpandParts, LinesProblems, SourceMatches;
    match b
    case Single(line) =>
      if line.Inline? {
        PartsAt(line.parts, table);
      }
    case Fragmented(_, body, _) => LinesOk(body, table);
    case Included(_, _, _) =>
  }

  /** Expansion reports nothing exactly where every directive outside an include body names a fragment, in the file it
      declares, and of at most one line where the directive is inline. */
  lemma {:induction false} ProblemFreeIff(blocks: seq<Block>, table: Table)
    requires Wf(blocks)
    ensures Problems(blocks, table) == [] <==> forall i :: 0 <= i < |blocks| ==> BlockOk(blocks[i], table)
  {
    hide BlockProblems, BlockOk, WfBlock;
    if blocks != [] {
      BlockOkIff(blocks[0], table);
      ProblemFreeIff(blocks[1..], table);
      assert blocks == [blocks[0]] + blocks[1..];
    }
  }

  // ----- a file that expansion leaves alone -----

  /** No body closes its own fragment. */
  ghost predicate OwnEndFree(table: Table) {
    forall id, i :: id in table && 0 <= i < |table[id].body| ==> !(table[id].body[i].End? && table[id].body[i].id == id)
  }

  /** Every body is the lines of a joined text. */
  ghost predicate JoinedTable(table: Table) {
    forall id :: id in table ==> IsJoined(table[id].body)
  }

  predicate IsJoined(body: Body) {
    body != [Plain("")]
  }

  lemma CutAt(a: seq<Line>, b: seq<Line>, rest: seq<Line>, rest': seq<Line>)
    requires |a| == |b| && a + rest == b + rest'
    ensures a == b && rest == rest'
  {
    assert a == (a + rest)[..|a|] && b == (b + rest')[..|b|];
    assert rest == (a + rest)[|a|..] && rest' == (b + rest')[|b|..];
  }

  /** Two bodies without an end delimiter of the id, each closed by one, are as long in equal lines. */
  lemma BodiesAgree(body: seq<Line>, body': seq<Line>, end: Line, rest: seq<Line>, rest': seq<Line>)
    requires end.End? && body + [end] + rest == body' + [end] + rest'
    requires forall i :: 0 <= i < |body| ==> !(body[i].End? && body[i].id == end.id)
    requires forall i :: 0 <= i < |body'| ==> !(body'[i].End? && body'[i].id == end.id)
    ensures |body| == |body'|
  {
    hide FindEnd;
    FindEndOf(body, end, rest);
    FindEndOf(body', end, rest');
  }

  lemma IncludedLength(b: Block, body: seq<Line>, rest: seq<Line>, rest': seq<Line>)
    requires WfBlock(b) && b.Included? && forall i :: 0 <= i < |body| ==> !(body[i].End? && body[i].id == b.open.id)
    requires [b.open] + (body + [b.end]) + rest' == PrintBlock(b) + rest
    ensures |body| == |b.body|
  {
    Regroup(b.open, body, b.end, rest');
    Regroup(b.open, b.body, b.end, rest);
    CutAt([b.open], [b.open], body + [b.end] + rest', b.body + [b.end] + rest);
    BodiesAgree(body, b.body, b.end, rest', rest);
  }

  lemma Regroup(open: Line, body: seq<Line>, end: Line, rest: seq<Line>)
    ensures [open] + (body + [end]) + rest == [open] + (body + [end] + rest)
  {
  }

  lemma FilledLength(b: Block, table: Table, rest: seq<Line>, rest': seq<Line>)
    requires WfBlock(b) && OwnEndFree(table)
    requires PrintBlock(FillBlock(b, table)) + rest' == PrintBlock(b) + rest
    ensures |PrintBlock(FillBlock(b, table))| == |PrintBlock(b)|
  {
    hide BodyLines, FillLine;
    if b.Included? && b.open.id in table {
      IncludedLength(b, table[b.open.id].body, rest, rest');
    }
  }

  lemma HeadsAgree(b: Block, table: Table, rest: seq<Line>, rest': seq<Line>)
    requires WfBlock(b) && OwnEndFree(table)
    requires PrintBlock(FillBlock(b, table)) + rest' == PrintBlock(b) + rest
    ensures FillBlock(b, table) == b && rest' == rest
  {
    hide FillLine, OwnEndFree;
    var b' := FillBlock(b, table);
    FilledLength(b, table, rest, rest');
    CutAt(PrintBlock(b'), PrintBlock(b), rest', rest);
    if !b.Single? {
      var n := |b.body|;
      assert b'.body == PrintBlock(b')[1..n + 1] && b.body == PrintBlock(b)[1..n + 1];
    }
  }

  /** Filling that changes no line changes no block. */
  lemma {:induction false} UnchangedBlocks(blocks: seq<Block>, table: Table)
    requires Wf(blocks) && OwnEndFree(table) && Print(FillBlocks(blocks, table)) == Print(blocks)
    ensures FillBlocks(blocks, table) == blocks
  {
    hide WfBlock, PrintBlock, FillBlock, OwnEndFree;
    if blocks != [] {
      assert FillBlocks(blocks, table)[1..] == FillBlocks(blocks[1..], table);
      HeadsAgree(blocks[0], table, Print(blocks[1..]), Print(FillBlocks(blocks[1..], table)));
      UnchangedBlocks(blocks[1..], table);
    }
  }

  /** A site that names no fragment is reported. */
  ghost predicate DefinedOrReported(site: Include, table: Table, problems: seq<Problem>) {
    site.id in table || Undefined(site.id) in problems
  }

  /** A site with a body other than its fragment's can only be an inline one whose fragment has several lines. */
  ghost predicate AgreesOrReported(site: Include, table: Table, problems: seq<Problem>) {
    site.id in table ==> site.body == table[site.id].body || MultiLine(site.id) in problems
  }

  lemma {:induction false} PartSites(parts: seq<Part>, path: string, table: Table)
    requires JoinedTable(table)
    ensures var (out, problems) := ExpandParts(parts, table);
            forall site :: site in PartIncludes(parts, path) ==>
              DefinedOrReported(site, table, problems) && (out == parts ==> AgreesOrReported(site, table, problems))
  {
    hide SourceMatches;
    if parts != [] {
      PartSites(parts[1..], path, table);
      var (out, problems) := ExpandParts(parts, table);
      assert out[0] == ExpandPart(parts[0], table).0 && out[1..] == ExpandParts(parts[1..], table).0;
    }
  }

  lemma BlockSites(b: Block, path: string, table: Table)
    requires WfBlock(b) && JoinedTable(table)
    ensures var problems := BlockProblems(b, table);
            forall site :: site in BlockIncludes(b, path) ==>
              DefinedOrReported(site, table, problems) && (FillBlock(b, table) == b ==> AgreesOrReported(site, table, problems))
  {
    hide ExpandParts, PartIncludes, SourceMatches;
    if b.Single? && b.line.Inline? {
      PartSites(b.line.parts, path, table);
    }
  }

  lemma {:induction false} SitesReported(blocks: seq<Block>, path: string, table: Table)
    requires Wf(blocks) && JoinedTable(table)
    ensures var problems := Problems(blocks, table);
            forall site :: site in Includes(blocks, path) ==>
              DefinedOrReported(site, table, problems) && (FillBlocks(blocks, table) == blocks ==> AgreesOrReported(site, table, problems))
  {
    hide WfBlock, FillBlock, BlockProblems, BlockIncludes, JoinedTable;
    if blocks != [] {
      BlockSites(blocks[0], path, table);
      SitesReported(blocks[1..], path, table);
      assert FillBlocks(blocks, table) == [FillBlock(blocks[0], table)] + FillBlocks(blocks[1..], table);
      assert blocks == [blocks[0]] + blocks[1..];
    }
  }

  /** In a file that scans, every site that names no fragment is reported; and where expansion leaves the file alone,
      every other site has its fragment's body or is reported. */
  lemma ScannedSites(lines: seq<Line>, path: string, table: Table)
    requires ScanLines(lines, path).Scanned? && JoinedTable(table) && OwnEndFree(table)
    ensures var expansion := Expand(lines, table);
            forall site :: site in ScanLines(lines, path).includes ==>
              && DefinedOrReported(site, table, expansion.problems)
              && (expansion.lines == lines ==> AgreesOrReported(site, table, expansion.problems))
  {
    hide ScanFrom, Expand, OwnEndFree, JoinedTable;
    var blocks := ScanParses(lines, path);
    ScanPrinted(blocks, path);
    ExpandPrinted(blocks, table);
    SitesReported(blocks, path, table);
    if Expand(lines, table).lines == lines {
      UnchangedBlocks(blocks, table);
    }
  }

  // ----- expanding once settles -----

  predicate AllPlain(lines: seq<Line>) {
    forall i :: 0 <= i < |lines| ==> lines[i].Plain?
  }

  /** No body in the table carries a marker. */
  ghost predicate PlainTable(table: Table) {
    forall id :: id in table ==> AllPlain(table[id].body)
  }

  ghost predicate PlainFragments(fragments: seq<Fragment>) {
    forall i :: 0 <= i < |fragments| ==> AllPlain(fragments[i].body)
  }

  /** The same includes with the bodies their fragments hold. */
  function Fill(includes: seq<Include>, table: Table): (r: seq<Include>)
    ensures |r| == |includes|
    ensures forall i :: 0 <= i < |includes| && includes[i].id in table ==>
              r[i] == includes[i].(body := table[includes[i].id].body)
  {
    if includes == [] then []
    else
      var i := includes[0];
      [if i.id in table then i.(body := table[i.id].body) else i] + Fill(includes[1..], table)
  }

  lemma {:induction false} FillConcat(a: seq<Include>, b: seq<Include>, table: Table)
    ensures Fill(a + b, table) == Fill(a, table) + Fill(b, table)
  {
    if a == [] {
      assert a + b == b;
    } else {
      assert (a + b)[1..] == a[1..] + b;
      FillConcat(a[1..], b, table);
    }
  }

  lemma {:induction false} PartsSettle(parts: seq<Part>, path: string, table: Table)
    requires JoinedTable(table) && forall i :: 0 <= i < |parts| ==> PartOk(parts[i], table)
    ensures var out := ExpandParts(parts, table).0;
            && PartFragments(out, path) == PartFragments(parts, path)
            && PartIncludes(out, path) == Fill(PartIncludes(parts, path), table)
            && ExpandParts(out, table).0 == out
  {
    hide SourceMatches;
    if parts != [] {
      PartsSettle(parts[1..], path, table);
      var out := ExpandParts(parts, table).0;
      assert out[0] == ExpandPart(parts[0], table).0 && out[1..] == ExpandParts(parts[1..], table).0;
      var first: seq<Include> := if parts[0].InlineInclude? then [Include(parts[0].id, parts[0].source, path, Joined(parts[0].body))] else [];
      FillConcat(first, PartIncludes(parts[1..], path), table);
    }
  }

  lemma PartsStayOk(parts: seq<Part>, table: Table)
    ensures var out := ExpandParts(parts, table).0;
            && (HasStray(out) <==> HasStray(parts))
            && ((forall i :: 0 <= i < |parts| ==> PartOk(parts[i], table)) ==> forall i :: 0 <= i < |out| ==> PartOk(out[i], table))
  {
    hide ExpandParts;
    PartsAt(parts, table);
    var out := ExpandParts(parts, table).0;
    assert forall i :: 0 <= i < |parts| ==> out[i].StrayText? == parts[i].StrayText?;
  }

  /** What filling does to a block: it scans with the same fragments, its includes filled, and filling again changes
      nothing. */
  ghost predicate Settles(b: Block, path: string, table: Table)
    requires WfBlock(b)
  {
    var b' := FillBlock(b, table);
    && WfBlock(b') && BlockOk(b', table) && FillBlock(b', table) == b'
    && BlockFragments(b', path) == BlockFragments(b, path)
    && BlockIncludes(b', path) == Fill(BlockIncludes(b, path), table)
  }

  lemma BlockSettles(b: Block, path: string, table: Table)
    requires WfBlock(b) && BlockOk(b, table) && PlainTable(table) && JoinedTable(table)
    requires b.Fragmented? ==> AllPlain(b.body)
    ensures Settles(b, path, table)
  {
    hide ExpandParts, PartFragments, PartIncludes, HasStray, PartOk, SourceMatches;
    match b
    case Single(line) =>
      if line.Inline? {
        PartsSettle(line.parts, path, table);
        PartsStayOk(line.parts, table);
      }
    case Fragmented(_, body, _) =>
      assert FillLines(body, table) == body;
    case Included(open, body, _) =>
      assert Joined(table[open.id].body) == table[open.id].body;
  }

  lemma {:induction false} BlocksSettle(blocks: seq<Block>, path: string, table: Table)
    requires Wf(blocks) && forall i :: 0 <= i < |blocks| ==> Settles(blocks[i], path, table)
    ensures var filled := FillBlocks(blocks, table);
            && Wf(filled) && FillBlocks(filled, table) == filled && Problems(filled, table) == []
            && Fragments(filled, path) == Fragments(blocks, path) && Includes(filled, path) == Fill(Includes(blocks, path), table)
  {
    hide WfBlock, FillBlock, BlockOk, BlockProblems, BlockFragments, BlockIncludes;
    var filled := FillBlocks(blocks, table);
    assert forall i :: 0 <= i < |filled| ==> WfBlock(filled[i]) && BlockOk(filled[i], table);
    ProblemFreeIff(filled, table);
    if blocks != [] {
      BlocksSettle(blocks[1..], path, table);
      assert filled[1..] == FillBlocks(blocks[1..], table);
      FillConcat(BlockIncludes(blocks[0], path), Includes(blocks[1..], path), table);
    }
  }

  /** The same of a whole file that scans. */
  ghost predicate Settled(lines: seq<Line>, path: string, table: Table) {
    var scan, out := ScanLines(lines, path), Expand(lines, table).lines;
    && scan.Scanned?
    && ScanLines(out, path) == Scanned(scan.fragments, Fill(scan.includes, table))
    && Expand(out, table) == Expansion(out, [])
  }

  lemma PlainBody(b: Block, path: string, more: seq<Fragment>)
    requires WfBlock(b) && PlainFragments(BlockFragments(b, path) + more)
    ensures (b.Fragmented? ==> AllPlain(b.body)) && PlainFragments(more)
  {
    hide WfBlock, AllPlain, BlockFragments;
    PlainSplit(BlockFragments(b, path), more);
    if b.Fragmented? {
      FragmentBody(b, path);
    }
  }

  lemma PlainSplit(a: seq<Fragment>, b: seq<Fragment>)
    requires PlainFragments(a + b)
    ensures PlainFragments(a) && PlainFragments(b)
  {
    hide AllPlain;
    assert forall i :: 0 <= i < |a| ==> a[i] == (a + b)[i];
    assert forall i :: 0 <= i < |b| ==> b[i] == (a + b)[|a| + i];
  }

  lemma FragmentBody(b: Block, path: string)
    requires WfBlock(b) && b.Fragmented? && PlainFragments(BlockFragments(b, path))
    ensures AllPlain(b.body)
  {
    assert AllPlain(BlockFragments(b, path)[0].body);
  }

  lemma {:induction false} PlainBodies(blocks: seq<Block>, path: string)
    requires Wf(blocks) && PlainFragments(Fragments(blocks, path))
    ensures forall i :: 0 <= i < |blocks| && blocks[i].Fragmented? ==> AllPlain(blocks[i].body)
  {
    hide WfBlock, BlockFragments, PlainFragments, AllPlain;
    if blocks != [] {
      PlainBody(blocks[0], path, Fragments(blocks[1..], path));
      PlainBodies(blocks[1..], path);
    }
  }

  /** A file that scans, whose fragments are plain and whose expansion reports nothing, settles. */
  lemma {:induction false} ExpandSettles(lines: seq<Line>, path: string, table: Table)
    requires ScanLines(lines, path).Scanned? && PlainFragments(ScanLines(lines, path).fragments)
    requires PlainTable(table) && JoinedTable(table) && Expand(lines, table).problems == []
    ensures Settled(lines, path, table)
  {
    hide ScanFrom, Expand, PlainTable, JoinedTable, WfBlock, BlockOk, Settles;
    var blocks := ScanParses(lines, path);
    ScanPrinted(blocks, path);
    ExpandPrinted(blocks, table);
    ProblemFreeIff(blocks, table);
    PlainBodies(blocks, path);
    forall i | 0 <= i < |blocks|
      ensures Settles(blocks[i], path, table)
    {
      BlockSettles(blocks[i], path, table);
    }
    BlocksSettle(blocks, path, table);
    var filled := FillBlocks(blocks, table);
    ScanPrinted(filled, path);
    ExpandPrinted(filled, table);
  }

  // ----- what a scan collects -----

  /** The pattern of an inline fragment matches within a line, and up to the first end delimiter of its id. */
  predicate ByPattern(line: Line) {
    line.Inline? ==> forall i :: 0 <= i < |line.parts| && line.parts[i].InlineFragment? ==>
      var part := line.parts[i]; |part.body| <= 1 && (part.body != [] ==> !(part.body[0].End? && part.body[0].id == part.id))
  }

  predicate ByPatterns(lines: seq<Line>) {
    forall i :: 0 <= i < |lines| ==> ByPattern(lines[i])
  }

  ghost predicate OwnEndFreeBody(f: Fragment) {
    forall i :: 0 <= i < |f.body| ==> !(f.body[i].End? && f.body[i].id == f.id)
  }

  lemma {:induction false} PartsCollect(parts: seq<Part>, path: string)
    ensures forall f :: f in PartFragments(parts, path) ==> IsJoined(f.body) && (ByPattern(Inline(parts)) ==> OwnEndFreeBody(f))
  {
    if parts != [] {
      PartsCollect(parts[1..], path);
      assert parts == [parts[0]] + parts[1..];
      if ByPattern(Inline(parts)) {
        assert ByPattern(Inline(parts[1..]));
      }
    }
  }

  lemma {:induction false} BlocksCollect(blocks: seq<Block>, path: string)
    requires Wf(blocks)
    ensures forall f :: f in Fragments(blocks, path) ==> IsJoined(f.body) && (ByPatterns(Print(blocks)) ==> OwnEndFreeBody(f))
  {
    hide PartFragments, HasStray, ByPattern;
    if blocks != [] {
      BlocksCollect(blocks[1..], path);
      var b, more := blocks[0], Print(blocks[1..]);
      if ByPatterns(Print(blocks)) {
        assert Print(blocks) == PrintBlock(b) + more;
        assert forall i :: 0 <= i < |more| ==> more[i] == Print(blocks)[|PrintBlock(b)| + i];
      }
      if b.Single? && b.line.Inline? {
        PartsCollect(b.line.parts, path);
        assert Print(blocks)[0] == b.line;
      }
    }
  }

  lemma ScannedFragments(lines: seq<Line>, path: string)
    requires ScanLines(lines, path).Scanned?
    ensures forall f :: f in ScanLines(lines, path).fragments ==> IsJoined(f.body) && (ByPatterns(lines) ==> OwnEndFreeBody(f))
  {
    hide ScanFrom;
    var blocks := ScanParses(lines, path);
    ScanPrinted(blocks, path);
    BlocksCollect(blocks, path);
  }
}
