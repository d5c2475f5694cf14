/** Documentation transclusion: the scanner of fragment and include markers, and the rewriter of include bodies. */
module DocIncludes {

  /** A line, by what the scanner's patterns find in it; `spelling` tells apart lines that read the same. */
  datatype Line =
    | Plain(text: string)
    | Stray(text: string)
    | FragmentOpen(id: string, spelling: string)
    | IncludeOpen(id: string, source: string, spelling: string)
    | End(id: string, spelling: string)
    | Inline(parts: seq<Part>)

  /** A piece of a line that carries inline pairs. */
  datatype Part =
    | Text(text: string)
    | StrayText(text: string)
    | InlineFragment(id: string, body: Body)
    | InlineInclude(id: string, source: string, body: Body)

  /** The lines of a body as its joined text has them: joining no line and joining one empty line give one text. */
  type Body = seq<Line>

  function Joined(lines: seq<Line>): Body {
    if lines == [Plain("")] then [] else lines
  }

  datatype Fragment = Fragment(id: string, path: string, body: Body)
  datatype Include = Include(id: string, source: string, path: string, body: Body)

  // ----- scanning -----

  datatype Scan = MarkerError | Scanned(fragments: seq<Fragment>, includes: seq<Include>)

  /** The delimiter opened and not yet closed, with the lines since. */
  datatype Open = Closed | InFragment(id: string, lines: seq<Line>) | InInclude(id: string, source: string, lines: seq<Line>)

  function Behind(fragments: seq<Fragment>, includes: seq<Include>, rest: Scan): Scan {
    if rest.MarkerError? then rest else Scanned(fragments + rest.fragments, includes + rest.includes)
  }

  function PartFragments(parts: seq<Part>, path: string): seq<Fragment> {
    if parts == [] then []
    else (if parts[0].InlineFragment? then [Fragment(parts[0].id, path, Joined(parts[0].body))] else []) + PartFragments(parts[1..], path)
  }

  function PartIncludes(parts: seq<Part>, path: string): seq<Include> {
    if parts == [] then []
    else (if parts[0].InlineInclude? then [Include(parts[0].id, parts[0].source, path, Joined(parts[0].body))] else []) + PartIncludes(parts[1..], path)
  }

  predicate HasStray(parts: seq<Part>) {
    exists i :: 0 <= i < |parts| && parts[i].StrayText?
  }

  function ScanFrom(lines: seq<Line>, open: Open, path: string): Scan {
    if lines == [] then if open.Closed? then Scanned([], []) else MarkerError
    else
      var line, rest := lines[0], lines[1..];
      if open.Closed? && line.Inline? then
        if HasStray(line.parts) then MarkerError
        else Behind(PartFragments(line.parts, path), PartIncludes(line.parts, path), ScanFrom(rest, Closed, path))
      else if line.FragmentOpen? || line.IncludeOpen? then
        if !open.Closed? then MarkerError
        else if line.FragmentOpen? then ScanFrom(rest, InFragment(line.id, []), path)
        else ScanFrom(rest, InInclude(line.id, line.source, []), path)
      else if line.End? then
        if open.Closed? || open.id != line.id then MarkerError
        else if open.InFragment? then Behind([Fragment(open.id, path, Joined(open.lines))], [], ScanFrom(rest, Closed, path))
        else Behind([], [Include(open.id, open.source, path, Joined(open.lines))], ScanFrom(rest, Closed, path))
      else if !open.Closed? then ScanFrom(rest, open.(lines := open.lines + [line]), path)
      else if line.Stray? then MarkerError
      else ScanFrom(rest, Closed, path)
  }

  function ScanLines(lines: seq<Line>, path: string): Scan {
    ScanFrom(lines, Closed, path)
  }

  lemma BehindBehind(f: seq<Fragment>, i: seq<Include>, f': seq<Fragment>, i': seq<Include>, rest: Scan)
    ensures Behind(f, i, Behind(f', i', rest)) == Behind(f + f', i + i', rest)
  {
    if rest.Scanned? {
      assert f + (f' + rest.fragments) == f + f' + rest.fragments;
      assert i + (i' + rest.includes) == i + i' + rest.includes;
    }
  }

  /** The source's form: one pass with the open marker and the body begun as state. */
  method ScanFile(lines: seq<Line>, path: string) returns (scan: Scan)
    ensures scan == ScanLines(lines, path)
  {
    hide PartFragments, PartIncludes, HasStray;
    var fragments: seq<Fragment> := [];
    var includes: seq<Include> := [];
    var open := Closed;
    assert lines[0..] == lines;
    for index := 0 to |lines|
      invariant Behind(fragments, includes, ScanFrom(lines[index..], open, path)) == ScanLines(lines, path)
    {
      var line := lines[index];
      ghost var rest := lines[index + 1..];
      assert lines[index..][0] == line && lines[index..][1..] == rest;
      if open.Closed? && line.Inline? {
        if HasStray(line.parts) {
          return MarkerError;
        }
        BehindBehind(fragments, includes, PartFragments(line.parts, path), PartIncludes(line.parts, path), ScanFrom(rest, Closed, path));
        fragments := fragments + PartFragments(line.parts, path);
        includes := includes + PartIncludes(line.parts, path);
      } else if line.FragmentOpen? || line.IncludeOpen? {
        if !open.Closed? {
          return MarkerError;
        }
        open := if line.FragmentOpen? then InFragment(line.id, []) else InInclude(line.id, line.source, []);
      } else if line.End? {
        if open.Closed? || line.id != open.id {
          return MarkerError;
        }
        if open.InFragment? {
          BehindBehind(fragments, includes, [Fragment(open.id, path, Joined(open.lines))], [], ScanFrom(rest, Closed, path));
          fragments := fragments + [Fragment(open.id, path, Joined(open.lines))];
          assert includes + [] == includes;
        } else {
          BehindBehind(fragments, includes, [], [Include(open.id, open.source, path, Joined(open.lines))], ScanFrom(rest, Closed, path));
          includes := includes + [Include(open.id, open.source, path, Joined(open.lines))];
          assert fragments + [] == fragments;
        }
        open := Closed;
      } else if !open.Closed? {
        open := open.(lines := open.lines + [line]);
      } else if line.Stray? {
        return MarkerError;
      }
    }
    assert lines[|lines|..] == [] && fragments + [] == fragments && includes + [] == includes;
    if !open.Closed? {
      return MarkerError;
    }
    return Scanned(fragments, includes);
  }

  // ----- expanding -----

  type Table = map<string, Fragment>

  datatype Problem = Unclosed(id: string) | Undefined(id: string) | MultiLine(id: string) | WrongSource(id: string)

  datatype Expansion = Expansion(lines: seq<Line>, problems: seq<Problem>)

  function Before(lines: seq<Line>, problems: seq<Problem>, rest: Expansion): Expansion {
    Expansion(lines + rest.lines, problems + rest.problems)
  }

  /** `owner.endswith(declared.lstrip("./"))`. */
  function LeftStripped(s: string): string {
    if s != "" && (s[0] == '.' || s[0] == '/') then LeftStripped(s[1..]) else s
  }

  predicate SourceMatches(owner: string, declared: string) {
    var d := LeftStripped(declared);
    |d| <= |owner| && owner[|owner| - |d|..] == d
  }

  function SourceProblem(f: Fragment, declared: string): seq<Problem> {
    if SourceMatches(f.path, declared) then [] else [WrongSource(f.id)]
  }

  function ExpandPart(part: Part, table: Table): (Part, seq<Problem>) {
    if !part.InlineInclude? then (part, [])
    else if part.id !in table then (part, [Undefined(part.id)])
    else if |table[part.id].body| > 1 then (part, [MultiLine(part.id)])
    else (part.(body := table[part.id].body), SourceProblem(table[part.id], part.source))
  }

  function ExpandParts(parts: seq<Part>, table: Table): (seq<Part>, seq<Problem>) {
    if parts == [] then ([], [])
    else
      var (part, problems) := ExpandPart(parts[0], table);
      var (more, moreProblems) := ExpandParts(parts[1..], table);
      ([part] + more, problems + moreProblems)
  }

  /** The index of the first end delimiter of the id, or the length where there is none. */
  function FindEnd(lines: seq<Line>, id: string): (k: nat)
    ensures k <= |lines| && (k < |lines| ==> lines[k].End? && lines[k].id == id)
    ensures forall i :: 0 <= i < k ==> !(lines[i].End? && lines[i].id == id)
  {
    if lines == [] || (lines[0].End? && lines[0].id == id) then 0 else 1 + FindEnd(lines[1..], id)
  }

  function Expand(lines: seq<Line>, table: Table): Expansion
    decreases |lines|
  {
    if lines == [] then Expansion([], [])
    else
      var line, rest := lines[0], lines[1..];
      if line.Inline? then
        var (parts, problems) := ExpandParts(line.parts, table);
        Before([Inline(parts)], problems, Expand(rest, table))
      else if !line.IncludeOpen? then Before([line], [], Expand(rest, table))
      else
        var k := FindEnd(rest, line.id);
        if k == |rest| then Before([line], [Unclosed(line.id)], Expand(rest, table))
        else if line.id !in table then
          Before([line] + rest[..k + 1], [Undefined(line.id)], Expand(rest[k + 1..], table))
        else
          var f := table[line.id];
          Before([line] + f.body + [rest[k]], SourceProblem(f, line.source), Expand(rest[k + 1..], table))
  }

  lemma BeforeBefore(a: seq<Line>, p: seq<Problem>, a': seq<Line>, p': seq<Problem>, rest: Expansion)
    ensures Before(a, p, Before(a', p', rest)) == Before(a + a', p + p', rest)
  {
    assert a + (a' + rest.lines) == a + a' + rest.lines;
    assert p + (p' + rest.problems) == p + p' + rest.problems;
  }

  method EndIndex(lines: seq<Line>, from: nat, id: string) returns (end: nat)
    requires from <= |lines|
    ensures from <= end <= |lines| && FindEnd(lines[from..], id) == end - from
  {
    end := from;
    while end < |lines| && !(lines[end].End? && lines[end].id == id)
      invariant from <= end <= |lines| && FindEnd(lines[from..], id) == end - from + FindEnd(lines[end..], id)
    {
      assert lines[end..][1..] == lines[end + 1..];
      end := end + 1;
    }
  }

  lemma ExpandLineAt(lines: seq<Line>, i: nat, table: Table)
    requires i < |lines| && !lines[i].IncludeOpen?
    ensures var line := lines[i];
            Expand(lines[i..], table) ==
              if line.Inline? then Before([Inline(ExpandParts(line.parts, table).0)], ExpandParts(line.parts, table).1, Expand(lines[i + 1..], table))
              else Before([line], [], Expand(lines[i + 1..], table))
  {
    assert lines[i..][1..] == lines[i + 1..];
  }

  lemma ExpandBlockAt(lines: seq<Line>, i: nat, end: nat, table: Table)
    requires i < end <= |lines| && lines[i].IncludeOpen? && FindEnd(lines[i + 1..], lines[i].id) == end - i - 1
    ensures var line := lines[i];
            Expand(lines[i..], table) ==
              if end == |lines| then Before([line], [Unclosed(line.id)], Expand(lines[i + 1..], table))
              else if line.id !in table then Before([line] + lines[i + 1..end + 1], [Undefined(line.id)], Expand(lines[end + 1..], table))
              else Before([line] + table[line.id].body + [lines[end]], SourceProblem(table[line.id], line.source), Expand(lines[end + 1..], table))
  {
    hide SourceProblem;
    var rest := lines[i + 1..];
    assert lines[i..][1..] == rest;
    if end < |lines| {
      assert rest[end - i - 1] == lines[end] && rest[end - i..] == lines[end + 1..] && rest[..end - i] == lines[i + 1..end + 1];
    }
  }

  /** The source's form: an index that moves by a line or by a block. */
  method ExpandFile(lines: seq<Line>, table: Table) returns (out: seq<Line>, problems: seq<Problem>)
    ensures Expansion(out, problems) == Expand(lines, table)
  {
    hide ExpandParts, SourceProblem, Expand;
    out, problems := [], [];
    var index := 0;
    assert lines[0..] == lines && Before([], [], Expand(lines, table)) == Expand(lines, table);
    while index < |lines|
      invariant 0 <= index <= |lines| && Before(out, problems, Expand(lines[index..], table)) == Expand(lines, table)
      decreases |lines| - index
    {
      var line := lines[index];
      var added, found := [line], [];
      var next := index + 1;
      if line.IncludeOpen? {
        var end := EndIndex(lines, index + 1, line.id);
        ExpandBlockAt(lines, index, end, table);
        if end == |lines| {
          found := [Unclosed(line.id)];
        } else if line.id !in table {
          added, found, next := [line] + lines[index + 1..end + 1], [Undefined(line.id)], end + 1;
        } else {
          var f := table[line.id];
          added, found, next := [line] + f.body + [lines[end]], SourceProblem(f, line.source), end + 1;
        }
      } else {
        ExpandLineAt(lines, index, table);
        if line.Inline? {
          var (parts, partProblems) := ExpandParts(line.parts, table);
          added, found := [Inline(parts)], partProblems;
        }
      }
      BeforeBefore(out, problems, added, found, Expand(lines[next..], table));
      out, problems := out + added, problems + found;
      index := next;
    }
    ExpandOfNothing(table);
    assert lines[index..] == [] && out + [] == out && problems + [] == problems;
  }

  lemma ExpandOfNothing(table: Table)
    ensures Expand([], table) == Expansion([], [])
  {
  }
}
