/** The token lists the reader of `cfg` predicates takes: a comma may be missing anywhere between two parts. */
module CfgForms {
  import opened Bytes
  import opened Cfg

  /** A predicate as written, each part of a list with a comma behind it or nothing. */
  datatype Form =
    | Bare(name: string)
    | Pair(name: string, text: string)
    | List(name: string, parts: seq<Part>)

  datatype Part = Part(form: Form, comma: seq<string>)

  predicate WfForm(f: Form)
    decreases f
  {
    match f
    case Bare(name) => IsIdentifier(name)
    case Pair(name, text) => IsIdentifier(name) && IsString(text)
    case List(name, parts) =>
      && (name == "all" || name == "any" || (name == "not" && |parts| == 1))
      && forall part :: part in parts ==> WfForm(part.form) && IsComma(part.comma)
  }

  predicate IsComma(ts: seq<string>) {
    ts == [] || ts == [","]
  }

  function PrintForm(f: Form): (ts: seq<string>)
    ensures ts != [] && ts[0] == f.name
    decreases f, 0
  {
    match f
    case Bare(name) => [name]
    case Pair(name, text) => [name, "=", text]
    case List(name, parts) => [name, "("] + PrintParts(parts) + [")"]
  }

  function PrintParts(parts: seq<Part>): seq<string>
    decreases parts
  {
    if parts == [] then []
    else PrintForm(parts[0].form) + parts[0].comma + PrintParts(parts[1..])
  }

  /** The predicate a form writes. */
  function Meaning(f: Form): Pred
    requires WfForm(f)
    decreases f, 0
  {
    match f
    case Bare(name) => Option(name)
    case Pair(name, text) => KeyValue(name, text)
    case List(name, parts) =>
      var ps := Meanings(parts);
      if name == "all" then All(ps, false) else if name == "any" then Any(ps, false) else Not(ps[0], false)
  }

  function Meanings(parts: seq<Part>): (ps: seq<Pred>)
    requires forall part :: part in parts ==> WfForm(part.form) && IsComma(part.comma)
    ensures |ps| == |parts|
    decreases parts
  {
    if parts == [] then []
    else
      assert parts[0] in parts;
      [Meaning(parts[0].form)] + Meanings(parts[1..])
  }

  /** What may follow: a bare name is not followed by what would make it a pair or a list. */
  predicate Ends(f: Form, rest: seq<string>) {
    f.Bare? && rest != [] ==> rest[0] != "=" && rest[0] != "("
  }

  lemma NameIsNoDelimiter(f: Form)
    requires WfForm(f)
    ensures f.name != "=" && f.name != "(" && f.name != ")" && f.name != ","
  {
    Identifiers();
  }

  // ----- every form reads -----

  lemma {:induction false} ReadForm(f: Form, rest: seq<string>)
    requires WfForm(f) && Ends(f, rest)
    ensures CfgValue(PrintForm(f) + rest) == Parsed(Value(Meaning(f)), rest)
    decreases f, 0
  {
    hide CfgValue, CfgList, IsIdentifier;
    match f
    case Bare(_) => ReadLeaf(f, rest);
    case Pair(_, _) => ReadLeaf(f, rest);
    case List(name, parts) =>
      ReadParts(parts, rest);
      CombinatorOf(name, PrintParts(parts), rest);
      if name == "not" {
        assert Values(Meanings(parts))[0] == Value(Meanings(parts)[0]);
      }
  }

  lemma ReadLeaf(f: Form, rest: seq<string>)
    requires WfForm(f) && Ends(f, rest) && !f.List?
    ensures CfgValue(PrintForm(f) + rest) == Parsed(Value(Meaning(f)), rest)
  {
    hide IsIdentifier;
    var ts := PrintForm(f) + rest;
    if f.Bare? {
      assert ts[0] == f.name && ts[1..] == rest;
    } else {
      assert ts[0] == f.name && ts[1..] == ["=", f.text] + rest && ts[1..][2..] == rest;
    }
  }

  /** What follows a part begins with a comma, a parenthesis or the name of the next part. */
  lemma PartEnds(parts: seq<Part>, rest: seq<string>)
    requires parts != [] && forall part :: part in parts ==> WfForm(part.form) && IsComma(part.comma)
    ensures var after := parts[0].comma + (PrintParts(parts[1..]) + ([")"] + rest));
            Ends(parts[0].form, after) && after != [] && (parts[0].comma == [] ==> after[0] != ",")
    ensures PrintForm(parts[0].form)[0] != ")"
  {
    assert parts[0] in parts;
    NameIsNoDelimiter(parts[0].form);
    if |parts| > 1 {
      assert parts[1] in parts && parts[1..][0] == parts[1];
      NameIsNoDelimiter(parts[1].form);
    }
  }

  lemma {:induction false} ReadParts(parts: seq<Part>, rest: seq<string>)
    requires forall part :: part in parts ==> WfForm(part.form) && IsComma(part.comma)
    ensures CfgList(PrintParts(parts) + ([")"] + rest)) == ParsedList(Values(Meanings(parts)), rest)
    decreases parts
  {
    hide CfgValue, CfgList, Value, Meaning, PrintForm, WfForm, Ends, IsComma;
    var end := [")"] + rest;
    if parts == [] {
      assert [] + end == end;
      CfgListEnd(rest);
    } else {
      var part := parts[0];
      assert part in parts;
      var after := part.comma + (PrintParts(parts[1..]) + end);
      PartEnds(parts, rest);
      ReadForm(part.form, after);
      ReadParts(parts[1..], rest);
      ReadPart(part, Value(Meaning(part.form)), PrintParts(parts[1..]) + end);
      assert PrintParts(parts) + end == PrintForm(part.form) + after;
      assert Meanings(parts)[1..] == Meanings(parts[1..]);
    }
  }

  /** One part off the front of a list. */
  lemma ReadPart(part: Part, v: Truth, more: seq<string>)
    requires IsComma(part.comma) && more != [] && PrintForm(part.form)[0] != ")" && (part.comma == [] ==> more[0] != ",")
    requires CfgValue(PrintForm(part.form) + (part.comma + more)) == Parsed(v, part.comma + more) && CfgList(more).ParsedList?
    ensures CfgList(PrintForm(part.form) + (part.comma + more)) == ParsedList([v] + CfgList(more).values, CfgList(more).rest)
  {
    hide CfgValue, CfgList, PrintForm;
    var after := part.comma + more;
    CfgListStep(PrintForm(part.form) + after, v, after);
    assert (if after[0] == "," then after[1..] else after) == more;
  }

  // ----- and nothing else does -----

  ghost predicate IsRead(ts: seq<string>, f: Form, v: Truth, rest: seq<string>) {
    WfForm(f) && ts == PrintForm(f) + rest && Ends(f, rest) && v == Value(Meaning(f))
  }

  /** The three ways the reader gets a value. */
  lemma {:induction false} ReadStep(ts: seq<string>)
    requires CfgValue(ts).Parsed?
    ensures ts != [] && IsIdentifier(ts[0])
    ensures var r := CfgValue(ts);
            || (|ts| >= 3 && ts[1] == "=" && IsString(ts[2]) && r == Parsed(None, ts[3..]))
            || (|ts| >= 2 && ts[1] == "(" && IsCombinator(ts[0]) && r == Combine(ts[0], CfgList(ts[2..])))
            || ((|ts| >= 2 ==> ts[1] != "=" && ts[1] != "(") && r == Parsed(if ts[0] == "test" then FALSE else None, ts[1..]))
  {
    hide IsIdentifier, CfgList;
    if |ts| >= 2 {
      assert ts[1..][0] == ts[1] && ts[1..][1..] == ts[2..];
      assert |ts| >= 3 ==> ts[1..][1] == ts[2] && ts[1..][2..] == ts[3..];
    }
  }

  lemma {:induction false} FormOf(ts: seq<string>) returns (f: Form)
    requires CfgValue(ts).Parsed?
    ensures IsRead(ts, f, CfgValue(ts).value, CfgValue(ts).rest)
    decreases |ts|, 1
  {
    hide CfgValue, CfgList, IsIdentifier, IsRead, Combine;
    ReadStep(ts);
    var name := ts[0];
    if |ts| >= 2 && ts[1] == "(" {
      var parts := CombinedParts(ts);
      f := List(name, parts);
      ListIsRead(ts, name, parts, CfgList(ts[2..]));
    } else {
      f := if |ts| >= 2 && ts[1] == "=" then Pair(name, ts[2]) else Bare(name);
      LeafIsRead(ts, f);
    }
  }

  lemma {:induction false} CombinedParts(ts: seq<string>) returns (parts: seq<Part>)
    requires |ts| >= 2 && Combine(ts[0], CfgList(ts[2..])).Parsed?
    ensures forall part :: part in parts ==> WfForm(part.form) && IsComma(part.comma)
    ensures var list := CfgList(ts[2..]);
            list.ParsedList? && list.values == Values(Meanings(parts)) && ts[2..] == PrintParts(parts) + ([")"] + list.rest)
    decreases |ts|, 0
  {
    hide CfgList, PrintParts, Meanings, Values, WfForm;
    parts := PartsOf(ts[2..]);
  }

  lemma ListIsRead(ts: seq<string>, name: string, parts: seq<Part>, list: ParseList)
    requires |ts| >= 2 && ts[0] == name && ts[1] == "(" && IsCombinator(name)
    requires forall part :: part in parts ==> WfForm(part.form) && IsComma(part.comma)
    requires list.ParsedList? && list.values == Values(Meanings(parts)) && ts[2..] == PrintParts(parts) + ([")"] + list.rest)
    requires Combine(name, list).Parsed?
    ensures IsRead(ts, List(name, parts), Combine(name, list).value, Combine(name, list).rest)
  {
    hide PrintParts, Meanings, IsComma, AllOf, AnyOf;
    assert ts == [name, "("] + ts[2..];
    assert ts == [name, "("] + PrintParts(parts) + [")"] + list.rest;
    if name == "not" {
      ValuesAt(Meanings(parts), 0);
    }
  }

  lemma LeafIsRead(ts: seq<string>, f: Form)
    requires ts != [] && IsIdentifier(ts[0])
    requires || (f.Pair? && |ts| >= 3 && ts[1] == "=" && IsString(ts[2]) && f == Pair(ts[0], ts[2]))
             || (f == Bare(ts[0]) && (|ts| >= 2 ==> ts[1] != "=" && ts[1] != "("))
    ensures IsRead(ts, f, if f.Bare? && f.name == "test" then FALSE else None, if f.Bare? then ts[1..] else ts[3..])
  {
    hide IsIdentifier;
    if f.Pair? {
      assert ts == [ts[0], "=", ts[2]] + ts[3..];
    } else {
      assert ts == [ts[0]] + ts[1..];
    }
  }

  /** A list ends at once, or begins with a part. */
  lemma {:induction false} ListStep(ts: seq<string>)
    requires CfgList(ts).ParsedList?
    ensures ts != []
    ensures ts[0] == ")" ==> CfgList(ts) == ParsedList([], ts[1..])
    ensures ts[0] != ")" ==> CfgValue(ts).Parsed?
    ensures ts[0] != ")" ==>
              var v := CfgValue(ts);
              var more := CfgList(if v.rest != [] && v.rest[0] == "," then v.rest[1..] else v.rest);
              more.ParsedList? && CfgList(ts) == ParsedList([v.value] + more.values, more.rest)
  {
    hide CfgValue;
  }

  lemma {:induction false} PartsOf(ts: seq<string>) returns (parts: seq<Part>)
    requires CfgList(ts).ParsedList?
    ensures forall part :: part in parts ==> WfForm(part.form) && IsComma(part.comma)
    ensures CfgList(ts) == ParsedList(Values(Meanings(parts)), CfgList(ts).rest)
    ensures ts == PrintParts(parts) + ([")"] + CfgList(ts).rest)
    decreases |ts|, 2
  {
    hide CfgValue, CfgList, WfForm, Meaning, Value, PrintForm;
    ListStep(ts);
    if ts[0] == ")" {
      parts := [];
      assert ts == [] + ([")"] + ts[1..]);
    } else {
      var v := CfgValue(ts);
      var first := FormOf(ts);
      var comma, after := [], v.rest;
      if v.rest != [] && v.rest[0] == "," {
        comma, after := [","], v.rest[1..];
      }
      assert v.rest == comma + after;
      var more := PartsOf(after);
      parts := PartsCons(Part(first, comma), more, ts, after, CfgList(after).rest);
    }
  }

  lemma PartsCons(part: Part, more: seq<Part>, ts: seq<string>, after: seq<string>, rest: seq<string>) returns (parts: seq<Part>)
    requires WfForm(part.form) && IsComma(part.comma)
    requires forall p :: p in more ==> WfForm(p.form) && IsComma(p.comma)
    requires ts == PrintForm(part.form) + (part.comma + after) && after == PrintParts(more) + ([")"] + rest)
    ensures forall p :: p in parts ==> WfForm(p.form) && IsComma(p.comma)
    ensures Values(Meanings(parts)) == [Value(Meaning(part.form))] + Values(Meanings(more))
    ensures ts == PrintParts(parts) + ([")"] + rest)
  {
    hide WfForm, Meaning, Value, PrintForm, IsComma;
    parts := [part] + more;
    assert parts[1..] == more;
    assert Meanings(parts)[1..] == Meanings(more);
  }

  /** The reader gives a value exactly on a written predicate with what follows it, and then its value. */
  lemma ReadsIff(ts: seq<string>, v: Truth, rest: seq<string>)
    ensures CfgValue(ts) == Parsed(v, rest) <==> exists f :: IsRead(ts, f, v, rest)
  {
    hide CfgValue;
    if CfgValue(ts) == Parsed(v, rest) {
      var f := FormOf(ts);
      assert IsRead(ts, f, v, rest);
    }
    if f :| IsRead(ts, f, v, rest) {
      ReadForm(f, rest);
    }
  }

  /** An attribute is excluded from production exactly where it is, as a whole, a written predicate whose value is
      false; and then it holds in no build without `test`. */
  lemma ExcludesExactly(ts: seq<string>)
    ensures ExcludesProduction(ts) <==> exists f :: WfForm(f) && ts == PrintForm(f) && Value(Meaning(f)) == FALSE
    ensures forall f, b: Build :: ExcludesProduction(ts) && WfForm(f) && ts == PrintForm(f) && "test" !in b.options ==>
                                    !Holds(Meaning(f), b)
  {
    hide CfgValue;
    if ExcludesProduction(ts) {
      var f := FormOf(ts);
      assert PrintForm(f) + [] == PrintForm(f);
    }
    forall f | WfForm(f) && ts == PrintForm(f)
      ensures CfgValue(ts) == Parsed(Value(Meaning(f)), [])
    {
      ReadForm(f, []);
      assert PrintForm(f) + [] == PrintForm(f);
    }
    forall f, b: Build | ExcludesProduction(ts) && WfForm(f) && ts == PrintForm(f) && "test" !in b.options
      ensures !Holds(Meaning(f), b)
    {
      ValueIsSound(Meaning(f), b);
    }
  }
}
