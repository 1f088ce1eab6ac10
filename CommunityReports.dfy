/**
 * `CommunityReportsExtractor`: the zod rules a community report must meet,
 * its rendering as text, the prompt tables built from a community's nodes
 * and the edges between them, the clean-up of the model's reply before it
 * is parsed, and `extract`, which groups the nodes by community label and
 * keeps the reports that come back valid.
 */
module CommunityReports {
  import opened Common
  import opened Strings
  import opened PropertyGraphs

  /** One entry of `findings`. */
  datatype Finding = Finding(summary: string, explanation: string)

  /** A report as `JSON.parse` yields it with the field types `ReportSchema` asks for. */
  datatype Report = Report(title: string, summary: string, rating: real, ratingExplanation: string, findings: seq<Finding>)

  /** The remaining rules of `ReportSchema`: non-empty strings, a rating in [0, 10], at least one finding. */
  predicate Accepted(r: Report) {
    && r.title != [] && r.summary != [] && 0.0 <= r.rating <= 10.0 && r.ratingExplanation != []
    && |r.findings| >= 1
    && forall f :: f in r.findings ==> f.summary != [] && f.explanation != []
  }

  /** A report of `extract`: the validated report, `weight` and `entities`. */
  datatype CommunityReport = CommunityReport(report: Report, weight: real, entities: seq<string>)

  /**
   * What `JSON.parse` and the schema's field-type checks make of a text: a
   * `SyntaxError` thrown by `JSON.parse`, a value of the wrong shape (a
   * `ZodError`), or a report whose remaining rules are still to be checked.
   */
  datatype Parsed = SyntaxFail | SchemaFail | Parsed(report: Report)

  /**
   * What the extractor does not compute itself: the prompt template, the
   * model (`chat`), `JSON.parse` together with the schema's type checks,
   * and each node's `pagerank` attribute, present or assigned by
   * graphology-metrics.
   */
  datatype Context = Context(template: string, chat: string -> string, parse: string -> Parsed, pagerank: map<string, real>)

  /** How a promise settles: rejected with an error, or resolved with a value. */
  datatype Settled<T> = Rejected | Resolved(value: T)

  // ---------------------------------------------------------------------
  // _get_text_output

  /** `## ${f.summary}\n\n${f.explanation}`. */
  function Section(f: Finding): string {
    "## " + f.summary + "\n\n" + f.explanation
  }

  function Sections(fs: seq<Finding>): (r: seq<string>)
    ensures |r| == |fs| && forall i :: 0 <= i < |r| ==> r[i] == Section(fs[i])
  {
    seq(|fs|, i requires 0 <= i < |fs| => Section(fs[i]))
  }

  /** `# ${title}\n\n${summary}\n\n`. */
  function Header(r: Report): string {
    "# " + r.title + "\n\n" + r.summary + "\n\n"
  }

  /** `_get_text_output(report)`. */
  function TextOutput(r: Report): string {
    Header(r) + Join(Sections(r.findings), "\n\n")
  }

  /** Every piece of a join occurs in it. */
  lemma {:induction false} JoinPartAt(parts: seq<string>, sep: string, i: nat) returns (k: nat)
    requires i < |parts|
    ensures MatchesAt(Join(parts, sep), parts[i], k)
    decreases i
  {
    var j := Join(parts, sep);
    if |parts| == 1 {
      k := 0;
      assert j == parts[0];
    } else {
      var rest := Join(parts[1..], sep);
      var lead := parts[0] + sep;
      assert j == lead + rest;
      if i == 0 {
        k := 0;
        ConcatAssoc(parts[0], sep, rest);
        assert j[..|parts[0]|] == parts[0];
      } else {
        var k' := JoinPartAt(parts[1..], sep, i - 1);
        k := |lead| + k';
        assert parts[1..][i - 1] == parts[i];
        assert j[k..k + |parts[i]|] == rest[k'..k' + |parts[i]|];
      }
    }
  }

  /** The text starts with the title line and holds the section of every finding. */
  lemma TextOutputLaws(r: Report)
    ensures MatchesAt(TextOutput(r), "# " + r.title + "\n\n", 0)
    ensures forall f :: f in r.findings ==> Contains(TextOutput(r), Section(f))
  {
    var t := TextOutput(r);
    var h := Header(r);
    var l := "# " + r.title + "\n\n";
    assert h == l + (r.summary + "\n\n");
    assert t[..|l|] == l;
    forall f | f in r.findings
      ensures Contains(t, Section(f))
    {
      var i :| 0 <= i < |r.findings| && r.findings[i] == f;
      var body := Join(Sections(r.findings), "\n\n");
      var k := JoinPartAt(Sections(r.findings), "\n\n", i);
      assert t[|h| + k..|h| + k + |Section(f)|] == body[k..k + |Section(f)|];
      assert MatchesAt(t, Section(f), |h| + k);
      ContainsIff(t, Section(f));
    }
  }

  // ---------------------------------------------------------------------
  // the prompt tables of _extract_community_report

  /** `{ source, target, description: edge_attrs.description }`. */
  datatype Relation = Relation(source: string, target: string, description: Option<string>)

  /** The record for the edge joining `a` and `b`. */
  function RelationOf(g: GraphData, a: string, b: string): Relation
    requires HasEdge(g, a, b)
  {
    Relation(a, b, g.edges[EdgeIndex(g.edges, a, b).value].attrs.description)
  }

  /** Pair (i, j)'s contribution: its record if an edge joins the two nodes. */
  function PairRelation(g: GraphData, nodes: seq<string>, i: nat, j: nat): seq<Relation>
    requires i < j < |nodes|
  {
    if HasEdge(g, nodes[i], nodes[j]) then [RelationOf(g, nodes[i], nodes[j])] else []
  }

  /** Row `i` of the pair scan, for partners `i + 1` up to `j - 1`. */
  function RowRelations(g: GraphData, nodes: seq<string>, i: nat, j: nat): seq<Relation>
    requires i < |nodes| && j <= |nodes|
    decreases j
  {
    if j <= i + 1 then [] else RowRelations(g, nodes, i, j - 1) + PairRelation(g, nodes, i, j - 1)
  }

  /** The pair scan over rows `0` up to `i - 1`. */
  function Relations(g: GraphData, nodes: seq<string>, i: nat): seq<Relation>
    requires i <= |nodes|
  {
    if i == 0 then [] else Relations(g, nodes, i - 1) + RowRelations(g, nodes, i - 1, |nodes|)
  }

  /** Nodes `i` and `j`, `i < j`, joined by an edge. */
  predicate Linked(g: GraphData, nodes: seq<string>, i: int, j: int) {
    0 <= i < j < |nodes| && HasEdge(g, nodes[i], nodes[j])
  }

  lemma {:induction false} RowSound(g: GraphData, nodes: seq<string>, i: nat, j: nat, r: Relation)
    requires i < |nodes| && j <= |nodes| && r in RowRelations(g, nodes, i, j)
    ensures exists l :: i < l < j && Linked(g, nodes, i, l) && r == RelationOf(g, nodes[i], nodes[l])
    decreases j
  {
    if r !in RowRelations(g, nodes, i, j - 1) {
      assert r in PairRelation(g, nodes, i, j - 1);
    } else {
      RowSound(g, nodes, i, j - 1, r);
    }
  }

  lemma {:induction false} RowComplete(g: GraphData, nodes: seq<string>, i: nat, j: nat, l: nat)
    requires i < l < j <= |nodes| && Linked(g, nodes, i, l)
    ensures RelationOf(g, nodes[i], nodes[l]) in RowRelations(g, nodes, i, j)
    decreases j
  {
    if l < j - 1 {
      RowComplete(g, nodes, i, j - 1, l);
    }
  }

  /** Every record of the relation list is that of a pair `h < l` of community nodes joined by an edge. */
  lemma {:induction false} RelationsSound(g: GraphData, nodes: seq<string>, i: nat, r: Relation)
    requires i <= |nodes| && r in Relations(g, nodes, i)
    ensures exists h, l :: h < i && Linked(g, nodes, h, l) && r == RelationOf(g, nodes[h], nodes[l])
    decreases i
  {
    if r in Relations(g, nodes, i - 1) {
      RelationsSound(g, nodes, i - 1, r);
    } else {
      RowSound(g, nodes, i - 1, |nodes|, r);
    }
  }

  /** Every pair `h < l` of community nodes joined by an edge has its record in the relation list. */
  lemma {:induction false} RelationsComplete(g: GraphData, nodes: seq<string>, i: nat, h: nat, l: nat)
    requires i <= |nodes| && h < i && Linked(g, nodes, h, l)
    ensures RelationOf(g, nodes[h], nodes[l]) in Relations(g, nodes, i)
    decreases i
  {
    var x := RelationOf(g, nodes[h], nodes[l]);
    var front, row := Relations(g, nodes, i - 1), RowRelations(g, nodes, i - 1, |nodes|);
    assert Relations(g, nodes, i) == front + row;
    if h < i - 1 {
      RelationsComplete(g, nodes, i - 1, h, l);
      assert x in front;
    } else {
      RowComplete(g, nodes, h, |nodes|, l);
      assert x in row;
    }
  }

  /** Row `i` and each later row list their pairs in index order: `|row| <= |nodes| - 1 - i`. */
  lemma {:induction false} RowRelationsLength(g: GraphData, nodes: seq<string>, i: nat, j: nat)
    requires i < |nodes| && j <= |nodes|
    ensures |RowRelations(g, nodes, i, j)| <= if j <= i + 1 then 0 else j - i - 1
    decreases j
  {
    if j > i + 1 {
      RowRelationsLength(g, nodes, i, j - 1);
    }
  }

  // The pair scan as written: on the pipeline's directed edges
  // `hasEdge(source, target)` and `getEdgeAttributes(source, target)` find
  // only an edge running from `nodes[i]` to `nodes[j]`.

  /** Pair (i, j)'s contribution as written. */
  function ArcPairRelation(g: GraphData, nodes: seq<string>, i: nat, j: nat): seq<Relation>
    requires i < j < |nodes|
  {
    var k := ArcIndex(g.edges, nodes[i], nodes[j]);
    if k.None? then [] else [Relation(nodes[i], nodes[j], g.edges[k.value].attrs.description)]
  }

  function ArcRowRelations(g: GraphData, nodes: seq<string>, i: nat, j: nat): seq<Relation>
    requires i < |nodes| && j <= |nodes|
    decreases j
  {
    if j <= i + 1 then [] else ArcRowRelations(g, nodes, i, j - 1) + ArcPairRelation(g, nodes, i, j - 1)
  }

  /** The relation list as written. */
  function ArcRelations(g: GraphData, nodes: seq<string>, i: nat): seq<Relation>
    requires i <= |nodes|
  {
    if i == 0 then [] else ArcRelations(g, nodes, i - 1) + ArcRowRelations(g, nodes, i - 1, |nodes|)
  }

  lemma {:induction false} ArcRowSound(g: GraphData, nodes: seq<string>, i: nat, j: nat, r: Relation)
    requires i < |nodes| && j <= |nodes| && r in ArcRowRelations(g, nodes, i, j)
    ensures exists l :: i < l < j && HasArc(g, nodes[i], nodes[l]) && r.source == nodes[i] && r.target == nodes[l]
    decreases j
  {
    if r !in ArcRowRelations(g, nodes, i, j - 1) {
      assert r in ArcPairRelation(g, nodes, i, j - 1);
    } else {
      ArcRowSound(g, nodes, i, j - 1, r);
    }
  }

  /**
   * As written, every record of the relation list is that of a pair `h < l`
   * with an edge running from `nodes[h]` to `nodes[l]`; a pair whose edge
   * runs the other way is left out.
   */
  lemma {:induction false} ArcRelationsSound(g: GraphData, nodes: seq<string>, i: nat, r: Relation)
    requires i <= |nodes| && r in ArcRelations(g, nodes, i)
    ensures exists h, l :: 0 <= h < i && h < l < |nodes| && HasArc(g, nodes[h], nodes[l]) &&
                           r.source == nodes[h] && r.target == nodes[l]
    decreases i
  {
    if r in ArcRelations(g, nodes, i - 1) {
      ArcRelationsSound(g, nodes, i - 1, r);
    } else {
      ArcRowSound(g, nodes, i - 1, |nodes|, r);
    }
  }

  /** ZEUS is added to the graph before APOLLO; their relationship is stored as APOLLO -> ZEUS. */
  function Olympus(): GraphData {
    GraphData(["ZEUS", "APOLLO"], map["ZEUS" := NoAttrs(), "APOLLO" := NoAttrs()],
              [Edge(0, "APOLLO", "ZEUS", NoAttrs().(description := Some("father of")))], 1)
  }

  /**
   * For the community `[ZEUS, APOLLO]` the relation list as written is empty;
   * the corrected list holds the one relationship.
   */
  lemma ReversedPairOmitted()
    ensures ArcRelations(Olympus(), ["ZEUS", "APOLLO"], 2) == []
    ensures Relations(Olympus(), ["ZEUS", "APOLLO"], 2) == [Relation("ZEUS", "APOLLO", Some("father of"))]
  {
    var g, nodes := Olympus(), ["ZEUS", "APOLLO"];
    assert ArcIndex(g.edges, "ZEUS", "APOLLO") == None;
    assert ArcPairRelation(g, nodes, 0, 1) == [];
    assert EdgeIndex(g.edges, "ZEUS", "APOLLO") == Some(0);
    assert PairRelation(g, nodes, 0, 1) == [Relation("ZEUS", "APOLLO", Some("father of"))];
  }

  /** The nested `for` loops over pairs `i < j`. */
  method ScanRelations(g: GraphData, nodes: seq<string>) returns (rela: seq<Relation>)
    ensures rela == Relations(g, nodes, |nodes|)
  {
    rela := [];
    for i := 0 to |nodes|
      invariant rela == Relations(g, nodes, i)
    {
      for j := i + 1 to |nodes|
        invariant rela == Relations(g, nodes, i) + RowRelations(g, nodes, i, j)
      {
        if HasEdge(g, nodes[i], nodes[j]) {
          rela := rela + [RelationOf(g, nodes[i], nodes[j])];
        }
      }
    }
  }

  /** `"${value}"`, a missing value rendering as `undefined`. */
  function Quoted(d: Option<string>): string {
    "\"" + Render(d) + "\""
  }

  function Description(g: GraphData, n: string): Option<string> {
    if n in g.attrs then g.attrs[n].description else None
  }

  /** `entity_df`: a header and one `i,entity,"description"` line per node. */
  function EntityTable(g: GraphData, nodes: seq<string>): string {
    "id,entity,description\n"
      + Join(seq(|nodes|, i requires 0 <= i < |nodes| => NatToString(i) + "," + nodes[i] + "," + Quoted(Description(g, nodes[i]))), "\n")
  }

  /** `relation_df`: a header and one `i,source,target,"description"` line per relation. */
  function RelationTable(rs: seq<Relation>): string {
    "id,source,target,description\n"
      + Join(seq(|rs|, i requires 0 <= i < |rs| => NatToString(i) + "," + rs[i].source + "," + rs[i].target + "," + Quoted(rs[i].description)), "\n")
  }

  /** The template with `{entity_df}` and then `{relation_df}` filled in. */
  function Prompt(template: string, entities: string, relations: string): string {
    ReplaceFirst(ReplaceFirst(template, "{entity_df}", entities), "{relation_df}", relations)
  }

  // ---------------------------------------------------------------------
  // cleaning the reply

  /** Replacing `^p` followed by `\s*` with nothing: the prefix `p` and the white space after it, if `s` starts with `p`. */
  function StripLead(s: string, p: string): string {
    if |p| <= |s| && s[..|p|] == p then TrimStart(s[|p|..]) else s
  }

  /** `s.replace(/\s*```$/g, "")`: a closing fence and the white space before it. */
  function StripFenceEnd(s: string): string {
    if |s| >= 3 && s[|s| - 3..] == "```" then TrimEnd(s[..|s| - 3]) else s
  }

  /** The reply trimmed and with its markdown fences removed, in the order the replacements run. */
  function Unfenced(reply: string): string {
    StripLead(StripLead(StripFenceEnd(StripLead(StripLead(Trim(reply), "```json"), "```")), "```markdown"), "```text")
  }

  /** `s.indexOf(c)`. */
  function IndexOfChar(s: string, c: char): (r: Option<nat>)
    ensures r.Some? ==> r.value < |s| && s[r.value] == c && forall k :: 0 <= k < r.value ==> s[k] != c
    ensures r.None? ==> c !in s
    decreases |s|
  {
    if s == [] then None
    else if s[0] == c then Some(0)
    else match IndexOfChar(s[1..], c)
      case None => None
      case Some(k) => Some(k + 1)
  }

  /** `s.lastIndexOf(c)`. */
  function LastIndexOfChar(s: string, c: char): (r: Option<nat>)
    ensures r.Some? ==> r.value < |s| && s[r.value] == c && forall k :: r.value < k < |s| ==> s[k] != c
    ensures r.None? ==> c !in s
    decreases |s|
  {
    if s == [] then None
    else if s[|s| - 1] == c then Some(|s| - 1)
    else LastIndexOfChar(s[..|s| - 1], c)
  }

  /** From the first `{` on, when there is one. */
  function FromBrace(s: string): string {
    match IndexOfChar(s, '{')
    case None => s
    case Some(i) => s[i..]
  }

  /** From the first `{` to the last `}`, when the last `}` comes after the first `{`. */
  function Braced(s: string): string {
    var f, l := IndexOfChar(s, '{'), LastIndexOfChar(s, '}');
    if f.Some? && l.Some? && l.value > f.value then s[f.value..l.value + 1] else s
  }

  /** Where `\s*[}\]]` matched at `i` ends, if it matches there. */
  function BracketEnd(s: string, i: nat): (r: Option<nat>)
    ensures r.Some? ==> i < r.value <= |s|
    decreases |s| - i
  {
    if i >= |s| then None
    else if s[i] == '}' || s[i] == ']' then Some(i + 1)
    else if IsSpace(s[i]) then BracketEnd(s, i + 1)
    else None
  }

  /**
   * `s.replace(/,(\s*[}\]])/g, "$1")` from position `i`, as the regex
   * engine scans: at a comma followed by white space and a closing bracket
   * the match is replaced by what followed the comma and the scan resumes
   * after it; any other character is copied.
   */
  function Scan(s: string, i: nat): string
    decreases |s| - i
  {
    if i >= |s| then []
    else if s[i] == ',' && BracketEnd(s, i + 1).Some? then
      s[i + 1..BracketEnd(s, i + 1).value] + Scan(s, BracketEnd(s, i + 1).value)
    else [s[i]] + Scan(s, i + 1)
  }

  /** A comma directly before white space and a closing bracket. */
  predicate Trailing(s: string, i: nat) {
    i < |s| && s[i] == ',' && BracketEnd(s, i + 1).Some?
  }

  /** The characters of `s` from `i` on, the trailing commas dropped. */
  function Kept(s: string, i: nat): string
    decreases |s| - i
  {
    if i >= |s| then [] else (if Trailing(s, i) then [] else [s[i]]) + Kept(s, i + 1)
  }

  /** Inside a run without commas, everything is kept. */
  lemma {:induction false} KeptRun(s: string, a: nat, e: nat)
    requires a <= e <= |s| && forall k :: a <= k < e ==> s[k] != ','
    ensures Kept(s, a) == s[a..e] + Kept(s, e)
    decreases e - a
  {
    if a < e {
      assert !Trailing(s, a);
      assert Kept(s, a) == [s[a]] + Kept(s, a + 1);
      KeptRun(s, a + 1, e);
      assert s[a..e] == [s[a]] + s[a + 1..e];
      ConcatAssoc([s[a]], s[a + 1..e], Kept(s, e));
    }
  }

  /** What `\s*[}\]]` matches is white space and a bracket, no comma. */
  lemma {:induction false} BracketRun(s: string, i: nat)
    requires BracketEnd(s, i).Some?
    ensures forall k :: i <= k < BracketEnd(s, i).value ==> s[k] != ','
    decreases |s| - i
  {
    if !(s[i] == '}' || s[i] == ']') {
      BracketRun(s, i + 1);
    }
  }

  /** The global replace drops exactly the trailing commas and keeps every other character. */
  lemma {:induction false} ScanIsKept(s: string, i: nat)
    ensures Scan(s, i) == Kept(s, i)
    decreases |s| - i
  {
    if i < |s| {
      if Trailing(s, i) {
        var e := BracketEnd(s, i + 1).value;
        ScanIsKept(s, e);
        BracketRun(s, i + 1);
        KeptRun(s, i + 1, e);
      } else {
        ScanIsKept(s, i + 1);
      }
    }
  }

  /** The unfenced reply from its first `{` to its last `}`, trailing commas dropped. */
  function JsonText(t: string): string {
    Scan(Braced(FromBrace(t)), 0)
  }

  /** The text handed to `JSON.parse`. */
  function Cleaned(reply: string): string {
    JsonText(Unfenced(reply))
  }

  /** A first character that is not a comma is kept. */
  lemma KeptFirst(s: string)
    requires s != [] && s[0] != ','
    ensures Kept(s, 0) != [] && Kept(s, 0)[0] == s[0]
  {
  }

  /** `t` is non-empty and its last character is `c`. */
  predicate EndsWith(t: string, c: char) {
    t != [] && t[|t| - 1] == c
  }

  /** A last character that is not a comma is kept, and ends the result. */
  lemma {:induction false} KeptLast(s: string, i: nat)
    requires i < |s| && s[|s| - 1] != ','
    ensures EndsWith(Kept(s, i), s[|s| - 1])
    decreases |s| - i
  {
    if i < |s| - 1 {
      KeptLast(s, i + 1);
      KeptLastStep(s, i, Kept(s, i + 1), s[|s| - 1]);
    } else {
      KeptLastOne(s, i);
    }
  }

  lemma KeptLastOne(s: string, i: nat)
    requires i == |s| - 1 && s[i] != ','
    ensures Kept(s, i) == [s[i]]
  {
    assert !Trailing(s, i);
  }

  /** Whatever `s[i]` gives, the kept tail still ends the result. */
  lemma KeptLastStep(s: string, i: nat, rest: string, c: char)
    requires i + 1 < |s| && rest == Kept(s, i + 1) && EndsWith(rest, c)
    ensures EndsWith(Kept(s, i), c)
  {
    var head := if Trailing(s, i) then [] else [s[i]];
    assert Kept(s, i) == head + rest;
    LastOfAppend(head, rest);
  }

  lemma LastOfAppend(a: string, b: string)
    requires b != []
    ensures a + b != [] && (a + b)[|a + b| - 1] == b[|b| - 1]
  {
  }

  /** Cutting from the first `{` leaves a text that starts with it and keeps every later `}`. */
  lemma FromBraceLaws(t: string, i: nat, j: nat)
    requires i < j < |t| && t[i] == '{' && t[j] == '}'
    ensures FromBrace(t) != [] && FromBrace(t)[0] == '{'
    ensures exists l :: 0 < l < |FromBrace(t)| && FromBrace(t)[l] == '}'
  {
    var f := IndexOfChar(t, '{').value;
    assert f <= i;
    assert FromBrace(t)[j - f] == '}';
  }

  /** A text that starts with `{` and holds a later `}` is braced from its start to its last `}`. */
  lemma BracedLaws(u: string)
    requires u != [] && u[0] == '{'
    ensures Braced(u) != [] && Braced(u)[0] == '{'
    ensures (exists l :: 0 < l < |u| && u[l] == '}') ==> Braced(u)[|Braced(u)| - 1] == '}'
  {
    assert IndexOfChar(u, '{') == Some(0);
    if exists l :: 0 < l < |u| && u[l] == '}' {
      var l :| 0 < l < |u| && u[l] == '}';
      var last := LastIndexOfChar(u, '}');
      assert last.Some? && last.value >= l;
    }
  }

  /**
   * When the unfenced reply `t` holds a `{`, the text handed to
   * `JSON.parse` starts with `{`; when a `}` also comes after some `{`, it
   * ends with `}`. Only trailing commas are dropped on the way.
   */
  lemma JsonTextLaws(t: string)
    ensures '{' in t ==> JsonText(t) != [] && JsonText(t)[0] == '{'
    ensures (exists i, j :: 0 <= i < j < |t| && t[i] == '{' && t[j] == '}') ==>
      JsonText(t) != [] && JsonText(t)[|JsonText(t)| - 1] == '}'
    ensures JsonText(t) == Kept(Braced(FromBrace(t)), 0)
  {
    var b := Braced(FromBrace(t));
    ScanIsKept(b, 0);
    if '{' in t {
      var f := IndexOfChar(t, '{').value;
      assert FromBrace(t) == t[f..];
      BracedLaws(FromBrace(t));
      KeptFirst(b);
      if exists i, j :: 0 <= i < j < |t| && t[i] == '{' && t[j] == '}' {
        var i, j :| 0 <= i < j < |t| && t[i] == '{' && t[j] == '}';
        FromBraceLaws(t, i, j);
        KeptLast(b, 0);
      }
    }
  }

  // ---------------------------------------------------------------------
  // _extract_community_report

  /** `community_nodes.reduce((sum, n) => sum + (pagerank || 0), 0)`. */
  function Weight(nodes: seq<string>, pagerank: map<string, real>): real
    decreases |nodes|
  {
    if nodes == [] then 0.0
    else Weight(nodes[..|nodes| - 1], pagerank) + (if nodes[|nodes| - 1] in pagerank then pagerank[nodes[|nodes| - 1]] else 0.0)
  }

  /** The weight of two node lists together is the sum of their weights. */
  lemma {:induction false} WeightAppend(a: seq<string>, b: seq<string>, pagerank: map<string, real>)
    ensures Weight(a + b, pagerank) == Weight(a, pagerank) + Weight(b, pagerank)
    decreases |b|
  {
    if b == [] {
      assert a + b == a;
    } else {
      assert (a + b)[..|a + b| - 1] == a + b[..|b| - 1];
      WeightAppend(a, b[..|b| - 1], pagerank);
    }
  }

  /** The prompt for a community: the template with its two tables filled in. */
  function PromptFor(g: GraphData, nodes: seq<string>, template: string): string {
    Prompt(template, EntityTable(g, nodes), RelationTable(Relations(g, nodes, |nodes|)))
  }

  /** What comes of the parsed reply: the report with its weight and nodes if it passes the schema. */
  function Judge(parsed: Parsed, nodes: seq<string>, pagerank: map<string, real>): Option<CommunityReport> {
    if parsed.Parsed? && Accepted(parsed.report) then Some(CommunityReport(parsed.report, Weight(nodes, pagerank), nodes)) else None
  }

  /** The community's prompt sent to the model, its reply cleaned and parsed. */
  function ParsedReply(g: GraphData, nodes: seq<string>, ctx: Context): Parsed {
    ctx.parse(Cleaned(ctx.chat(PromptFor(g, nodes, ctx.template))))
  }

  /**
   * The report for one community, `None` for `null`, with the `catch`
   * doing what it evidently intends: every failure, a syntax error
   * included, is logged and gives `null`.
   */
  function ReportFor(g: GraphData, nodes: seq<string>, ctx: Context): Option<CommunityReport> {
    if |nodes| < 2 then None
    else Judge(ParsedReply(g, nodes, ctx), nodes, ctx.pagerank)
  }

  /**
   * As written, the call rejects when `JSON.parse` throws: the
   * `SyntaxError` branch of the `catch` logs `cleaned_response`, which is
   * declared with `let` inside the `try` block and is not in scope there,
   * so a ReferenceError leaves the method instead of `null`.
   */
  predicate Rejects(g: GraphData, nodes: seq<string>, ctx: Context) {
    |nodes| >= 2 && ParsedReply(g, nodes, ctx).SyntaxFail?
  }

  /**
   * A report is made only for two or more nodes and only from a reply that
   * passes the schema; a reply `JSON.parse` rejects gives `null`.
   */
  lemma ReportForLaws(g: GraphData, nodes: seq<string>, ctx: Context)
    ensures ReportFor(g, nodes, ctx).Some? ==>
      |nodes| >= 2 && Accepted(ReportFor(g, nodes, ctx).value.report)
      && ReportFor(g, nodes, ctx).value.entities == nodes
      && ReportFor(g, nodes, ctx).value.weight == Weight(nodes, ctx.pagerank)
    ensures |nodes| < 2 ==> ReportFor(g, nodes, ctx).None?
    ensures Rejects(g, nodes, ctx) ==> ReportFor(g, nodes, ctx).None?
  {
  }

  /** A text that does not start with a backquote keeps its text when a fence is stripped from its front. */
  lemma StripLeadTick(s: string, p: string)
    requires s != [] && s[0] != '`' && p != [] && p[0] == '`'
    ensures StripLead(s, p) == s
  {
    if |p| <= |s| {
      assert s[..|p|][0] != p[0];
    }
  }

  /**
   * A reply without `{`, `}` or `,` and without white space or a fence at
   * either end reaches `JSON.parse` as it is.
   */
  lemma CleanedPlain(reply: string)
    requires reply != [] && !IsSpace(reply[0]) && !IsSpace(reply[|reply| - 1]) && reply[0] != '`'
    requires reply[|reply| - 1] != '`'
    requires '{' !in reply && '}' !in reply && ',' !in reply
    ensures Cleaned(reply) == reply
  {
    TrimOfTrimmed(reply);
    StripLeadTick(reply, "```json");
    StripLeadTick(reply, "```");
    assert StripFenceEnd(reply) == reply;
    StripLeadTick(reply, "```markdown");
    StripLeadTick(reply, "```text");
    assert FromBrace(reply) == reply;
    assert Braced(reply) == reply;
    ScanIsKept(reply, 0);
    KeptRun(reply, 0, |reply|);
  }

  /**
   * The reply `no JSON here` to a community of two nodes, which every
   * `JSON.parse` rejects, makes `_extract_community_report` reject as
   * written, where the evidently intended result is `null`.
   */
  lemma NoJsonRejects(g: GraphData, template: string, parse: string -> Parsed, pagerank: map<string, real>)
    requires parse("no JSON here") == SyntaxFail
    ensures Rejects(g, ["a", "b"], Context(template, _ => "no JSON here", parse, pagerank))
    ensures ReportFor(g, ["a", "b"], Context(template, _ => "no JSON here", parse, pagerank)) == None
  {
    var reply := "no JSON here";
    assert reply[0] == 'n' && reply[|reply| - 1] == 'e';
    assert reply == ['n', 'o', ' ', 'J', 'S', 'O', 'N', ' ', 'h', 'e', 'r', 'e'];
    CleanedPlain(reply);
  }

  /** The `reduce` over the community's nodes. */
  method TotalRank(nodes: seq<string>, pagerank: map<string, real>) returns (total: real)
    ensures total == Weight(nodes, pagerank)
  {
    total := 0.0;
    for i := 0 to |nodes|
      invariant total == Weight(nodes[..i], pagerank)
    {
      assert nodes[..i + 1][..i] == nodes[..i];
      total := total + if nodes[i] in pagerank then pagerank[nodes[i]] else 0.0;
    }
    assert nodes[..|nodes|] == nodes;
  }

  /** The prompt built from the community's two tables, sent to the model; the reply cleaned and parsed. */
  method AskReport(g: GraphData, nodes: seq<string>, ctx: Context) returns (parsed: Parsed)
    requires forall n :: n in nodes ==> n in g.attrs
    ensures parsed == ParsedReply(g, nodes, ctx)
  {
    var rela := ScanRelations(g, nodes);
    var prompt := Prompt(ctx.template, EntityTable(g, nodes), RelationTable(rela));
    assert prompt == PromptFor(g, nodes, ctx.template);
    var response := ctx.chat(prompt);
    parsed := ctx.parse(Cleaned(response));
  }

  /**
   * `_extract_community_report(graph, community_nodes)` as written: it
   * rejects exactly on a reply `JSON.parse` rejects, and otherwise resolves
   * to the community's report or `null`.
   */
  method ExtractReport(g: GraphData, nodes: seq<string>, ctx: Context) returns (r: Settled<Option<CommunityReport>>)
    requires forall n :: n in nodes ==> n in g.attrs
    ensures r.Rejected? <==> Rejects(g, nodes, ctx)
    ensures r.Resolved? ==> r.value == ReportFor(g, nodes, ctx)
  {
    if |nodes| < 2 {
      return Resolved(None);
    }
    var parsed := AskReport(g, nodes, ctx);
    if parsed.SyntaxFail? {
      return Rejected;
    }
    if parsed.SchemaFail? || !Accepted(parsed.report) {
      return Resolved(None);
    }
    var total := TotalRank(nodes, ctx.pagerank);
    r := Resolved(Some(CommunityReport(parsed.report, total, nodes)));
  }

  // ---------------------------------------------------------------------
  // extract

  /**
   * Louvain's result `{ node: label }` as its entries in the order a
   * `for ... in` visits them; labels are the numbers Louvain hands out.
   */
  type Assignment = seq<(string, nat)>

  /** The nodes with label `c`, in entry order: `community_groups[c]`. */
  function Community(assign: Assignment, c: nat): seq<string>
    decreases |assign|
  {
    if assign == [] then []
    else
      var p := assign[|assign| - 1];
      Community(assign[..|assign| - 1], c) + (if p.1 == c then [p.0] else [])
  }

  /** `community_groups` after the first `for ... in` loop. */
  function Groups(assign: Assignment): map<nat, seq<string>>
    decreases |assign|
  {
    if assign == [] then map[]
    else
      var p := assign[|assign| - 1];
      var gs := Groups(assign[..|assign| - 1]);
      gs[p.1 := (if p.1 in gs then gs[p.1] else []) + [p.0]]
  }

  /** A label has a group exactly when some node has it, and the group is that label's community. */
  lemma {:induction false} GroupsAt(assign: Assignment, c: nat)
    ensures c in Groups(assign) <==> Community(assign, c) != []
    ensures c in Groups(assign) ==> Groups(assign)[c] == Community(assign, c)
    decreases |assign|
  {
    if assign != [] {
      GroupsAt(assign[..|assign| - 1], c);
    }
  }

  /** The grouping partitions the nodes by label: a node is in community `c` exactly when it has label `c`. */
  lemma {:induction false} CommunityIff(assign: Assignment, c: nat, n: string)
    ensures n in Community(assign, c) <==> (n, c) in assign
    decreases |assign|
  {
    if assign != [] {
      var init := assign[..|assign| - 1];
      CommunityIff(init, c, n);
      assert assign == init + [assign[|assign| - 1]];
    }
  }

  /** One more than the largest label: the labels `for ... in` visits are below it, in increasing order. */
  function Top(assign: Assignment): (r: nat)
    ensures forall p :: p in assign ==> p.1 < r
    decreases |assign|
  {
    if assign == [] then 0
    else
      var t := Top(assign[..|assign| - 1]);
      assert forall p :: p in assign ==> p in assign[..|assign| - 1] || p == assign[|assign| - 1];
      if assign[|assign| - 1].1 + 1 > t then assign[|assign| - 1].1 + 1 else t
  }

  /** The non-null results of `rep` on the communities with labels below `c`, in label order. */
  function Collect(rep: seq<string> -> Option<CommunityReport>, assign: Assignment, c: nat): seq<CommunityReport>
  {
    if c == 0 then []
    else
      var r := rep(Community(assign, c - 1));
      Collect(rep, assign, c - 1) + (if r.Some? then [r.value] else [])
  }

  /** The reports of the communities with labels below `c`. */
  function ReportsTo(g: GraphData, assign: Assignment, ctx: Context, c: nat): seq<CommunityReport> {
    Collect(nodes => ReportFor(g, nodes, ctx), assign, c)
  }

  /** `structured_output`. */
  function Reports(g: GraphData, assign: Assignment, ctx: Context): seq<CommunityReport> {
    ReportsTo(g, assign, ctx, Top(assign))
  }

  lemma ReportsToSnoc(g: GraphData, assign: Assignment, ctx: Context, c: nat, r: Option<CommunityReport>)
    requires r == ReportFor(g, Community(assign, c), ctx)
    ensures ReportsTo(g, assign, ctx, c + 1) == ReportsTo(g, assign, ctx, c) + (if r.Some? then [r.value] else [])
  {
  }

  /** `output`: one text per structured report. */
  function Texts(rs: seq<CommunityReport>): (r: seq<string>)
    ensures |r| == |rs| && forall i :: 0 <= i < |r| ==> r[i] == TextOutput(rs[i].report)
  {
    seq(|rs|, i requires 0 <= i < |rs| => TextOutput(rs[i].report))
  }

  /** What is collected is exactly the non-null results on the communities with labels below `c`. */
  lemma {:induction false} CollectIff(rep: seq<string> -> Option<CommunityReport>, assign: Assignment, c: nat, r: CommunityReport)
    ensures r in Collect(rep, assign, c) <==> exists l: nat :: l < c && rep(Community(assign, l)) == Some(r)
    decreases c
  {
    if c > 0 {
      CollectIff(rep, assign, c - 1, r);
      var x := rep(Community(assign, c - 1));
      assert Collect(rep, assign, c) == Collect(rep, assign, c - 1) + (if x.Some? then [x.value] else []);
      if r in Collect(rep, assign, c) && r !in Collect(rep, assign, c - 1) {
        assert x == Some(r);
        var w: nat := c - 1;
        assert w < c && rep(Community(assign, w)) == Some(r);
      }
      if exists l: nat :: l < c && rep(Community(assign, l)) == Some(r) {
        var l: nat :| l < c && rep(Community(assign, l)) == Some(r);
        if l == c - 1 {
          assert r in Collect(rep, assign, c);
        }
      }
    }
  }

  /**
   * `extract` reports on every community whose reply passes the schema and
   * on nothing else: each report is a valid report of a community of two
   * or more nodes that the grouping made, weighted by their pagerank.
   */
  lemma ReportsLaws(g: GraphData, assign: Assignment, ctx: Context, r: CommunityReport)
    ensures r in Reports(g, assign, ctx) <==> exists l: nat :: ReportFor(g, Community(assign, l), ctx) == Some(r)
    ensures r in Reports(g, assign, ctx) ==>
      Accepted(r.report) && |r.entities| >= 2 && r.weight == Weight(r.entities, ctx.pagerank)
      && exists l: nat :: r.entities == Community(assign, l) && l in Groups(assign)
  {
    var rep := nodes => ReportFor(g, nodes, ctx);
    CollectIff(rep, assign, Top(assign), r);
    if exists l: nat :: ReportFor(g, Community(assign, l), ctx) == Some(r) {
      var l: nat :| ReportFor(g, Community(assign, l), ctx) == Some(r);
      CommunityAbove(assign, l);
      ReportForLaws(g, Community(assign, l), ctx);
      assert l < Top(assign) && rep(Community(assign, l)) == Some(r);
    }
    if r in Reports(g, assign, ctx) {
      var l: nat :| l < Top(assign) && rep(Community(assign, l)) == Some(r);
      ReportForLaws(g, Community(assign, l), ctx);
      GroupsAt(assign, l);
    }
  }

  /** Labels at or above `Top` have no nodes. */
  lemma {:induction false} CommunityAbove(assign: Assignment, l: nat)
    ensures l >= Top(assign) ==> Community(assign, l) == []
    decreases |assign|
  {
    if assign != [] {
      var init := assign[..|assign| - 1];
      assert Top(init) <= Top(assign);
      CommunityAbove(init, l);
    }
  }

  /** The grouping loop of `extract`. */
  method GroupNodes(assign: Assignment) returns (groups: map<nat, seq<string>>)
    ensures groups == Groups(assign)
  {
    groups := map[];
    for i := 0 to |assign|
      invariant groups == Groups(assign[..i])
    {
      var (node, c) := assign[i];
      assert assign[..i + 1][..i] == assign[..i];
      if c !in groups {
        groups := groups[c := []];
      }
      groups := groups[c := groups[c] + [node]];
    }
    assert assign[..|assign|] == assign;
  }

  /** One turn of the report loop: the promise for `community_groups[c]`, resolved to `null` for a label without a group. */
  method ReportCommunity(g: GraphData, assign: Assignment, ctx: Context, groups: map<nat, seq<string>>, c: nat)
    returns (r: Settled<Option<CommunityReport>>)
    requires groups == Groups(assign) && forall p :: p in assign ==> p.0 in g.attrs
    ensures r.Rejected? <==> Rejects(g, Community(assign, c), ctx)
    ensures r.Resolved? ==> r.value == ReportFor(g, Community(assign, c), ctx)
  {
    GroupsAt(assign, c);
    if c in groups {
      forall n | n in groups[c]
        ensures n in g.attrs
      {
        CommunityIff(assign, c, n);
      }
      r := ExtractReport(g, groups[c], ctx);
    } else {
      r := Resolved(None);
    }
  }

  /** The community with label `l` gets a reply `JSON.parse` rejects. */
  predicate RejectsAt(g: GraphData, assign: Assignment, ctx: Context, l: nat) {
    Rejects(g, Community(assign, l), ctx)
  }

  /** Some community with a label below `c` gets a reply `JSON.parse` rejects. */
  predicate RejectsBelow(g: GraphData, assign: Assignment, ctx: Context, c: nat) {
    exists l: nat :: l < c && RejectsAt(g, assign, ctx, l)
  }

  /** One more label: the labels below `c + 1` reject when those below `c` do or label `c` does. */
  lemma RejectsBelowSnoc(g: GraphData, assign: Assignment, ctx: Context, c: nat)
    ensures RejectsBelow(g, assign, ctx, c + 1) <==> RejectsBelow(g, assign, ctx, c) || RejectsAt(g, assign, ctx, c)
  {
    if RejectsBelow(g, assign, ctx, c + 1) {
      var l: nat :| l < c + 1 && RejectsAt(g, assign, ctx, l);
      if l < c {
        assert RejectsBelow(g, assign, ctx, c);
      }
    }
    if RejectsBelow(g, assign, ctx, c) {
      var l: nat :| l < c && RejectsAt(g, assign, ctx, l);
      assert l < c + 1;
    }
    if RejectsAt(g, assign, ctx, c) {
      assert c < c + 1;
    }
  }

  /** A label at or above `Top` never rejects: its community is empty. */
  lemma NoRejectAbove(g: GraphData, assign: Assignment, ctx: Context, l: nat)
    requires RejectsAt(g, assign, ctx, l)
    ensures l < Top(assign)
  {
    CommunityAbove(assign, l);
  }

  /** Only labels below `Top` can reject. */
  lemma RejectsBelowTop(g: GraphData, assign: Assignment, ctx: Context)
    ensures RejectsBelow(g, assign, ctx, Top(assign)) <==> exists l: nat :: RejectsAt(g, assign, ctx, l)
  {
    if exists l: nat :: RejectsAt(g, assign, ctx, l) {
      var l: nat :| RejectsAt(g, assign, ctx, l);
      NoRejectAbove(g, assign, ctx, l);
    }
  }

  /** The result of `extract`: `structured_output` and `output`. */
  datatype Extraction = Extraction(structured: seq<CommunityReport>, output: seq<string>)

  /**
   * The report loop and `Promise.all`: the reports of the labels below
   * `top`, the nulls dropped, and whether some promise rejected.
   */
  method CollectReports(g: GraphData, assign: Assignment, ctx: Context, groups: map<nat, seq<string>>, top: nat)
    returns (structured: seq<CommunityReport>, rejected: bool)
    requires groups == Groups(assign) && forall p :: p in assign ==> p.0 in g.attrs
    ensures structured == ReportsTo(g, assign, ctx, top)
    ensures rejected <==> RejectsBelow(g, assign, ctx, top)
  {
    structured := [];
    rejected := false;
    for c := 0 to top
      invariant structured == ReportsTo(g, assign, ctx, c)
      invariant rejected <==> RejectsBelow(g, assign, ctx, c)
    {
      structured, rejected := CollectStep(g, assign, ctx, groups, c, structured, rejected);
    }
  }

  /** One turn of the report loop: label `c`'s promise, its report kept when it resolves to one. */
  method CollectStep(g: GraphData, assign: Assignment, ctx: Context, groups: map<nat, seq<string>>, c: nat,
                     structured0: seq<CommunityReport>, rejected0: bool)
    returns (structured: seq<CommunityReport>, rejected: bool)
    requires groups == Groups(assign) && forall p :: p in assign ==> p.0 in g.attrs
    requires structured0 == ReportsTo(g, assign, ctx, c)
    requires rejected0 <==> RejectsBelow(g, assign, ctx, c)
    ensures structured == ReportsTo(g, assign, ctx, c + 1)
    ensures rejected <==> RejectsBelow(g, assign, ctx, c + 1)
  {
    var settled := ReportCommunity(g, assign, ctx, groups, c);
    RejectsBelowSnoc(g, assign, ctx, c);
    var report := if settled.Resolved? then settled.value else None;
    ReportsToSnoc(g, assign, ctx, c, report);
    rejected := rejected0 || settled.Rejected?;
    structured := structured0 + (if report.Some? then [report.value] else []);
  }

  /** `structured_reports.map(report => this._get_text_output(report))`. */
  method TextsOf(structured: seq<CommunityReport>) returns (output: seq<string>)
    ensures output == Texts(structured)
  {
    output := [];
    for i := 0 to |structured|
      invariant output == Texts(structured[..i])
    {
      output := output + [TextOutput(structured[i].report)];
    }
    assert structured[..|structured|] == structured;
  }

  /**
   * `extract(graph)` as written: `Promise.all` rejects, and `extract` with
   * it, exactly when some community's reply is one `JSON.parse` rejects;
   * otherwise the output is every community's report, the nulls dropped,
   * and their texts.
   */
  method Extract(g: GraphData, assign: Assignment, ctx: Context) returns (r: Settled<Extraction>)
    requires forall p :: p in assign ==> p.0 in g.attrs
    ensures r.Rejected? <==> exists l: nat :: RejectsAt(g, assign, ctx, l)
    ensures r.Resolved? ==> r.value.structured == Reports(g, assign, ctx)
    ensures r.Resolved? ==> r.value.output == Texts(r.value.structured)
  {
    var groups := GroupNodes(assign);
    var structured, rejected := CollectReports(g, assign, ctx, groups, Top(assign));
    RejectsBelowTop(g, assign, ctx);
    if rejected {
      return Rejected;
    }
    var output := TextsOf(structured);
    r := Resolved(Extraction(structured, output));
  }
}
