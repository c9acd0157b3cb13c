/** The citation view of the front end
    (frontend/src/components/NetworkVisualization.js): the nodes and links
    handed to the force layout, and the label, tooltip, radius and fill of
    each node. The layout itself, the SVG and the drag handlers are not part
    of this model. */
module NetworkView {
  import opened Results
  import opened JsStrings

  /** A paper as the component receives it; a field the object lacks is `None`. */
  datatype VisPaper = VisPaper(id: string, title: Option<string>, authors: Option<seq<string>>, year: Option<int>)

  /** The `data` prop; each of its three fields may be absent. */
  datatype CitationData = CitationData(
    mainPaper: Option<VisPaper>,
    citedPapers: Option<seq<VisPaper>>,
    citingPapers: Option<seq<VisPaper>>)

  datatype Group = Main | Cited | Citing

  /** `{ ...paper, group }`. */
  datatype VisNode = VisNode(paper: VisPaper, group: Group)

  /** `{ source, target, type }`. */
  datatype VisLink = VisLink(source: string, target: string, kind: string)

  const LinkKind := "cites"
  const InvalidDataText := "Error: Invalid data structure"
  const NoDataText := "No valid data to display"

  /** What the component draws: nothing, a line of text, or a network. */
  datatype View =
    | Blank
    | Notice(text: string)
    | Network(nodes: seq<VisNode>, links: seq<VisLink>)

  // ---------------------------------------------------------------------
  // Nodes and links
  // ---------------------------------------------------------------------

  /** The identifiers of some papers. */
  function Ids(papers: seq<VisPaper>): set<string> {
    set k | 0 <= k < |papers| :: papers[k].id
  }

  /** The identifiers of the nodes of a view. */
  function NodeIds(nodes: seq<VisNode>): set<string> {
    set k | 0 <= k < |nodes| :: nodes[k].paper.id
  }

  /** `papers.map(paper => ({ ...paper, group }))`. */
  function Tagged(papers: seq<VisPaper>, group: Group): seq<VisNode> {
    seq(|papers|, k requires 0 <= k < |papers| => VisNode(papers[k], group))
  }

  /** `papers.filter(paper => known.has(paper.id))`: the papers whose
      identifier is known, in order. */
  function KeepKnown(papers: seq<VisPaper>, known: set<string>): (kept: seq<VisPaper>)
    ensures |kept| <= |papers|
    ensures forall k | 0 <= k < |kept| :: kept[k].id in known
    decreases |papers|
  {
    if papers == [] then []
    else (if papers[0].id in known then [papers[0]] else []) + KeepKnown(papers[1..], known)
  }

  /** The filter drops nothing when every identifier is known. */
  lemma {:induction false} KeepKnownAll(papers: seq<VisPaper>, known: set<string>)
    requires forall k | 0 <= k < |papers| :: papers[k].id in known
    ensures KeepKnown(papers, known) == papers
    decreases |papers|
  {
    if papers != [] {
      KeepKnownAll(papers[1..], known);
      assert [papers[0]] + papers[1..] == papers;
    }
  }

  /** The links from the main paper to each cited paper. */
  function CitesLinks(mainId: string, cited: seq<VisPaper>): seq<VisLink> {
    seq(|cited|, k requires 0 <= k < |cited| => VisLink(mainId, cited[k].id, LinkKind))
  }

  /** The links from each citing paper to the main paper. */
  function CitedByLinks(mainId: string, citing: seq<VisPaper>): seq<VisLink> {
    seq(|citing|, k requires 0 <= k < |citing| => VisLink(citing[k].id, mainId, LinkKind))
  }

  /** The three fields the component needs are all present. */
  predicate Complete(d: CitationData) {
    d.mainPaper.Some? && d.citedPapers.Some? && d.citingPapers.Some?
  }

  /** The body of the effect: the structure check, the identifier set, the
      nodes and the links, and the check for an empty node list. */
  function BuildView(data: Option<CitationData>): View {
    if data.None? then Blank
    else if !Complete(data.value) then Notice(InvalidDataText)
    else
      var main, cited, citing := data.value.mainPaper.value, data.value.citedPapers.value, data.value.citingPapers.value;
      var nodeIds := {main.id} + Ids(cited) + Ids(citing);
      var nodes := [VisNode(main, Main)] + Tagged(cited, Cited) + Tagged(citing, Citing);
      var links := CitesLinks(main.id, KeepKnown(cited, nodeIds)) + CitedByLinks(main.id, KeepKnown(citing, nodeIds));
      if |nodes| == 0 then Notice(NoDataText) else Network(nodes, links)
  }

  /** The view of complete data. */
  function ViewOf(main: VisPaper, cited: seq<VisPaper>, citing: seq<VisPaper>): View {
    BuildView(Some(CitationData(Some(main), Some(cited), Some(citing))))
  }

  /** The structure check decides between the error text and a network; the
      text for an empty node list is never shown, since the main paper is
      always a node. */
  lemma BuildViewOutcome(data: Option<CitationData>)
    ensures BuildView(data) == Blank <==> data.None?
    ensures BuildView(data) == Notice(InvalidDataText) <==> data.Some? && !Complete(data.value)
    ensures BuildView(data).Network? <==> data.Some? && Complete(data.value)
    ensures BuildView(data) != Notice(NoDataText)
  {
  }

  /** The nodes: the main paper, then the cited papers, then the citing
      papers, each in input order and tagged with its group. */
  lemma ViewNodes(main: VisPaper, cited: seq<VisPaper>, citing: seq<VisPaper>)
    ensures ViewOf(main, cited, citing).Network?
    ensures var nodes := ViewOf(main, cited, citing).nodes;
      && |nodes| == 1 + |cited| + |citing|
      && nodes[0] == VisNode(main, Main)
      && (forall k | 0 <= k < |cited| :: nodes[1 + k] == VisNode(cited[k], Cited))
      && (forall k | 0 <= k < |citing| :: nodes[1 + |cited| + k] == VisNode(citing[k], Citing))
  {
  }

  /** The identifier filter keeps every paper, so there is one link per cited
      paper, from the main paper, then one per citing paper, to the main
      paper, in input order. */
  lemma ViewLinks(main: VisPaper, cited: seq<VisPaper>, citing: seq<VisPaper>)
    ensures ViewOf(main, cited, citing).Network?
    ensures var links := ViewOf(main, cited, citing).links;
      && |links| == |cited| + |citing|
      && (forall k | 0 <= k < |cited| :: links[k] == VisLink(main.id, cited[k].id, LinkKind))
      && (forall k | 0 <= k < |citing| :: links[|cited| + k] == VisLink(citing[k].id, main.id, LinkKind))
  {
    var nodeIds := {main.id} + Ids(cited) + Ids(citing);
    forall k | 0 <= k < |cited| ensures cited[k].id in nodeIds {
      assert cited[k].id in Ids(cited);
    }
    forall k | 0 <= k < |citing| ensures citing[k].id in nodeIds {
      assert citing[k].id in Ids(citing);
    }
    KeepKnownAll(cited, nodeIds);
    KeepKnownAll(citing, nodeIds);
  }

  /** Every link joins two nodes of the view. */
  lemma ViewLinksWithin(main: VisPaper, cited: seq<VisPaper>, citing: seq<VisPaper>)
    ensures ViewOf(main, cited, citing).Network?
    ensures var v := ViewOf(main, cited, citing);
      forall k | 0 <= k < |v.links| :: v.links[k].source in NodeIds(v.nodes) && v.links[k].target in NodeIds(v.nodes)
  {
    ViewNodes(main, cited, citing);
    ViewLinks(main, cited, citing);
    var v := ViewOf(main, cited, citing);
    assert main.id in NodeIds(v.nodes) by {
      assert v.nodes[0].paper.id == main.id;
    }
    forall k | 0 <= k < |cited| ensures cited[k].id in NodeIds(v.nodes) {
      assert v.nodes[1 + k].paper.id == cited[k].id;
    }
    forall k | 0 <= k < |citing| ensures citing[k].id in NodeIds(v.nodes) {
      assert v.nodes[1 + |cited| + k].paper.id == citing[k].id;
    }
  }

  // ---------------------------------------------------------------------
  // Style of a node
  // ---------------------------------------------------------------------

  /** The circle's radius. */
  function Radius(g: Group): nat {
    if g == Main then 15 else 10
  }

  /** The circle's fill. */
  function Fill(g: Group): string {
    if g == Main then "#ff0000"
    else if g == Cited then "#00ff00"
    else "#0000ff"
  }

  /** The main paper's circle is the only large one, and each group has a
      colour of its own, so the fill tells a cited paper from a citing one. */
  lemma ViewStyle(main: VisPaper, cited: seq<VisPaper>, citing: seq<VisPaper>)
    ensures var v := ViewOf(main, cited, citing);
      && v.Network?
      && (forall k | 0 <= k < |v.nodes| :: Radius(v.nodes[k].group) == 15 <==> k == 0)
      && (forall k | 0 <= k < |v.nodes| :: Fill(v.nodes[k].group) == "#00ff00" <==> 1 <= k <= |cited|)
    ensures forall g, h: Group :: Fill(g) == Fill(h) ==> g == h
  {
    ViewNodes(main, cited, citing);
    var v := ViewOf(main, cited, citing);
    forall k | 1 <= k < |v.nodes| ensures v.nodes[k].group != Main {
      if k <= |cited| {
        assert v.nodes[1 + (k - 1)] == VisNode(cited[k - 1], Cited);
      } else {
        assert v.nodes[1 + |cited| + (k - 1 - |cited|)] == VisNode(citing[k - 1 - |cited|], Citing);
      }
    }
    forall k | 0 <= k < |v.nodes| ensures v.nodes[k].group == Cited <==> 1 <= k <= |cited| {
      if 1 <= k <= |cited| {
        assert v.nodes[1 + (k - 1)] == VisNode(cited[k - 1], Cited);
      } else if |cited| < k {
        assert v.nodes[1 + |cited| + (k - 1 - |cited|)] == VisNode(citing[k - 1 - |cited|], Citing);
      }
    }
  }

  // ---------------------------------------------------------------------
  // Label and tooltip
  // ---------------------------------------------------------------------

  /** `(title || '').substring(0, 20)`. */
  function Label(title: Option<string>): (caption: string)
    ensures |caption| <= 20
  {
    var text := if title.Some? then title.value else "";
    if |text| <= 20 then text else text[..20]
  }

  /** The label is the title cut to its first 20 characters; a missing title
      gives an empty label, and a title of at most 20 characters is shown
      whole. Cutting again changes nothing. */
  lemma LabelSpec(title: Option<string>)
    ensures title.None? ==> Label(title) == ""
    ensures title.Some? ==> Label(title) <= title.value
    ensures title.Some? ==> |Label(title)| == if |title.value| <= 20 then |title.value| else 20
    ensures Label(Some(Label(title))) == Label(title)
  {
  }

  /** `d.title || 'Untitled'`. */
  function TitleText(title: Option<string>): string {
    if title.None? || title.value == "" then "Untitled" else title.value
  }

  /** `(d.authors || []).join(', ') || 'Unknown'`. */
  function AuthorsText(authors: Option<seq<string>>): string {
    var joined := Join(if authors.Some? then authors.value else [], ", ");
    if joined == "" then "Unknown" else joined
  }

  /** `d.year || 'N/A'` inside a template literal. */
  function YearText(year: Option<int>): string {
    if year.None? || year.value == 0 then "N/A" else IntToDecimal(year.value)
  }

  /** `${title}\nAuthors: ${authors}\nYear: ${year}`. */
  function Tooltip(p: VisPaper): string {
    TitleText(p.title) + "\n" + "Authors: " + AuthorsText(p.authors) + "\n" + "Year: " + YearText(p.year)
  }

  /** The fallbacks: `Untitled` exactly for a missing or empty title,
      `Unknown` for missing authors, no authors or a single empty name
      (otherwise the names joined by `, `), and `N/A` for a missing or zero
      year (otherwise its decimal text, which reads back as the year). */
  lemma TooltipFallbacks(p: VisPaper)
    ensures p.title.None? || p.title.value == "" ==> TitleText(p.title) == "Untitled"
    ensures p.title.Some? && p.title.value != "" ==> TitleText(p.title) == p.title.value
    ensures p.authors.None? || p.authors.value == [] || p.authors.value == [""] ==> AuthorsText(p.authors) == "Unknown"
    ensures p.authors.Some? && p.authors.value != [] && p.authors.value != [""] ==>
      AuthorsText(p.authors) == Join(p.authors.value, ", ")
    ensures p.year.None? || p.year.value == 0 ==> YearText(p.year) == "N/A"
    ensures p.year.Some? && p.year.value > 0 ==>
      IsDigits(YearText(p.year)) && DecimalValue(YearText(p.year)) == p.year.value
    ensures p.year.Some? && p.year.value < 0 ==>
      YearText(p.year)[0] == '-' && IsDigits(YearText(p.year)[1..]) && DecimalValue(YearText(p.year)[1..]) == -p.year.value
  {
    if p.authors.Some? {
      JoinEmpty(p.authors.value, ", ");
    }
    if p.year.Some? && p.year.value > 0 {
      DecimalRoundTrip(p.year.value);
    }
    if p.year.Some? && p.year.value < 0 {
      DecimalRoundTrip(-p.year.value);
      assert YearText(p.year)[1..] == NatToDecimal(-p.year.value);
    }
  }

  /** Neither the title nor any author name holds a line break. */
  predicate SingleLineFields(p: VisPaper) {
    && (p.title.Some? ==> '\n' !in p.title.value)
    && (p.authors.Some? ==> forall k | 0 <= k < |p.authors.value| :: '\n' !in p.authors.value[k])
  }

  lemma FieldTextsSingleLine(p: VisPaper)
    requires SingleLineFields(p)
    ensures '\n' !in TitleText(p.title) && '\n' !in AuthorsText(p.authors) && '\n' !in YearText(p.year)
  {
    if p.authors.Some? {
      JoinWithout(p.authors.value, ", ", '\n');
    }
    if p.year.Some? && p.year.value != 0 {
      var digits := NatToDecimal(if p.year.value < 0 then -p.year.value else p.year.value);
      forall k | 0 <= k < |digits| ensures digits[k] != '\n' {
        assert IsDigit(digits[k]);
      }
    }
  }

  /** Three texts without line breaks, joined by line breaks after the
      `Authors: ` and `Year: ` prefixes, split back into three lines. */
  lemma ThreeLines(t: string, a: string, y: string)
    requires '\n' !in t && '\n' !in a && '\n' !in y
    ensures Split(t + "\n" + "Authors: " + a + "\n" + "Year: " + y, "\n") == [t, "Authors: " + a, "Year: " + y]
  {
    var second, third := "Authors: " + a, "Year: " + y;
    assert '\n' !in second && '\n' !in third;
    assert t + "\n" + "Authors: " + a + "\n" + "Year: " + y == t + ['\n'] + (second + ['\n'] + third);
    SplitAtFirst(t, '\n', second + ['\n'] + third);
    SplitAtFirst(second, '\n', third);
    SplitWithout(third, '\n');
  }

  /** The tooltip has three lines: the title, the authors and the year. */
  lemma TooltipLines(p: VisPaper)
    requires SingleLineFields(p)
    ensures Split(Tooltip(p), "\n") ==
      [TitleText(p.title), "Authors: " + AuthorsText(p.authors), "Year: " + YearText(p.year)]
  {
    FieldTextsSingleLine(p);
    ThreeLines(TitleText(p.title), AuthorsText(p.authors), YearText(p.year));
  }
}
