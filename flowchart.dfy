/** The Mermaid flowchart that `generateFlowchartFromPaper` builds from a
    paper outline (backend/perplexity.js:4-83).

    The outline is the ordered list of `Object.entries` of the parsed JSON
    object: main topics with their subtopics. The text is a `graph TD` header,
    a `start` node, and for every topic a declaration line and an edge line
    from `start`, followed by a declaration and an edge from the topic for
    each of its subtopics.

    The text is specified as the rendering of a list of statements
    (`Statements`); `BuildFlowchart` is the string-building loop of the source
    and is proved to produce exactly that rendering. */
module Flowchart {
  import opened Results
  import opened JsStrings

  /** `Object.entries(outline)`: topics in order, each with its subtopics. */
  type Outline = seq<(string, seq<string>)>

  /** One line of a Mermaid flowchart: the diagram declaration
      `graph direction`, a node declaration `id[label]` or an edge
      `source --> target`. */
  datatype Statement =
    | Graph(direction: string)
    | Node(id: string, caption: string)
    | Edge(source: string, target: string)

  /** The first two lines: a top-down graph and its `start` node. */
  const Header := Graph("TD")
  const StartId := "start"
  const Start := Node(StartId, "Start")

  // ---------------------------------------------------------------------
  // Labels
  // ---------------------------------------------------------------------

  predicate HasParenthesis(text: string) {
    '(' in text || ')' in text
  }

  /** A label with a parenthesis is wrapped in double quotes, so that Mermaid
      does not read the parenthesis as node-shape syntax. */
  function Sanitize(text: string): (caption: string)
    ensures HasParenthesis(caption) <==> HasParenthesis(text)
    ensures '\n' in caption <==> '\n' in text
  {
    if HasParenthesis(text) then "\"" + text + "\"" else text
  }

  /** The inverse of `Sanitize`: the text inside the quotes of a quoted label
      that holds a parenthesis, the label itself otherwise. */
  function Unquote(caption: string): string {
    if 2 <= |caption| && caption[0] == '"' && caption[|caption| - 1] == '"' && HasParenthesis(caption[1..|caption| - 1])
    then caption[1..|caption| - 1]
    else caption
  }

  /** Sanitising loses nothing: the label always reads back as the topic's
      own text, and it is quoted exactly when the text holds a parenthesis. */
  lemma SanitizeRoundTrip(text: string)
    ensures Unquote(Sanitize(text)) == text
    ensures Sanitize(text) != text <==> HasParenthesis(text)
    ensures HasParenthesis(text) ==> Sanitize(text)[1..|Sanitize(text)| - 1] == text
  {
    if HasParenthesis(text) {
      var caption := Sanitize(text);
      assert caption[1..|caption| - 1] == text;
      assert |caption| == |text| + 2;
    }
  }

  // ---------------------------------------------------------------------
  // Node identifiers
  // ---------------------------------------------------------------------

  /** `main${index}`. */
  function MainId(i: nat): string {
    "main" + NatToDecimal(i)
  }

  /** `sub${index}_${subIndex}`. */
  function SubId(i: nat, j: nat): string {
    "sub" + NatToDecimal(i) + "_" + NatToDecimal(j)
  }

  lemma DigitsWithoutUnderscore(s: string)
    requires IsDigits(s)
    ensures '_' !in s && '\n' !in s
  {
    forall k | 0 <= k < |s| ensures s[k] != '_' && s[k] != '\n' {
      assert IsDigit(s[k]);
    }
  }

  /** The underscore of `sub{i}_{j}` sits right after the digits of `i`. */
  lemma UnderscoreSplit(a: string, b: string, c: string, d: string)
    requires IsDigits(a) && IsDigits(c) && a + "_" + b == c + "_" + d
    ensures a == c && b == d
  {
    var s := a + "_" + b;
    assert s[|a|] == '_' && s[|c|] == '_';
    assert a == s[..|a|] == c;
    assert b == s[|a| + 1..] == d;
  }

  lemma PrefixCancel(p: string, x: string, y: string)
    requires p + x == p + y
    ensures x == y
  {
    assert x == (p + x)[|p|..];
    assert y == (p + y)[|p|..];
  }

  /** Distinct topics get distinct identifiers. */
  lemma MainIdInjective(i: nat, j: nat)
    ensures MainId(i) == MainId(j) <==> i == j
  {
    if MainId(i) == MainId(j) {
      PrefixCancel("main", NatToDecimal(i), NatToDecimal(j));
      NatToDecimalInjective(i, j);
    }
  }

  /** Distinct (topic, subtopic) positions get distinct identifiers. */
  lemma SubIdInjective(i: nat, j: nat, k: nat, l: nat)
    ensures SubId(i, j) == SubId(k, l) <==> i == k && j == l
  {
    if SubId(i, j) == SubId(k, l) {
      assert SubId(i, j) == "sub" + (NatToDecimal(i) + "_" + NatToDecimal(j));
      assert SubId(k, l) == "sub" + (NatToDecimal(k) + "_" + NatToDecimal(l));
      PrefixCancel("sub", NatToDecimal(i) + "_" + NatToDecimal(j), NatToDecimal(k) + "_" + NatToDecimal(l));
      UnderscoreSplit(NatToDecimal(i), NatToDecimal(j), NatToDecimal(k), NatToDecimal(l));
      NatToDecimalInjective(i, k);
      NatToDecimalInjective(j, l);
    }
  }

  /** The three kinds of identifier never collide. */
  lemma IdKindsDistinct(i: nat, k: nat, l: nat)
    ensures MainId(i) != StartId && SubId(k, l) != StartId && MainId(i) != SubId(k, l)
  {
    assert MainId(i)[0] == 'm';
    assert SubId(k, l)[0] == 's' && SubId(k, l)[1] == 'u';
    assert StartId[1] == 't';
  }

  lemma IdsWithoutNewline(i: nat, j: nat)
    ensures '\n' !in MainId(i) && '\n' !in SubId(i, j) && '\n' !in StartId
  {
    DigitsWithoutUnderscore(NatToDecimal(i));
    DigitsWithoutUnderscore(NatToDecimal(j));
  }

  // ---------------------------------------------------------------------
  // The statements of a flowchart
  // ---------------------------------------------------------------------

  /** The statements for the first `n` subtopics of topic `i`. */
  function SubtopicStatements(i: nat, subtopics: seq<string>, n: nat): seq<Statement>
    requires n <= |subtopics|
    decreases n
  {
    if n == 0 then []
    else
      SubtopicStatements(i, subtopics, n - 1)
        + [Node(SubId(i, n - 1), Sanitize(subtopics[n - 1])), Edge(MainId(i), SubId(i, n - 1))]
  }

  /** The two statements that introduce topic `i`. */
  function TopicHeadOf(i: nat, mainTopic: string): seq<Statement> {
    [Node(MainId(i), Sanitize(mainTopic)), Edge(StartId, MainId(i))]
  }

  function TopicHead(outline: Outline, i: nat): seq<Statement>
    requires i < |outline|
  {
    TopicHeadOf(i, outline[i].0)
  }

  /** The statements for the first `n` topics, subtopics included. */
  function TopicStatements(outline: Outline, n: nat): seq<Statement>
    requires n <= |outline|
    decreases n
  {
    if n == 0 then []
    else
      TopicStatements(outline, n - 1) + TopicHead(outline, n - 1)
        + SubtopicStatements(n - 1, outline[n - 1].1, |outline[n - 1].1|)
  }

  function Statements(outline: Outline): seq<Statement> {
    [Header, Start] + TopicStatements(outline, |outline|)
  }

  function Render(s: Statement): string {
    match s
    case Graph(direction) => "graph " + direction
    case Node(id, caption) => id + "[" + caption + "]"
    case Edge(source, target) => source + " --> " + target
  }

  /** A statement on a line of its own, ended by a newline. */
  function Line(s: Statement): string {
    Render(s) + "\n"
  }

  /** The statements, one line each. */
  function RenderLines(stmts: seq<Statement>): string
    decreases |stmts|
  {
    if stmts == [] then "" else RenderLines(stmts[..|stmts| - 1]) + Line(stmts[|stmts| - 1])
  }

  /** The flowchart text for an outline. */
  function FlowchartText(outline: Outline): string {
    RenderLines(Statements(outline))
  }

  lemma RenderLinesSnoc(xs: seq<Statement>, s: Statement)
    ensures RenderLines(xs + [s]) == RenderLines(xs) + Line(s)
  {
    assert (xs + [s])[..|xs|] == xs;
  }

  lemma RenderLinesPair(xs: seq<Statement>, a: Statement, b: Statement)
    ensures RenderLines(xs + [a, b]) == RenderLines(xs) + Line(a) + Line(b)
  {
    RenderLinesSnoc(xs, a);
    RenderLinesSnoc(xs + [a], b);
    assert xs + [a] + [b] == xs + [a, b];
  }

  lemma Regroup(x: string, y: string, z: string, u: string, v: string)
    requires u == x + y && v == u + z
    ensures v == x + (y + z)
  {
  }

  lemma AppendInitLast(a: seq<Statement>, b: seq<Statement>)
    requires b != []
    ensures (a + b)[..|a + b| - 1] == a + b[..|b| - 1] && (a + b)[|a + b| - 1] == b[|b| - 1]
  {
  }

  lemma {:induction false} RenderLinesAppend(a: seq<Statement>, b: seq<Statement>)
    ensures RenderLines(a + b) == RenderLines(a) + RenderLines(b)
    decreases |b|
  {
    if b == [] {
      assert a + b == a;
    } else {
      var init, last := b[..|b| - 1], b[|b| - 1];
      RenderLinesAppend(a, init);
      AppendInitLast(a, b);
      assert RenderLines(a + b) == RenderLines(a + init) + Line(last);
      assert RenderLines(b) == RenderLines(init) + Line(last);
      Regroup(RenderLines(a), RenderLines(init), Line(last), RenderLines(a + init), RenderLines(a + b));
    }
  }

  lemma HeaderLine()
    ensures Line(Header) == "graph TD\n"
  {
  }

  lemma StartLine()
    ensures Line(Start) == "start[Start]\n"
  {
  }

  /** The two header lines. */
  lemma HeaderLines()
    ensures RenderLines([Header, Start]) == "graph TD\n" + "start[Start]\n"
  {
    RenderLinesPair([], Header, Start);
    assert [] + [Header, Start] == [Header, Start];
    HeaderLine();
    StartLine();
  }

  // ---------------------------------------------------------------------
  // The string-building loop
  // ---------------------------------------------------------------------

  /** The lines of subtopic `j` of topic `i`, appended to the text so far. */
  lemma EmitSubtopic(head: seq<Statement>, i: nat, subtopics: seq<string>, j: nat)
    requires j < |subtopics|
    ensures RenderLines(head + SubtopicStatements(i, subtopics, j)) + Line(Node(SubId(i, j), Sanitize(subtopics[j]))) + Line(Edge(MainId(i), SubId(i, j)))
         == RenderLines(head + SubtopicStatements(i, subtopics, j + 1))
  {
    var node, edge := Node(SubId(i, j), Sanitize(subtopics[j])), Edge(MainId(i), SubId(i, j));
    var done := SubtopicStatements(i, subtopics, j);
    RenderLinesPair(head + done, node, edge);
    assert head + (done + [node, edge]) == (head + done) + [node, edge];
  }

  /** The `forEach` callback for one topic (backend/perplexity.js:53-75): its
      declaration, the edge from `start`, then a declaration and an edge from
      the topic for each subtopic in order. */
  method AppendTopic(code: string, ghost before: seq<Statement>, index: nat, mainTopic: string, subtopics: seq<string>)
    returns (extended: string)
    requires code == RenderLines(before)
    ensures extended == RenderLines(before + TopicHeadOf(index, mainTopic)
                                     + SubtopicStatements(index, subtopics, |subtopics|))
  {
    var mainNodeId := MainId(index);
    var sanitizedMainTopic := Sanitize(mainTopic);
    RenderLinesPair(before, Node(mainNodeId, sanitizedMainTopic), Edge(StartId, mainNodeId));
    extended := code + (mainNodeId + "[" + sanitizedMainTopic + "]" + "\n");
    extended := extended + (StartId + " --> " + mainNodeId + "\n");
    ghost var head := before + TopicHeadOf(index, mainTopic);
    assert head + SubtopicStatements(index, subtopics, 0) == head;
    for subIndex := 0 to |subtopics|
      invariant extended == RenderLines(head + SubtopicStatements(index, subtopics, subIndex))
    {
      var subNodeId := SubId(index, subIndex);
      var sanitizedSubtopic := Sanitize(subtopics[subIndex]);
      EmitSubtopic(head, index, subtopics, subIndex);
      extended := extended + (subNodeId + "[" + sanitizedSubtopic + "]" + "\n");
      extended := extended + (mainNodeId + " --> " + subNodeId + "\n");
    }
  }

  /** The builder at backend/perplexity.js:49-78: `flowchartCode` starts
      with the two header lines and grows topic by topic. */
  method BuildFlowchart(outline: Outline) returns (code: string)
    ensures code == FlowchartText(outline)
  {
    code := "graph TD\n";
    code := code + "start[Start]\n";
    HeaderLines();
    assert [Header, Start] + TopicStatements(outline, 0) == [Header, Start];
    for index := 0 to |outline|
      invariant code == RenderLines([Header, Start] + TopicStatements(outline, index))
    {
      var (mainTopic, subtopics) := outline[index];
      code := AppendTopic(code, [Header, Start] + TopicStatements(outline, index), index, mainTopic, subtopics);
      TopicStatementsSnoc(outline, index);
    }
  }

  lemma TopicStatementsSnoc(outline: Outline, i: nat)
    requires i < |outline|
    ensures [Header, Start] + TopicStatements(outline, i + 1)
         == [Header, Start] + TopicStatements(outline, i) + TopicHeadOf(i, outline[i].0)
            + SubtopicStatements(i, outline[i].1, |outline[i].1|)
  {
  }

  // ---------------------------------------------------------------------
  // Shape of the text
  // ---------------------------------------------------------------------

  function SubtopicTotal(outline: Outline, n: nat): nat
    requires n <= |outline|
  {
    if n == 0 then 0 else SubtopicTotal(outline, n - 1) + |outline[n - 1].1|
  }

  lemma {:induction false} SubtopicStatementsShape(i: nat, subtopics: seq<string>, n: nat)
    requires n <= |subtopics|
    ensures var st := SubtopicStatements(i, subtopics, n);
      && |st| == 2 * n
      && forall j | 0 <= j < n ::
           st[2 * j] == Node(SubId(i, j), Sanitize(subtopics[j])) && st[2 * j + 1] == Edge(MainId(i), SubId(i, j))
    decreases n
  {
    if n > 0 {
      SubtopicStatementsShape(i, subtopics, n - 1);
    }
  }

  lemma {:induction false} TopicStatementsLength(outline: Outline, n: nat)
    requires n <= |outline|
    ensures |TopicStatements(outline, n)| == 2 * n + 2 * SubtopicTotal(outline, n)
    decreases n
  {
    if n > 0 {
      TopicStatementsLength(outline, n - 1);
      SubtopicStatementsShape(n - 1, outline[n - 1].1, |outline[n - 1].1|);
    }
  }

  lemma {:induction false} TopicStatementsPrefix(outline: Outline, m: nat, n: nat)
    requires m <= n <= |outline|
    ensures TopicStatements(outline, m) <= TopicStatements(outline, n)
    decreases n
  {
    if m < n {
      TopicStatementsPrefix(outline, m, n - 1);
    }
  }

  /** Where topic `i` sits in the statement list: its declaration, the edge
      from `start`, then for each subtopic `j` in order its declaration and
      the edge from the topic. */
  lemma TopicBlockWithin(outline: Outline, i: nat)
    requires i < |outline|
    ensures var upTo := TopicStatements(outline, i + 1);
      var q := 2 * i + 2 * SubtopicTotal(outline, i);
      var subtopics := outline[i].1;
      && q + 2 + 2 * |subtopics| == |upTo|
      && upTo[q] == Node(MainId(i), Sanitize(outline[i].0))
      && upTo[q + 1] == Edge(StartId, MainId(i))
      && forall j | 0 <= j < |subtopics| ::
           upTo[q + 2 + 2 * j] == Node(SubId(i, j), Sanitize(subtopics[j]))
           && upTo[q + 3 + 2 * j] == Edge(MainId(i), SubId(i, j))
  {
    var subtopics := outline[i].1;
    var q := 2 * i + 2 * SubtopicTotal(outline, i);
    TopicStatementsLength(outline, i);
    SubtopicStatementsShape(i, subtopics, |subtopics|);
    var subs := SubtopicStatements(i, subtopics, |subtopics|);
    var upTo := TopicStatements(outline, i + 1);
    assert upTo == TopicStatements(outline, i) + TopicHead(outline, i) + subs;
    forall j | 0 <= j < |subtopics|
      ensures upTo[q + 2 + 2 * j] == subs[2 * j] && upTo[q + 3 + 2 * j] == subs[2 * j + 1]
    {
    }
  }

  /** Where topic `i` sits among the statements: after the two header lines
      and the blocks of the topics before it come its declaration and the edge
      from `start`, then for each subtopic `j`, in order, its declaration and
      the edge from the topic. */
  lemma TopicBlock(outline: Outline, i: nat)
    requires i < |outline|
    ensures var st := Statements(outline);
      var p := 2 + 2 * i + 2 * SubtopicTotal(outline, i);
      var subtopics := outline[i].1;
      && p + 1 + 2 * |subtopics| < |st|
      && st[p] == Node(MainId(i), Sanitize(outline[i].0))
      && st[p + 1] == Edge(StartId, MainId(i))
      && forall j | 0 <= j < |subtopics| ::
           st[p + 2 + 2 * j] == Node(SubId(i, j), Sanitize(subtopics[j]))
           && st[p + 3 + 2 * j] == Edge(MainId(i), SubId(i, j))
  {
    TopicBlockWithin(outline, i);
    TopicStatementsPrefix(outline, i + 1, |outline|);
    var upTo := TopicStatements(outline, i + 1);
    var st := Statements(outline);
    assert forall k | 0 <= k < |upTo| :: st[2 + k] == upTo[k];
  }

  /** The rendered lines, one per statement. */
  function Rendered(stmts: seq<Statement>): seq<string> {
    seq(|stmts|, k requires 0 <= k < |stmts| => Render(stmts[k]))
  }

  predicate LineFree(stmts: seq<Statement>) {
    forall k | 0 <= k < |stmts| :: '\n' !in Render(stmts[k])
  }

  lemma RenderLinesSingle(s: Statement)
    ensures RenderLines([s]) == Line(s)
  {
    assert [s][..0] == [];
  }

  lemma RenderLinesCons(s: Statement, rest: seq<Statement>)
    ensures RenderLines([s] + rest) == Render(s) + "\n" + RenderLines(rest)
  {
    RenderLinesAppend([s], rest);
    RenderLinesSingle(s);
  }

  lemma RenderedCons(stmts: seq<Statement>)
    requires |stmts| > 0
    ensures Rendered(stmts) == [Render(stmts[0])] + Rendered(stmts[1..])
  {
  }

  /** Cut at its newlines, a rendering gives back one line per statement and
      the empty text after the last newline. */
  lemma {:induction false} SplitRenderLines(stmts: seq<Statement>)
    requires LineFree(stmts)
    ensures Split(RenderLines(stmts), "\n") == Rendered(stmts) + [""]
    decreases |stmts|
  {
    if stmts == [] {
      assert Split("", "\n") == [""];
    } else {
      var rest := stmts[1..];
      assert stmts == [stmts[0]] + rest;
      RenderLinesCons(stmts[0], rest);
      SplitRenderLines(rest);
      SplitAtFirst(Render(stmts[0]), '\n', RenderLines(rest));
      RenderedCons(stmts);
    }
  }

  /** No topic or subtopic text holds a line break. */
  predicate SingleLineTexts(outline: Outline) {
    forall i | 0 <= i < |outline| ::
      '\n' !in outline[i].0 && forall j | 0 <= j < |outline[i].1| :: '\n' !in outline[i].1[j]
  }

  lemma LineFreeAppend(a: seq<Statement>, b: seq<Statement>)
    requires LineFree(a) && LineFree(b)
    ensures LineFree(a + b)
  {
    forall k | 0 <= k < |a + b| ensures '\n' !in Render((a + b)[k]) {
      if k < |a| {
        assert (a + b)[k] == a[k];
      } else {
        assert (a + b)[k] == b[k - |a|];
      }
    }
  }

  lemma HeaderLineFree()
    ensures LineFree([Header, Start])
  {
    HeaderLine();
    StartLine();
  }

  lemma {:induction false} SubtopicStatementsLineFree(i: nat, subtopics: seq<string>, n: nat)
    requires n <= |subtopics|
    requires forall j | 0 <= j < |subtopics| :: '\n' !in subtopics[j]
    ensures LineFree(SubtopicStatements(i, subtopics, n))
    decreases n
  {
    if n > 0 {
      SubtopicStatementsLineFree(i, subtopics, n - 1);
      IdsWithoutNewline(i, n - 1);
      var pair := [Node(SubId(i, n - 1), Sanitize(subtopics[n - 1])), Edge(MainId(i), SubId(i, n - 1))];
      assert LineFree(pair);
      LineFreeAppend(SubtopicStatements(i, subtopics, n - 1), pair);
    }
  }

  lemma {:induction false} TopicStatementsLineFree(outline: Outline, n: nat)
    requires n <= |outline| && SingleLineTexts(outline)
    ensures LineFree(TopicStatements(outline, n))
    decreases n
  {
    if n > 0 {
      var i := n - 1;
      TopicStatementsLineFree(outline, i);
      IdsWithoutNewline(i, 0);
      assert LineFree(TopicHead(outline, i));
      SubtopicStatementsLineFree(i, outline[i].1, |outline[i].1|);
      LineFreeAppend(TopicStatements(outline, i), TopicHead(outline, i));
      LineFreeAppend(TopicStatements(outline, i) + TopicHead(outline, i), SubtopicStatements(i, outline[i].1, |outline[i].1|));
    }
  }

  /** The text begins with the lines `graph TD` and `start[Start]`, and it
      consists of exactly `2 + 2·T + 2·S` newline-terminated lines for `T`
      topics and `S` subtopics in all, one per statement. */
  lemma {:induction false} FlowchartLines(outline: Outline)
    requires SingleLineTexts(outline)
    ensures var lines := Split(FlowchartText(outline), "\n");
      && lines == Rendered(Statements(outline)) + [""]
      && |lines| - 1 == 2 + 2 * |outline| + 2 * SubtopicTotal(outline, |outline|)
  {
    var st := Statements(outline);
    var topics := TopicStatements(outline, |outline|);
    TopicStatementsLineFree(outline, |outline|);
    TopicStatementsLength(outline, |outline|);
    HeaderLineFree();
    LineFreeAppend([Header, Start], topics);
    SplitRenderLines(st);
  }

  /** The text starts with the two header lines. */
  lemma {:induction false} FlowchartPrefix(outline: Outline)
    ensures "graph TD\n" + "start[Start]\n" <= FlowchartText(outline)
  {
    RenderLinesAppend([Header, Start], TopicStatements(outline, |outline|));
    HeaderLines();
  }

  // ---------------------------------------------------------------------
  // Well-formedness of the graph
  // ---------------------------------------------------------------------

  function DeclaredIds(stmts: seq<Statement>): set<string>
    decreases |stmts|
  {
    if stmts == [] then {}
    else DeclaredIds(stmts[..|stmts| - 1]) + (if stmts[|stmts| - 1].Node? then {stmts[|stmts| - 1].id} else {})
  }

  /** A statement fits after `before` when a node's id is new, and when an
      edge points at the node declared on the line just before it and starts
      at a node declared before that one. */
  predicate FitsAfter(before: seq<Statement>, s: Statement) {
    match s
    case Graph(_) => before == []
    case Node(id, _) => id !in DeclaredIds(before)
    case Edge(source, target) =>
      && |before| > 0
      && before[|before| - 1].Node?
      && before[|before| - 1].id == target
      && source in DeclaredIds(before[..|before| - 1])
  }

  /** Every statement fits after the ones before it. */
  predicate WellFormed(stmts: seq<Statement>)
    decreases |stmts|
  {
    stmts == [] || (WellFormed(stmts[..|stmts| - 1]) && FitsAfter(stmts[..|stmts| - 1], stmts[|stmts| - 1]))
  }

  /** Well-formedness read position by position. */
  lemma {:induction false} WellFormedAt(stmts: seq<Statement>, k: nat)
    requires WellFormed(stmts) && k < |stmts|
    ensures FitsAfter(stmts[..k], stmts[k])
    decreases |stmts|
  {
    var init := stmts[..|stmts| - 1];
    if k < |init| {
      WellFormedAt(init, k);
      assert init[..k] == stmts[..k];
    }
  }

  lemma DeclaredSnoc(xs: seq<Statement>, s: Statement)
    ensures DeclaredIds(xs + [s]) == DeclaredIds(xs) + (if s.Node? then {s.id} else {})
  {
    assert (xs + [s])[..|xs|] == xs;
  }

  lemma WellFormedSnoc(xs: seq<Statement>, s: Statement)
    requires WellFormed(xs) && FitsAfter(xs, s)
    ensures WellFormed(xs + [s])
  {
    assert (xs + [s])[..|xs|] == xs;
  }

  /** Declaring a fresh node and then linking it from a declared node keeps
      the statements well formed. */
  lemma DeclareAndLink(xs: seq<Statement>, id: string, caption: string, source: string)
    requires WellFormed(xs) && id !in DeclaredIds(xs) && source in DeclaredIds(xs)
    ensures WellFormed(xs + [Node(id, caption), Edge(source, id)])
    ensures DeclaredIds(xs + [Node(id, caption), Edge(source, id)]) == DeclaredIds(xs) + {id}
  {
    var node, edge := Node(id, caption), Edge(source, id);
    WellFormedSnoc(xs, node);
    DeclaredSnoc(xs, node);
    assert (xs + [node])[..|xs|] == xs;
    WellFormedSnoc(xs + [node], edge);
    DeclaredSnoc(xs + [node], edge);
    assert xs + [node] + [edge] == xs + [node, edge];
  }

  /** The ids of the first `n` subtopics of topic `i`. */
  function SubtopicIds(i: nat, n: nat): set<string> {
    if n == 0 then {} else SubtopicIds(i, n - 1) + {SubId(i, n - 1)}
  }

  /** The ids of the first `n` topics and of all their subtopics. */
  function TopicIds(outline: Outline, n: nat): set<string>
    requires n <= |outline|
  {
    if n == 0 then {}
    else TopicIds(outline, n - 1) + {MainId(n - 1)} + SubtopicIds(n - 1, |outline[n - 1].1|)
  }

  lemma {:induction false} SubtopicIdsFresh(i: nat, n: nat, x: string)
    requires x == StartId || (exists k: nat :: x == MainId(k)) || (exists i', j: nat | i' != i || n <= j :: x == SubId(i', j))
    ensures x !in SubtopicIds(i, n)
    decreases n
  {
    if n > 0 {
      SubtopicIdsFresh(i, n - 1, x);
      if x == StartId {
        IdKindsDistinct(0, i, n - 1);
      } else if k: nat :| x == MainId(k) {
        IdKindsDistinct(k, i, n - 1);
      } else {
        var i', j: nat :| (i' != i || n <= j) && x == SubId(i', j);
        SubIdInjective(i', j, i, n - 1);
      }
    }
  }

  /** The ids of later topics and their subtopics are not among those of the
      first `n` topics. */
  lemma {:induction false} TopicIdsFresh(outline: Outline, n: nat, i: nat, j: nat)
    requires n <= |outline| && n <= i
    ensures MainId(i) !in TopicIds(outline, n) && SubId(i, j) !in TopicIds(outline, n)
    ensures StartId !in TopicIds(outline, n)
    decreases n
  {
    if n > 0 {
      TopicIdsFresh(outline, n - 1, i, j);
      var m := |outline[n - 1].1|;
      MainIdInjective(i, n - 1);
      IdKindsDistinct(i, i, j);
      IdKindsDistinct(n - 1, i, j);
      SubtopicIdsFresh(n - 1, m, MainId(i));
      SubtopicIdsFresh(n - 1, m, SubId(i, j));
      SubtopicIdsFresh(n - 1, m, StartId);
    }
  }

  lemma SubtopicStatementsSnoc(base: seq<Statement>, i: nat, subtopics: seq<string>, n: nat)
    requires 0 < n <= |subtopics|
    ensures base + SubtopicStatements(i, subtopics, n)
         == base + SubtopicStatements(i, subtopics, n - 1)
            + [Node(SubId(i, n - 1), Sanitize(subtopics[n - 1])), Edge(MainId(i), SubId(i, n - 1))]
  {
  }

  /** One subtopic: a fresh node and its edge from the topic's node. */
  lemma SubtopicStep(base: seq<Statement>, i: nat, subtopics: seq<string>, n: nat)
    requires 0 < n <= |subtopics|
    requires MainId(i) in DeclaredIds(base) && SubId(i, n - 1) !in DeclaredIds(base)
    requires WellFormed(base + SubtopicStatements(i, subtopics, n - 1))
    requires DeclaredIds(base + SubtopicStatements(i, subtopics, n - 1)) == DeclaredIds(base) + SubtopicIds(i, n - 1)
    ensures WellFormed(base + SubtopicStatements(i, subtopics, n))
    ensures DeclaredIds(base + SubtopicStatements(i, subtopics, n)) == DeclaredIds(base) + SubtopicIds(i, n)
  {
    var xs := base + SubtopicStatements(i, subtopics, n - 1);
    var id := SubId(i, n - 1);
    SubtopicIdsFresh(i, n - 1, id);
    DeclareAndLink(xs, id, Sanitize(subtopics[n - 1]), MainId(i));
    SubtopicStatementsSnoc(base, i, subtopics, n);
  }

  /** The subtopic loop of topic `i` keeps the statements well formed and
      declares exactly the ids of its subtopics. */
  lemma {:induction false} SubtopicsWellFormed(base: seq<Statement>, i: nat, subtopics: seq<string>, n: nat)
    requires n <= |subtopics|
    requires WellFormed(base) && MainId(i) in DeclaredIds(base)
    requires forall j: nat :: SubId(i, j) !in DeclaredIds(base)
    ensures WellFormed(base + SubtopicStatements(i, subtopics, n))
    ensures DeclaredIds(base + SubtopicStatements(i, subtopics, n)) == DeclaredIds(base) + SubtopicIds(i, n)
    decreases n
  {
    if n == 0 {
      assert base + [] == base;
    } else {
      SubtopicsWellFormed(base, i, subtopics, n - 1);
      SubtopicStep(base, i, subtopics, n);
    }
  }

  lemma HeaderWellFormed()
    ensures WellFormed([Header, Start]) && DeclaredIds([Header, Start]) == {StartId}
  {
    assert [] + [Header] == [Header];
    DeclaredSnoc([], Header);
    WellFormedSnoc([], Header);
    assert [Header] + [Start] == [Header, Start];
    DeclaredSnoc([Header], Start);
    WellFormedSnoc([Header], Start);
  }

  /** The topic loop keeps the statements well formed and declares exactly
      `start` and the ids of the first `n` topics and their subtopics. */
  lemma {:induction false} TopicsWellFormed(outline: Outline, n: nat)
    requires n <= |outline|
    ensures WellFormed([Header, Start] + TopicStatements(outline, n))
    ensures DeclaredIds([Header, Start] + TopicStatements(outline, n)) == {StartId} + TopicIds(outline, n)
    decreases n
  {
    if n == 0 {
      HeaderWellFormed();
      assert [Header, Start] + [] == [Header, Start];
    } else {
      var i := n - 1;
      TopicsWellFormed(outline, i);
      var prefix := [Header, Start] + TopicStatements(outline, i);
      TopicIdsFresh(outline, i, i, 0);
      IdKindsDistinct(i, 0, 0);
      DeclareAndLink(prefix, MainId(i), Sanitize(outline[i].0), StartId);
      var base := prefix + TopicHeadOf(i, outline[i].0);
      forall j: nat ensures SubId(i, j) !in DeclaredIds(base) {
        TopicIdsFresh(outline, i, i, j);
        IdKindsDistinct(i, i, j);
      }
      SubtopicsWellFormed(base, i, outline[i].1, |outline[i].1|);
      TopicStatementsSnoc(outline, i);
    }
  }

  lemma {:induction false} DeclaredIncreasing(a: seq<Statement>, b: seq<Statement>)
    ensures DeclaredIds(a) <= DeclaredIds(a + b)
    decreases |b|
  {
    if b == [] {
      assert a + b == a;
    } else {
      DeclaredIncreasing(a, b[..|b| - 1]);
      assert (a + b)[..|a + b| - 1] == a + b[..|b| - 1];
    }
  }

  lemma DeclaredHas(xs: seq<Statement>, k: nat)
    requires k < |xs| && xs[k].Node?
    ensures xs[k].id in DeclaredIds(xs)
  {
    assert xs == xs[..k] + [xs[k]] + xs[k + 1..];
    DeclaredSnoc(xs[..k], xs[k]);
    DeclaredIncreasing(xs[..k] + [xs[k]], xs[k + 1..]);
  }

  /** The flowchart is a well-formed graph: each node is declared once, with
      an identifier no other node has, and each edge starts at a node
      declared earlier and ends at the node declared on the line before it. */
  lemma FlowchartWellFormed(outline: Outline)
    ensures var st := Statements(outline);
      forall k | 0 <= k < |st| :: FitsAfter(st[..k], st[k])
    ensures var st := Statements(outline);
      forall a, b | 0 <= a < b < |st| && st[a].Node? && st[b].Node? :: st[a].id != st[b].id
  {
    var st := Statements(outline);
    TopicsWellFormed(outline, |outline|);
    forall k | 0 <= k < |st| ensures FitsAfter(st[..k], st[k]) {
      WellFormedAt(st, k);
    }
    forall a, b | 0 <= a < b < |st| && st[a].Node? && st[b].Node? ensures st[a].id != st[b].id {
      WellFormedAt(st, b);
      DeclaredHas(st[..b], a);
    }
  }

  // ---------------------------------------------------------------------
  // From the model's response to the flowchart
  // ---------------------------------------------------------------------

  /** The failures of `generateFlowchartFromPaper`. */
  datatype FlowError =
    | MissingApiKey
    | RequestFailed(detail: string)
    | NoJsonFound
    | InvalidJson

  /** `JSON.parse` of an outline: the outline, or `None` for a syntax error. */
  type OutlineParser = string -> Option<Outline>

  /** The chat-completion request for a paper's content made with an API key:
      the content of the first choice's message, or the request's failure. */
  type Completion = (string, string) -> Result<string, string>

  /** `responseContent.match(/\{[\s\S]*\}/)`: the leftmost `{` from which a
      match exists is the first `{` overall (if any `}` follows some `{`, one
      follows the first), and the greedy `[\s\S]*` runs to the last `}`. */
  function ExtractJsonObject(text: string): Option<string> {
    var open, close := FirstIndex(text, '{'), LastIndex(text, '}');
    if open.Some? && close.Some? && open.value < close.value then Some(text[open.value..close.value + 1])
    else None
  }

  /** The extraction succeeds exactly when some `{` comes before some `}`,
      and then yields the text from the first `{` to the last `}`. */
  lemma ExtractJsonObjectSpec(text: string)
    ensures ExtractJsonObject(text).Some? <==>
      exists i, j | 0 <= i < j < |text| :: text[i] == '{' && text[j] == '}'
    ensures ExtractJsonObject(text).Some? ==>
      exists i, j | 0 <= i < j < |text| ::
        && ExtractJsonObject(text).value == text[i..j + 1]
        && text[i] == '{' && '{' !in text[..i]
        && text[j] == '}' && '}' !in text[j + 1..]
  {
    var r := ExtractJsonObject(text);
    if r.Some? {
      var open, close := FirstIndex(text, '{').value, LastIndex(text, '}').value;
      assert text[open] == '{' && text[close] == '}';
    }
    if exists i, j | 0 <= i < j < |text| :: text[i] == '{' && text[j] == '}' {
      var i, j :| 0 <= i < j < |text| && text[i] == '{' && text[j] == '}';
      ExtractJsonObjectFinds(text, i, j);
    }
  }

  /** A `{` before a `}` is enough for the extraction to succeed. */
  lemma ExtractJsonObjectFinds(text: string, i: nat, j: nat)
    requires i < j < |text| && text[i] == '{' && text[j] == '}'
    ensures ExtractJsonObject(text).Some?
  {
    FirstIndexAtMost(text, '{', i);
    LastIndexAtLeast(text, '}', j);
  }

  /** The outline the response text yields: parsed whole, or else parsed
      from the extracted object text. */
  function OutlineFromResponse(response: string, parse: OutlineParser): Result<Outline, FlowError> {
    match parse(response)
    case Some(outline) => Success(outline)
    case None =>
      match ExtractJsonObject(response)
      case None => Failure(NoJsonFound)
      case Some(candidate) =>
        match parse(candidate)
        case None => Failure(InvalidJson)
        case Some(outline) => Success(outline)
  }

  /** The fallback is only taken when the whole response does not parse; it
      fails with `NoJsonFound` exactly when no `{` precedes a `}`; otherwise
      the outline is the parse of the extracted text, or `InvalidJson` when
      that does not parse either. */
  lemma OutlineFromResponseSpec(response: string, parse: OutlineParser)
    ensures parse(response).Some? ==> OutlineFromResponse(response, parse) == Success(parse(response).value)
    ensures OutlineFromResponse(response, parse) == Failure(NoJsonFound) <==>
      parse(response).None? && !exists i, j | 0 <= i < j < |response| :: response[i] == '{' && response[j] == '}'
    ensures OutlineFromResponse(response, parse).Success? ==>
      parse(response).Some? || parse(ExtractJsonObject(response).value) == Some(OutlineFromResponse(response, parse).value)
    ensures parse(response).None? && ExtractJsonObject(response).Some? ==>
      OutlineFromResponse(response, parse) ==
        if parse(ExtractJsonObject(response).value).Some? then Success(parse(ExtractJsonObject(response).value).value)
        else Failure(InvalidJson)
  {
    ExtractJsonObjectSpec(response);
  }

  /** `!apiKey`: an unset or empty key. */
  predicate KeyMissing(apiKey: Option<string>) {
    apiKey.None? || apiKey.value == ""
  }

  /** `generateFlowchartFromPaper(content)` with the environment's key and
      the external calls passed in. */
  method GenerateFlowchartFromPaper(content: string, apiKey: Option<string>, complete: Completion, parse: OutlineParser)
    returns (r: Result<string, FlowError>)
    ensures KeyMissing(apiKey) ==> r == Failure(MissingApiKey)
    ensures !KeyMissing(apiKey) && complete(content, apiKey.value).Failure? ==>
      r == Failure(RequestFailed(complete(content, apiKey.value).error))
    ensures r.Success? <==>
      && !KeyMissing(apiKey)
      && complete(content, apiKey.value).Success?
      && OutlineFromResponse(complete(content, apiKey.value).value, parse).Success?
    ensures r.Success? ==> r.value == FlowchartText(OutlineFromResponse(complete(content, apiKey.value).value, parse).value)
    ensures !KeyMissing(apiKey) && complete(content, apiKey.value).Success?
            && OutlineFromResponse(complete(content, apiKey.value).value, parse).Failure? ==>
      r == Failure(OutlineFromResponse(complete(content, apiKey.value).value, parse).error)
  {
    if KeyMissing(apiKey) {
      return Failure(MissingApiKey);
    }
    var response := complete(content, apiKey.value);
    if response.Failure? {
      return Failure(RequestFailed(response.error));
    }
    var outline := OutlineFromResponse(response.value, parse);
    if outline.Failure? {
      return Failure(outline.error);
    }
    var code := BuildFlowchart(outline.value);
    return Success(code);
  }
}
