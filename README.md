# Spyder citation crawler, flowchart builder and citation view — a Dafny model

Spyder is a research-exploration tool. Its server crawls arXiv from a seed
paper. It fetches the paper's record, then the papers of that paper's primary
category, and recurses into each of them depth first up to a depth limit. The result is a graph
of paper records and `{source, target}` links. A second server module asks a
language model for an outline of a paper and turns it into a Mermaid
flowchart. The React front end draws a citation network of a main paper and
the papers it cites and that cite it.

This project models those three parts:

- `arxiv_feed.dfy` (module `ArxivFeed`) covers `fetchPaperDetails` and
  `fetchRelatedPapers`. It models how the parsed arXiv feed entries are turned
  into records and related-paper summaries. That includes the identifier taken
  from after `/abs/` and every entry field whose absence makes the JavaScript
  throw.
- `crawler.dfy` (module `Crawler`) covers `recursiveSearch` and its inner
  `search`. `Explore`/`ExploreRelated` state what a search does to the crawl
  state. `CrawlSession` is the in-place algorithm, a class whose fields are the
  closure's `visited` set and graph. Its `Search` method is proved to agree
  with `Explore`, and the crawl's properties are lemmas about `Explore`.
- `flowchart.dfy` (module `Flowchart`) covers `generateFlowchartFromPaper`.
  This includes the API-key check, the parse-or-extract fallback for the
  model's answer, the label sanitiser and the string-building loop. The
  flowchart text is specified as the rendering of a list of Mermaid statements.
  `BuildFlowchart` is the loop of the source, proved to produce exactly that
  text. The statements are proved to form a well-formed graph with distinct
  node identifiers, and the text is proved to split into one line per
  statement.
- `network_view.dfy` (module `NetworkView`) covers `NetworkVisualization`. It
  models the structure check, the nodes and links handed to the force layout,
  and each node's label, tooltip, radius and fill.
- `jsstrings.dfy` (module `JsStrings`) holds the JavaScript string operations
  these rely on: `split`, `join`, and the decimal text of an integer in a
  template literal. It also holds the first and last position of a character.
  These two are not JavaScript calls of the source. They compute the match of
  the regular expression `/\{[\s\S]*\}/` at backend/perplexity.js:41, which
  starts at the first `{` and ends at the last `}`. `results.dfy` holds
  `Option` and `Result`.

External calls are parameters of type function, fixed for one call: the arXiv
queries (`PaperSource`, `CategorySource`), the chat-completion request
(`Completion`) and `JSON.parse` of an outline (`OutlineParser`). An exception
that escapes an async function is the `Failure` of a `Result`.

The crawler has no record cache and no ranking of the papers it finds, and
it does not prune a branch whose fetch fails. Every failed fetch, at any
depth, rejects the whole `recursiveSearch`. The model proves this one level
at a time:
- `Crawler.SearchFailurePropagates`: a search fails when its record fetch,
  its related-list fetch or its loop fails.
- `Crawler.LoopFailureAborts`: the loop fails when the search of any of its
  papers fails.
- `Crawler.ChildFailureAbortsCrawl`: chains the two up to the crawl itself.

## Model

| member | source | states |
|---|---|---|
| JsStrings.Split | backend/server.js:32-34 | `split` with a non-empty separator gives at least one piece, and no piece contains the separator; there is more than one piece exactly when the separator occurs, and then the first piece ends at its first occurrence |
| JsStrings.SplitJoin | backend/server.js:32-34 | joining the pieces of `split` with the separator gives the original string back |
| JsStrings.FirstIndex | backend/perplexity.js:41 | the first position of `c`, where the leftmost match of `/\{[\s\S]*\}/` begins: `s` holds `c` there and nowhere before it; none exactly when `c` does not occur |
| JsStrings.LastIndex | backend/perplexity.js:41 | the last position of `c`, where the greedy `[\s\S]*` lets the match end: `s` holds `c` there and nowhere after it; none exactly when `c` does not occur |
| JsStrings.NatToDecimal | backend/perplexity.js:54 | the template-literal text of a natural number is a non-empty string of digits without a leading zero |
| JsStrings.DecimalRoundTrip | backend/perplexity.js:65 | reading back the decimal text of `n` gives `n` |
| JsStrings.JoinEmpty | frontend/src/components/NetworkVisualization.js:96 | `join` gives the empty string exactly for no pieces or a single empty piece |
| ArxivFeed.AbsIdUndefined | backend/server.js:32 | `split('/abs/')[1]` is `undefined` exactly when the URL contains no `/abs/` |
| ArxivFeed.AbsIdText | backend/server.js:34 | otherwise the identifier starts right after the first `/abs/` and runs up to the next `/abs/` that begins after it, or to the end of the URL |
| ArxivFeed.AbsIdSurroundings | backend/server.js:32-34 | the URL is a head without `/abs/`, then `/abs/`, then the identifier, which holds no `/abs/`, then the end or another `/abs/` |
| ArxivFeed.PaperFromFeed | backend/server.js:15-24 | the record exists exactly when the feed has a first entry with title, author, summary, id and category; it keeps the requested id, the first title, all author names, the first summary as the abstract, the link and all category terms; otherwise a missing-field error |
| ArxivFeed.FetchPaperDetails | backend/server.js:12-25 | a fetched record carries the requested id and at least one category; a failed query propagates its error |
| ArxivFeed.KeepOthers | backend/server.js:32 | the filter fails, with the missing-`id` error, exactly when some entry lacks an `<id>`; otherwise its result is exactly `Others`, the entries whose identifier is not `excludeId` |
| ArxivFeed.OthersSpec | backend/server.js:32 | `Others` keeps the feed's entries in feed order with some left out; no kept entry has identifier `excludeId`; every entry with another identifier is kept |
| ArxivFeed.OthersIds | backend/server.js:32-34 | filtering the entries and then taking identifiers is filtering the identifiers: the filter and the `map` commute on identifiers |
| ArxivFeed.ShapeRelated | backend/server.js:33-38 | shaping succeeds exactly when every kept entry has the fields it reads, and then gives one summary per entry, in order |
| ArxivFeed.FetchRelatedPapers | backend/server.js:27-43 | a failed query propagates its error; a feed without entries fails, because `feed.entry` is absent |
| ArxivFeed.RelatedPapersSpec | backend/server.js:31-38 | on success the identifiers are exactly the feed's identifiers other than `excludeId`, in feed order (`OtherIds`); so `excludeId` never appears, there are no more than the feed's entries, and every other feed identifier is kept |
| Crawler.ExploreGrows | backend/server.js:50-64 | a search only grows the state; within the depth limit it leaves its id visited; every new link starts at a newly visited id; its first new node is its own (pre-order) |
| Crawler.ExploreConsistent | backend/server.js:50-64 | a search keeps the invariant: one node per visited id, ids pairwise distinct, every link between visited ids |
| Crawler.ExploreRelatedLinks | backend/server.js:57-63 | the loop appends exactly one link from the parent per related paper, in related-list order, visited or not |
| Crawler.ExpandedLinks | backend/server.js:54-63 | a node expanded below the depth limit, the seed's or a child's, is the source of exactly the links to its related papers, in order, and of no other link |
| Crawler.ChildEntrySources | backend/server.js:59-61 | when a child's search is entered, every link, the one just pushed included, starts at a visited id, which is what `ExpandedLinks` asks for |
| Crawler.ExploreIdempotent | backend/server.js:51 | searching an id again after a successful search changes nothing |
| Crawler.CrawlWellFormed | backend/server.js:46-68 | a successful crawl has pairwise distinct node ids and links only between nodes; the first node is the seed's; a negative depth gives an empty graph |
| Crawler.CrawlDepthZero | backend/server.js:51-57 | at depth 0 the graph is the seed's record alone, without links, and the crawl fails exactly when the seed's record does |
| Crawler.SearchFailurePropagates | backend/server.js:50-64 | a search of an unvisited id within the depth limit fails with the error of a failed record fetch, of a failed related-list fetch, or of its failed loop |
| Crawler.LoopFailureAborts | backend/server.js:59-62 | when the papers before the `i`-th were searched and the `i`-th paper's search fails, the whole loop fails with that error |
| Crawler.ChildFailureAbortsCrawl | backend/server.js:46-66 | when the search of any related paper of the seed fails, whatever depth the failing fetch was at, the crawl fails with that error |
| Crawler.BranchFailureAbortsCrawl | backend/server.js:54-61 | when the first related paper of the seed cannot be fetched, the whole crawl fails with that error |
| Crawler.CrawlSession.constructor | backend/server.js:47-48 | a new session has an empty visited set and an empty graph |
| Crawler.CrawlSession.Search | backend/server.js:50-64 | the in-place search leaves exactly the state `Explore` gives, or returns the error `Explore` gives |
| Crawler.RecursiveSearch | backend/server.js:46-68 | with the defaults depth 4 and 8 papers per level, returns the crawl's graph or error; a returned graph has distinct node ids and links only between nodes |
| Flowchart.Sanitize | backend/perplexity.js:56-59 | sanitising keeps whether the text holds a parenthesis and whether it holds a line break |
| Flowchart.SanitizeRoundTrip | backend/perplexity.js:67-70 | the label is changed exactly when the text holds a parenthesis, then wrapped in double quotes; unquoting gives the text back |
| Flowchart.MainIdInjective | backend/perplexity.js:54 | `main{i}` identifiers of distinct topics differ |
| Flowchart.SubIdInjective | backend/perplexity.js:65 | `sub{i}_{j}` identifiers of distinct (topic, subtopic) positions differ |
| Flowchart.IdKindsDistinct | backend/perplexity.js:50-65 | `start`, `main…` and `sub…` identifiers never coincide |
| Flowchart.EmitSubtopic | backend/perplexity.js:72-73 | the two lines for subtopic `j` extend the text to the rendering of one more subtopic |
| Flowchart.AppendTopic | backend/perplexity.js:53-75 | one topic's iteration appends the rendering of its declaration, its edge from `start` and its subtopics' statements |
| Flowchart.BuildFlowchart | backend/perplexity.js:50-75 | the built text is exactly the rendering of the flowchart's statements |
| Flowchart.FlowchartPrefix | backend/perplexity.js:50-51 | the text starts with `graph TD` and `start[Start]`, each on its own line |
| Flowchart.TopicBlock | backend/perplexity.js:53-75 | topic `i` occupies the positions after the previous topics: `main{i}[label]`, `start --> main{i}`, then `sub{i}_{j}[label]` and `main{i} --> sub{i}_{j}` for each subtopic in order |
| Flowchart.FlowchartLines | backend/perplexity.js:50-75 | with single-line topics, the text splits at newlines into one line per statement plus the empty rest: 2 + 2·topics + 2·subtopics lines |
| Flowchart.SubtopicsWellFormed | backend/perplexity.js:64-74 | each subtopic's node is new and its edge comes from the declared topic node |
| Flowchart.TopicsWellFormed | backend/perplexity.js:53-75 | the statements stay well formed and declare exactly `start` and the ids of the topics and subtopics so far |
| Flowchart.FlowchartWellFormed | backend/perplexity.js:50-75 | the header comes first; each node declares a new id; each edge points at the node declared just before it and starts at a node declared earlier; node ids are pairwise distinct |
| Flowchart.ExtractJsonObjectSpec | backend/perplexity.js:41 | the regex match succeeds exactly when some `{` precedes some `}`, and then spans the first `{` to the last `}` |
| Flowchart.OutlineFromResponseSpec | backend/perplexity.js:35-47 | a response that parses whole is used as is; the fallback fails with the no-JSON error exactly when it does not parse and no `{` precedes a `}`; otherwise it succeeds with the parse of the extracted text when that parses, and fails with the invalid-JSON error when it does not |
| Flowchart.GenerateFlowchartFromPaper | backend/perplexity.js:4-83 | a missing or empty key fails first; a failed request propagates; a failed outline step propagates its own error (no JSON found, or invalid JSON); it succeeds exactly when the key, request and outline all do, and then returns the outline's flowchart text |
| NetworkView.KeepKnownAll | frontend/src/components/NetworkVisualization.js:38-45 | the `nodeIds.has` filter drops nothing when every identifier is in the set |
| NetworkView.BuildViewOutcome | frontend/src/components/NetworkVisualization.js:16-55 | the invalid-structure text appears exactly when a field is missing; a network exactly when all are present; the no-valid-data text never appears |
| NetworkView.ViewNodes | frontend/src/components/NetworkVisualization.js:32-36 | the nodes are the main paper, then the cited papers, then the citing papers, in input order and tagged with their group: 1 + cited + citing nodes |
| NetworkView.ViewLinks | frontend/src/components/NetworkVisualization.js:26-45 | one link main → cited per cited paper, then one link citing → main per citing paper, in order: cited + citing links |
| NetworkView.ViewLinksWithin | frontend/src/components/NetworkVisualization.js:26-45 | every link's source and target are identifiers of nodes of the view |
| NetworkView.ViewStyle | frontend/src/components/NetworkVisualization.js:75-80 | only the main node has radius 15; green marks exactly the cited nodes; distinct groups have distinct fills |
| NetworkView.Label | frontend/src/components/NetworkVisualization.js:90 | a label is at most 20 characters long |
| NetworkView.LabelSpec | frontend/src/components/NetworkVisualization.js:90 | the label is the title's prefix of length min(20, length), empty for a missing title; cutting again changes nothing |
| NetworkView.TooltipFallbacks | frontend/src/components/NetworkVisualization.js:96 | `Untitled` exactly for a missing or empty title; `Unknown` for missing authors, none or one empty name, else the names joined by `, `; `N/A` for a missing or zero year, else its decimal text, which reads back as the year |
| NetworkView.TooltipLines | frontend/src/components/NetworkVisualization.js:96 | with single-line fields the tooltip has three lines: title, `Authors: …`, `Year: …` |

## Left out

- The HTTP requests, the XML parsing and the Express endpoint (backend/server.js:71-84) are external. A parsed feed is the model's input, and an endpoint failure is the `Failure` the crawl returns.
- The chat-completion request and the prompt text (backend/perplexity.js:10-33), `JSON.parse`, and `renderMermaidFlowchart` with the rest of the Puppeteer code (backend/perplexity.js:85 onwards) are left out. The request and the parser are function parameters; the rendering is not modelled.
- `OutlineParser` yields an outline or nothing. A JSON value that parses but is not an object of string arrays is not modelled: JavaScript would throw a TypeError in the loop or draw an empty chart. The order of `Object.entries`, which puts integer-like keys first, is part of the parser's result.
- The text of the `SyntaxError` that `JSON.parse` throws depends on the JavaScript engine. The model only names the error, as `InvalidJson`. The other thrown messages are likewise named by `FlowError` and not spelled out.
- The entries of an `<author>` list are modelled as their name texts. An `<author>` without `<name>`, which would throw, is not modelled.
- ArxivFeed.Entry: category terms are modelled as strings. A `<category>` without attributes would throw at `cat.$.term` (backend/server.js:23, :37), and one without `term` would give `undefined`, which then becomes the query `cat:undefined` (:29, :58); neither is modelled.
- ArxivFeed.FetchRelatedPapers: does not bound the result by `maxResults`, because the code leaves that bound to the external query's `max_results` parameter; the model only proves that there are no more results than feed entries.
- Console logging, `console.error` before rethrowing, and the `async`/`await` scheduling are not modelled. One crawl runs sequentially and nothing else shares its state.
- The d3 force simulation, drag handlers, SVG updates, the link stroke width `Math.sqrt(d.value)` (floating point) and the fixed canvas size (frontend/src/components/NetworkVisualization.js:9-14, 57-129) are left out. The `svgRef.current` check at line 8 is taken as true, and a missing `data` prop draws nothing.
- A number in a template literal is modelled as its plain decimal text, which is right below 10^21; from there JavaScript writes `1e+21`. For the topic index of backend/perplexity.js:54 this cannot matter.
- NetworkView.YearText: a paper's `year` is modelled as an integer, so a year given as a string, a fraction or a year of 10^21 or more is not modelled.
- NetworkView.VisPaper: `id` is always a string; a paper object without `id` (JavaScript `undefined`) is not modelled.
- JavaScript strings are UTF-16. The model's strings are sequences of characters, and the 20-character label cut counts characters.
