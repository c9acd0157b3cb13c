/** The bounded recursive crawl of `recursiveSearch` (backend/server.js:46-68).

    A crawl starts from one arXiv identifier, keeps a crawl-local set of
    visited identifiers and a graph of nodes and links, and expands depth
    first: each identifier not yet visited and not beyond the depth limit is
    marked visited, fetched and appended as a node; below the depth limit the
    papers related to its primary category are fetched, and for each of them a
    link is appended and that paper is searched before the next one.

    `Explore` and `ExploreRelated` give the meaning of `search` and of its
    `for` loop as functions of the crawl state; `CrawlSession.Search` is the
    in-place algorithm and is proved to agree with them. The properties of the
    crawl are lemmas about the functions. */
module Crawler {
  import opened Results
  import opened ArxivFeed

  /** The defaults of `recursiveSearch(arxivId, depth = 4, maxPapersPerLevel = 8)`. */
  const DefaultDepth := 4
  const DefaultMaxPapersPerLevel := 8

  /** `{ source, target }` as pushed at backend/server.js:60. */
  datatype Link = Link(source: PaperId, target: PaperId)

  /** `{ nodes, links }`, the value `recursiveSearch` resolves to. */
  datatype Graph = Graph(nodes: seq<Paper>, links: seq<Link>)

  /** What one crawl is given: the depth limit, the fan-out passed on as
      `maxResults`, and the two external sources. */
  datatype Env = Env(depth: int, maxPapersPerLevel: int, papers: PaperSource, categories: CategorySource)

  /** The crawl-local state: the `visited` set and the graph being grown. */
  datatype CrawlState = CrawlState(visited: set<PaperId>, nodes: seq<Paper>, links: seq<Link>)

  const Empty := CrawlState({}, [], [])

  /** `search(id, currentDepth)`: the state it leaves behind, or the error that
      escapes it. */
  function Explore(env: Env, st: CrawlState, id: PaperId, cur: int): Result<CrawlState, FetchError>
    decreases env.depth - cur, 1, 0
  {
    if id in st.visited || cur > env.depth then Success(st)
    else
      match FetchPaperDetails(env.papers, id)
      case Failure(e) => Failure(e)
      case Success(paper) =>
        var expanded := CrawlState(st.visited + {id}, st.nodes + [paper], st.links);
        if cur < env.depth then
          match FetchRelatedPapers(env.categories, paper.categories[0], id, env.maxPapersPerLevel)
          case Failure(e) => Failure(e)
          case Success(related) => ExploreRelated(env, expanded, id, related, cur)
        else Success(expanded)
  }

  /** The `for` loop of `search` over the related papers still to process. */
  function ExploreRelated(env: Env, st: CrawlState, parent: PaperId, related: seq<Related>, cur: int)
    : Result<CrawlState, FetchError>
    requires cur < env.depth
    decreases env.depth - cur, 0, |related|
  {
    if related == [] then Success(st)
    else
      var linked := st.(links := st.links + [Link(parent, related[0].id)]);
      match Explore(env, linked, related[0].id, cur + 1)
      case Failure(e) => Failure(e)
      case Success(next) => ExploreRelated(env, next, parent, related[1..], cur)
  }

  /** `recursiveSearch(arxivId, depth, maxPapersPerLevel)`: search the seed at
      depth 0 from an empty state and return the graph. */
  function Crawl(env: Env, arxivId: string): Result<Graph, FetchError> {
    match Explore(env, Empty, Id(arxivId), 0)
    case Failure(e) => Failure(e)
    case Success(st) => Success(Graph(st.nodes, st.links))
  }

  function NodeIds(nodes: seq<Paper>): set<PaperId> {
    set k | 0 <= k < |nodes| :: nodes[k].id
  }

  predicate DistinctIds(nodes: seq<Paper>) {
    forall i, j | 0 <= i < j < |nodes| :: nodes[i].id != nodes[j].id
  }

  predicate LinksWithin(links: seq<Link>, ids: set<PaperId>) {
    forall k | 0 <= k < |links| :: links[k].source in ids && links[k].target in ids
  }

  /** One node per visited identifier, and no identifier twice. */
  predicate NodesMatchVisited(st: CrawlState) {
    NodeIds(st.nodes) == st.visited && DistinctIds(st.nodes) && |st.nodes| == |st.visited|
  }

  /** The state invariant between two calls of `search`: besides the nodes,
      every link joins two visited identifiers. */
  predicate Consistent(st: CrawlState) {
    NodesMatchVisited(st) && LinksWithin(st.links, st.visited)
  }

  /** The crawl only grows its state: `visited` only gains identifiers and
      `nodes` and `links` only get appended to. `search` at a depth within the
      limit leaves its identifier visited; every link it appends starts at an
      identifier it newly visited; and when it expands, the first node it
      appends is the node of its own identifier (depth-first pre-order). */
  lemma {:induction false} ExploreGrows(env: Env, st: CrawlState, id: PaperId, cur: int)
    requires Explore(env, st, id, cur).Success?
    ensures var st' := Explore(env, st, id, cur).value;
      && st.visited <= st'.visited && st.nodes <= st'.nodes && st.links <= st'.links
      && (cur <= env.depth ==> id in st'.visited)
      && (forall k | |st.links| <= k < |st'.links| :: st'.links[k].source in st'.visited - st.visited)
      && (id !in st.visited && cur <= env.depth ==> |st'.nodes| > |st.nodes| && st'.nodes[|st.nodes|].id == id)
    decreases env.depth - cur, 1, 0
  {
    if id !in st.visited && cur <= env.depth {
      var paper := FetchPaperDetails(env.papers, id).value;
      var expanded := CrawlState(st.visited + {id}, st.nodes + [paper], st.links);
      if cur < env.depth {
        var related := FetchRelatedPapers(env.categories, paper.categories[0], id, env.maxPapersPerLevel).value;
        ExploreRelatedGrows(env, expanded, id, related, cur);
      }
    }
  }

  /** The loop only grows the state; each link it appends starts at the parent
      or at an identifier visited during the loop. */
  lemma {:induction false} ExploreRelatedGrows(env: Env, st: CrawlState, parent: PaperId, related: seq<Related>, cur: int)
    requires cur < env.depth
    requires ExploreRelated(env, st, parent, related, cur).Success?
    ensures var st' := ExploreRelated(env, st, parent, related, cur).value;
      && st.visited <= st'.visited && st.nodes <= st'.nodes && st.links <= st'.links
      && (forall k | |st.links| <= k < |st'.links| ::
            st'.links[k].source == parent || st'.links[k].source in st'.visited - st.visited)
    decreases env.depth - cur, 0, |related|
  {
    if related != [] {
      var linked := st.(links := st.links + [Link(parent, related[0].id)]);
      ExploreGrows(env, linked, related[0].id, cur + 1);
      var next := Explore(env, linked, related[0].id, cur + 1).value;
      ExploreRelatedGrows(env, next, parent, related[1..], cur);
    }
  }

  /** `search` keeps the state invariant. It may be entered with one link
      pointing at the identifier it is about to search (the link pushed just
      before the recursive call at backend/server.js:60-61); it leaves that
      identifier visited, so the invariant holds again afterwards. */
  lemma {:induction false} ExploreConsistent(env: Env, st: CrawlState, id: PaperId, cur: int)
    requires NodesMatchVisited(st) && LinksWithin(st.links, st.visited + {id})
    requires cur <= env.depth
    requires Explore(env, st, id, cur).Success?
    ensures Consistent(Explore(env, st, id, cur).value)
    decreases env.depth - cur, 1, 0
  {
    if id !in st.visited {
      var paper := FetchPaperDetails(env.papers, id).value;
      var expanded := CrawlState(st.visited + {id}, st.nodes + [paper], st.links);
      VisitKeepsMatch(st, paper);
      if cur < env.depth {
        var related := FetchRelatedPapers(env.categories, paper.categories[0], id, env.maxPapersPerLevel).value;
        ExploreRelatedConsistent(env, expanded, id, related, cur);
      }
    }
  }

  /** Visiting a new identifier and appending its node keeps nodes and
      visited identifiers in step. */
  lemma VisitKeepsMatch(st: CrawlState, paper: Paper)
    requires NodesMatchVisited(st) && paper.id !in st.visited
    ensures NodesMatchVisited(CrawlState(st.visited + {paper.id}, st.nodes + [paper], st.links))
  {
    var nodes := st.nodes + [paper];
    forall x ensures x in NodeIds(nodes) <==> x in NodeIds(st.nodes) + {paper.id} {
      if x in NodeIds(st.nodes) {
        var k :| 0 <= k < |st.nodes| && st.nodes[k].id == x;
        assert nodes[k].id == x;
      }
      if x == paper.id {
        assert nodes[|st.nodes|].id == paper.id;
      }
    }
  }

  lemma {:induction false} ExploreRelatedConsistent(env: Env, st: CrawlState, parent: PaperId, related: seq<Related>, cur: int)
    requires cur < env.depth
    requires Consistent(st) && parent in st.visited
    requires ExploreRelated(env, st, parent, related, cur).Success?
    ensures Consistent(ExploreRelated(env, st, parent, related, cur).value)
    decreases env.depth - cur, 0, |related|
  {
    if related != [] {
      var linked := st.(links := st.links + [Link(parent, related[0].id)]);
      ExploreConsistent(env, linked, related[0].id, cur + 1);
      ExploreGrows(env, linked, related[0].id, cur + 1);
      var next := Explore(env, linked, related[0].id, cur + 1).value;
      ExploreRelatedConsistent(env, next, parent, related[1..], cur);
    }
  }

  /** The targets of the links that start at `source`, in link order. */
  function TargetsFrom(links: seq<Link>, source: PaperId): seq<PaperId>
    decreases |links|
  {
    if links == [] then []
    else (if links[0].source == source then [links[0].target] else []) + TargetsFrom(links[1..], source)
  }

  lemma {:induction false} TargetsFromAppend(a: seq<Link>, b: seq<Link>, source: PaperId)
    ensures TargetsFrom(a + b, source) == TargetsFrom(a, source) + TargetsFrom(b, source)
    decreases |a|
  {
    if a != [] {
      var head := if a[0].source == source then [a[0].target] else [];
      assert (a + b)[0] == a[0];
      assert (a + b)[1..] == a[1..] + b;
      TargetsFromAppend(a[1..], b, source);
      assert TargetsFrom(a + b, source) == head + (TargetsFrom(a[1..], source) + TargetsFrom(b, source));
      assert TargetsFrom(a, source) == head + TargetsFrom(a[1..], source);
    } else {
      assert a + b == b;
    }
  }

  lemma {:induction false} TargetsFromNone(links: seq<Link>, source: PaperId)
    requires forall k | 0 <= k < |links| :: links[k].source != source
    ensures TargetsFrom(links, source) == []
    decreases |links|
  {
    if links != [] {
      TargetsFromNone(links[1..], source);
    }
  }

  /** Where the loop's links come from, one related paper at a time: the
      link pushed for it, those its search appended, and those of the rest. */
  lemma LinksAfter(a: seq<Link>, l: Link, c: seq<Link>, d: seq<Link>)
    requires a + [l] <= c <= d
    ensures d[|a|..] == [l] + c[|a| + 1..] + d[|c|..]
  {
  }

  lemma TargetsFromStep(l: Link, mid: seq<Link>, rest: seq<Link>, source: PaperId)
    requires l.source == source
    requires forall k | 0 <= k < |mid| :: mid[k].source != source
    ensures TargetsFrom([l] + mid + rest, source) == [l.target] + TargetsFrom(rest, source)
  {
    TargetsFromNone(mid, source);
    TargetsFromAppend(mid, rest, source);
    assert TargetsFrom(mid + rest, source) == TargetsFrom(rest, source);
    TargetsFromCons(l, mid + rest, source);
    assert [l] + mid + rest == [l] + (mid + rest);
  }

  lemma TargetsFromCons(l: Link, rest: seq<Link>, source: PaperId)
    requires l.source == source
    ensures TargetsFrom([l] + rest, source) == [l.target] + TargetsFrom(rest, source)
  {
    assert ([l] + rest)[1..] == rest;
  }

  /** The links after `a` are the link `l` from `source`, the links of a
      search that start elsewhere, and the links of the rest of the loop. */
  lemma TargetsAfterStep(a: seq<Link>, l: Link, c: seq<Link>, d: seq<Link>, source: PaperId)
    requires a + [l] <= c <= d && l.source == source
    requires forall k | |a| + 1 <= k < |c| :: c[k].source != source
    ensures TargetsFrom(d[|a|..], source) == [l.target] + TargetsFrom(d[|c|..], source)
  {
    LinksAfter(a, l, c, d);
    var mid := c[|a| + 1..];
    forall k | 0 <= k < |mid| ensures mid[k].source != source {
      assert mid[k] == c[|a| + 1 + k];
    }
    TargetsFromStep(l, mid, d[|c|..], source);
  }

  /** The loop appends exactly one link from the parent per related paper, in
      the order of the related list, whether or not the target was visited. */
  lemma {:induction false} ExploreRelatedLinks(env: Env, st: CrawlState, parent: PaperId, related: seq<Related>, cur: int)
    requires cur < env.depth && parent in st.visited
    requires ExploreRelated(env, st, parent, related, cur).Success?
    ensures var links := ExploreRelated(env, st, parent, related, cur).value.links;
      |st.links| <= |links| && TargetsFrom(links[|st.links|..], parent) == RelatedIds(related)
    decreases |related|
  {
    if related != [] {
      var l := Link(parent, related[0].id);
      var linked := st.(links := st.links + [l]);
      ExploreGrows(env, linked, related[0].id, cur + 1);
      var next := Explore(env, linked, related[0].id, cur + 1).value;
      ExploreRelatedLinks(env, next, parent, related[1..], cur);
      ExploreRelatedGrows(env, next, parent, related[1..], cur);
      var links := ExploreRelated(env, next, parent, related[1..], cur).value.links;
      TargetsAfterStep(st.links, l, next.links, links, parent);
      assert RelatedIds(related) == [related[0].id] + RelatedIds(related[1..]);
    }
  }

  /** A successful search of an unvisited identifier below the depth limit
      fetched its record and its related list, and ran the loop over them. */
  lemma ExploreExpands(env: Env, st: CrawlState, id: PaperId, cur: int)
    requires id !in st.visited && cur < env.depth
    requires Explore(env, st, id, cur).Success?
    ensures FetchPaperDetails(env.papers, id).Success?
    ensures var paper := FetchPaperDetails(env.papers, id).value;
      var related := FetchRelatedPapers(env.categories, paper.categories[0], id, env.maxPapersPerLevel);
      && related.Success?
      && Explore(env, st, id, cur)
         == ExploreRelated(env, CrawlState(st.visited + {id}, st.nodes + [paper], st.links), id, related.value, cur)
  {
  }

  /** Every link starts at one of `ids` (its target may still be unvisited). */
  predicate SourcesWithin(links: seq<Link>, ids: set<PaperId>) {
    forall k | 0 <= k < |links| :: links[k].source in ids
  }

  /** When the loop enters the search of a child (backend/server.js:60-61),
      every link, the one just pushed included, starts at a visited
      identifier. */
  lemma ChildEntrySources(st: CrawlState, parent: PaperId, child: PaperId)
    requires Consistent(st) && parent in st.visited
    ensures SourcesWithin(st.links + [Link(parent, child)], st.visited)
  {
  }

  /** Links appended after links that never start at `source` contribute
      all of the targets from `source`. */
  lemma TargetsAfterFresh(before: seq<Link>, after: seq<Link>, source: PaperId, visited: set<PaperId>)
    requires SourcesWithin(before, visited) && source !in visited
    requires before <= after
    ensures TargetsFrom(after, source) == TargetsFrom(after[|before|..], source)
  {
    assert after == before + after[|before|..];
    TargetsFromNone(before, source);
    TargetsFromAppend(before, after[|before|..], source);
  }

  /** A node expanded below the depth limit is the source of exactly one link
      per related paper, in the order the related list gave them, and of no
      other link. This holds for the seed and for every child, whose search
      starts with the link to it already pushed (`ChildEntrySources`). */
  lemma ExpandedLinks(env: Env, st: CrawlState, id: PaperId, cur: int)
    requires SourcesWithin(st.links, st.visited) && id !in st.visited && cur < env.depth
    requires Explore(env, st, id, cur).Success?
    ensures FetchPaperDetails(env.papers, id).Success?
    ensures var paper := FetchPaperDetails(env.papers, id).value;
      var related := FetchRelatedPapers(env.categories, paper.categories[0], id, env.maxPapersPerLevel);
      && related.Success?
      && TargetsFrom(Explore(env, st, id, cur).value.links, id) == RelatedIds(related.value)
  {
    ExploreExpands(env, st, id, cur);
    var paper := FetchPaperDetails(env.papers, id).value;
    var related := FetchRelatedPapers(env.categories, paper.categories[0], id, env.maxPapersPerLevel).value;
    var expanded := CrawlState(st.visited + {id}, st.nodes + [paper], st.links);
    ExploreRelatedLinks(env, expanded, id, related, cur);
    ExploreRelatedGrows(env, expanded, id, related, cur);
    TargetsAfterFresh(st.links, ExploreRelated(env, expanded, id, related, cur).value.links, id, st.visited);
  }

  /** Searching an identifier again after a successful search changes nothing:
      it is visited now, so the guard at backend/server.js:51 returns at once. */
  lemma ExploreIdempotent(env: Env, st: CrawlState, id: PaperId, cur: int, again: int)
    requires cur <= env.depth && Explore(env, st, id, cur).Success?
    ensures var st' := Explore(env, st, id, cur).value;
      Explore(env, st', id, again) == Success(st')
  {
    ExploreGrows(env, st, id, cur);
  }

  /** The graph of a successful crawl: node identifiers are pairwise distinct,
      every link joins two node identifiers, and the first node is the seed's
      (with a negative depth limit the graph is empty). */
  lemma CrawlWellFormed(env: Env, arxivId: string)
    requires Crawl(env, arxivId).Success?
    ensures var g := Crawl(env, arxivId).value;
      && DistinctIds(g.nodes)
      && LinksWithin(g.links, NodeIds(g.nodes))
      && (env.depth < 0 ==> g == Graph([], []))
      && (env.depth >= 0 ==> |g.nodes| >= 1 && g.nodes[0].id == Id(arxivId))
  {
    if env.depth >= 0 {
      ExploreConsistent(env, Empty, Id(arxivId), 0);
      ExploreGrows(env, Empty, Id(arxivId), 0);
    }
  }

  /** With depth 0 the crawl is the seed's record alone, no links; it fails
      exactly when the seed's record cannot be fetched. */
  lemma CrawlDepthZero(env: Env, arxivId: string)
    requires env.depth == 0
    ensures Crawl(env, arxivId).Success? <==> FetchPaperDetails(env.papers, Id(arxivId)).Success?
    ensures Crawl(env, arxivId).Success? ==>
      && Crawl(env, arxivId).value.nodes == [FetchPaperDetails(env.papers, Id(arxivId)).value]
      && Crawl(env, arxivId).value.nodes[0].id == Id(arxivId)
      && Crawl(env, arxivId).value.links == []
  {
  }

  /** One level of `search` lets every failure through: a failed record
      fetch (backend/server.js:54), a failed related-list fetch (:58) and a
      failure of the loop (:59-62) each become the failure of the search. */
  lemma SearchFailurePropagates(env: Env, st: CrawlState, id: PaperId, cur: int)
    requires id !in st.visited && cur <= env.depth
    ensures FetchPaperDetails(env.papers, id).Failure? ==>
      Explore(env, st, id, cur) == Failure(FetchPaperDetails(env.papers, id).error)
    ensures FetchPaperDetails(env.papers, id).Success? && cur < env.depth ==>
      var paper := FetchPaperDetails(env.papers, id).value;
      var related := FetchRelatedPapers(env.categories, paper.categories[0], id, env.maxPapersPerLevel);
      && (related.Failure? ==> Explore(env, st, id, cur) == Failure(related.error))
      && (related.Success? ==>
            var expanded := CrawlState(st.visited + {id}, st.nodes + [paper], st.links);
            ExploreRelated(env, expanded, id, related.value, cur).Failure? ==>
              Explore(env, st, id, cur) == ExploreRelated(env, expanded, id, related.value, cur))
  {
  }

  /** The loop lets every failure through: when the papers before the `i`-th
      were searched successfully and the search of the `i`-th (after its link
      is pushed) fails, the whole loop fails with that error, and the later
      papers are never searched. */
  lemma {:induction false} LoopFailureAborts(env: Env, st: CrawlState, parent: PaperId, related: seq<Related>,
                                             cur: int, i: nat, mid: CrawlState, e: FetchError)
    requires cur < env.depth && i < |related|
    requires ExploreRelated(env, st, parent, related[..i], cur) == Success(mid)
    requires Explore(env, mid.(links := mid.links + [Link(parent, related[i].id)]), related[i].id, cur + 1) == Failure(e)
    ensures ExploreRelated(env, st, parent, related, cur) == Failure(e)
    decreases i
  {
    if i == 0 {
      assert related[..0] == [];
    } else {
      var linked := st.(links := st.links + [Link(parent, related[0].id)]);
      assert related[..i][0] == related[0];
      assert related[..i][1..] == related[1..][..i - 1];
      var next := Explore(env, linked, related[0].id, cur + 1).value;
      LoopFailureAborts(env, next, parent, related[1..], cur, i - 1, mid, e);
    }
  }

  /** The failure of the search of any related paper of the seed, at whatever
      depth below it the failing fetch happened, is the failure of the whole
      crawl: the papers before it were searched, the later ones never are. */
  lemma ChildFailureAbortsCrawl(env: Env, arxivId: string, i: nat, mid: CrawlState, e: FetchError)
    requires env.depth >= 1
    requires FetchPaperDetails(env.papers, Id(arxivId)).Success?
    requires var seed := FetchPaperDetails(env.papers, Id(arxivId)).value;
      var related := FetchRelatedPapers(env.categories, seed.categories[0], Id(arxivId), env.maxPapersPerLevel);
      var expanded := CrawlState({Id(arxivId)}, [seed], []);
      && related.Success? && i < |related.value|
      && ExploreRelated(env, expanded, Id(arxivId), related.value[..i], 0) == Success(mid)
      && Explore(env, mid.(links := mid.links + [Link(Id(arxivId), related.value[i].id)]), related.value[i].id, 1)
         == Failure(e)
    ensures Crawl(env, arxivId) == Failure(e)
  {
    var seedId := Id(arxivId);
    var seed := FetchPaperDetails(env.papers, seedId).value;
    var related := FetchRelatedPapers(env.categories, seed.categories[0], seedId, env.maxPapersPerLevel).value;
    var expanded := CrawlState({seedId}, [seed], []);
    LoopFailureAborts(env, expanded, seedId, related, 0, i, mid, e);
    assert Empty.visited + {seedId} == {seedId} && Empty.nodes + [seed] == [seed];
    SearchFailurePropagates(env, Empty, seedId, 0);
  }

  /** The first-sibling instance of ChildFailureAbortsCrawl, spelled out
      directly: when the first related paper of the seed cannot be fetched,
      the whole crawl fails with that error (there is no pruning of a failed
      branch). */
  lemma BranchFailureAbortsCrawl(env: Env, arxivId: string)
    requires env.depth >= 1
    requires FetchPaperDetails(env.papers, Id(arxivId)).Success?
    requires var seed := FetchPaperDetails(env.papers, Id(arxivId)).value;
      var related := FetchRelatedPapers(env.categories, seed.categories[0], Id(arxivId), env.maxPapersPerLevel);
      && related.Success? && related.value != []
      && related.value[0].id != Id(arxivId)
      && FetchPaperDetails(env.papers, related.value[0].id).Failure?
    ensures var seed := FetchPaperDetails(env.papers, Id(arxivId)).value;
      var related := FetchRelatedPapers(env.categories, seed.categories[0], Id(arxivId), env.maxPapersPerLevel);
      Crawl(env, arxivId) == Failure(FetchPaperDetails(env.papers, related.value[0].id).error)
  {
    var seedId := Id(arxivId);
    var seed := FetchPaperDetails(env.papers, seedId).value;
    var related := FetchRelatedPapers(env.categories, seed.categories[0], seedId, env.maxPapersPerLevel).value;
    var failure := Failure(FetchPaperDetails(env.papers, related[0].id).error);
    var expanded := CrawlState(Empty.visited + {seedId}, Empty.nodes + [seed], Empty.links);
    var linked := expanded.(links := expanded.links + [Link(seedId, related[0].id)]);
    assert related[0].id !in linked.visited;
    assert Explore(env, linked, related[0].id, 1) == failure;
    assert ExploreRelated(env, expanded, seedId, related, 0) == failure;
    assert Explore(env, Empty, seedId, 0) == failure;
  }

  /** The in-place crawl: the closure state of `recursiveSearch` as fields. */
  class CrawlSession {
    const env: Env
    var visited: set<PaperId>
    var nodes: seq<Paper>
    var links: seq<Link>

    function State(): CrawlState
      reads this
    {
      CrawlState(visited, nodes, links)
    }

    constructor (env: Env)
      ensures this.env == env && State() == Empty
    {
      this.env := env;
      visited := {};
      nodes := [];
      links := [];
    }

    /** `search(id, currentDepth)` (backend/server.js:50-64). */
    method Search(id: PaperId, currentDepth: int) returns (outcome: Result<(), FetchError>)
      modifies this
      ensures outcome.Success? ==> Explore(env, old(State()), id, currentDepth) == Success(State())
      ensures outcome.Failure? ==> Explore(env, old(State()), id, currentDepth) == Failure(outcome.error)
      decreases env.depth - currentDepth
    {
      if id in visited || currentDepth > env.depth {
        return Success(());
      }
      visited := visited + {id};
      var fetched := FetchPaperDetails(env.papers, id);
      if fetched.Failure? {
        return Failure(fetched.error);
      }
      var paper := fetched.value;
      nodes := nodes + [paper];
      if currentDepth < env.depth {
        var fetchedRelated := FetchRelatedPapers(env.categories, paper.categories[0], id, env.maxPapersPerLevel);
        if fetchedRelated.Failure? {
          return Failure(fetchedRelated.error);
        }
        var relatedPapers := fetchedRelated.value;
        ghost var expanded := State();
        for i := 0 to |relatedPapers|
          invariant ExploreRelated(env, expanded, id, relatedPapers, currentDepth)
                 == ExploreRelated(env, State(), id, relatedPapers[i..], currentDepth)
        {
          assert relatedPapers[i..][0] == relatedPapers[i];
          assert relatedPapers[i..][1..] == relatedPapers[i + 1..];
          links := links + [Link(id, relatedPapers[i].id)];
          var result := Search(relatedPapers[i].id, currentDepth + 1);
          if result.Failure? {
            return result;
          }
        }
      }
      return Success(());
    }
  }

  /** `recursiveSearch(arxivId, depth = 4, maxPapersPerLevel = 8)`: a fresh
      session, one search from the seed at depth 0, then its graph. */
  method RecursiveSearch(
    arxivId: string, papers: PaperSource, categories: CategorySource,
    depth: int := DefaultDepth, maxPapersPerLevel: int := DefaultMaxPapersPerLevel)
    returns (r: Result<Graph, FetchError>)
    ensures r == Crawl(Env(depth, maxPapersPerLevel, papers, categories), arxivId)
    ensures r.Success? ==> DistinctIds(r.value.nodes) && LinksWithin(r.value.links, NodeIds(r.value.nodes))
  {
    var env := Env(depth, maxPapersPerLevel, papers, categories);
    var session := new CrawlSession(env);
    var outcome := session.Search(Id(arxivId), 0);
    if outcome.Failure? {
      return Failure(outcome.error);
    }
    r := Success(Graph(session.nodes, session.links));
    CrawlWellFormed(env, arxivId);
  }
}
