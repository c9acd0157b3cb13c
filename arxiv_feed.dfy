/** The shaping of arXiv feed entries into paper records (`fetchPaperDetails`)
    and into related-paper summaries (`fetchRelatedPapers`).

    The HTTP request and the XML parsing are not modelled: a feed is already
    parsed into entries, as the XML parser delivers them. The parser gives every
    child element as an array and leaves out the key of an element that is
    absent, so reading `entry.title[0]` of an entry without a title throws a
    TypeError. An `Entry` keeps each child element as a sequence; the empty
    sequence stands for the absent key, and reading it fails with
    `MissingField`. */
module ArxivFeed {
  import opened Results
  import opened JsStrings

  /** A paper identifier as the crawler handles it. `split('/abs/')[1]` of a URL
      without "/abs/" is JavaScript's `undefined`, which then travels through
      the crawl like any other identifier. */
  datatype PaperId = Undefined | Id(text: string)

  /** The text an identifier contributes to a query URL (a template literal
      renders `undefined` as the word itself). */
  function QueryText(id: PaperId): string {
    match id
    case Undefined => "undefined"
    case Id(t) => t
  }

  /** One `<entry>` of an Atom feed: the texts of its `<id>`, `<title>`,
      `<author><name>`, `<summary>` and the `term` attributes of its
      `<category>` children, each in document order. */
  datatype Entry = Entry(
    ids: seq<string>,
    titles: seq<string>,
    authorNames: seq<string>,
    summaries: seq<string>,
    categoryTerms: seq<string>)

  /** The record `fetchPaperDetails` returns. */
  datatype Paper = Paper(
    id: PaperId,
    title: string,
    authors: seq<string>,
    paperAbstract: string,  // the `abstract` field (a Dafny keyword)
    link: string,
    categories: seq<string>)

  /** The summary `fetchRelatedPapers` returns for one related paper. */
  datatype Related = Related(id: PaperId, title: string, authors: seq<string>, categories: seq<string>)

  /** Why a fetch fails: the external call itself (network, HTTP status, XML),
      or a TypeError from reading an element the entry does not have. */
  datatype FetchError = Transport(detail: string) | MissingField(field: string)

  /** The external source for `id_list=<id>` queries: the parsed entries of
      the feed it answers with, or a failure. */
  type PaperSource = string -> Result<seq<Entry>, FetchError>

  /** The external source for `search_query=cat:<category>&max_results=<n>`. */
  type CategorySource = (string, int) -> Result<seq<Entry>, FetchError>

  const AbsMarker := "/abs/"

  /** `url.split('/abs/')[1]`: the text between the first "/abs/" and the
      next one (or the end), `undefined` when there is none. */
  function AbsId(url: string): PaperId {
    var pieces := Split(url, AbsMarker);
    if |pieces| > 1 then Id(pieces[1]) else Undefined
  }

  /** The join of two or more pieces: the first two, then the rest behind a separator. */
  lemma JoinFirstTwo(pieces: seq<string>, sep: string)
    requires |pieces| >= 2
    ensures Join(pieces, sep) ==
      pieces[0] + sep + pieces[1] + (if |pieces| == 2 then "" else sep + Join(pieces[2..], sep))
  {
    assert pieces[1..][1..] == pieces[2..];
  }

  /** `AbsId` is `undefined` exactly when the URL has no "/abs/". */
  lemma AbsIdUndefined(url: string)
    ensures AbsId(url) == Undefined <==> Free(url, AbsMarker)
  {
    var pieces := Split(url, AbsMarker);
    SplitJoin(url, AbsMarker);
    if |pieces| == 1 {
      assert Join(pieces, AbsMarker) == pieces[0];
    } else {
      JoinFirstTwo(pieces, AbsMarker);
      var head := pieces[0];
      assert url[|head|..|head| + |AbsMarker|] == AbsMarker;
      assert OccursAt(url, AbsMarker, |head|);
    }
  }

  /** Otherwise `AbsId` is the text after the first "/abs/", up to the next
      "/abs/" that starts after it, or the end of the URL. ("/abs/" overlaps
      itself, so the positions are stated outright.) */
  lemma AbsIdText(url: string)
    requires AbsId(url).Id?
    ensures IndexOfFrom(url, AbsMarker, 0).Some?
    ensures var start := IndexOfFrom(url, AbsMarker, 0).value + |AbsMarker|;
      var rest := url[start..];
      var next := IndexOfFrom(rest, AbsMarker, 0);
      AbsId(url).text == if next.Some? then rest[..next.value] else rest
  {
    SplitSecond(url, AbsMarker);
  }

  /** The URL around the identifier: a head and the identifier, neither
      holding "/abs/", with a "/abs/" between them, and after them either
      nothing or another "/abs/". */
  lemma AbsIdSurroundings(url: string)
    requires AbsId(url).Id?
    ensures exists head, tail ::
      && url == head + AbsMarker + AbsId(url).text + tail
      && Free(head, AbsMarker)
      && Free(AbsId(url).text, AbsMarker)
      && (tail == "" || AbsMarker <= tail)
  {
    var pieces := Split(url, AbsMarker);
    SplitJoin(url, AbsMarker);
    JoinFirstTwo(pieces, AbsMarker);
    var tail := if |pieces| == 2 then "" else AbsMarker + Join(pieces[2..], AbsMarker);
    assert url == pieces[0] + AbsMarker + pieces[1] + tail;
    assert Free(pieces[0], AbsMarker) && Free(pieces[1], AbsMarker);
  }

  /** The entry has every element the record construction at :17-24 reads. */
  predicate HasPaperFields(e: Entry) {
    e.titles != [] && e.authorNames != [] && e.summaries != [] && e.ids != [] && e.categoryTerms != []
  }

  /** The record construction of `fetchPaperDetails` (backend/server.js:15-24):
      the first entry of the feed, read field by field in the order of the
      object literal; the record keeps the requested identifier, not the
      entry's. */
  function PaperFromFeed(id: PaperId, entries: seq<Entry>): (r: Result<Paper, FetchError>)
    ensures r.Success? <==> |entries| > 0 && HasPaperFields(entries[0])
    ensures r.Success? ==>
      && r.value.id == id
      && r.value.title == entries[0].titles[0]
      && r.value.authors == entries[0].authorNames
      && r.value.paperAbstract == entries[0].summaries[0]
      && r.value.link == entries[0].ids[0]
      && r.value.categories == entries[0].categoryTerms
      && |r.value.categories| > 0
    ensures r.Failure? ==> r.error.MissingField?
  {
    if |entries| == 0 then Failure(MissingField("entry"))
    else
      var e := entries[0];
      if e.titles == [] then Failure(MissingField("title"))
      else if e.authorNames == [] then Failure(MissingField("author"))
      else if e.summaries == [] then Failure(MissingField("summary"))
      else if e.ids == [] then Failure(MissingField("id"))
      else if e.categoryTerms == [] then Failure(MissingField("category"))
      else Success(Paper(id, e.titles[0], e.authorNames, e.summaries[0], e.ids[0], e.categoryTerms))
  }

  /** `fetchPaperDetails(arxivId)`: query the source, then build the record. */
  function FetchPaperDetails(source: PaperSource, id: PaperId): (r: Result<Paper, FetchError>)
    ensures r.Success? ==> r.value.id == id && r.value.categories != []
    ensures source(QueryText(id)).Failure? ==> r == Failure(source(QueryText(id)).error)
  {
    match source(QueryText(id))
    case Failure(e) => Failure(e)
    case Success(entries) => PaperFromFeed(id, entries)
  }

  /** `a` is `b` with some elements left out, the rest in their order. */
  predicate IsSubsequence<T(==)>(a: seq<T>, b: seq<T>)
    decreases |b|
  {
    if a == [] then true
    else if b == [] then false
    else (a[0] == b[0] && IsSubsequence(a[1..], b[1..])) || IsSubsequence(a, b[1..])
  }

  lemma {:induction false} SubsequenceLength<T>(a: seq<T>, b: seq<T>)
    requires IsSubsequence(a, b)
    ensures |a| <= |b|
    decreases |b|
  {
    if a != [] {
      if a[0] == b[0] && IsSubsequence(a[1..], b[1..]) {
        SubsequenceLength(a[1..], b[1..]);
      } else {
        SubsequenceLength(a, b[1..]);
      }
    }
  }

  /** Every entry of the feed has an `<id>`. */
  predicate AllHaveIds(entries: seq<Entry>) {
    forall k :: 0 <= k < |entries| ==> entries[k].ids != []
  }

  /** The entries whose identifier is not `excludeId`, in feed order. */
  function Others(entries: seq<Entry>, excludeId: PaperId): (kept: seq<Entry>)
    requires AllHaveIds(entries)
    ensures AllHaveIds(kept)
    decreases |entries|
  {
    if entries == [] then []
    else
      assert AllHaveIds(entries[1..]) by {
        forall k | 0 <= k < |entries[1..]| ensures entries[1..][k].ids != [] {
          assert entries[1..][k] == entries[k + 1];
        }
      }
      (if AbsId(entries[0].ids[0]) != excludeId then [entries[0]] else []) + Others(entries[1..], excludeId)
  }

  /** The identifiers other than `excludeId`, in order. */
  function OtherIds(ids: seq<PaperId>, excludeId: PaperId): seq<PaperId>
    decreases |ids|
  {
    if ids == [] then []
    else (if ids[0] != excludeId then [ids[0]] else []) + OtherIds(ids[1..], excludeId)
  }

  /** The filter at backend/server.js:32: keep the entries whose identifier is
      not `excludeId`. Every entry's `id[0]` is read, so one entry without an
      `<id>` fails the whole call. */
  function KeepOthers(entries: seq<Entry>, excludeId: PaperId): (r: Result<seq<Entry>, FetchError>)
    ensures r.Success? <==> AllHaveIds(entries)
    ensures r.Failure? ==> r.error == MissingField("id")
    ensures r.Success? ==> r.value == Others(entries, excludeId)
    decreases |entries|
  {
    if entries == [] then Success([])
    else if entries[0].ids == [] then Failure(MissingField("id"))
    else
      match KeepOthers(entries[1..], excludeId)
      case Failure(e) =>
        assert !AllHaveIds(entries) by {
          var k :| 0 <= k < |entries[1..]| && entries[1..][k].ids == [];
          assert entries[k + 1].ids == [];
        }
        Failure(e)
      case Success(rest) =>
        assert AllHaveIds(entries) by {
          forall k | 1 <= k < |entries| ensures entries[k].ids != [] {
            assert entries[k] == entries[1..][k - 1];
          }
        }
        if AbsId(entries[0].ids[0]) != excludeId then Success([entries[0]] + rest) else Success(rest)
  }

  /** `Others` is the filter it is meant to be: the feed with some entries
      left out and the rest in order, none of them with identifier
      `excludeId`, and every entry with another identifier kept. */
  lemma {:induction false} OthersSpec(entries: seq<Entry>, excludeId: PaperId)
    requires AllHaveIds(entries)
    ensures var kept := Others(entries, excludeId);
      && IsSubsequence(kept, entries)
      && (forall k :: 0 <= k < |kept| ==> AbsId(kept[k].ids[0]) != excludeId)
      && (forall k :: 0 <= k < |entries| && AbsId(entries[k].ids[0]) != excludeId ==> entries[k] in kept)
    decreases |entries|
  {
    if entries != [] {
      var rest := entries[1..];
      EntryIdsCons(entries);
      OthersSpec(rest, excludeId);
      var tailKept := Others(rest, excludeId);
      assert forall k :: 1 <= k < |entries| ==> entries[k] == rest[k - 1];
      if AbsId(entries[0].ids[0]) != excludeId {
        assert ([entries[0]] + tailKept)[1..] == tailKept;
      } else {
        assert [] + tailKept == tailKept;
      }
    }
  }

  /** The entry has every element the summary construction at :33-38 reads. */
  predicate HasRelatedFields(e: Entry) {
    e.ids != [] && e.titles != [] && e.authorNames != [] && e.categoryTerms != []
  }

  /** The summary of one related entry (backend/server.js:33-38). */
  function RelatedFromEntry(e: Entry): (r: Result<Related, FetchError>)
    ensures r.Success? <==> HasRelatedFields(e)
    ensures r.Success? ==> r.value.id == AbsId(e.ids[0]) && r.value.categories == e.categoryTerms
  {
    if e.ids == [] then Failure(MissingField("id"))
    else if e.titles == [] then Failure(MissingField("title"))
    else if e.authorNames == [] then Failure(MissingField("author"))
    else if e.categoryTerms == [] then Failure(MissingField("category"))
    else Success(Related(AbsId(e.ids[0]), e.titles[0], e.authorNames, e.categoryTerms))
  }

  /** The `map` at backend/server.js:33-38 over the kept entries, in order;
      the first entry missing an element fails the call. */
  function ShapeRelated(kept: seq<Entry>): (r: Result<seq<Related>, FetchError>)
    ensures r.Success? <==> forall k :: 0 <= k < |kept| ==> HasRelatedFields(kept[k])
    ensures r.Success? ==>
      |r.value| == |kept| && forall k :: 0 <= k < |kept| ==> RelatedFromEntry(kept[k]) == Success(r.value[k])
    decreases |kept|
  {
    if kept == [] then Success([])
    else
      match RelatedFromEntry(kept[0])
      case Failure(e) => Failure(e)
      case Success(head) =>
        match ShapeRelated(kept[1..])
        case Failure(e) =>
          assert exists k :: 0 <= k < |kept[1..]| && !HasRelatedFields(kept[1..][k]);
          Failure(e)
        case Success(tail) =>
          assert forall k :: 1 <= k < |kept| ==> kept[k] == kept[1..][k - 1];
          Success([head] + tail)
  }

  /** `fetchRelatedPapers(category, excludeId, maxResults)`
      (backend/server.js:27-43). A feed without entries has no `entry` key,
      so `.filter` of it throws. Errors are logged and rethrown unchanged. */
  function FetchRelatedPapers(source: CategorySource, category: string, excludeId: PaperId, maxResults: int := 8)
    : (r: Result<seq<Related>, FetchError>)
    ensures source(category, maxResults).Failure? ==> r == Failure(source(category, maxResults).error)
    ensures source(category, maxResults).Success? && source(category, maxResults).value == [] ==>
              r == Failure(MissingField("entry"))
  {
    match source(category, maxResults)
    case Failure(e) => Failure(e)
    case Success(entries) =>
      if entries == [] then Failure(MissingField("entry"))
      else
        match KeepOthers(entries, excludeId)
        case Failure(e) => Failure(e)
        case Success(kept) => ShapeRelated(kept)
  }

  /** The identifiers of the entries of a feed, in feed order. */
  function EntryIds(entries: seq<Entry>): (ids: seq<PaperId>)
    requires forall k :: 0 <= k < |entries| ==> entries[k].ids != []
    ensures |ids| == |entries|
  {
    seq(|entries|, k requires 0 <= k < |entries| => AbsId(entries[k].ids[0]))
  }

  /** The identifiers of a list of related summaries, in order. */
  function RelatedIds(related: seq<Related>): (ids: seq<PaperId>)
    ensures |ids| == |related|
  {
    seq(|related|, k requires 0 <= k < |related| => related[k].id)
  }

  lemma {:induction false} SubsequenceIds(kept: seq<Entry>, entries: seq<Entry>)
    requires IsSubsequence(kept, entries)
    requires forall k :: 0 <= k < |entries| ==> entries[k].ids != []
    ensures forall k :: 0 <= k < |kept| ==> kept[k].ids != []
    ensures IsSubsequence(EntryIds(kept), EntryIds(entries))
    decreases |entries|
  {
    if kept != [] {
      assert forall k :: 1 <= k < |entries| ==> entries[k] == entries[1..][k - 1];
      assert EntryIds(entries[1..]) == EntryIds(entries)[1..];
      if kept[0] == entries[0] && IsSubsequence(kept[1..], entries[1..]) {
        SubsequenceIds(kept[1..], entries[1..]);
        assert forall k :: 1 <= k < |kept| ==> kept[k] == kept[1..][k - 1];
        assert EntryIds(kept[1..]) == EntryIds(kept)[1..];
      } else {
        SubsequenceIds(kept, entries[1..]);
      }
    }
  }

  /** The identifiers of two runs of entries, one after the other. */
  lemma EntryIdsAppend(a: seq<Entry>, b: seq<Entry>)
    requires AllHaveIds(a) && AllHaveIds(b)
    ensures AllHaveIds(a + b)
    ensures EntryIds(a + b) == EntryIds(a) + EntryIds(b)
  {
    assert forall k :: 0 <= k < |a + b| ==> (a + b)[k] == if k < |a| then a[k] else b[k - |a|];
  }

  /** The identifiers of a non-empty feed: the first entry's, then the rest's. */
  lemma EntryIdsCons(entries: seq<Entry>)
    requires AllHaveIds(entries) && entries != []
    ensures AllHaveIds(entries[1..])
    ensures EntryIds(entries) == [AbsId(entries[0].ids[0])] + EntryIds(entries[1..])
  {
    var rest := entries[1..];
    forall k | 0 <= k < |rest| ensures rest[k].ids != [] {
      assert rest[k] == entries[k + 1];
    }
    assert EntryIds(entries)[1..] == EntryIds(rest);
  }

  /** Filtering the entries and then taking identifiers is filtering the
      identifiers. */
  lemma {:induction false} OthersIds(entries: seq<Entry>, excludeId: PaperId)
    requires AllHaveIds(entries)
    ensures EntryIds(Others(entries, excludeId)) == OtherIds(EntryIds(entries), excludeId)
    decreases |entries|
  {
    if entries != [] {
      var rest := entries[1..];
      EntryIdsCons(entries);
      OthersIds(rest, excludeId);
      var head := if AbsId(entries[0].ids[0]) != excludeId then [entries[0]] else [];
      EntryIdsAppend(head, Others(rest, excludeId));
    }
  }

  /** Shaping keeps each entry's identifier, in order. */
  lemma ShapedIds(kept: seq<Entry>)
    requires ShapeRelated(kept).Success?
    requires forall k :: 0 <= k < |kept| ==> kept[k].ids != []
    ensures RelatedIds(ShapeRelated(kept).value) == EntryIds(kept)
  {
  }

  /** A related list carrying, in order, the identifiers of the entries kept
      from a feed. */
  lemma KeptRelated(entries: seq<Entry>, excludeId: PaperId, kept: seq<Entry>, related: seq<Related>)
    requires forall k :: 0 <= k < |entries| ==> entries[k].ids != []
    requires IsSubsequence(kept, entries)
    requires forall k :: 0 <= k < |kept| ==> kept[k].ids != [] && AbsId(kept[k].ids[0]) != excludeId
    requires forall k :: 0 <= k < |entries| && AbsId(entries[k].ids[0]) != excludeId ==> entries[k] in kept
    requires RelatedIds(related) == EntryIds(kept)
    ensures excludeId !in RelatedIds(related)
    ensures IsSubsequence(RelatedIds(related), EntryIds(entries))
    ensures |related| <= |entries|
    ensures forall k :: 0 <= k < |entries| && EntryIds(entries)[k] != excludeId ==>
      EntryIds(entries)[k] in RelatedIds(related)
  {
    SubsequenceIds(kept, entries);
    SubsequenceLength(RelatedIds(related), EntryIds(entries));
    forall k | 0 <= k < |entries| && EntryIds(entries)[k] != excludeId
      ensures EntryIds(entries)[k] in RelatedIds(related)
    {
      var j :| 0 <= j < |kept| && kept[j] == entries[k];
      assert RelatedIds(related)[j] == EntryIds(entries)[k];
    }
  }

  /** What `fetchRelatedPapers` promises on success: exactly the feed's
      identifiers other than `excludeId`, in feed order; so never `excludeId`,
      a subsequence of the feed (never more than its entries), and every other
      identifier of the feed kept. */
  lemma RelatedPapersSpec(source: CategorySource, category: string, excludeId: PaperId, maxResults: int)
    requires FetchRelatedPapers(source, category, excludeId, maxResults).Success?
    ensures source(category, maxResults).Success?
    ensures var entries := source(category, maxResults).value;
      var related := FetchRelatedPapers(source, category, excludeId, maxResults).value;
      && (forall k :: 0 <= k < |entries| ==> entries[k].ids != [])
      && RelatedIds(related) == OtherIds(EntryIds(entries), excludeId)
      && excludeId !in RelatedIds(related)
      && IsSubsequence(RelatedIds(related), EntryIds(entries))
      && |related| <= |entries|
      && (forall k :: 0 <= k < |entries| && EntryIds(entries)[k] != excludeId ==>
            EntryIds(entries)[k] in RelatedIds(related))
  {
    var entries := source(category, maxResults).value;
    var kept := KeepOthers(entries, excludeId).value;
    ShapedIds(kept);
    OthersSpec(entries, excludeId);
    OthersIds(entries, excludeId);
    KeptRelated(entries, excludeId, kept, ShapeRelated(kept).value);
  }
}
