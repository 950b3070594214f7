/**
 * The citation snapshot reconciler (`get_scholar_citations`): load the previous
 * `papers` mapping as a baseline, fetch the author with a bounded number of
 * attempts, and upsert one record per fetched publication. Publications the
 * fetch does not mention keep their baseline entries, and a fetch that fails
 * every attempt leaves the baseline untouched.
 *
 * The working `papers` value is a parsed document value, because the source
 * keeps whatever non-None `papers` the previous file held. On a list, an
 * integer (or boolean) ID in range replaces that element. Any other
 * non-mapping value makes the upsert raise, the per-publication handler
 * swallows the error, and the value survives unchanged.
 */
module Snapshot {

  import opened Wrappers
  import opened Values
  import opened Scholarly
  import ScholarConfig

  /** Number of fetch attempts before the run falls back to the baseline. */
  const MaxRetries: nat := 3

  const PapersKey: Value := Str("papers")
  const TitleKey: Value := Str("title")
  const YearKey: Value := Str("year")
  const CitationsKey: Value := Str("citations")
  const BibTitleKey: Value := Str("title")
  const BibYearKey: Value := Str("pub_year")

  const UnknownTitle: Value := Str("Unknown Title")
  const UnknownYear: Value := Str("Unknown Year")
  const NoCitations: Value := Int(0)

  /* ---------------------------------------------------------------- baseline */

  /**
   * The previous snapshot supplies the baseline: it was read, it is a
   * non-empty mapping, and its `papers` entry is present and not None.
   */
  predicate KeepsLoadedPapers(existing: Option<Value>) {
    && existing.Some?
    && existing.value.Dict?
    && Truthy(existing.value)
    && PapersKey in existing.value.entries
    && existing.value.entries[PapersKey] != Null
  }

  /**
   * The `papers` value a run starts from. `existing` is the parsed previous
   * snapshot, or `None` when there is no file or it could not be read.
   */
  function Baseline(existing: Option<Value>): (papers: Value)
    ensures papers != Null
    ensures KeepsLoadedPapers(existing) ==> papers == existing.value.entries[PapersKey]
    ensures !KeepsLoadedPapers(existing) ==> papers == Dict(map[])
  {
    match existing
    case Some(Dict(d)) =>
      if Truthy(Dict(d)) && PapersKey in d && d[PapersKey] != Null then d[PapersKey] else Dict(map[])
    case _ => Dict(map[])
  }

  /* ------------------------------------------------------ one publication */

  /** The publication's ID: a truthy `pub_id`, else a truthy `author_pub_id`. */
  function PublicationId(p: Publication): (id: Option<Value>)
    ensures id.Some? ==> Truthy(id.value)
    ensures id.Some? <==> TruthyField(p.pubId) || TruthyField(p.authorPubId)
    ensures TruthyField(p.pubId) ==> id == p.pubId
    ensures !TruthyField(p.pubId) && TruthyField(p.authorPubId) ==> id == p.authorPubId
  {
    if TruthyField(p.pubId) then p.pubId
    else if TruthyField(p.authorPubId) then p.authorPubId
    else None
  }

  /**
   * The key the publication is stored under. A publication without an ID is
   * skipped, and so is one whose ID Python cannot hash: storing it raises and
   * the per-publication handler swallows the error.
   */
  function StoreKey(p: Publication): (k: Option<Value>)
    ensures k.Some? <==> PublicationId(p).Some? && Hashable(PublicationId(p).value)
    ensures k.Some? ==> k == PublicationId(p)
  {
    match PublicationId(p)
    case Some(id) => if Hashable(id) then Some(id) else None
    case None => None
  }

  /** A key of the `bib` mapping when both `bib` and the key are present, else the sentinel. */
  function BibField(p: Publication, key: Value, sentinel: Value): Value {
    if p.bib.Some? && key in p.bib.value then p.bib.value[key] else sentinel
  }

  /**
   * The record stored for a publication: title and year from `bib`, the
   * citation count from `num_citations`. Presence of the key decides, not
   * truthiness: a present empty title is kept.
   */
  function Record(p: Publication): (r: Value)
    ensures r.Dict? && r.entries.Keys == {TitleKey, YearKey, CitationsKey}
    ensures p.bib.Some? && BibTitleKey in p.bib.value ==> r.entries[TitleKey] == p.bib.value[BibTitleKey]
    ensures !(p.bib.Some? && BibTitleKey in p.bib.value) ==> r.entries[TitleKey] == UnknownTitle
    ensures p.bib.Some? && BibYearKey in p.bib.value ==> r.entries[YearKey] == p.bib.value[BibYearKey]
    ensures !(p.bib.Some? && BibYearKey in p.bib.value) ==> r.entries[YearKey] == UnknownYear
    ensures p.numCitations.Some? ==> r.entries[CitationsKey] == p.numCitations.value
    ensures p.numCitations.None? ==> r.entries[CitationsKey] == NoCitations
  {
    Dict(map[
      TitleKey := BibField(p, BibTitleKey, UnknownTitle),
      YearKey := BibField(p, BibYearKey, UnknownYear),
      CitationsKey := p.numCitations.GetOr(NoCitations)])
  }

  /** The integer Python reads from a list index: an `int`, or a `bool` as 0 or 1. */
  function IndexValue(k: Value): Option<int> {
    match k
    case Int(i) => Some(i)
    case Bool(b) => Some(if b then 1 else 0)
    case _ => None
  }

  /**
   * The position `xs[k] = v` writes in a list of length `n`: an index in
   * range, counted from the end when negative. `None` when the assignment
   * raises (an index out of range, or a key that is not an integer).
   */
  function ListSlot(k: Value, n: nat): (j: Option<nat>)
    ensures j.Some? <==> IndexValue(k).Some? && -(n as int) <= IndexValue(k).value < n
    ensures j.Some? ==> j.value < n && (j.value == IndexValue(k).value || j.value == n + IndexValue(k).value)
  {
    match IndexValue(k)
    case Some(i) => if 0 <= i < n then Some(i) else if -(n as int) <= i < 0 then Some(n + i) else None
    case None => None
  }

  /** The list position a publication's record lands on, in a list of length `n`. */
  function SlotOf(p: Publication, n: nat): Option<nat> {
    match StoreKey(p)
    case Some(k) => ListSlot(k, n)
    case None => None
  }

  /**
   * One iteration of the publication loop: `papers[id] = record`. On a
   * mapping it stores the record under the publication's key, overwriting any
   * earlier entry, and touches nothing else. On a list it is item assignment:
   * an integer key in range replaces that one element. Any other case raises
   * and the per-publication handler swallows the error.
   */
  function Upsert(papers: Value, p: Publication): (r: Value)
    ensures StoreKey(p).None? || !(papers.Dict? || papers.List?) ==> r == papers
    ensures papers.Dict? ==> r.Dict?
    ensures papers.Dict? && StoreKey(p).Some? ==>
      && r.entries.Keys == papers.entries.Keys + {StoreKey(p).value}
      && r.entries[StoreKey(p).value] == Record(p)
      && forall k :: k in papers.entries && k != StoreKey(p).value ==> r.entries[k] == papers.entries[k]
    ensures papers.List? ==> r.List? && |r.items| == |papers.items|
    ensures papers.List? ==> forall j :: 0 <= j < |papers.items| ==>
      r.items[j] == if SlotOf(p, |papers.items|) == Some(j) then Record(p) else papers.items[j]
  {
    match StoreKey(p)
    case Some(k) =>
      (match papers
       case Dict(m) => Dict(m[k := Record(p)])
       case List(xs) =>
         (match ListSlot(k, |xs|)
          case Some(j) => List(xs[j := Record(p)])
          case None => papers)
       case _ => papers)
    case None => papers
  }

  /* ------------------------------------------------------ the whole list */

  /** The keys a publication list stores under. */
  function StoredKeys(pubs: seq<Publication>): (ks: set<Value>)
    ensures forall i :: 0 <= i < |pubs| && StoreKey(pubs[i]).Some? ==> StoreKey(pubs[i]).value in ks
    ensures forall k :: k in ks ==> exists i :: 0 <= i < |pubs| && StoreKey(pubs[i]) == Some(k)
  {
    if |pubs| == 0 then {}
    else
      var init := pubs[..|pubs| - 1];
      var ks := StoredKeys(init);
      assert forall i :: 0 <= i < |init| ==> init[i] == pubs[i];
      match StoreKey(pubs[|pubs| - 1])
      case Some(k) => ks + {k}
      case None => ks
  }

  /** The record of the last publication in the list stored under `k`, if any. */
  function LastRecord(pubs: seq<Publication>, k: Value): (r: Option<Value>)
    ensures r.Some? <==> k in StoredKeys(pubs)
  {
    if |pubs| == 0 then None
    else if StoreKey(pubs[|pubs| - 1]) == Some(k) then Some(Record(pubs[|pubs| - 1]))
    else LastRecord(pubs[..|pubs| - 1], k)
  }

  /** The record of the last publication in the list that lands on position `j` of a list of length `n`, if any. */
  function LastSlotRecord(pubs: seq<Publication>, n: nat, j: nat): (r: Option<Value>)
    ensures r.Some? <==> exists i :: 0 <= i < |pubs| && SlotOf(pubs[i], n) == Some(j)
  {
    if |pubs| == 0 then None
    else if SlotOf(pubs[|pubs| - 1], n) == Some(j) then Some(Record(pubs[|pubs| - 1]))
    else
      var init := pubs[..|pubs| - 1];
      assert forall i :: 0 <= i < |init| ==> init[i] == pubs[i];
      LastSlotRecord(init, n, j)
  }

  /**
   * The publication loop as the source runs it: upsert each publication in
   * order. The baseline keys all survive, and those no publication is stored
   * under keep their baseline values. A list keeps its length.
   */
  function Merge(papers: Value, pubs: seq<Publication>): (r: Value)
    ensures !(papers.Dict? || papers.List?) ==> r == papers
    ensures papers.List? ==> r.List? && |r.items| == |papers.items|
    ensures papers.Dict? ==> r.Dict? && r.entries.Keys == papers.entries.Keys + StoredKeys(pubs)
    ensures papers.Dict? ==>
      forall k :: k in papers.entries && k !in StoredKeys(pubs) ==> r.entries[k] == papers.entries[k]
  {
    if |pubs| == 0 then papers
    else Upsert(Merge(papers, pubs[..|pubs| - 1]), pubs[|pubs| - 1])
  }

  /**
   * Reference definition of the merge, independent of processing order: a key
   * some publication is stored under holds the record of the last such
   * publication; every other baseline key keeps its value. In a list, a
   * position holds the record of the last publication landing on it, and
   * every other element keeps its value.
   */
  function Merged(papers: Value, pubs: seq<Publication>): Value {
    match papers
    case Dict(m) =>
      var stored := StoredKeys(pubs);
      Dict(map k | k in m.Keys + stored :: match LastRecord(pubs, k) case Some(rec) => rec case None => m[k])
    case List(xs) =>
      List(seq(|xs|, j requires 0 <= j < |xs| => match LastSlotRecord(pubs, |xs|, j) case Some(rec) => rec case None => xs[j]))
    case _ => papers
  }

  /** The sequential upsert loop computes the reference merge. */
  lemma {:induction false} MergeIsReference(papers: Value, pubs: seq<Publication>)
    ensures Merge(papers, pubs) == Merged(papers, pubs)
  {
    if papers.Dict? {
      var m := papers.entries;
      if |pubs| == 0 {
        assert Merged(papers, pubs).entries == m;
      } else {
        var init, p := pubs[..|pubs| - 1], pubs[|pubs| - 1];
        MergeIsReference(papers, init);
        var a := Upsert(Merged(papers, init), p);
        var b := Merged(papers, pubs);
        assert a.entries.Keys == b.entries.Keys;
        forall k | k in a.entries
          ensures a.entries[k] == b.entries[k]
        {
          if StoreKey(p) != Some(k) {
            assert LastRecord(pubs, k) == LastRecord(init, k);
          }
        }
        assert a.entries == b.entries;
      }
    } else if papers.List? {
      MergeIsReferenceList(papers.items, pubs);
    }
  }

  /** The list case of `MergeIsReference`. */
  lemma {:induction false} MergeIsReferenceList(xs: seq<Value>, pubs: seq<Publication>)
    ensures Merge(List(xs), pubs) == Merged(List(xs), pubs)
  {
    var n := |xs|;
    if |pubs| == 0 {
      assert Merged(List(xs), pubs).items == xs;
    } else {
      var init, p := pubs[..|pubs| - 1], pubs[|pubs| - 1];
      MergeIsReferenceList(xs, init);
      var a := Upsert(Merged(List(xs), init), p);
      var b := Merged(List(xs), pubs);
      forall j | 0 <= j < n
        ensures a.items[j] == b.items[j]
      {
        if SlotOf(p, n) != Some(j) {
          assert LastSlotRecord(pubs, n, j) == LastSlotRecord(init, n, j);
        }
      }
      assert a.items == b.items;
    }
  }

  /** Merging the same publication list a second time changes nothing. */
  lemma MergeIdempotent(papers: Value, pubs: seq<Publication>)
    ensures Merge(Merge(papers, pubs), pubs) == Merge(papers, pubs)
  {
    MergeIsReference(papers, pubs);
    MergeIsReference(Merge(papers, pubs), pubs);
    if papers.Dict? {
      MergedTwiceDict(papers.entries, pubs);
    } else if papers.List? {
      MergedTwiceList(papers.items, pubs);
    }
  }

  /** The reference merge of a mapping is idempotent. */
  lemma MergedTwiceDict(m: map<Value, Value>, pubs: seq<Publication>)
    ensures Merged(Merged(Dict(m), pubs), pubs) == Merged(Dict(m), pubs)
  {
    var once := Merged(Dict(m), pubs);
    assert Merged(once, pubs).entries == once.entries;
  }

  /** The reference merge of a list is idempotent. */
  lemma MergedTwiceList(xs: seq<Value>, pubs: seq<Publication>)
    ensures Merged(Merged(List(xs), pubs), pubs) == Merged(List(xs), pubs)
  {
    var once := Merged(List(xs), pubs);
    assert Merged(once, pubs).items == once.items;
  }

  /** The last publication stored under `k` supplies the record `LastRecord` reports. */
  lemma {:induction false} LastRecordAt(pubs: seq<Publication>, i: nat)
    requires i < |pubs| && StoreKey(pubs[i]).Some?
    requires forall j :: i < j < |pubs| ==> StoreKey(pubs[j]) != StoreKey(pubs[i])
    ensures LastRecord(pubs, StoreKey(pubs[i]).value) == Some(Record(pubs[i]))
  {
    if i < |pubs| - 1 {
      var init := pubs[..|pubs| - 1];
      assert init[i] == pubs[i];
      LastRecordAt(init, i);
    }
  }

  /**
   * A later publication with the same key overwrites an earlier one: the
   * entry holds the record of the last publication stored under it.
   */
  lemma LastDuplicateWins(papers: Value, pubs: seq<Publication>, i: nat)
    requires papers.Dict?
    requires i < |pubs| && StoreKey(pubs[i]).Some?
    requires forall j :: i < j < |pubs| ==> StoreKey(pubs[j]) != StoreKey(pubs[i])
    ensures Merge(papers, pubs).Dict?
    ensures Merge(papers, pubs).entries[StoreKey(pubs[i]).value] == Record(pubs[i])
  {
    MergeIsReference(papers, pubs);
    LastRecordAt(pubs, i);
  }

  /* -------------------------------------------------------------- fetching */

  /** `2 ** n`, the base delay before the next attempt after failed attempt `n`. */
  function Pow2(n: nat): (r: nat)
    ensures r >= 1
  {
    if n == 0 then 1 else 2 * Pow2(n - 1)
  }

  /** Base delays grow strictly with the attempt number. */
  lemma {:induction false} Pow2Increasing(i: nat, j: nat)
    requires i < j
    ensures Pow2(i) < Pow2(j)
  {
    if i + 1 < j {
      Pow2Increasing(i, j - 1);
    }
  }

  /** The author of the first attempt that returned, if any attempt did. */
  function FirstFetched(outcomes: seq<FetchOutcome>): (r: Option<Author>)
    ensures r.None? <==> forall i :: 0 <= i < |outcomes| ==> outcomes[i].FetchRaised?
  {
    if |outcomes| == 0 then None
    else if outcomes[0].Fetched? then Some(outcomes[0].author)
    else
      var r := FirstFetched(outcomes[1..]);
      assert forall i :: 1 <= i < |outcomes| ==> outcomes[i] == outcomes[1..][i - 1];
      r
  }

  /** When attempt `k` is the first to return, `FirstFetched` reports its author. */
  lemma {:induction false} FirstFetchedAt(outcomes: seq<FetchOutcome>, k: nat)
    requires k < |outcomes| && outcomes[k].Fetched?
    requires forall i :: 0 <= i < k ==> outcomes[i].FetchRaised?
    ensures FirstFetched(outcomes) == Some(outcomes[k].author)
  {
    if k > 0 {
      FirstFetchedAt(outcomes[1..], k - 1);
    }
  }

  /**
   * The retry loop. `outcomes[i]` is what attempt `i` would produce. The loop
   * stops at the first attempt that returns, or after `MaxRetries` failures;
   * it sleeps `2 ** i` (plus jitter, not modelled) after failed attempt `i`,
   * except after the last one. `delays` lists the base delays slept.
   */
  method FetchWithRetry(outcomes: seq<FetchOutcome>) returns (author: Option<Author>, attempts: nat, delays: seq<nat>)
    requires |outcomes| >= MaxRetries
    ensures 1 <= attempts <= MaxRetries
    ensures forall i :: 0 <= i < attempts - 1 ==> outcomes[i].FetchRaised?
    ensures author.Some? <==> outcomes[attempts - 1].Fetched?
    ensures author.Some? ==> author.value == outcomes[attempts - 1].author
    ensures author.None? ==> attempts == MaxRetries
    ensures author == FirstFetched(outcomes[..MaxRetries])
    ensures |delays| == attempts - 1
    ensures forall i :: 0 <= i < |delays| ==> delays[i] == Pow2(i)
    ensures forall i, j :: 0 <= i < j < |delays| ==> delays[i] < delays[j]
  {
    author := None;
    attempts := 0;
    delays := [];
    var tried := outcomes[..MaxRetries];
    while true
      invariant attempts < MaxRetries
      invariant forall i :: 0 <= i < attempts ==> outcomes[i].FetchRaised?
      invariant |delays| == attempts
      invariant forall i :: 0 <= i < attempts ==> delays[i] == Pow2(i)
      decreases MaxRetries - attempts
    {
      var outcome := outcomes[attempts];
      attempts := attempts + 1;
      if outcome.Fetched? {
        author := Some(outcome.author);
        FirstFetchedAt(tried, attempts - 1);
        break;
      }
      if attempts == MaxRetries {
        // All retries failed: the caller falls back to the baseline.
        break;
      }
      delays := delays + [Pow2(attempts - 1)];
    }
    forall i, j | 0 <= i < j < |delays|
      ensures delays[i] < delays[j]
    {
      Pow2Increasing(i, j);
    }
  }

  /* ------------------------------------------------------------- the run */

  /** What a run returns: the author ID written to the metadata, and the papers. */
  datatype CitationData = CitationData(scholarId: Value, papers: Value)

  /** The papers a run ends with, given its baseline and the author the fetch returned. */
  function Reconciled(baseline: Value, fetched: Option<Author>): Value {
    match fetched
    case Some(Author(Some(pubs), _)) => Merged(baseline, pubs)
    case _ => baseline
  }

  /**
   * `get_scholar_citations`. `socials`, `config` and `existing` are the parsed
   * files (`None` when unreadable); `outcomes` are the per-attempt fetch
   * results. `saved` says whether the run reached the write to disk.
   */
  method GetScholarCitations(socials: Option<Value>, config: Option<Value>, existing: Option<Value>, outcomes: seq<FetchOutcome>)
    returns (data: Option<CitationData>, saved: bool)
    requires |outcomes| >= MaxRetries
    ensures data.None? <==> ScholarConfig.GetScholarId(socials, config).None?
    ensures data.Some? ==> data.value.scholarId == ScholarConfig.GetScholarId(socials, config).value
    ensures data.Some? ==> data.value.papers == Reconciled(Baseline(existing), FirstFetched(outcomes[..MaxRetries]))
    ensures saved <==>
      data.Some? && FirstFetched(outcomes[..MaxRetries]).Some? && AuthorTruthy(FirstFetched(outcomes[..MaxRetries]).value)
    ensures data.Some? && (forall i :: 0 <= i < MaxRetries ==> outcomes[i].FetchRaised?) ==>
      data.value.papers == Baseline(existing) && !saved
    ensures data.Some? && Baseline(existing).Dict? ==>
      data.value.papers.Dict? && Baseline(existing).entries.Keys <= data.value.papers.entries.Keys
  {
    var id := ScholarConfig.GetScholarId(socials, config);
    if id.None? {
      return None, false;
    }
    var papers := Baseline(existing);
    var author, attempts, delays := FetchWithRetry(outcomes);
    if author.None? || !AuthorTruthy(author.value) {
      return Some(CitationData(id.value, papers)), false;
    }
    if author.value.publications.Some? {
      var pubs := author.value.publications.value;
      var baseline := papers;
      var i := 0;
      while i < |pubs|
        invariant 0 <= i <= |pubs|
        invariant papers == Merge(baseline, pubs[..i])
      {
        papers := Upsert(papers, pubs[i]);
        assert pubs[..i + 1][..i] == pubs[..i];
        i := i + 1;
      }
      assert pubs[..|pubs|] == pubs;
      MergeIsReference(baseline, pubs);
    }
    data := Some(CitationData(id.value, papers));
    saved := true;
  }

  /* ---------------------------------------------------------- scenarios */

  /**
   * An example: an empty baseline, publication `a` with five
   * citations, and publication `b` with no `bib` and no count.
   */
  lemma FreshSnapshotExample()
    ensures
      var a := Publication(Some(Str("a")), None, Some(map[BibTitleKey := Str("Paper A")]), Some(Int(5)));
      var b := Publication(Some(Str("b")), None, None, None);
      Merge(Dict(map[]), [a, b]) == Dict(map[
        Str("a") := Dict(map[TitleKey := Str("Paper A"), YearKey := UnknownYear, CitationsKey := Int(5)]),
        Str("b") := Dict(map[TitleKey := UnknownTitle, YearKey := UnknownYear, CitationsKey := Int(0)])])
  {
    var a := Publication(Some(Str("a")), None, Some(map[BibTitleKey := Str("Paper A")]), Some(Int(5)));
    var b := Publication(Some(Str("b")), None, None, None);
    assert [a, b][..1] == [a];
    assert [a][..0] == [];
    assert Merge(Dict(map[]), [a]) == Dict(map[Str("a") := Record(a)]);
  }

  /** A present but empty title is kept: presence decides, not truthiness. */
  lemma EmptyTitleKept(p: Publication)
    requires p.bib.Some? && BibTitleKey in p.bib.value && p.bib.value[BibTitleKey] == Str("")
    ensures Record(p).entries[TitleKey] == Str("")
  {
  }

  /**
   * A previous `papers` list is written by position: ID 1 replaces the second
   * element, and ID -1 the last.
   */
  lemma ListPapersAssignedByIndex()
    ensures
      var p := Publication(Some(Int(1)), None, None, None);
      var q := Publication(Some(Int(-1)), None, None, None);
      && Upsert(List([Int(7), Int(8)]), p) == List([Int(7), Record(p)])
      && Upsert(List([Int(7), Int(8), Int(9)]), q) == List([Int(7), Int(8), Record(q)])
  {
    var p := Publication(Some(Int(1)), None, None, None);
    var q := Publication(Some(Int(-1)), None, None, None);
    assert ListSlot(Int(1), 2) == Some(1);
    assert ListSlot(Int(-1), 3) == Some(2);
  }
}
