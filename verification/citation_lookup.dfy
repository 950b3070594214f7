/**
 * The single-publication lookup (`get_citation_count`): set up a proxy through
 * an ordered list of strategies, fetch the author's publications, and return
 * the citation count of the first publication whose `author_pub_id` equals
 * the requested ID. Every failure becomes the count 0 and nothing propagates.
 *
 * The proxy strategies and the client calls are foreign code; what each call
 * did is an input value.
 */
module CitationLookup {

  import opened Wrappers
  import opened Values
  import opened Scholarly

  /** The count returned when nothing is found or something failed. */
  const NotFound: Value := Int(0)

  /* ---------------------------------------------------------------- proxy */

  /** The ways `setup_proxy` tries to reach Google Scholar, in the order it tries them. */
  datatype Strategy = FreeProxies | TorInternal | Selenium

  /** What one strategy call did: it reported success, reported failure, or raised. */
  datatype StrategyOutcome = Succeeded | Failed | Raised

  /**
   * The effect of `setup_proxy`: the strategies it called, in order, and
   * either the boolean it returned or `None` when an exception escaped it.
   * It installs the proxy (`use_proxy`) exactly when it returns true.
   */
  datatype ProxySetup = ProxySetup(tried: seq<Strategy>, returned: Option<bool>)

  /** The outcome the inputs assign to one strategy. */
  function OutcomeOf(s: Strategy, free: StrategyOutcome, tor: StrategyOutcome, selenium: StrategyOutcome): StrategyOutcome {
    match s
    case FreeProxies => free
    case TorInternal => tor
    case Selenium => selenium
  }

  /**
   * `setup_proxy`. Tor is tried only after FreeProxies reported failure, and
   * Selenium only after both did. An exception from Selenium is swallowed and
   * counts as failure; one from the first two strategies escapes.
   */
  function SetupProxy(free: StrategyOutcome, tor: StrategyOutcome, selenium: StrategyOutcome): (r: ProxySetup)
    ensures 1 <= |r.tried| <= 3 && r.tried == [FreeProxies, TorInternal, Selenium][..|r.tried|]
    ensures TorInternal in r.tried <==> free == Failed
    ensures Selenium in r.tried <==> free == Failed && tor == Failed
    ensures r.returned == Some(true) <==>
      exists i :: 0 <= i < |r.tried| && OutcomeOf(r.tried[i], free, tor, selenium) == Succeeded
    ensures r.returned.None? <==> free == Raised || (free == Failed && tor == Raised)
  {
    match free
    case Succeeded =>
      var r := ProxySetup([FreeProxies], Some(true));
      assert OutcomeOf(r.tried[0], free, tor, selenium) == Succeeded;
      r
    case Raised => ProxySetup([FreeProxies], None)
    case Failed =>
      match tor
      case Succeeded =>
        var r := ProxySetup([FreeProxies, TorInternal], Some(true));
        assert OutcomeOf(r.tried[1], free, tor, selenium) == Succeeded;
        r
      case Raised => ProxySetup([FreeProxies, TorInternal], None)
      case Failed =>
        var r := ProxySetup([FreeProxies, TorInternal, Selenium], Some(selenium == Succeeded));
        assert selenium == Succeeded ==> OutcomeOf(r.tried[2], free, tor, selenium) == Succeeded;
        r
  }

  /* ----------------------------------------------------------------- scan */

  /**
   * A publication ends the scan: its `author_pub_id` key is missing (indexing
   * raises) or its value equals the requested ID. Only `author_pub_id` is
   * compared, and a non-string value never equals the requested string.
   */
  predicate Decides(p: Publication, publicationId: string) {
    p.authorPubId.None? || p.authorPubId == Some(Str(publicationId))
  }

  /** Publication `i` is the first that ends the scan. */
  predicate FirstDecisive(pubs: seq<Publication>, publicationId: string, i: int) {
    && 0 <= i < |pubs|
    && Decides(pubs[i], publicationId)
    && forall j :: 0 <= j < i ==> !Decides(pubs[j], publicationId)
  }

  /**
   * The loop over `author['publications']`: the count of the first matching
   * publication (`num_citations`, or 0 when that key is missing), 0 when none
   * matches, and `None` when a publication before any match lacks the
   * `author_pub_id` key and indexing raises.
   */
  function Scan(pubs: seq<Publication>, publicationId: string): (r: Option<Value>)
    ensures (forall i :: 0 <= i < |pubs| ==> !Decides(pubs[i], publicationId)) ==> r == Some(NotFound)
    ensures forall i :: FirstDecisive(pubs, publicationId, i) && pubs[i].authorPubId.Some? ==>
      r == Some(pubs[i].numCitations.GetOr(NotFound))
    ensures forall i :: FirstDecisive(pubs, publicationId, i) && pubs[i].authorPubId.None? ==> r.None?
  {
    if |pubs| == 0 then Some(NotFound)
    else if pubs[0].authorPubId.None? then None
    else if pubs[0].authorPubId == Some(Str(publicationId)) then Some(pubs[0].numCitations.GetOr(NotFound))
    else
      var r := Scan(pubs[1..], publicationId);
      assert forall i :: 1 <= i < |pubs| ==> pubs[i] == pubs[1..][i - 1];
      r
  }

  /* --------------------------------------------------------------- lookup */

  /**
   * `get_citation_count`. The proxy outcomes are those of the three
   * strategies; `fetch` is what `search_author_id` followed by `fill` did.
   * A failed proxy setup only degrades the connection: the lookup goes on.
   */
  function GetCitationCount(
    publicationId: string,
    free: StrategyOutcome, tor: StrategyOutcome, selenium: StrategyOutcome,
    fetch: FetchOutcome): (count: Value)
    ensures SetupProxy(free, tor, selenium).returned.None? ==> count == NotFound
    ensures fetch.FetchRaised? ==> count == NotFound
    ensures fetch.Fetched? && fetch.author.publications.None? ==> count == NotFound
    ensures SetupProxy(free, tor, selenium).returned.Some? && fetch.Fetched? && fetch.author.publications.Some? ==>
      count == Scan(fetch.author.publications.value, publicationId).GetOr(NotFound)
  {
    var setup := SetupProxy(free, tor, selenium);
    if setup.returned.None? then NotFound
    else
      match fetch
      case FetchRaised => NotFound
      case Fetched(author) =>
        match author.publications
        case None => NotFound
        case Some(pubs) => Scan(pubs, publicationId).GetOr(NotFound)
  }

  /**
   * Whether a proxy was installed makes no difference to the count, as long as
   * no exception escaped the setup.
   */
  lemma ProxyFailureNotFatal(
    publicationId: string, fetch: FetchOutcome,
    free: StrategyOutcome, tor: StrategyOutcome, selenium: StrategyOutcome)
    requires SetupProxy(free, tor, selenium).returned == Some(false)
    ensures GetCitationCount(publicationId, free, tor, selenium, fetch)
         == GetCitationCount(publicationId, Succeeded, Succeeded, Succeeded, fetch)
  {
  }

  /**
   * A publication whose `pub_id` equals the requested ID but whose
   * `author_pub_id` is present and different is no match: wherever it sits
   * in the list, removing it does not change the scan's result.
   */
  lemma {:induction false} OnlyAuthorPubIdCompared(pubs: seq<Publication>, publicationId: string, i: nat)
    requires i < |pubs|
    requires pubs[i].pubId == Some(Str(publicationId))
    requires pubs[i].authorPubId.Some? && pubs[i].authorPubId != Some(Str(publicationId))
    ensures Scan(pubs, publicationId) == Scan(pubs[..i] + pubs[i + 1..], publicationId)
  {
    var without := pubs[..i] + pubs[i + 1..];
    if i == 0 {
      assert without == pubs[1..];
    } else {
      assert without[0] == pubs[0];
      if !Decides(pubs[0], publicationId) {
        OnlyAuthorPubIdCompared(pubs[1..], publicationId, i - 1);
        assert without[1..] == pubs[1..][..i - 1] + pubs[1..][i..];
      }
    }
  }
}
