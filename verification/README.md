# Scholar citations and GitHub stars: a Dafny model

This project models the data-handling core of a personal academic web site's
build helpers:

- **The citation snapshot reconciler** (`bin/update_scholar_citations.py`). It
  resolves the Google Scholar author ID from the socials data file or the site
  configuration. It loads the previous snapshot's `papers` value as a
  baseline and fetches the author record, with up to three attempts and
  exponential back-off. It then upserts one `{title, year, citations}` record
  per publication, keyed by the publication's ID.
- **The single-publication lookup** (`bin/fetch_scholar_citations.py`). It sets
  up a proxy by trying three strategies in turn. It then scans the author's
  publications for a matching `author_pub_id` and returns its citation count,
  or the sentinel 0.
- **The `github_stars` Liquid tag** (`_plugins/github-stars.rb`). It turns the
  tag argument into an `owner/repo` path using Ruby's `split` and `join`. It
  maps the GitHub API response to star text. It memoises the text per path in
  a class-wide cache.

Parsed YAML and JSON documents are modelled as a recursive `Value` datatype
(`values.dfy`). Python truthiness, `or` and `dict.get` are modelled on that
datatype. Every file read, client call and HTTP request is an input: the
parsed document, or what the call returned or raised. A failed retry attempt
is `FetchRaised`. A proxy strategy that raised is `Raised`. A request that
raised is `RequestRaised`.

Modules:

- `Wrappers`: `Option`.
- `Values`: document values and Python's view of them.
- `ScholarConfig`: ID resolution.
- `Scholarly`: the client's record shapes.
- `Snapshot`: the reconciler.
- `CitationLookup`: the single lookup.
- `RubyStrings`: `include?`, `split` and `join`.
- `GitHubStars`: the tag.

Behaviour of the code that the model keeps on purpose:

- The back-off sleeps only between attempts. After failed attempt `i` it
  sleeps `2 ** i` seconds plus jitter, and there is no sleep after the third
  failure. So there are at most two base delays, 1 and 2.
- The previous snapshot's `papers` value is kept whatever its type, as long
  as it is not None. On a mapping, each publication's record is stored under
  its ID. On a list, the assignment `papers[id] = record` is Python item
  assignment: an integer (or boolean) ID in range, negative ones counting from
  the end, replaces that element. Every other case raises, the
  per-publication handler swallows the error, and `papers` is unchanged
  (`Snapshot.Upsert`).
- The citation count is copied verbatim from `num_citations`. Nothing forces it
  to be a non-negative integer.
- A publication whose ID cannot be hashed (a list or a mapping) is skipped. The
  assignment raises inside the per-publication handler.
- A URL argument ending in "github.com/" takes its path from the field before
  it. Ruby's `split` drops trailing empty fields
  (`GitHubStars.TrailingHostIgnored`). An argument that leaves `split` no
  field at all makes `.last` nil. The following `split` then raises before the
  rescue block, so `render` raises.

## Model

| member | source | states |
|---|---|---|
| ScholarConfig.GetScholarId | bin/update_scholar_citations.py:20-65 | Whatever ID is resolved is truthy; nothing falsy is ever returned as an ID. |
| ScholarConfig.ResolutionOrder | bin/update_scholar_citations.py:25-59 | The nested fallbacks are exactly an ordered rule list. The list is: socials file `scholar_userid`; then `socials.scholar_userid`, `socials.google_scholar_id`, `scholar.scholar_userid`, `scholar.google_scholar_id`, top-level `scholar_userid`, top-level `google_scholar_id`. The ID is the first truthy value along it, and there is no ID iff every rule yields a falsy value. |
| ScholarConfig.FirstTruthyIsFirst | bin/update_scholar_citations.py:46-59 | An ordered fallback finds a value iff some location holds a truthy one. The value found is the earliest truthy one, and every location before it is falsy. |
| ScholarConfig.FromSocials | bin/update_scholar_citations.py:25-33 | The socials file yields an ID iff it parsed to a mapping whose `scholar_userid` is truthy. |
| ScholarConfig.FromConfig | bin/update_scholar_citations.py:38-61 | The configuration yields only truthy IDs, and only when it parsed to a mapping. Any other document falls through to "not found". |
| ScholarConfig.SocialsFileWins | bin/update_scholar_citations.py:29-33 | A truthy `scholar_userid` in the socials file is the ID, whatever the configuration says. |
| ScholarConfig.NonMappingSectionSkipped | bin/update_scholar_citations.py:46-55 | A `socials` section that is not a mapping is skipped, and the top-level key then supplies the ID. |
| Values.Truthy | bin/update_scholar_citations.py:29-57 | Python truthiness: a value is true exactly when it is not the falsy value of its type (None, False, 0, "", [], {}). |
| Values.Or | bin/update_scholar_citations.py:47 | Python `a or b`: the result is truthy iff either operand is. It is `a` when `a` is truthy, else `b`. |
| Values.Get | bin/update_scholar_citations.py:30 | `dict.get(k)`: the stored value when the key is present, None otherwise. |
| Snapshot.Baseline | bin/update_scholar_citations.py:83-99 | The run starts from the previous `papers` value exactly when that file held a non-empty mapping with a non-None `papers`; otherwise from an empty mapping. It is never None. |
| Snapshot.PublicationId | bin/update_scholar_citations.py:129-137 | A truthy `pub_id` is preferred, then a truthy `author_pub_id`. With neither, the publication has no ID. |
| Snapshot.StoreKey | bin/update_scholar_citations.py:127-137 | A publication is stored iff it has an ID that Python can hash, and it is stored under that ID. |
| Snapshot.Record | bin/update_scholar_citations.py:140-151 | The record has exactly the keys title, year and citations. Each comes from `bib.title`, `bib.pub_year` and `num_citations` when that key is present, else from the sentinels "Unknown Title", "Unknown Year" and 0. |
| Snapshot.ListSlot | bin/update_scholar_citations.py:156 | Python list item assignment: the position written exists iff the key is an integer (or boolean) in `-n <= i < n`, and it is `i`, or `n + i` for a negative `i`. |
| Snapshot.Upsert | bin/update_scholar_citations.py:155-163 | On a mapping, one publication overwrites or adds its own key and leaves every other key unchanged. On a list, it replaces exactly the element its integer ID indexes and keeps the length. A publication without a storable key, or a `papers` value of any other type, changes nothing. |
| Snapshot.StoredKeys | bin/update_scholar_citations.py:126-137 | The keys a publication list writes are exactly the store keys of its publications. |
| Snapshot.LastRecord | bin/update_scholar_citations.py:126-160 | A key has a last written record iff some publication in the list is stored under it. |
| Snapshot.LastSlotRecord | bin/update_scholar_citations.py:126-160 | A list position has a last written record iff some publication's ID indexes it. |
| Snapshot.Merge | bin/update_scholar_citations.py:125-163 | After the loop on a mapping, the keys are the baseline keys plus the stored keys, so no baseline entry is deleted. Keys that no publication writes keep their baseline values. A list keeps its length. A `papers` value that is neither is returned unchanged. |
| Snapshot.MergeIsReference | bin/update_scholar_citations.py:125-163 | The in-order upsert loop equals an order-free reference. Each written key holds the record of the last publication stored under it, and every other key keeps its baseline value. In a list, each written position holds the record of the last publication indexing it, and every other element is kept. |
| Snapshot.MergeIdempotent | bin/update_scholar_citations.py:125-163 | Reconciling the same publication list twice gives the same papers as doing it once. |
| Snapshot.LastDuplicateWins | bin/update_scholar_citations.py:156-160 | When two publications share an ID, the later one's record is the one kept. |
| Snapshot.FirstFetched | bin/update_scholar_citations.py:104-109 | No author is fetched iff every attempt raised. |
| Snapshot.FetchWithRetry | bin/update_scholar_citations.py:104-118 | At most three attempts are made, and the loop stops at the first that returns; all earlier ones raised. It gives up only after three failures. Its author is the first attempt's result that returned. The base delays are 2^0, 2^1, …, one fewer than the attempts, and they strictly increase. |
| Snapshot.GetScholarCitations | bin/update_scholar_citations.py:70-175 | There is no result iff no ID resolves, and the result carries that ID. The papers are the baseline reconciled with the first fetched author's publications. The file is written iff an attempt returned a non-empty author record. Total failure returns the baseline unchanged and writes nothing. A mapping baseline loses no key. |
| Snapshot.FreshSnapshotExample | bin/update_scholar_citations.py:140-160 | From an empty baseline, a publication with a title and 5 citations and one with neither `bib` nor count give exactly the two expected records, with sentinels filled in. |
| Snapshot.ListPapersAssignedByIndex | bin/update_scholar_citations.py:156 | A `papers` list is written by position: ID 1 replaces the second element of a two-element list, and ID -1 the last element of a three-element list. |
| Snapshot.EmptyTitleKept | bin/update_scholar_citations.py:144-146 | A present but empty title is stored as is: presence decides, not truthiness. |
| CitationLookup.SetupProxy | bin/fetch_scholar_citations.py:15-37 | Strategies are tried in the order FreeProxies, Tor, Selenium. Tor is tried iff FreeProxies reported failure. Selenium is tried iff both did. The result is true iff some tried strategy succeeded. An exception escapes iff FreeProxies raised, or Tor raised after FreeProxies failed. Selenium's exception is swallowed. |
| CitationLookup.Scan | bin/fetch_scholar_citations.py:63-69 | With no publication matching and none missing `author_pub_id`, the count is 0. The first matching publication gives its `num_citations`, or 0 when that key is absent. A publication missing the key before any match raises. |
| CitationLookup.GetCitationCount | bin/fetch_scholar_citations.py:39-73 | Every failure yields 0: a proxy setup that raised, a fetch that raised, or an author without publications. Otherwise the result is the scan's count, with a raising scan also giving 0. |
| CitationLookup.ProxyFailureNotFatal | bin/fetch_scholar_citations.py:52-57 | A proxy setup that returns false gives the same count as a successful one. |
| CitationLookup.OnlyAuthorPubIdCompared | bin/fetch_scholar_citations.py:63-66 | A publication whose `pub_id` equals the requested ID but whose `author_pub_id` is present and different is no match. Wherever it sits in the list, removing it leaves the scan's result unchanged. |
| RubyStrings.Includes | _plugins/github-stars.rb:24 | `include?` holds exactly when the left-to-right search finds an occurrence. |
| RubyStrings.IndexFrom | _plugins/github-stars.rb:26 | The search returns the first index at or after the start where the separator occurs, or nothing when it occurs nowhere from there. |
| RubyStrings.DropTrailingEmpty | _plugins/github-stars.rb:26 | The result is a prefix of the fields, it does not end in an empty field, and only empty fields were dropped. |
| RubyStrings.Split | _plugins/github-stars.rb:26 | `split` gives the fields between occurrences of the separator with the trailing empty ones removed. Its result is a prefix of the fields, does not end in an empty field, drops only empty ones, and no field contains the separator. |
| RubyStrings.Join | _plugins/github-stars.rb:26 | `join` starts with the first part and ends with the last, and the separator follows the first part when there are more. |
| RubyStrings.JoinFields | _plugins/github-stars.rb:26 | Joining the split fields with the separator restores the original string. |
| RubyStrings.FieldsAvoidSeparator | _plugins/github-stars.rb:26 | No field of a split contains the separator. |
| GitHubStars.RepoPath | _plugins/github-stars.rb:24-30 | An argument without "github.com" is used as the path unchanged. With it, `render` raises iff splitting on "github.com/" leaves no field. |
| GitHubStars.UrlPathHasAtMostOneSlash | _plugins/github-stars.rb:24-26 | A path taken from a URL keeps at most two `/`-free fields, so it holds at most one `/`. |
| GitHubStars.UrlPathAfterLastHost | _plugins/github-stars.rb:24-26 | For every URL, the path is the first at most two `/`-separated fields of the non-empty text after the last "github.com/", joined with `/`. |
| RubyStrings.LastField | _plugins/github-stars.rb:26 | For a separator whose first character does not recur in it, such as "github.com/", the last field of a split is the text after the separator's last occurrence. |
| GitHubStars.UrlPathIsOwnerAndRepo | _plugins/github-stars.rb:24-26 | Any URL whose last "github.com/" is followed by `owner/name`, then nothing or `/`-led text such as `/tree/main` or a trailing `/`, yields `owner/name` whatever precedes the host. This covers `http://www.github.com/...`. |
| GitHubStars.UrlGivesOwnerAndRepo | _plugins/github-stars.rb:22-26 | "https://github.com/owner/repo" yields "owner/repo" for every owner without `.` or `/` and every repo name without `/`. |
| GitHubStars.TrailingHostIgnored | _plugins/github-stars.rb:26 | "github.com/a/github.com/" yields "a". The empty text after the last host is dropped, not taken. |
| GitHubStars.StarText | _plugins/github-stars.rb:53-66 | A non-200 status gives the formatted 0. A 200 gives the formatted `stargazers_count`, or 0 when it is missing. An unparsable body or a failed request gives "N/A". |
| GitHubStars.Render | _plugins/github-stars.rb:19-73 | A cached path is answered from the cache with no request. A miss fetches, caches the text under that path and returns it, keeping every other entry. An argument that leaves no path raises and leaves the cache unchanged. |
| GitHubStars.RenderIdempotent | _plugins/github-stars.rb:36-38 | Rendering the same argument again returns the same text and leaves the cache unchanged, whatever GitHub would answer now. It makes no request. |

## Left out

- File I/O and YAML/JSON parsing: documents arrive parsed, and `None` stands for a missing or unreadable file. The write of the snapshot is the `saved` flag, and a failed write is not modelled.
- The `metadata` block of the snapshot: the timestamp comes from the clock. Only the author ID it records is modelled.
- Random jitter and `time.sleep` in the retry loop: only the base delays `2 ** attempt` are modelled.
- The Google Scholar client (`search_author_id`, `fill`) and `ProxyGenerator`: their outcomes are inputs. Exceptions from `ProxyGenerator()` itself and from `use_proxy` are not modelled.
- The HTTP request to the GitHub API, and the random sleep before it: the response is an input.
- `number_to_human`: it is the parameter `format`.
- The Liquid `context` lookup and the tag's `initialize`: the argument arrives as a string. A nil argument is not modelled.
- Logging and printing, `argparse`, the JSON output of the command, and the exit on a missing `scholarly` package.
- Insertion order of Python dicts: a `map` is unordered, so the order of keys in the written file is not modelled.
- Python's `1 == True` key equality: `Int(1)` and `Bool(true)` are distinct keys here.
- Publications are records whose `bib`, when present, is a mapping. A `bib` or publication of another type is not modelled.
- Snapshot.FetchWithRetry: requires at least three attempt outcomes as input, one per possible attempt; the attempts it does not reach are ignored.
- Snapshot.GetScholarCitations: requires the same three attempt outcomes; the directory creation at import time is not modelled.
- RubyStrings.Split: covers only non-empty string separators other than a single space, which Ruby treats as splitting on runs of whitespace. The tag uses only "github.com/" and "/".
- Values: floats, dates and other YAML scalars are not modelled. Record fields are copied unchanged, and a `papers` of such a type would raise on upsert like an integer does.
- GitHubStars.StarText: `to_i` is modelled on an integer or missing `stargazers_count`. A body whose JSON is not an object, or whose count has another type, is folded into `Unparsable`.
