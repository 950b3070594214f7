/**
 * The `github_stars` Liquid tag (`GitHubStarsTag#render`): derive a repository
 * path from the tag argument, and return the repository's star count as text,
 * fetching it at most once per path thanks to the class-wide `Stars` cache.
 *
 * The HTTP request is foreign code: the response it would get is an input.
 * ActiveSupport's `number_to_human` is a parameter `format`.
 */
module GitHubStars {

  import opened Wrappers
  import opened RubyStrings

  const Host: string := "github.com"
  const HostPrefix: string := "github.com/"
  const NotAvailable: string := "N/A"

  /* ------------------------------------------------------------ repo path */

  /** The string holds at most one `/`. */
  predicate AtMostOneSlash(s: string) {
    forall i, j :: 0 <= i < j < |s| && s[i] == '/' ==> s[j] != '/'
  }

  /** The string holds no `/`. */
  predicate NoSlash(s: string) {
    forall k :: 0 <= k < |s| ==> s[k] != '/'
  }

  function Min(a: nat, b: nat): nat {
    if a < b then a else b
  }

  /**
   * The repository path `render` derives from its argument. A URL is cut
   * after the last field of splitting on "github.com/", and at most its first
   * two `/`-separated fields are kept. `None` stands for the error Ruby raises
   * (calling `split` on nil) when that first split leaves no field at all;
   * it happens before the rescue block, so it escapes `render`.
   */
  function RepoPath(repo: string): (path: Option<string>)
    ensures !Includes(repo, Host) ==> path == Some(repo)
    ensures path.None? <==> Includes(repo, Host) && Split(repo, HostPrefix) == []
  {
    if Includes(repo, Host) then
      var parts := Split(repo, HostPrefix);
      if |parts| == 0 then None
      else
        var fields := Split(parts[|parts| - 1], "/");
        Some(Join(fields[..Min(2, |fields|)], "/"))
    else Some(repo)
  }

  /** Joining at most two slash-free fields with `/` leaves at most one `/`. */
  lemma JoinTwoFields(fs: seq<string>)
    requires |fs| <= 2
    requires forall f :: f in fs ==> NoSlash(f)
    ensures AtMostOneSlash(Join(fs, "/"))
  {
    if |fs| == 2 {
      assert fs[0] in fs && fs[1] in fs;
      assert fs[1..] == [fs[1]];
      assert Join(fs, "/") == fs[0] + "/" + fs[1];
      SlashBetween(fs[0], fs[1]);
    } else if |fs| == 1 {
      assert fs[0] in fs;
    }
  }

  /** `a/b` has exactly one `/` when `a` and `b` have none. */
  lemma SlashBetween(a: string, b: string)
    requires NoSlash(a) && NoSlash(b)
    ensures AtMostOneSlash(a + "/" + b)
  {
    var s := a + "/" + b;
    assert forall k :: 0 <= k < |a| ==> s[k] == a[k];
    assert forall k :: |a| < k < |s| ==> s[k] == b[k - |a| - 1];
  }

  /** The fields of a split on `/` are free of `/`. */
  lemma SlashSplitFieldsHaveNoSlash(s: string)
    ensures forall f :: f in Split(s, "/") ==> NoSlash(f)
  {
    FieldsAvoidSeparator(s, "/");
    var fs := Fields(s, "/");
    forall f | f in Split(s, "/")
      ensures NoSlash(f)
    {
      assert f in fs;
      NoCharIsNoSeparator(f, '/');
      assert ['/'] == "/";
    }
  }

  /** A path taken from a URL contains at most one `/`. */
  lemma UrlPathHasAtMostOneSlash(repo: string)
    requires Includes(repo, Host) && RepoPath(repo).Some?
    ensures AtMostOneSlash(RepoPath(repo).value)
  {
    var parts := Split(repo, HostPrefix);
    assert |parts| > 0;
    var fields := Split(parts[|parts| - 1], "/");
    assert RepoPath(repo).value == Join(fields[..Min(2, |fields|)], "/");
    KeptFieldsOneSlash(parts[|parts| - 1]);
  }

  /** At most the first two fields of a split on `/`, joined with `/`, hold at most one `/`. */
  lemma KeptFieldsOneSlash(t: string)
    ensures var fields := Split(t, "/"); AtMostOneSlash(Join(fields[..Min(2, |fields|)], "/"))
  {
    var fields := Split(t, "/");
    SlashSplitFieldsHaveNoSlash(t);
    var kept := fields[..Min(2, |fields|)];
    assert forall f :: f in kept ==> f in fields;
    JoinTwoFields(kept);
  }

  /* ---------------------------------------------------------- star count */

  /** The body of a 200 response: parsed JSON with an optional `stargazers_count`, or unparsable. */
  datatype Body = Parsed(stargazers: Option<int>) | Unparsable

  /** What the GitHub API request produced: a status code and body, or an exception. */
  datatype Response = Response(code: string, body: Body) | RequestRaised

  /**
   * The star text for a fetched response. A non-200 status counts 0 stars and
   * does not look at the body; a missing `stargazers_count` is nil, and
   * `nil.to_i` is 0; any exception gives "N/A".
   */
  function StarText(resp: Response, format: int -> string): (t: string)
    ensures resp.RequestRaised? ==> t == NotAvailable
    ensures resp.Response? && resp.code != "200" ==> t == format(0)
    ensures resp.Response? && resp.code == "200" && resp.body.Unparsable? ==> t == NotAvailable
    ensures resp.Response? && resp.code == "200" && resp.body.Parsed? ==>
      t == format(resp.body.stargazers.GetOr(0))
  {
    match resp
    case RequestRaised => NotAvailable
    case Response(code, body) =>
      if code == "200" then
        match body
        case Parsed(n) => format(n.GetOr(0))
        case Unparsable => NotAvailable
      else format(0)
  }

  /* --------------------------------------------------------------- render */

  /**
   * The result of one `render`: its output (`None` when it raised), the cache
   * after the call, and whether it contacted GitHub.
   */
  datatype Rendered = Rendered(output: Option<string>, stars: map<string, string>, fetched: bool)

  /**
   * `render`. A cached path answers from the cache without a request (any
   * cached string is truthy in Ruby, "" included); a miss fetches, caches the
   * text under that path, and returns it.
   */
  function Render(stars: map<string, string>, repo: string, resp: Response, format: int -> string): (r: Rendered)
    ensures RepoPath(repo).None? ==> r.output.None? && r.stars == stars && !r.fetched
    ensures RepoPath(repo).Some? && RepoPath(repo).value in stars ==>
      r.output == Some(stars[RepoPath(repo).value]) && r.stars == stars && !r.fetched
    ensures RepoPath(repo).Some? && RepoPath(repo).value !in stars ==>
      var path := RepoPath(repo).value;
      && r.fetched
      && r.output == Some(StarText(resp, format))
      && r.stars.Keys == stars.Keys + {path}
      && r.stars[path] == StarText(resp, format)
      && forall q :: q in stars ==> r.stars[q] == stars[q]
  {
    match RepoPath(repo)
    case None => Rendered(None, stars, false)
    case Some(path) =>
      if path in stars then Rendered(Some(stars[path]), stars, false)
      else
        var text := StarText(resp, format);
        Rendered(Some(text), stars[path := text], true)
  }

  /**
   * Rendering the same argument again, whatever GitHub would answer now,
   * returns the same text, leaves the cache as the first call left it, and
   * makes no request.
   */
  lemma RenderIdempotent(stars: map<string, string>, repo: string, first: Response, second: Response, format: int -> string)
    ensures
      var once := Render(stars, repo, first, format);
      var twice := Render(once.stars, repo, second, format);
      twice.output == once.output && twice.stars == once.stars && !twice.fetched
  {
  }

  /**
   * The usual URL form yields `owner/repo`. GitHub owner names contain no
   * `.`, so "github.com/" cannot occur again after the host.
   */
  lemma UrlGivesOwnerAndRepo(owner: string, name: string)
    requires owner != "" && name != ""
    requires forall k :: 0 <= k < |owner| ==> owner[k] != '/' && owner[k] != '.'
    requires NoSlash(name)
    ensures RepoPath("https://github.com/" + owner + "/" + name) == Some(owner + "/" + name)
  {
    assert "https://github.com/" + owner + "/" + name
        == "https://" + HostPrefix + owner + "/" + name + "";
    assert owner + "/" + name + "" == owner + "/" + name;
    NoHostAfterOwner(owner, name);
    UrlPathIsOwnerAndRepo("https://", owner, name, "");
  }

  /** "github.com/" does not occur in `owner/name` when the owner has no `.` or `/`. */
  lemma NoHostAfterOwner(owner: string, name: string)
    requires forall k :: 0 <= k < |owner| ==> owner[k] != '/' && owner[k] != '.'
    requires NoSlash(name)
    ensures IndexFrom(owner + "/" + name, HostPrefix, 0).None?
  {
    var rest := owner + "/" + name;
    forall j: nat | j + |HostPrefix| <= |rest|
      ensures !OccursAt(rest, HostPrefix, j)
    {
      var w := rest[j..j + |HostPrefix|];
      assert w[10] == rest[j + 10] && w[6] == rest[j + 6];
      if j + 10 < |owner| {
        assert rest[j + 10] == owner[j + 10];
      } else if j + 10 > |owner| {
        assert rest[j + 10] == name[j + 10 - |owner| - 1];
      } else {
        assert rest[j + 6] == owner[j + 6];
      }
    }
  }

  /**
   * Ruby's `split` drops trailing empty fields, so a URL that ends in
   * "github.com/" takes its path from the field before that, not from the
   * (empty) text after the last occurrence.
   */
  lemma TrailingHostIgnored()
    ensures RepoPath("github.com/a/github.com/") == Some("a")
  {
    var s := "github.com/a/github.com/";
    assert OccursAt(s, Host, 0) by { assert s[0..10] == Host; }
    SplitTwoHosts();
    SplitTrailingSlash();
    assert Join(["a"], "/") == "a";
  }
  /** The split on the host of the URL above keeps two fields. */
  lemma SplitTwoHosts()
    ensures Split("github.com/a/github.com/", HostPrefix) == ["", "a/"]
  {
    FieldsTwoHosts();
    DropOneTrailingEmpty();
  }

  /** The URL above has three fields around its two hosts, the last one empty. */
  lemma FieldsTwoHosts()
    ensures Fields("github.com/a/github.com/", HostPrefix) == ["", "a/", ""]
  {
    HeadField();
    TailFields();
  }

  /** The URL above starts with the host, so its first field is empty. */
  lemma HeadField()
    ensures Fields("github.com/a/github.com/", HostPrefix) == [""] + Fields("a/github.com/", HostPrefix)
  {
    var s := "github.com/a/github.com/";
    assert s[0..11] == HostPrefix;
    FirstOccurrence(s, HostPrefix, 0, 0);
    FieldsAt(s, HostPrefix, 0);
    assert s[..0] == "" && s[11..] == "a/github.com/";
  }

  /** Only the one empty field at the end is dropped. */
  lemma DropOneTrailingEmpty()
    ensures DropTrailingEmpty(["", "a/", ""]) == ["", "a/"]
  {
    assert ["", "a/", ""][..2] == ["", "a/"];
  }

  /** The fields after the first host. */
  lemma TailFields()
    ensures Fields("a/github.com/", HostPrefix) == ["a/", ""]
  {
    var r := "a/github.com/";
    TailIndex();
    assert r[..2] == "a/";
    assert r[13..] == "";
    assert IndexFrom("", HostPrefix, 0) == None;
  }
  /** The second host starts at index 2 of the text after the first. */
  lemma TailIndex()
    ensures IndexFrom("a/github.com/", HostPrefix, 0) == Some(2)
  {
    var r := "a/github.com/";
    assert r[0..11][0] == 'a';
    assert r[1..12][0] == '/';
    assert r[2..13] == HostPrefix;
  }
  /** A trailing `/` adds no field. */
  lemma SplitTrailingSlash()
    ensures Split("a/", "/") == ["a"]
  {
    assert OccursAt("a/", "/", 1) by { assert "a/"[1..2] == "/"; }
    assert !OccursAt("a/", "/", 0) by { assert "a/"[0..1] == "a"; }
    assert "a/"[2..] == "";
    assert Fields("a/", "/") == ["a", ""];
    assert ["a", ""][..1] == ["a"];
  }

  /* ------------------------------------------------- the last host in a URL */

  /** Only the first character of "github.com/" is a 'g', so it cannot overlap itself. */
  lemma HostPrefixFirstCharUnique()
    ensures FirstCharUnique(HostPrefix)
  {
  }

  /**
   * A URL's path comes from the text after its last "github.com/": at most
   * its first two `/`-separated fields, joined with `/`.
   */
  lemma UrlPathAfterLastHost(pre: string, tail: string)
    requires tail != ""
    requires IndexFrom(tail, HostPrefix, 0).None?
    ensures
      var fields := Split(tail, "/");
      RepoPath(pre + HostPrefix + tail) == Some(Join(fields[..Min(2, |fields|)], "/"))
  {
    var s := pre + HostPrefix + tail;
    var m := |pre|;
    assert Includes(s, Host) by {
      assert s[m..m + |Host|] == Host;
      assert OccursAt(s, Host, m);
    }
    assert Last(Fields(s, HostPrefix)) == tail by {
      assert s[m..m + |HostPrefix|] == HostPrefix;
      assert s[m + |HostPrefix|..] == tail;
      HostPrefixFirstCharUnique();
      LastField(s, HostPrefix, m);
    }
    SplitKeepsAll(s, HostPrefix);
  }

  /** A slash-free head followed by `/` is the first field; the fields of the rest follow. */
  lemma SlashLedFields(head: string, u: string)
    requires NoSlash(head)
    ensures Fields(head + "/" + u, "/") == [head] + Fields(u, "/")
  {
    var t := head + "/" + u;
    forall j: nat | j < |head|
      ensures !OccursAt(t, "/", j)
    {
      assert t[j..j + 1][0] == t[j] == head[j];
    }
    assert t[|head|..|head| + 1] == "/";
    FirstOccurrence(t, "/", 0, |head|);
    FieldsAt(t, "/", |head|);
    assert t[..|head|] == head && t[|head| + 1..] == u;
  }

  /** A slash-free name followed by nothing or by `/`-led text is the first field. */
  lemma NameLeadsFields(name: string, rest: string)
    requires NoSlash(name)
    requires rest == "" || rest[0] == '/'
    ensures Fields(name + rest, "/")[0] == name
  {
    if rest == "" {
      assert name + rest == name;
      NoCharIsNoSeparator(name, '/');
      assert ['/'] == "/";
    } else {
      assert name + rest == name + "/" + rest[1..];
      SlashLedFields(name, rest[1..]);
    }
  }

  /** The fields of `owner/name` followed by nothing or by more `/`-led text begin with the two names. */
  lemma OwnerNameLead(owner: string, name: string, rest: string)
    requires owner != "" && name != ""
    requires NoSlash(owner) && NoSlash(name)
    requires rest == "" || rest[0] == '/'
    ensures |Split(owner + "/" + name + rest, "/")| >= 2
    ensures Split(owner + "/" + name + rest, "/")[..2] == [owner, name]
  {
    var t := owner + "/" + name + rest;
    assert t == owner + "/" + (name + rest);
    SlashLedFields(owner, name + rest);
    NameLeadsFields(name, rest);
    var fs := Fields(t, "/");
    assert fs[0] == owner && fs[1] == name;
    assert fs[1] != "";
  }

  /**
   * Any URL whose last "github.com/" is followed by `owner/name`, then nothing
   * or further `/`-led text (a trailing slash, `/tree/main`, ...), yields
   * `owner/name`, whatever comes before the host.
   */
  lemma UrlPathIsOwnerAndRepo(pre: string, owner: string, name: string, rest: string)
    requires owner != "" && name != "" && NoSlash(owner) && NoSlash(name)
    requires rest == "" || rest[0] == '/'
    requires IndexFrom(owner + "/" + name + rest, HostPrefix, 0).None?
    ensures RepoPath(pre + HostPrefix + owner + "/" + name + rest) == Some(owner + "/" + name)
  {
    var tail := owner + "/" + name + rest;
    Regroup(pre, owner, name, rest);
    UrlPathAfterLastHost(pre, tail);
    OwnerNameLead(owner, name, rest);
    JoinPair(owner, name, "/");
  }

  /** The URL regrouped as the text up to the host and the text after it. */
  lemma Regroup(pre: string, owner: string, name: string, rest: string)
    ensures pre + HostPrefix + owner + "/" + name + rest == pre + HostPrefix + (owner + "/" + name + rest)
  {
  }
}
