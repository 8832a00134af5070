/** `DebMaster.fetch_github_releases`' only pure step: the releases endpoint of
    the GitHub API built from a repository URL, through
    `urlparse(repo_url).path.strip('/').split('/')` and its first two parts.

    `urlparse` is modelled as far as `.path` depends on it, following
    `urllib.parse` of Python 3.12: leading C0 controls and spaces are stripped,
    tabs and line breaks removed, a scheme split off at the first `:`, a
    `//`-introduced network location split off at the first `/`, `?` or `#`,
    the fragment and the query cut, and, for schemes that use them, the
    `;`-parameters of the last segment cut. */
module GitHub {
  import opened Wrappers
  import opened Text
  import opened PathNames

  /** Why no API URL is built: `urlparse` raised `ValueError("Invalid IPv6
      URL")`, or the path has fewer than two parts (`IndexError`). Both are
      reported as a failed `github` event. */
  datatype UrlError = InvalidIPv6Url | MissingOwnerOrRepo

  /** C0 control characters and the space, stripped from the front. */
  predicate IsC0OrSpace(c: char)
  {
    c <= ' '
  }

  function LStripC0(s: string): (r: string)
    ensures |r| <= |s| && r == s[|s| - |r|..]
    ensures r == [] || !IsC0OrSpace(r[0])
    ensures forall i :: 0 <= i < |s| - |r| ==> IsC0OrSpace(s[i])
    decreases |s|
  {
    if s != [] && IsC0OrSpace(s[0]) then LStripC0(s[1..]) else s
  }

  /** Tab, carriage return and line feed, removed wherever they occur. */
  predicate IsUnsafe(c: char)
  {
    c == '\t' || c == '\r' || c == '\n'
  }

  function RemoveUnsafe(s: string): (r: string)
    ensures forall c :: c in r ==> c in s && !IsUnsafe(c)
    ensures forall c :: c in s && !IsUnsafe(c) ==> c in r
    decreases |s|
  {
    if s == [] then []
    else (if IsUnsafe(s[0]) then [] else [s[0]]) + RemoveUnsafe(s[1..])
  }

  predicate IsAsciiLetter(c: char)
  {
    'a' <= c <= 'z' || 'A' <= c <= 'Z'
  }

  /** `scheme_chars`: ASCII letters, digits, `+`, `-` and `.`. */
  predicate IsSchemeChar(c: char)
  {
    IsAsciiLetter(c) || '0' <= c <= '9' || c == '+' || c == '-' || c == '.'
  }

  /** The scheme and the rest: a scheme is split off at the first `:` when it
      is not at the front, the first character is an ASCII letter and every
      character before it is a scheme character. */
  function SplitScheme(url: string): (string, string)
  {
    var i := FindOr(url, ':');
    if 0 < i < |url| && IsAsciiLetter(url[0]) && (forall k :: 0 <= k < i ==> IsSchemeChar(url[k]))
    then (Lower(url[..i]), url[i + 1..])
    else ("", url)
  }

  predicate IsNetlocDelim(c: char)
  {
    c == '/' || c == '?' || c == '#'
  }

  /** The first `/`, `?` or `#`, or `|s|`. */
  function FirstDelim(s: string): (i: nat)
    ensures i <= |s|
    ensures forall k :: 0 <= k < i ==> !IsNetlocDelim(s[k])
    ensures i < |s| ==> IsNetlocDelim(s[i])
    decreases |s|
  {
    if s == [] || IsNetlocDelim(s[0]) then 0 else 1 + FirstDelim(s[1..])
  }

  /** The network location and the rest, when the rest starts with `//`. */
  function SplitNetloc(rest: string): (string, string)
  {
    if StartsWith(rest, "//") then
      var d := 2 + FirstDelim(rest[2..]);
      (rest[2..d], rest[d..])
    else ("", rest)
  }

  /** `s.split(c, 1)[0]` */
  function CutAt(s: string, c: char): (r: string)
    ensures StartsWith(s, r) && c !in r
    ensures |r| == |s| || s[|r|] == c
  {
    s[..FindOr(s, c)]
  }

  /** The schemes whose last path segment may carry `;`-parameters. */
  const UsesParams: set<string> := {"", "ftp", "hdl", "prospero", "http", "imap", "https", "shttp",
                                    "rtsp", "rtsps", "rtspu", "sip", "sips", "mms", "sftp", "tel"}

  /** `_splitparams(path)[0]`: cut at the first `;` after the last `/`, or at
      the first `;` when there is no `/`. */
  function SplitParams(path: string): (r: string)
    ensures StartsWith(path, r)
    ensures |r| < |path| ==> path[|r|] == ';' && '/' !in path[|r|..]
    ensures forall i :: 0 <= i < |r| && r[i] == ';' ==> '/' in r[i..]
  {
    if '/' in path then
      var j := RFind(path, '/');
      assert path[j] == '/';
      var k := FindOr(path[j..], ';');
      assert forall i :: j <= i < j + k ==> path[i] == path[j..][..k][i - j];
      if k < |path| - j then
        assert path[j + k..] == path[j..][k..];
        path[..j + k]
      else path
    else path[..FindOr(path, ';')]
  }

  /** `_splitparams` applies only to the schemes that use parameters, and only
      when the path holds a `;`. */
  function CutParams(scheme: string, path: string): string
  {
    if scheme in UsesParams && ';' in path then SplitParams(path) else path
  }

  /** The bracket check on a network location. */
  predicate UnmatchedBracket(netloc: string)
  {
    ('[' in netloc && ']' !in netloc) || (']' in netloc && '[' !in netloc)
  }

  /** The path once the scheme is split off: a prefix of what follows the
      network location, with neither query nor fragment left in it. */
  function PathAfterScheme(scheme: string, rest: string): (r: Result<string, UrlError>)
    ensures r.Err? ==> r.error == InvalidIPv6Url
    ensures r.Ok? ==> StartsWith(SplitNetloc(rest).1, r.value) && '?' !in r.value && '#' !in r.value
  {
    var (netloc, afterNetloc) := SplitNetloc(rest);
    if UnmatchedBracket(netloc) then Err(InvalidIPv6Url)
    else Ok(CutParams(scheme, CutAt(CutAt(afterNetloc, '#'), '?')))
  }

  /** `urlparse(url).path`, or the `ValueError` raised on a network location
      with an unmatched `[` or `]`. */
  function UrlPath(url: string): (r: Result<string, UrlError>)
    ensures r.Err? ==> r.error == InvalidIPv6Url
    ensures r.Ok? ==> '?' !in r.value && '#' !in r.value
  {
    var (scheme, rest) := SplitScheme(RemoveUnsafe(LStripC0(url)));
    PathAfterScheme(scheme, rest)
  }

  /** `f"https://api.github.com/repos/{owner}/{repo}/releases"` */
  function ApiUrl(owner: string, repo: string): string
  {
    "https://api.github.com/repos/" + owner + "/" + repo + "/releases"
  }

  /** The parts of a parsed path once its outer `/`s are stripped. */
  function PathParts(path: string): seq<string>
  {
    Split(Strip(path, '/'), '/')
  }

  /** The API URL for a repository URL, or the error raised instead. */
  function ReleasesApiUrl(repoUrl: string): (r: Result<string, UrlError>)
    ensures UrlPath(repoUrl).Err? ==> r == Err(InvalidIPv6Url)
    ensures r.Err? ==> (r.error == InvalidIPv6Url <==> UrlPath(repoUrl).Err?)
    ensures r.Ok? ==> exists owner, repo :: '/' !in owner && '/' !in repo && r.value == ApiUrl(owner, repo)
  {
    match UrlPath(repoUrl)
    case Err(e) => Err(e)
    case Ok(path) =>
      var parts := PathParts(path);
      if |parts| < 2 then Err(MissingOwnerOrRepo)
      else
        assert parts[0] in parts && parts[1] in parts;
        Ok(ApiUrl(parts[0], parts[1]))
  }

  /** `RemoveUnsafe` keeps a string that has nothing to remove. */
  lemma {:induction false} RemoveUnsafeKeeps(s: string)
    requires forall c :: c in s ==> !IsUnsafe(c)
    ensures RemoveUnsafe(s) == s
    decreases |s|
  {
    if s != [] {
      assert forall c :: c in s[1..] ==> c in s;
      RemoveUnsafeKeeps(s[1..]);
      assert s == [s[0]] + s[1..];
    }
  }

  /** An `https:` URL without tabs or line breaks is left as it is by the
      cleaning steps. */
  lemma CleanHttps(rest: string)
    requires forall c :: c in rest ==> !IsUnsafe(c)
    ensures RemoveUnsafe(LStripC0("https:" + rest)) == "https:" + rest
  {
    var url := "https:" + rest;
    assert url[0] == 'h';
    assert LStripC0(url) == url;
    forall c | c in url ensures !IsUnsafe(c) {
      var i :| 0 <= i < |url| && url[i] == c;
      if i < 6 {
        assert url[i] == url[..6][i];
      } else {
        assert rest[i - 6] == c;
      }
    }
    RemoveUnsafeKeeps(url);
  }

  /** `https:` is split off as the scheme. */
  lemma SchemeOfHttps(rest: string)
    ensures SplitScheme("https:" + rest).1 == rest
  {
    var url := "https:" + rest;
    assert url[..5] == "https";
    FindOrAt(url, ':', 5);
    forall k | 0 <= k < 5 ensures IsSchemeChar(url[k]) {
      assert url[k] == url[..5][k];
    }
    assert url[6..] == rest;
  }

  lemma FirstDelimAt(s: string, i: nat)
    requires i <= |s| && forall k :: 0 <= k < i ==> !IsNetlocDelim(s[k])
    requires i < |s| ==> IsNetlocDelim(s[i])
    ensures FirstDelim(s) == i
  {
  }

  /** `//<host><path>` splits into the host and the path when the host holds
      no delimiter and the path is empty or starts with a delimiter. */
  lemma NetlocOf(host: string, path: string)
    requires forall c :: c in host ==> !IsNetlocDelim(c)
    requires path == "" || IsNetlocDelim(path[0])
    ensures SplitNetloc("//" + host + path) == (host, path)
  {
    var rest := "//" + host + path;
    assert rest[2..] == host + path;
    forall k | 0 <= k < |host| ensures !IsNetlocDelim((host + path)[k]) {
      assert host[k] in host;
    }
    FirstDelimAt(host + path, |host|);
  }

  /** An `https:` URL is parsed from what follows the scheme, whatever the
      scheme turned out to be. */
  lemma UrlPathOfHttpsRest(rest: string)
    requires forall c :: c in rest ==> !IsUnsafe(c)
    ensures exists scheme :: UrlPath("https:" + rest) == PathAfterScheme(scheme, rest)
  {
    CleanHttps(rest);
    SchemeOfHttps(rest);
    var scheme := SplitScheme("https:" + rest).0;
    assert UrlPath("https:" + rest) == PathAfterScheme(scheme, rest);
  }

  /** Cutting the fragment and then the query off `<path><extra>`, where
      `extra` is empty or starts with `?` or `#`, leaves `path`. */
  lemma CutQueryFragment(path: string, extra: string)
    requires '?' !in path && '#' !in path
    requires extra == "" || extra[0] == '?' || extra[0] == '#'
    ensures CutAt(CutAt(path + extra, '#'), '?') == path
  {
    var s := path + extra;
    assert s[..|path|] == path;
    var f := FindOr(s, '#');
    if |path| < f {
      assert s[|path|] == s[..f][|path|];
    }
    var u := s[..f];
    assert u[..|path|] == path;
    FindOrAt(u, '?', |path|);
  }

  /** After the scheme, `//<host><path><extra>` gives the path when the host
      holds no bracket, the path no query, fragment or parameters, and
      `extra` is empty or a query or fragment. */
  lemma PathAfterHost(scheme: string, host: string, path: string, extra: string)
    requires forall c :: c in host ==> !IsNetlocDelim(c) && c != '[' && c != ']'
    requires path == "" || path[0] == '/'
    requires forall c :: c in path ==> c != '?' && c != '#' && c != ';'
    requires extra == "" || extra[0] == '?' || extra[0] == '#'
    ensures PathAfterScheme(scheme, "//" + host + path + extra) == Ok(path)
  {
    assert "//" + host + path + extra == "//" + host + (path + extra);
    if path == "" {
      assert path + extra == extra;
    } else {
      assert (path + extra)[0] == path[0];
    }
    NetlocOf(host, path + extra);
    CutQueryFragment(path, extra);
  }

  /** What `urlparse` gives for `https://<host><path><extra>`: the path
      itself, when the host holds no delimiter or bracket, the path starts
      with `/` and holds no query, fragment or parameters, and `extra` is
      empty or a query or fragment. The host is not looked at. */
  lemma UrlPathOfHttps(host: string, path: string, extra: string)
    requires forall c :: c in host ==> !IsNetlocDelim(c) && c != '[' && c != ']' && !IsUnsafe(c)
    requires path == "" || path[0] == '/'
    requires forall c :: c in path ==> c != '?' && c != '#' && c != ';' && !IsUnsafe(c)
    requires extra == "" || extra[0] == '?' || extra[0] == '#'
    requires forall c :: c in extra ==> !IsUnsafe(c)
    ensures UrlPath("https://" + host + path + extra) == Ok(path)
  {
    var rest := "//" + host + path + extra;
    assert "https://" + host + path + extra == "https:" + rest;
    forall c | c in rest ensures !IsUnsafe(c) {
      assert c == '/' || c in host || c in path || c in extra;
    }
    UrlPathOfHttpsRest(rest);
    var scheme :| UrlPath("https:" + rest) == PathAfterScheme(scheme, rest);
    PathAfterHost(scheme, host, path, extra);
  }

  /** A split of `<owner>/<repo><t>`, with `t` empty or another `/`
      segment, starts with the owner and the repository. */
  lemma SplitOwnerRepo(owner: string, repo: string, t: string)
    requires '/' !in owner && '/' !in repo
    requires t == "" || t[0] == '/'
    ensures var parts := Split(owner + "/" + repo + t, '/');
      |parts| >= 2 && parts[0] == owner && parts[1] == repo
  {
    assert owner + "/" + repo + t == owner + ['/'] + (repo + t);
    SplitConcat(owner, repo + t, '/');
    SplitNoSeparator(owner, '/');
    if t == "" {
      assert repo + t == repo;
      SplitNoSeparator(repo, '/');
    } else {
      assert repo + t == repo + ['/'] + t[1..];
      SplitConcat(repo, t[1..], '/');
      SplitNoSeparator(repo, '/');
    }
  }

  /** Stripping the outer `/`s of `/<owner>/<repo><tail>` leaves
      `<owner>/<repo>` followed by a prefix of the tail. */
  lemma StripRepoPath(owner: string, repo: string, tail: string)
    requires owner != "" && '/' !in owner && repo != "" && '/' !in repo
    requires tail == "" || tail[0] == '/'
    ensures exists t :: (t == "" || t[0] == '/') && Strip("/" + owner + "/" + repo + tail, '/') == owner + "/" + repo + t
  {
    var head := owner + "/" + repo;
    assert "/" + owner + "/" + repo + tail == ['/'] + head + tail;
    assert head[0] == owner[0] && head[|head| - 1] == repo[|repo| - 1];
    StripWrapped(head, tail, '/');
  }

  /** A path `/<owner>/<repo><tail>` whose tail is empty or another `/`
      segment splits into parts that start with the owner and the repository. */
  lemma PathPartsOfRepo(owner: string, repo: string, tail: string)
    requires owner != "" && '/' !in owner && repo != "" && '/' !in repo
    requires tail == "" || tail[0] == '/'
    ensures var parts := PathParts("/" + owner + "/" + repo + tail);
      |parts| >= 2 && parts[0] == owner && parts[1] == repo
  {
    StripRepoPath(owner, repo, tail);
    var t :| (t == "" || t[0] == '/') && Strip("/" + owner + "/" + repo + tail, '/') == owner + "/" + repo + t;
    SplitOwnerRepo(owner, repo, t);
  }

  /** A GitHub repository URL `https://<host>/<owner>/<repo>` (with any
      further `/` segments, then any query or fragment) gives the releases
      endpoint of `<owner>/<repo>`; the host is never checked to be
      `github.com`. */
  lemma ApiUrlOfRepositoryUrl(host: string, owner: string, repo: string, tail: string, extra: string)
    requires forall c :: c in host ==> !IsNetlocDelim(c) && c != '[' && c != ']' && !IsUnsafe(c)
    requires owner != "" && '/' !in owner && repo != "" && '/' !in repo && (tail == "" || tail[0] == '/')
    requires forall c :: c in owner + repo + tail ==> c != '?' && c != '#' && c != ';' && !IsUnsafe(c)
    requires extra == "" || extra[0] == '?' || extra[0] == '#'
    requires forall c :: c in extra ==> !IsUnsafe(c)
    ensures ReleasesApiUrl("https://" + host + "/" + owner + "/" + repo + tail + extra) == Ok(ApiUrl(owner, repo))
  {
    var path := "/" + owner + "/" + repo + tail;
    assert "https://" + host + "/" + owner + "/" + repo + tail + extra == "https://" + host + path + extra;
    assert forall c :: c in path ==> c == '/' || c in owner + repo + tail;
    UrlPathOfHttps(host, path, extra);
    PathPartsOfRepo(owner, repo, tail);
  }

  /** `stripped` reads `<owner>/<repo>`, then nothing or further `/`
      segments. */
  predicate OwnerRepoPath(stripped: string, owner: string, repo: string, t: string)
  {
    '/' !in owner && '/' !in repo && (t == "" || t[0] == '/') && stripped == owner + "/" + repo + t
  }

  /** Once the URL parses, building fails exactly when the stripped path holds
      no inner `/`; otherwise the stripped path reads `<owner>/<repo>`, then
      nothing or further `/` segments, and the endpoint names that owner and
      repository. */
  lemma ReleasesApiUrlOutcome(repoUrl: string)
    requires UrlPath(repoUrl).Ok?
    ensures ReleasesApiUrl(repoUrl) == Err(MissingOwnerOrRepo) <==> '/' !in Strip(UrlPath(repoUrl).value, '/')
    ensures ReleasesApiUrl(repoUrl).Ok? ==>
      exists owner, repo, t ::
        OwnerRepoPath(Strip(UrlPath(repoUrl).value, '/'), owner, repo, t) &&
        ReleasesApiUrl(repoUrl) == Ok(ApiUrl(owner, repo))
  {
    var path := UrlPath(repoUrl).value;
    var stripped := Strip(path, '/');
    var parts := Split(stripped, '/');
    assert PathParts(path) == parts;
    SplitSingle(stripped, '/');
    if |parts| >= 2 {
      assert ReleasesApiUrl(repoUrl) == Ok(ApiUrl(parts[0], parts[1]));
      assert parts[0] in parts && parts[1] in parts;
      SplitFirstTwo(stripped, '/');
      var t :| (t == [] || t[0] == '/') && stripped == parts[0] + ['/'] + parts[1] + t;
      var owner, repo := parts[0], parts[1];
      assert stripped == owner + "/" + repo + t;
      assert OwnerRepoPath(stripped, owner, repo, t);
    }
  }

  /** A URL naming only the owner, such as `https://github.com/owner/`, has a
      single path part and fails. */
  lemma OwnerOnlyUrlFails(host: string, owner: string)
    requires forall c :: c in host ==> !IsNetlocDelim(c) && c != '[' && c != ']' && !IsUnsafe(c)
    requires forall c :: c in owner ==> c != '/' && c != '?' && c != '#' && c != ';' && !IsUnsafe(c)
    ensures ReleasesApiUrl("https://" + host + "/" + owner) == Err(MissingOwnerOrRepo)
    ensures ReleasesApiUrl("https://" + host + "/" + owner + "/") == Err(MissingOwnerOrRepo)
  {
    var p1 := "/" + owner;
    var p2 := "/" + owner + "/";
    var u1, u2 := "https://" + host + p1, "https://" + host + p2;
    assert u1 + "" == u1 && u2 + "" == u2;
    assert "https://" + host + "/" + owner == u1;
    assert "https://" + host + "/" + owner + "/" == u2;
    UrlPathOfHttps(host, p1, "");
    UrlPathOfHttps(host, p2, "");
    ReleasesApiUrlOutcome("https://" + host + p1);
    ReleasesApiUrlOutcome("https://" + host + p2);
    StripSurrounded(owner, '/');
  }

  /** A network location with an unmatched bracket fails, whatever the
      scheme. */
  lemma NetlocBracketFails(scheme: string, host: string, path: string)
    requires forall c :: c in host ==> !IsNetlocDelim(c)
    requires path == "" || path[0] == '/'
    requires UnmatchedBracket(host)
    ensures PathAfterScheme(scheme, "//" + host + path) == Err(InvalidIPv6Url)
  {
    NetlocOf(host, path);
  }

  /** A network location with an unmatched `[` or `]` makes `urlparse`
      raise, whatever path follows it. */
  lemma UnmatchedBracketFails(host: string, path: string)
    requires forall c :: c in host ==> !IsNetlocDelim(c) && !IsUnsafe(c)
    requires path == "" || path[0] == '/'
    requires forall c :: c in path ==> !IsUnsafe(c)
    requires UnmatchedBracket(host)
    ensures ReleasesApiUrl("https://" + host + path) == Err(InvalidIPv6Url)
  {
    var after := "//" + host + path;
    assert "https://" + host + path == "https:" + after;
    forall c | c in after ensures !IsUnsafe(c) {
      assert c == '/' || c in host || c in path;
    }
    UrlPathOfHttpsRest(after);
    var scheme :| UrlPath("https:" + after) == PathAfterScheme(scheme, after);
    NetlocBracketFails(scheme, host, path);
  }

  /** Removing tabs and line breaks works piecewise, so the characters kept
      stay in their order. */
  lemma {:induction false} RemoveUnsafeConcat(a: string, b: string)
    ensures RemoveUnsafe(a + b) == RemoveUnsafe(a) + RemoveUnsafe(b)
    decreases |a|
  {
    if a != [] {
      var head := if IsUnsafe(a[0]) then [] else [a[0]];
      assert (a + b)[0] == a[0] && (a + b)[1..] == a[1..] + b;
      assert RemoveUnsafe(a + b) == head + RemoveUnsafe(a[1..] + b);
      RemoveUnsafeConcat(a[1..], b);
      assert RemoveUnsafe(a) == head + RemoveUnsafe(a[1..]);
    } else {
      assert a + b == b;
    }
  }
}
