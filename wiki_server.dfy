/** The two tools of api/mcp_server.py, without their protocol host:
    `list_available_wikis`, which turns cache file names into summaries, and
    the path resolution and error returns of `query_wiki`.

    The filesystem (`os.path.exists`, `os.listdir`), the data root
    (`get_adalflow_default_root_path()`) and the retrieval engine are
    parameters. */
module WikiServer {
  import opened Text

  const CachePrefix: string := "deepwiki_cache_"
  const CacheSuffix: string := ".json"

  /** `os.path.join(a, b)` on POSIX. */
  function PathJoin(a: string, b: string): string
  {
    if StartsWith(b, "/") then b
    else if a == [] || EndsWith(a, "/") then a + b
    else a + "/" + b
  }

  // ---------------------------------------------------------------------------
  // Cache file names

  /** The name under which a wiki of the given type, owner, repository and
      language is cached. */
  function CacheFileName(repoType: string, owner: string, repo: string, language: string): string
  {
    CachePrefix + CacheBody(repoType, owner, repo, language) + CacheSuffix
  }

  function CacheBody(repoType: string, owner: string, repo: string, language: string): string
  {
    repoType + "_" + owner + "_" + repo + "_" + language
  }

  /** The filter of the listing loop. */
  predicate IsCacheFile(filename: string)
  {
    StartsWith(filename, CachePrefix) && EndsWith(filename, CacheSuffix)
  }

  /** `filename.replace("deepwiki_cache_", "").replace(".json", "").split('_')`. */
  function CacheParts(filename: string): seq<string>
  {
    Split(RemoveAll(RemoveAll(filename, CachePrefix), CacheSuffix), '_')
  }

  /** `f"{owner}/{repo} ({repo_type}) - {language}"`. */
  function Describe(owner: string, repo: string, repoType: string, language: string): string
  {
    owner + "/" + repo + " (" + repoType + ") - " + language
  }

  /** The entry `list_available_wikis` adds for one file name, if any: the
      first part is the type, the second the owner, the last the language, and
      the parts between, rejoined with `_`, the repository. */
  function WikiSummary(filename: string): (r: Option<string>)
    ensures r.Some? <==> IsCacheFile(filename) && |CacheParts(filename)| >= 4
  {
    if !IsCacheFile(filename) then None
    else
      var parts := CacheParts(filename);
      if |parts| < 4 then None
      else Some(Describe(parts[1], Join('_', parts[2..|parts| - 1]), parts[0], parts[|parts| - 1]))
  }

  /** A window that reaches into ".json" cannot be "deepwiki_cache_", whose last
      character is `_`. */
  lemma PrefixAbsentBeforeSuffix(body: string)
    requires NoOccurrence(body, CachePrefix)
    ensures NoOccurrence(body + CacheSuffix, CachePrefix)
  {
    var s := body + CacheSuffix;
    forall i: nat | i <= |s|
      ensures !OccursAt(s, CachePrefix, i)
    {
      if i + |CachePrefix| <= |body| {
        assert s[i..i + |CachePrefix|] == body[i..i + |CachePrefix|];
        assert !OccursAt(body, CachePrefix, i);
      } else if i + |CachePrefix| <= |s| {
        var j := i + |CachePrefix| - 1;
        assert CachePrefix[|CachePrefix| - 1] == '_';
        assert s[j] == CacheSuffix[j - |body|];
        assert s[j] in CacheSuffix;
        assert s[i..i + |CachePrefix|][|CachePrefix| - 1] == s[j];
      }
    }
  }

  /** An occurrence of ".json" that started inside the body and reached into the
      final ".json" would put its own `.` at a later position than 0. */
  lemma SuffixOnlyAtEnd(body: string)
    requires NoOccurrence(body, CacheSuffix)
    ensures forall i: nat :: i < |body| ==> !OccursAt(body + CacheSuffix, CacheSuffix, i)
  {
    var s := body + CacheSuffix;
    forall i: nat | i < |body|
      ensures !OccursAt(s, CacheSuffix, i)
    {
      if i + |CacheSuffix| <= |body| {
        assert s[i..i + |CacheSuffix|] == body[i..i + |CacheSuffix|];
        assert !OccursAt(body, CacheSuffix, i);
      } else if i + |CacheSuffix| <= |s| {
        var m := |body| - i;
        assert 1 <= m < |CacheSuffix|;
        assert s[|body|] == '.';
        assert s[i..i + |CacheSuffix|][m] == s[|body|];
      }
    }
  }

  /** The first `str.replace` removes only the leading marker. */
  lemma StripPrefixMarker(body: string)
    requires NoOccurrence(body, CachePrefix)
    ensures RemoveAll(CachePrefix + body + CacheSuffix, CachePrefix) == body + CacheSuffix
  {
    var s := CachePrefix + body + CacheSuffix;
    assert s[..|CachePrefix|] == CachePrefix;
    assert s[|CachePrefix|..] == body + CacheSuffix;
    PrefixAbsentBeforeSuffix(body);
    RemoveAllAbsent(body + CacheSuffix, CachePrefix);
  }

  /** `str.replace` with both markers leaves exactly the body when the body
      contains neither of them. */
  lemma StripMarkers(body: string)
    requires NoOccurrence(body, CachePrefix) && NoOccurrence(body, CacheSuffix)
    ensures RemoveAll(RemoveAll(CachePrefix + body + CacheSuffix, CachePrefix), CacheSuffix) == body
  {
    StripPrefixMarker(body);
    StripSuffixMarker(body);
  }

  /** The second `str.replace` removes only the trailing marker. */
  lemma StripSuffixMarker(body: string)
    requires NoOccurrence(body, CacheSuffix)
    ensures RemoveAll(body + CacheSuffix, CacheSuffix) == body
  {
    SuffixOnlyAtEnd(body);
    RemoveAllKeepsPrefix(body, CacheSuffix, CacheSuffix);
    assert CacheSuffix[..|CacheSuffix|] == CacheSuffix;
    assert RemoveAll(CacheSuffix, CacheSuffix) == RemoveAll([], CacheSuffix) == [];
    assert body + [] == body;
  }

  /** The body's split: type, owner, the repository's own pieces, language. */
  lemma SplitBody(repoType: string, owner: string, repo: string, language: string)
    requires '_' !in repoType && '_' !in owner && '_' !in language
    ensures Split(CacheBody(repoType, owner, repo, language), '_')
         == [repoType, owner] + Split(repo, '_') + [language]
  {
    var tail := repo + "_" + language;
    var mid := owner + "_" + tail;
    calc {
      Split(CacheBody(repoType, owner, repo, language), '_');
      { assert CacheBody(repoType, owner, repo, language) == repoType + "_" + mid; }
      Split(repoType + "_" + mid, '_');
      { SplitLeading(repoType, mid); }
      [repoType] + Split(mid, '_');
      { SplitLeading(owner, tail); }
      [repoType] + ([owner] + Split(tail, '_'));
      { SplitTrailing(repo, language); }
      [repoType] + ([owner] + (Split(repo, '_') + [language]));
      [repoType, owner] + Split(repo, '_') + [language];
    }
  }

  /** A leading token without `_` is the first part. */
  lemma SplitLeading(a: string, rest: string)
    requires '_' !in a
    ensures Split(a + "_" + rest, '_') == [a] + Split(rest, '_')
  {
    assert a + "_" + rest == a + ['_'] + rest;
    SplitAtSeparator(a, rest, '_');
  }

  /** A trailing token without `_` is the last part. */
  lemma SplitTrailing(a: string, last: string)
    requires '_' !in last
    ensures Split(a + "_" + last, '_') == Split(a, '_') + [last]
  {
    assert a + "_" + last == a + ['_'] + last;
    SplitBeforeLast(a, last, '_');
  }

  /** Round trip: the summary of a cache file name gives back its owner,
      repository, type and language, even when the repository name contains
      `_`, provided type, owner and language do not, and the part between the
      markers contains neither marker. */
  lemma CacheNameRoundTrip(repoType: string, owner: string, repo: string, language: string)
    requires '_' !in repoType && '_' !in owner && '_' !in language
    requires NoOccurrence(CacheBody(repoType, owner, repo, language), CachePrefix)
    requires NoOccurrence(CacheBody(repoType, owner, repo, language), CacheSuffix)
    ensures WikiSummary(CacheFileName(repoType, owner, repo, language)) == Some(Describe(owner, repo, repoType, language))
  {
    var name := CacheFileName(repoType, owner, repo, language);
    CachePartsOf(repoType, owner, repo, language);
    var parts := CacheParts(name);
    assert parts[2..|parts| - 1] == Split(repo, '_');
    JoinSplit(repo, '_');
  }

  /** The file name passes the filter and splits into type, owner, the
      repository's pieces and language. */
  lemma CachePartsOf(repoType: string, owner: string, repo: string, language: string)
    requires '_' !in repoType && '_' !in owner && '_' !in language
    requires NoOccurrence(CacheBody(repoType, owner, repo, language), CachePrefix)
    requires NoOccurrence(CacheBody(repoType, owner, repo, language), CacheSuffix)
    ensures IsCacheFile(CacheFileName(repoType, owner, repo, language))
    ensures CacheParts(CacheFileName(repoType, owner, repo, language)) == [repoType, owner] + Split(repo, '_') + [language]
  {
    var body := CacheBody(repoType, owner, repo, language);
    var name := CacheFileName(repoType, owner, repo, language);
    assert name[..|CachePrefix|] == CachePrefix;
    assert name[|name| - |CacheSuffix|..] == CacheSuffix;
    calc {
      CacheParts(name);
      Split(RemoveAll(RemoveAll(CachePrefix + body + CacheSuffix, CachePrefix), CacheSuffix), '_');
      { StripMarkers(body); }
      Split(body, '_');
      { SplitBody(repoType, owner, repo, language); }
      [repoType, owner] + Split(repo, '_') + [language];
    }
  }

  /** Markers are removed wherever they occur: a repository named
      `r1 + ".json" + r2` is listed as `r1 + r2`. */
  lemma SuffixInsideRepoIsRemoved(repoType: string, owner: string, r1: string, r2: string, language: string)
    requires '_' !in repoType && '_' !in owner && '_' !in language
    requires '.' !in repoType && '.' !in owner && '.' !in r1 && '.' !in r2 && '.' !in language
    requires NoOccurrence(CacheBody(repoType, owner, r1 + CacheSuffix + r2, language), CachePrefix)
    ensures WikiSummary(CacheFileName(repoType, owner, r1 + CacheSuffix + r2, language))
         == Some(Describe(owner, r1 + r2, repoType, language))
  {
    var name := CacheFileName(repoType, owner, r1 + CacheSuffix + r2, language);
    assert name[..|CachePrefix|] == CachePrefix;
    assert name[|name| - |CacheSuffix|..] == CacheSuffix;
    StripSuffixInsideRepo(repoType, owner, r1, r2, language);
    SplitBody(repoType, owner, r1 + r2, language);
    JoinSplit(r1 + r2, '_');
    var parts := CacheParts(name);
    assert parts[2..|parts| - 1] == Split(r1 + r2, '_');
  }

  lemma StripSuffixInsideRepo(repoType: string, owner: string, r1: string, r2: string, language: string)
    requires '.' !in repoType && '.' !in owner && '.' !in r1 && '.' !in r2 && '.' !in language
    requires NoOccurrence(CacheBody(repoType, owner, r1 + CacheSuffix + r2, language), CachePrefix)
    ensures RemoveAll(RemoveAll(CacheFileName(repoType, owner, r1 + CacheSuffix + r2, language), CachePrefix), CacheSuffix)
         == CacheBody(repoType, owner, r1 + r2, language)
  {
    StripPrefixMarker(CacheBody(repoType, owner, r1 + CacheSuffix + r2, language));
    StripBothSuffixes(repoType, owner, r1, r2, language);
  }

  lemma StripBothSuffixes(repoType: string, owner: string, r1: string, r2: string, language: string)
    requires '.' !in repoType && '.' !in owner && '.' !in r1 && '.' !in r2 && '.' !in language
    ensures RemoveAll(CacheBody(repoType, owner, r1 + CacheSuffix + r2, language) + CacheSuffix, CacheSuffix)
         == CacheBody(repoType, owner, r1 + r2, language)
  {
    var a := repoType + "_" + owner + "_" + r1;
    var b := r2 + "_" + language;
    calc {
      RemoveAll(CacheBody(repoType, owner, r1 + CacheSuffix + r2, language) + CacheSuffix, CacheSuffix);
      { assert CacheBody(repoType, owner, r1 + CacheSuffix + r2, language) + CacheSuffix == a + (CacheSuffix + b + CacheSuffix); }
      RemoveAll(a + (CacheSuffix + b + CacheSuffix), CacheSuffix);
      { StripAround(a, b); }
      a + b;
      { assert a + b == CacheBody(repoType, owner, r1 + r2, language); }
      CacheBody(repoType, owner, r1 + r2, language);
    }
  }

  /** A string lacking one of the pattern's characters does not contain it. */
  lemma AbsentChar(s: string, pat: string, c: char)
    requires c in pat && c !in s
    ensures NoOccurrence(s, pat)
  {
    forall i: nat | i <= |s|
      ensures !OccursAt(s, pat, i)
    {
      if i + |pat| <= |s| {
        var k :| 0 <= k < |pat| && pat[k] == c;
        assert s[i..i + |pat|][k] == s[i + k];
        assert s[i + k] in s;
      }
    }
  }

  /** A prefix lacking the pattern's first character starts no occurrence. */
  lemma FirstCharAbsent(a: string, b: string, pat: string)
    requires pat != [] && pat[0] !in a
    ensures forall i: nat :: i < |a| ==> !OccursAt(a + b, pat, i)
  {
    forall i: nat | i < |a|
      ensures !OccursAt(a + b, pat, i)
    {
      if i + |pat| <= |a + b| {
        assert (a + b)[i..i + |pat|][0] == a[i];
        assert a[i] in a;
      }
    }
  }

  /** Used by `SuffixInsideRepoIsRemoved`: ".json" in the middle and at the end of
      `a + ".json" + b + ".json"` are both removed. */
  lemma StripAround(a: string, b: string)
    requires '.' !in a && '.' !in b
    ensures RemoveAll(a + (CacheSuffix + b + CacheSuffix), CacheSuffix) == a + b
  {
    var rest := CacheSuffix + b + CacheSuffix;
    FirstCharAbsent(a, rest, CacheSuffix);
    RemoveAllKeepsPrefix(a, rest, CacheSuffix);
    assert rest[..|CacheSuffix|] == CacheSuffix;
    assert rest[|CacheSuffix|..] == b + CacheSuffix;
    FirstCharAbsent(b, CacheSuffix, CacheSuffix);
    RemoveAllKeepsPrefix(b, CacheSuffix, CacheSuffix);
    assert CacheSuffix[..|CacheSuffix|] == CacheSuffix;
    assert RemoveAll(CacheSuffix, CacheSuffix) == RemoveAll([], CacheSuffix) == [];
    assert b + [] == b;
  }

  /** Tokens free of `_` and of both markers are not enough for the round trip:
      a type "deepwiki" followed by an owner "cache" spells the prefix marker
      again, both copies are removed, only two parts are left, and the file is
      not listed. */
  lemma MarkerAcrossTokensDropsEntry(repo: string, language: string)
    requires '_' !in repo && '_' !in language
    requires NoOccurrence(repo + "_" + language, CachePrefix)
    requires NoOccurrence(repo + "_" + language, CacheSuffix)
    ensures WikiSummary(CacheFileName("deepwiki", "cache", repo, language)) == None
  {
    var rest := repo + "_" + language;
    var name := CacheFileName("deepwiki", "cache", repo, language);
    assert CacheBody("deepwiki", "cache", repo, language) == CachePrefix + rest;
    assert RemoveAll(name, CachePrefix) == rest + CacheSuffix by {
      assert name == CachePrefix + (CachePrefix + rest + CacheSuffix);
      assert name[..|CachePrefix|] == CachePrefix;
      assert name[|CachePrefix|..] == CachePrefix + rest + CacheSuffix;
      StripPrefixMarker(rest);
    }
    StripSuffixMarker(rest);
    assert rest == repo + ['_'] + language;
    SplitAtSeparator(repo, language, '_');
    SplitNoSeparator(language, '_');
    assert |CacheParts(name)| == 2;
  }

  // ---------------------------------------------------------------------------
  // list_available_wikis

  /** The summaries for a listing, in listing order, one per accepted name. */
  function Summaries(names: seq<string>): seq<string>
  {
    if names == [] then []
    else
      var last := names[|names| - 1];
      Summaries(names[..|names| - 1]) + (if WikiSummary(last).Some? then [WikiSummary(last).value] else [])
  }

  /** `list_available_wikis()`: nothing when the cache directory is missing,
      otherwise the summary of every accepted name in `os.listdir` order.
      `listdir` gives `None` where `os.listdir` raises (the path is a file, or
      cannot be read); the tool has no handler, so the exception escapes, and
      the result is then `None`. */
  method ListAvailableWikis(root: string, pathExists: string -> bool, listdir: string -> Option<seq<string>>)
    returns (result: Option<seq<string>>)
    ensures !pathExists(PathJoin(root, "wikicache")) ==> result == Some([])
    ensures pathExists(PathJoin(root, "wikicache")) && listdir(PathJoin(root, "wikicache")).None? ==> result == None
    ensures pathExists(PathJoin(root, "wikicache")) && listdir(PathJoin(root, "wikicache")).Some?
            ==> result == Some(Summaries(listdir(PathJoin(root, "wikicache")).value))
  {
    var cacheDir := PathJoin(root, "wikicache");
    if !pathExists(cacheDir) {
      return Some([]);
    }
    var listed := listdir(cacheDir);
    if listed.None? {
      return None;
    }
    var wikis := [];
    var names := listed.value;
    var i := 0;
    while i < |names|
      invariant i <= |names|
      invariant wikis == Summaries(names[..i])
    {
      var filename := names[i];
      assert names[..i + 1][..i] == names[..i];
      if StartsWith(filename, CachePrefix) && EndsWith(filename, CacheSuffix) {
        var parts := Split(RemoveAll(RemoveAll(filename, CachePrefix), CacheSuffix), '_');
        if |parts| >= 4 {
          var repoType := parts[0];
          var owner := parts[1];
          var language := parts[|parts| - 1];
          var repo := Join('_', parts[2..|parts| - 1]);
          wikis := wikis + [owner + "/" + repo + " (" + repoType + ") - " + language];
        }
      }
      i := i + 1;
    }
    assert names[..i] == names;
    result := Some(wikis);
  }

  lemma {:induction false} SummariesAppend(a: seq<string>, b: seq<string>)
    ensures Summaries(a + b) == Summaries(a) + Summaries(b)
    decreases |b|
  {
    if b == [] {
      assert a + b == a;
    } else {
      assert (a + b)[..|a + b| - 1] == a + b[..|b| - 1];
      SummariesAppend(a, b[..|b| - 1]);
    }
  }

  /** Each accepted name contributes its summary and every summary comes from
      an accepted name. */
  lemma {:induction false} SummariesMembers(names: seq<string>)
    ensures forall f :: f in names && WikiSummary(f).Some? ==> WikiSummary(f).value in Summaries(names)
    ensures forall s :: s in Summaries(names) ==> exists f :: f in names && WikiSummary(f) == Some(s)
    decreases |names|
  {
    if names != [] {
      var init := names[..|names| - 1];
      SummariesMembers(init);
      assert forall f :: f in names ==> f in init || f == names[|names| - 1];
      assert forall f :: f in init ==> f in names;
    }
  }

  /** The number of summaries is the number of accepted names. */
  function CountAccepted(names: seq<string>): nat
  {
    if names == [] then 0
    else CountAccepted(names[..|names| - 1]) + (if WikiSummary(names[|names| - 1]).Some? then 1 else 0)
  }

  lemma {:induction false} SummariesCount(names: seq<string>)
    ensures |Summaries(names)| == CountAccepted(names) <= |names|
    decreases |names|
  {
    if names != [] {
      SummariesCount(names[..|names| - 1]);
    }
  }

  // ---------------------------------------------------------------------------
  // query_wiki

  /** `os.path.join(root, "repos", name)`. */
  function ReposPath(root: string, name: string): string
  {
    PathJoin(PathJoin(root, "repos"), name)
  }

  /** The first place looked at: `{owner}_{repo}` under the repositories directory. */
  function Primary(root: string, owner: string, repo: string): string
  {
    ReposPath(root, owner + "_" + repo)
  }

  /** The fallback: `{repo}` alone. */
  function Alternative(root: string, repo: string): string
  {
    ReposPath(root, repo)
  }

  /** The reply when no local copy of the repository is found. */
  function NotFoundMessage(owner: string, repo: string): string
  {
    "Error: Repository " + owner + "/" + repo + " not found locally. Please generate the wiki first."
  }

  /** What the retrieval engine does with a path, a type and a question: an
      answer, or an exception with its message. */
  datatype RagOutcome = Answered(answer: string) | Raised(message: string)

  /** The path choice of `query_wiki`: `{owner}_{repo}` when it exists,
      otherwise `{repo}` when that exists, otherwise none. */
  method ResolveRepoPath(root: string, owner: string, repo: string, pathExists: string -> bool)
    returns (found: Option<string>)
    ensures found.Some? <==> pathExists(Primary(root, owner, repo)) || pathExists(Alternative(root, repo))
    ensures found.Some? ==> pathExists(found.value)
    ensures found.Some? ==> found.value == Primary(root, owner, repo) || found.value == Alternative(root, repo)
    ensures pathExists(Primary(root, owner, repo)) ==> found == Some(Primary(root, owner, repo))
  {
    var repoPath := ReposPath(root, owner + "_" + repo);
    if !pathExists(repoPath) {
      var repoPathAlt := ReposPath(root, repo);
      if pathExists(repoPathAlt) {
        repoPath := repoPathAlt;
      }
    }
    if !pathExists(repoPath) {
      return None;
    }
    return Some(repoPath);
  }

  /** The repository type `query_wiki` uses when its caller gives none. */
  const DefaultRepoType: string := "github"

  /** `query_wiki(query, owner, repo, repo_type)`: the not-found message,
      which does not depend on `rag` at all, when neither path exists;
      otherwise the engine's answer, or "Error processing query: " and the
      message of the exception it raised. */
  method QueryWiki(query: string, owner: string, repo: string, repoType: string,
                   root: string, pathExists: string -> bool,
                   rag: (string, string, string) -> RagOutcome)
    returns (reply: string)
    ensures !pathExists(Primary(root, owner, repo)) && !pathExists(Alternative(root, repo)) ==> reply == NotFoundMessage(owner, repo)
    ensures pathExists(Primary(root, owner, repo)) ==> reply == Reply(rag(Primary(root, owner, repo), repoType, query))
    ensures !pathExists(Primary(root, owner, repo)) && pathExists(Alternative(root, repo)) ==> reply == Reply(rag(Alternative(root, repo), repoType, query))
  {
    var found := ResolveRepoPath(root, owner, repo, pathExists);
    if found.None? {
      return NotFoundMessage(owner, repo);
    }
    match rag(found.value, repoType, query)
    case Answered(answer) =>
      reply := answer;
    case Raised(message) =>
      reply := "Error processing query: " + message;
  }

  /** The reply for what the engine did. */
  function Reply(outcome: RagOutcome): string
  {
    match outcome
    case Answered(answer) => answer
    case Raised(message) => "Error processing query: " + message
  }
}
