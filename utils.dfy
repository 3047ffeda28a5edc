/** The text utilities of bskybook/utils.py: the URL scanner used on post text,
    file-name sanitising, truncation with an ellipsis, and recovering a handle
    from a profile URL. All of them are pure string functions. */
module Utils {
  import opened Wrappers
  import opened Strings

  // ---------------------------------------------------------------------------
  // extract_links: `findall` of  http[s]?://(?:[a-zA-Z]|[0-9]|[$-_@.&+]|[!*\(\),]|(?:%XX))+
  // ---------------------------------------------------------------------------

  /** A character the URL pattern accepts after the scheme. The class `[$-_]` is
      the code-point range from '$' to '_', which already holds '%', ':', '/',
      '?', '=', '@', '.', '&', '+', '(', ')', ',', '*' and '\', so the `%XX`
      alternative never lengthens a match; of the listed extras only '!' lies
      outside that range. Digits and capitals lie inside it; lower-case letters
      do not. */
  predicate UrlChar(c: char) {
    ('a' <= c <= 'z') || ('$' <= c <= '_') || c == '!'
  }

  /** Length of the scheme part `http://` or `https://` at position i, 0 if absent. */
  function SchemeLength(text: string, i: nat): (n: nat)
    requires i <= |text|
    ensures n == 0 || n == 7 || n == 8
  {
    if PrefixAt(text, i, "https://") then 8
    else if PrefixAt(text, i, "http://") then 7
    else 0
  }

  /** End of the longest run of URL characters starting at j (greedy `+`). */
  function RunEnd(text: string, j: nat): (e: nat)
    requires j <= |text|
    ensures j <= e <= |text|
    decreases |text| - j
  {
    if j < |text| && UrlChar(text[j]) then RunEnd(text, j + 1) else j
  }

  /** The run RunEnd finds is all URL characters and cannot be extended. */
  lemma {:induction false} RunEndMaximal(text: string, j: nat)
    requires j <= |text|
    ensures forall k :: j <= k < RunEnd(text, j) ==> UrlChar(text[k])
    ensures RunEnd(text, j) == |text| || !UrlChar(text[RunEnd(text, j)])
    decreases |text| - j
  {
    if j < |text| && UrlChar(text[j]) {
      RunEndMaximal(text, j + 1);
    }
  }

  /** End of the match that starts at i, if the pattern matches there. With
      `https://` followed by no URL character the engine backtracks to the
      optional `s` absent, which then fails on "s:/", so there is no match. */
  function MatchAt(text: string, i: nat): (m: Option<nat>)
    requires i <= |text|
    ensures m.Some? ==> i < m.value <= |text|
    ensures m.Some? ==> SchemeLength(text, i) > 0 && i + SchemeLength(text, i) < m.value
  {
    var n := SchemeLength(text, i);
    if n == 0 then None
    else
      var e := RunEnd(text, i + n);
      if e == i + n then None else Some(e)
  }

  /** The match ends at every position of the text: entry i is MatchAt(text, i). */
  function MatchTable(text: string): (m: seq<Option<nat>>)
    ensures |m| == |text| && Table(m)
  {
    seq(|text|, i requires 0 <= i < |text| => MatchAt(text, i))
  }

  /** A table of match ends: a match starting at i ends after i and within the text. */
  predicate Table(m: seq<Option<nat>>) {
    forall i :: 0 <= i < |m| && m[i].Some? ==> i < m[i].value <= |m|
  }

  /** The spans `findall` reports when it scans from position i: try to match at
      the current position; on success record it and resume at its end,
      otherwise move one character on. Every span lies in positions i and
      after, and the spans come in text order without overlapping. */
  function Scan(m: seq<Option<nat>>, i: nat): (sp: seq<(nat, nat)>)
    requires Table(m) && i <= |m|
    ensures forall k :: 0 <= k < |sp| ==> i <= sp[k].0 < sp[k].1 <= |m|
    ensures forall k :: 0 <= k < |sp| - 1 ==> sp[k].1 <= sp[k + 1].0
    decreases |m| - i
  {
    if i == |m| then []
    else if m[i].Some? then [(i, m[i].value)] + Scan(m, m[i].value)
    else Scan(m, i + 1)
  }

  /** Every reported span is a match at its own start. */
  lemma {:induction false} ScanMatches(m: seq<Option<nat>>, i: nat)
    requires Table(m) && i <= |m|
    ensures forall k :: 0 <= k < |Scan(m, i)| ==> m[Scan(m, i)[k].0] == Some(Scan(m, i)[k].1)
    decreases |m| - i
  {
    if i < |m| {
      if m[i].Some? {
        ScanMatches(m, m[i].value);
        var rest := Scan(m, m[i].value);
        assert forall k :: 1 <= k < |rest| + 1 ==> ([(i, m[i].value)] + rest)[k] == rest[k - 1];
      } else {
        ScanMatches(m, i + 1);
      }
    }
  }

  /** The scan misses nothing: every position from i on at which a match starts
      lies inside some reported span; k is that span. */
  lemma {:induction false} ScanCovers(m: seq<Option<nat>>, i: nat, p: nat) returns (k: nat)
    requires Table(m) && i <= p < |m| && m[p].Some?
    ensures k < |Scan(m, i)| && Scan(m, i)[k].0 <= p < Scan(m, i)[k].1
    decreases |m| - i
  {
    if m[i].Some? {
      var e := m[i].value;
      if p < e {
        k := 0;
      } else {
        var j := ScanCovers(m, e, p);
        k := j + 1;
      }
    } else {
      k := ScanCovers(m, i + 1, p);
    }
  }

  function LinkSpans(text: string): seq<(nat, nat)> {
    Scan(MatchTable(text), 0)
  }

  /** Python's extract_links. */
  function ExtractLinks(text: string): (links: seq<string>)
  {
    var spans := LinkSpans(text);
    seq(|spans|, k requires 0 <= k < |spans| => text[spans[k].0..spans[k].1])
  }

  /** A string of the shape the pattern accepts as a whole. */
  predicate IsUrl(u: string) {
    (StartsWith(u, "https://") && |u| > 8 && forall k :: 8 <= k < |u| ==> UrlChar(u[k]))
    || (StartsWith(u, "http://") && |u| > 7 && forall k :: 7 <= k < |u| ==> UrlChar(u[k]))
  }

  /** A match found at a position is a URL of the accepted shape that cannot be
      extended to the right. */
  lemma MatchIsUrl(text: string, s: nat, e: nat)
    requires s <= |text| && MatchAt(text, s) == Some(e)
    ensures IsUrl(text[s..e])
    ensures e == |text| || !UrlChar(text[e])
  {
    var n := SchemeLength(text, s);
    RunEndMaximal(text, s + n);
    if n == 8 {
      PrefixAtIff(text, s, "https://");
      SchemeRun(text, s, e, "https://");
    } else {
      PrefixAtIff(text, s, "http://");
      SchemeRun(text, s, e, "http://");
    }
  }

  /** Where the pattern can match, read off the pattern itself: `http://` or
      `https://` followed by at least one URL character. */
  predicate UrlStartsAt(text: string, p: nat)
    requires p <= |text|
  {
    (StartsWith(text[p..], "https://") && p + 8 < |text| && UrlChar(text[p + 8]))
    || (StartsWith(text[p..], "http://") && p + 7 < |text| && UrlChar(text[p + 7]))
  }

  /** The matcher finds a match exactly where the pattern can match: it misses
      no URL and invents none. */
  lemma MatchAtIff(text: string, p: nat)
    requires p <= |text|
    ensures MatchAt(text, p).Some? <==> UrlStartsAt(text, p)
  {
    PrefixAtIff(text, p, "https://");
    PrefixAtIff(text, p, "http://");
    if StartsWith(text[p..], "https://") {
      // the fifth character is 's', so "http://" cannot start here as well
      assert text[p..][..8][4] == 's';
      assert !StartsWith(text[p..], "http://");
    }
  }

  /** A scheme followed by a non-empty run of URL characters, cut out of the text. */
  lemma SchemeRun(text: string, s: nat, e: nat, scheme: string)
    requires s + |scheme| < e <= |text| && StartsWith(text[s..], scheme)
    requires forall k :: s + |scheme| <= k < e ==> UrlChar(text[k])
    ensures var u := text[s..e];
      StartsWith(u, scheme) && |u| > |scheme| && forall k :: |scheme| <= k < |u| ==> UrlChar(u[k])
  {
    var u := text[s..e];
    assert u[..|scheme|] == text[s..][..|scheme|];
    forall k | |scheme| <= k < |u| ensures UrlChar(u[k]) {
      assert u[k] == text[s + k];
    }
  }

  /** What extract_links returns: each link is `http://` or `https://` followed
      by at least one URL character and is the whole maximal run at its place;
      the links are the text's matches in text order, not overlapping, with
      repetitions kept; and every position where a URL starts lies in one of
      them. */
  lemma ExtractLinksSound(text: string)
    ensures var links, spans := ExtractLinks(text), LinkSpans(text);
      |links| == |spans|
      && (forall k :: 0 <= k < |links| ==>
            spans[k].0 < spans[k].1 <= |text|
            && links[k] == text[spans[k].0..spans[k].1]
            && IsUrl(links[k])
            && (spans[k].1 == |text| || !UrlChar(text[spans[k].1])))
      && (forall k :: 0 <= k < |spans| - 1 ==> spans[k].1 <= spans[k + 1].0)
      && (forall p :: 0 <= p < |text| && UrlStartsAt(text, p) ==>
            exists k :: 0 <= k < |spans| && spans[k].0 <= p < spans[k].1)
  {
    var m := MatchTable(text);
    var spans := LinkSpans(text);
    ScanMatches(m, 0);
    forall k | 0 <= k < |spans|
      ensures IsUrl(text[spans[k].0..spans[k].1])
      ensures spans[k].1 == |text| || !UrlChar(text[spans[k].1])
    {
      assert m[spans[k].0] == Some(spans[k].1);
      MatchIsUrl(text, spans[k].0, spans[k].1);
    }
    forall p | 0 <= p < |text| && UrlStartsAt(text, p)
      ensures exists k :: 0 <= k < |spans| && spans[k].0 <= p < spans[k].1
    {
      MatchAtIff(text, p);
      assert m[p] == MatchAt(text, p);
      var k := ScanCovers(m, 0, p);
    }
  }

  // ---------------------------------------------------------------------------
  // sanitize_filename
  // ---------------------------------------------------------------------------

  /** The class `[<>:"/\\|?*]` of the substitution. */
  predicate ForbiddenInFilename(c: char) {
    c in {'<', '>', ':', '"', '/', '\\', '|', '?', '*'}
  }

  const MaxFilenameLength: nat := 200

  /** Python's sanitize_filename: every forbidden character becomes '_', then the
      name is cut to 200 characters. */
  function SanitizeFilename(filename: string): (r: string)
    ensures |r| == if |filename| > MaxFilenameLength then MaxFilenameLength else |filename|
    ensures forall i :: 0 <= i < |r| ==> !ForbiddenInFilename(r[i])
    ensures forall i :: 0 <= i < |r| && !ForbiddenInFilename(filename[i]) ==> r[i] == filename[i]
    ensures forall i :: 0 <= i < |r| && ForbiddenInFilename(filename[i]) ==> r[i] == '_'
  {
    var replaced := seq(|filename|, i requires 0 <= i < |filename| =>
      if ForbiddenInFilename(filename[i]) then '_' else filename[i]);
    if |replaced| > MaxFilenameLength then replaced[..MaxFilenameLength] else replaced
  }

  /** Sanitising a sanitised name changes nothing. */
  lemma SanitizeFilenameIdempotent(filename: string)
    ensures SanitizeFilename(SanitizeFilename(filename)) == SanitizeFilename(filename)
  {
    var once := SanitizeFilename(filename);
    var twice := SanitizeFilename(once);
    assert |twice| == |once|;
    forall i | 0 <= i < |once| ensures twice[i] == once[i] {
      assert !ForbiddenInFilename(once[i]);
    }
  }

  // ---------------------------------------------------------------------------
  // truncate_text
  // ---------------------------------------------------------------------------

  /** Python's truncate_text: `text[:max_length - 3] + '...'` when too long. A
      bound below 3 makes the slice index negative, which Python counts from
      the end of the text. */
  function TruncateText(text: string, maxLength: int): (r: string)
    ensures |text| <= maxLength ==> r == text
    ensures |text| > maxLength >= 3 ==>
      |r| == maxLength && EndsWith(r, "...") && StartsWith(text, r[..maxLength - 3])
  {
    if |text| <= maxLength then text else SliceTo(text, maxLength - 3) + "..."
  }

  // ---------------------------------------------------------------------------
  // extract_handle_from_url
  // ---------------------------------------------------------------------------

  predicate IsHttpUrl(url: string) {
    StartsWith(url, "http://") || StartsWith(url, "https://")
  }

  /** The characters urlsplit deletes before it splits. */
  predicate UnsafeUrlChar(c: char) {
    c == '\t' || c == '\r' || c == '\n'
  }

  /** urlsplit first deletes every tab, carriage return and line feed. */
  function RemoveUnsafe(s: string): (r: string)
    ensures |r| <= |s|
  {
    if s == [] then []
    else (if UnsafeUrlChar(s[0]) then [] else [s[0]]) + RemoveUnsafe(s[1..])
  }

  /** urlparse's `_splitparams`: the path stops at the first ';' after its
      last '/' (or at its first ';' when it has no '/'). */
  function DropParams(path: string): (r: string)
    ensures |r| <= |path| && r == path[..|r|]
  {
    var slash := LastIndexOf(path, '/');
    if slash >= 0 then path[..slash + IndexOfAny(path[slash..], {';'})]
    else path[..IndexOfAny(path, {';'})]
  }

  /** urlsplit's scheme split: everything after the first ':' (the whole
      string when there is none). */
  function AfterScheme(u: string): (r: string)
    ensures |r| <= |u| && r == u[|u| - |r|..]
  {
    var c := IndexOfAny(u, {':'});
    if c < |u| then u[c + 1..] else u
  }

  /** urlsplit's network-location split: after a leading "//", the network
      location runs to the first '/', '?' or '#'; without "//" it is empty. */
  function SplitNetloc(s: string): (parts: (string, string))
    ensures parts.0 + parts.1 == s || "//" + parts.0 + parts.1 == s
  {
    if StartsWith(s, "//") then
      var hier := s[2..];
      var e := IndexOfAny(hier, {'/', '?', '#'});
      assert "//" + hier[..e] + hier[e..] == s;
      (hier[..e], hier[e..])
    else ("", s)
  }

  /** The `netloc` and `path` fields urlparse gives: after the scheme, the
      network location as above; the path runs from there to the first '?' or
      '#', minus the `;params` of its last segment. */
  function NetlocAndPath(url: string): (string, string)
  {
    var (net, rest) := SplitNetloc(AfterScheme(RemoveUnsafe(url)));
    (net, DropParams(rest[..IndexOfAny(rest, {'?', '#'})]))
  }

  /** Python's extract_handle_from_url. */
  function ExtractHandleFromUrl(url: string): (handle: string)
    ensures !IsHttpUrl(url) ==> handle == url
    ensures IsHttpUrl(url) && handle != url ==>
      Contains(NetlocAndPath(url).0, "bsky.app") && Contains(NetlocAndPath(url).1, "/profile/")
      && (handle == [] || (handle[0] != '/' && handle[|handle| - 1] != '/'))
  {
    if !IsHttpUrl(url) then url
    else
      var (netloc, path) := NetlocAndPath(url);
      if Contains(netloc, "bsky.app") && Contains(path, "/profile/") then
        Strip(ReplaceAll(path, "/profile/", ""), '/')
      else url
  }

  lemma RemoveUnsafeNoop(s: string)
    requires forall j :: 0 <= j < |s| ==> !UnsafeUrlChar(s[j])
    ensures RemoveUnsafe(s) == s
  {
  }

  /** Replacing a pattern whose first character never occurs changes nothing. */
  lemma ReplaceAllAbsent(s: string, pat: string, rep: string)
    requires pat != [] && forall j :: 0 <= j < |s| ==> s[j] != pat[0]
    ensures ReplaceAll(s, pat, rep) == s
    decreases |s|
  {
    if |s| >= |pat| {
      assert s[..|pat|][0] != pat[0];
      ReplaceAllAbsent(s[1..], pat, rep);
    }
  }

  /** Deleting the unsafe characters works piece by piece. */
  lemma {:induction false} RemoveUnsafeAppend(a: string, b: string)
    ensures RemoveUnsafe(a + b) == RemoveUnsafe(a) + RemoveUnsafe(b)
    decreases |a|
  {
    if a == [] {
      assert a + b == b;
    } else {
      assert (a + b)[1..] == a[1..] + b;
      RemoveUnsafeAppend(a[1..], b);
    }
  }

  /** The characters that end urlsplit's network location. */
  predicate EndsNetloc(c: char) {
    c == '/' || c == '?' || c == '#'
  }

  /** The characters that end urlsplit's path (query and fragment). */
  predicate EndsPath(c: char) {
    c == '?' || c == '#'
  }

  /** How urlparse splits `scheme://net path` when the scheme holds no ':', the
      network location no '/', '?' or '#', the path starts with '/' and holds no
      '?' or '#', and nothing holds a character urlsplit deletes. */
  lemma UrlSplit(scheme: string, net: string, path: string)
    requires forall j :: 0 <= j < |scheme| ==> scheme[j] != ':' && !UnsafeUrlChar(scheme[j])
    requires forall j :: 0 <= j < |net| ==> !UnsafeUrlChar(net[j]) && !EndsNetloc(net[j])
    requires forall j :: 0 <= j < |path| ==> !UnsafeUrlChar(path[j]) && !EndsPath(path[j])
    requires path != [] && path[0] == '/'
    ensures NetlocAndPath(scheme + "://" + net + path) == (net, DropParams(path))
  {
    var url := scheme + "://" + net + path;
    var tail := "//" + net + path;
    UrlKept(scheme, net, path);
    assert url == scheme + ":" + tail;
    AfterSchemeIs(scheme, tail);
    SplitNetlocIs(net, path);
    NoQueryNoFragment(path);
    NetlocAndPathSteps(url, tail, net, path);
  }

  lemma NoQueryNoFragment(path: string)
    requires forall j :: 0 <= j < |path| ==> !EndsPath(path[j])
    ensures IndexOfAny(path, {'?', '#'}) == |path|
  {
    forall j | 0 <= j < |path| ensures path[j] !in {'?', '#'} {
      assert !EndsPath(path[j]);
    }
    IndexOfAnyIs(path, {'?', '#'}, |path|);
  }

  /** urlparse's fields once each stage of the split is known. */
  lemma NetlocAndPathSteps(url: string, tail: string, net: string, path: string)
    requires RemoveUnsafe(url) == url && AfterScheme(url) == tail
    requires SplitNetloc(tail) == (net, path) && IndexOfAny(path, {'?', '#'}) == |path|
    ensures NetlocAndPath(url) == (net, DropParams(path))
  {
    assert path[..|path|] == path;
  }

  lemma UrlKept(scheme: string, net: string, path: string)
    requires forall j :: 0 <= j < |scheme| ==> !UnsafeUrlChar(scheme[j])
    requires forall j :: 0 <= j < |net| ==> !UnsafeUrlChar(net[j])
    requires forall j :: 0 <= j < |path| ==> !UnsafeUrlChar(path[j])
    ensures RemoveUnsafe(scheme + "://" + net + path) == scheme + "://" + net + path
  {
    RemoveUnsafeNoop(scheme);
    RemoveUnsafeNoop(net);
    RemoveUnsafeNoop(path);
    RemoveUnsafeNoop("://");
    RemoveUnsafeAppend(scheme, "://");
    RemoveUnsafeAppend(scheme + "://", net);
    RemoveUnsafeAppend(scheme + "://" + net, path);
  }

  lemma AfterSchemeIs(scheme: string, tail: string)
    requires forall j :: 0 <= j < |scheme| ==> scheme[j] != ':'
    ensures AfterScheme(scheme + ":" + tail) == tail
  {
    var u := scheme + ":" + tail;
    IndexOfAnyIs(u, {':'}, |scheme|);
    assert u[|scheme| + 1..] == tail;
  }

  lemma SplitNetlocIs(net: string, path: string)
    requires forall j :: 0 <= j < |net| ==> !EndsNetloc(net[j])
    requires path != [] && path[0] == '/'
    ensures SplitNetloc("//" + net + path) == (net, path)
  {
    var s := "//" + net + path;
    assert StartsWith(s, "//");
    var hier := net + path;
    assert s[2..] == hier;
    forall j | 0 <= j < |net| ensures hier[j] !in {'/', '?', '#'} {
      assert hier[j] == net[j] && !EndsNetloc(net[j]);
    }
    IndexOfAnyIs(hier, {'/', '?', '#'}, |net|);
    assert hier[..|net|] == net && hier[|net|..] == path;
  }

  /** A handle holding no '/', '?', '#', ';' and no character urlsplit deletes. */
  predicate PlainHandle(h: string) {
    forall j :: 0 <= j < |h| ==> !UnsafeUrlChar(h[j]) && !EndsNetloc(h[j]) && h[j] != ';'
  }

  /** The path of a profile URL has no `;params` to drop. */
  lemma ProfilePathKept(h: string)
    requires PlainHandle(h)
    ensures DropParams("/profile/" + h) == "/profile/" + h
  {
    var path := "/profile/" + h;
    LastIndexOfIs(path, '/', 8);
    assert path[8..] == "/" + h;
    IndexOfAnyIs(path[8..], {';'}, |path| - 8);
  }

  /** urlparse's netloc and path for https://bsky.app/profile/<handle>. */
  lemma ProfileUrlParts(h: string)
    requires PlainHandle(h)
    ensures IsHttpUrl("https://bsky.app/profile/" + h)
    ensures NetlocAndPath("https://bsky.app/profile/" + h) == ("bsky.app", "/profile/" + h)
    ensures Contains("bsky.app", "bsky.app")
  {
    assert StartsWith("bsky.app", "bsky.app");
    var path := "/profile/" + h;
    assert "https" + "://" + "bsky.app" + path == "https://bsky.app/profile/" + h;
    assert StartsWith("https://bsky.app/profile/" + h, "https://");
    UrlSplit("https", "bsky.app", path);
    ProfilePathKept(h);
  }

  /** A bsky.app profile URL yields the handle after "/profile/". */
  lemma ProfileUrlHandle(h: string)
    requires PlainHandle(h)
    ensures ExtractHandleFromUrl("https://bsky.app/profile/" + h) == h
  {
    ProfileUrlParts(h);
    ProfilePathReplaced(h);
    HandleSteps("https://bsky.app/profile/" + h, "bsky.app", "/profile/" + h, h);
  }

  /** Removing "/profile/" from the path of a profile URL leaves the handle,
      which has no slash to strip. */
  lemma ProfilePathReplaced(h: string)
    requires PlainHandle(h)
    ensures Contains("/profile/" + h, "/profile/")
    ensures ReplaceAll("/profile/" + h, "/profile/", "") == h && Strip(h, '/') == h
  {
    StripNoop(h, '/');
    var path := "/profile/" + h;
    assert path[..9] == "/profile/" && path[9..] == h;
    assert StartsWith(path, "/profile/");
    ReplaceAllAbsent(h, "/profile/", "");
  }

  lemma StripNoop(s: string, c: char)
    requires forall j :: 0 <= j < |s| ==> s[j] != c
    ensures Strip(s, c) == s
  {
    assert StripRight(s, c) == s;
  }

  /** extract_handle_from_url once urlparse's fields and the replacement are known. */
  lemma HandleSteps(url: string, net: string, path: string, h: string)
    requires IsHttpUrl(url) && NetlocAndPath(url) == (net, path)
    requires Contains(net, "bsky.app") && Contains(path, "/profile/")
    requires ReplaceAll(path, "/profile/", "") == h && Strip(h, '/') == h
    ensures ExtractHandleFromUrl(url) == h
  {
  }
}
