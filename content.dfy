/** bskybook/content.py: turning a fetched web page into an Article, picking a
    thumbnail, and extracting a list of URLs while skipping the failures.

    The HTTP session, trafilatura and BeautifulSoup are not modelled as code:
    what they produce for one URL is a `Page` value, and the collection loop
    receives the URL-to-page correspondence as a function parameter. */
module Content {
  import opened Wrappers
  import opened Strings

  /** The Article dataclass. `title` is optional because a metadata dict may
      map "title" to None, which the program then stores as is. */
  datatype Article = Article(
    url: string,
    title: Option<string>,
    contentMarkdown: string,
    contentHtml: string,
    author: Option<string>,
    date: Option<string>,
    thumbnailUrl: Option<string>)

  /** What `bare_extraction` returns: nothing, a dict, or a Document object. */
  datatype Metadata =
    | NoMetadata
    | Dict(entries: map<string, Option<string>>)
    | Document(title: Option<string>, author: Option<string>, date: Option<string>)

  /** The three thumbnail candidates BeautifulSoup finds: the `content` of the
      og:image meta tag, the `content` of the twitter:image meta tag and the
      `src` of the first img tag (None when the tag or attribute is missing).
      ParseFailed stands for an exception raised while parsing. */
  datatype Soup =
    | ParseFailed
    | Parsed(ogImage: Option<string>, twitterImage: Option<string>, firstImgSrc: Option<string>)

  /** Everything extract_article learns about one URL. FetchFailed stands for
      any exception: a failed request, a bad status, or an extractor error. */
  datatype Page =
    | FetchFailed
    | Fetched(markdown: Option<string>, html: Option<string>, metadata: Metadata, soup: Soup)

  const Untitled := "Untitled"

  /** The thumbnail candidates in the order they are tried. */
  function Candidates(soup: Soup): seq<Option<string>> {
    match soup
    case ParseFailed => []
    case Parsed(og, tw, img) => [og, tw, img]
  }

  /** _extract_thumbnail: the first candidate that is present and non-empty. */
  function ExtractThumbnail(soup: Soup): (r: Option<string>)
    ensures r.Some? ==> r.value != ""
    ensures r.Some? ==> exists k :: 0 <= k < |Candidates(soup)| && Candidates(soup)[k] == r
                                 && forall j :: 0 <= j < k ==> !Truthy(Candidates(soup)[j])
    ensures r.None? <==> forall k :: 0 <= k < |Candidates(soup)| ==> !Truthy(Candidates(soup)[k])
  {
    match soup
    case ParseFailed => None
    case Parsed(og, tw, img) =>
      assert Candidates(soup)[0] == og && Candidates(soup)[1] == tw && Candidates(soup)[2] == img;
      if Truthy(og) then og
      else if Truthy(tw) then tw
      else if Truthy(img) then img
      else None
  }

  /** Title, author and date as extract_article reads them from the metadata. */
  function TitleAuthorDate(m: Metadata): (r: (Option<string>, Option<string>, Option<string>))
    ensures (m.NoMetadata? || (m.Dict? && m.entries == map[])) ==> r == (Some(Untitled), None, None)
    ensures m.Dict? && m.entries != map[] ==>
      (r.0 == if "title" in m.entries then m.entries["title"] else Some(Untitled))
      && (r.1 == if "author" in m.entries then m.entries["author"] else None)
      && (r.2 == if "date" in m.entries then m.entries["date"] else None)
    ensures m.Document? ==>
      Truthy(r.0) && (Truthy(m.title) ==> r.0 == m.title)
      && (!Truthy(m.title) ==> r.0 == Some(Untitled)) && r.1 == m.author && r.2 == m.date
    ensures r.0.None? <==> m.Dict? && "title" in m.entries && m.entries["title"].None?
  {
    match m
    case NoMetadata => (Some(Untitled), None, None)
    case Dict(e) =>
      if e == map[] then (Some(Untitled), None, None)
      else
        (if "title" in e then e["title"] else Some(Untitled),
         if "author" in e then e["author"] else None,
         if "date" in e then e["date"] else None)
    case Document(t, a, d) => (if Truthy(t) then t else Some(Untitled), a, d)
  }

  /** The HTML used when trafilatura gives none: the markdown, with each blank
      line turned into a paragraph break, wrapped in one paragraph. */
  function FallbackHtml(markdown: string): (r: string)
    ensures StartsWith(r, "<p>") && EndsWith(r, "</p>")
  {
    var r := "<p>" + ReplaceAll(markdown, "\n\n", "</p><p>") + "</p>";
    assert r[..3] == "<p>";
    assert r[|r| - 4..] == "</p>";
    r
  }

  /** extract_article: no article when the page could not be fetched or gave
      no markdown; otherwise the markdown, the HTML (or the fallback built from
      the markdown), the metadata fields and the thumbnail. */
  function ExtractArticle(url: string, page: Page): (r: Option<Article>)
    ensures r.Some? <==> page.Fetched? && Truthy(page.markdown)
    ensures r.Some? ==>
      r.value.url == url && r.value.contentMarkdown == page.markdown.value
      && r.value.contentHtml != ""
      && (Truthy(page.html) ==> r.value.contentHtml == page.html.value)
      && (!Truthy(page.html) ==> r.value.contentHtml == FallbackHtml(page.markdown.value))
      && (r.value.title, r.value.author, r.value.date) == TitleAuthorDate(page.metadata)
      && r.value.thumbnailUrl == ExtractThumbnail(page.soup)
  {
    match page
    case FetchFailed => None
    case Fetched(md, html, meta, soup) =>
      if !Truthy(md) then None
      else
        var content := if Truthy(html) then html.value else FallbackHtml(md.value);
        var (title, author, date) := TitleAuthorDate(meta);
        Some(Article(url, title, md.value, content, author, date, ExtractThumbnail(soup)))
  }

  /** The first character of a replacement result comes from the replacement
      text or from the input. */
  lemma ReplaceAllHead(s: string, pat: string, rep: string)
    requires pat != [] && rep != []
    ensures var r := ReplaceAll(s, pat, rep);
      r == [] || r[0] == rep[0] || (s != [] && r[0] == s[0])
  {
  }

  /** No two `c` side by side in `r`. */
  predicate NoAdjacent(r: string, c: char) {
    forall i :: 0 <= i < |r| - 1 ==> r[i] != c || r[i + 1] != c
  }

  /** After every doubled `c` is replaced by a text without `c`, no two `c`
      remain side by side: a `c` that survives was not followed by another. */
  lemma {:induction false} NoPairLeft(s: string, c: char, rep: string)
    requires rep != [] && c !in rep
    ensures NoAdjacent(ReplaceAll(s, [c, c], rep), c)
    decreases |s|
  {
    var r := ReplaceAll(s, [c, c], rep);
    if |s| < 2 {
    } else if s[..2] == [c, c] {
      NoPairLeft(s[2..], c, rep);
      var rest := ReplaceAll(s[2..], [c, c], rep);
      assert r == rep + rest;
      forall i | 0 <= i < |r| - 1 ensures r[i] != c || r[i + 1] != c {
        if i < |rep| {
          assert r[i] == rep[i];
        } else {
          assert r[i] == rest[i - |rep|] && r[i + 1] == rest[i + 1 - |rep|];
        }
      }
    } else {
      NoPairLeft(s[1..], c, rep);
      var rest := ReplaceAll(s[1..], [c, c], rep);
      ReplaceAllHead(s[1..], [c, c], rep);
      assert r == [s[0]] + rest;
      forall i | 0 <= i < |r| - 1 ensures r[i] != c || r[i + 1] != c {
        if i == 0 {
          if s[0] == c {
            assert s[1] != c;
            assert r[1] == rest[0];
          }
        } else {
          assert r[i] == rest[i - 1] && r[i + 1] == rest[i];
        }
      }
    }
  }

  /** The fallback HTML holds no blank line: every "\n\n" of the markdown
      became a paragraph break. */
  lemma NoBlankLineLeft(markdown: string)
    ensures NoAdjacent(FallbackHtml(markdown), '\n')
  {
    var rep := "</p><p>";
    assert "\n\n" == ['\n', '\n'];
    NoPairLeft(markdown, '\n', rep);
    var mid := ReplaceAll(markdown, "\n\n", rep);
    var r := FallbackHtml(markdown);
    assert r == "<p>" + mid + "</p>";
    forall i | 0 <= i < |r| - 1 ensures r[i] != '\n' || r[i + 1] != '\n' {
      if 3 <= i < 3 + |mid| - 1 {
        assert r[i] == mid[i - 3] && r[i + 1] == mid[i - 2];
      } else if i < 3 {
        assert r[i] == "<p>"[i];
      } else {
        assert r[i + 1] == "</p>"[i + 1 - 3 - |mid|];
      }
    }
  }

  /** What each URL of the list gives, in order. */
  function Attempts(urls: seq<string>, page: string -> Page): (r: seq<Option<Article>>)
    ensures |r| == |urls|
  {
    seq(|urls|, i requires 0 <= i < |urls| => ExtractArticle(urls[i], page(urls[i])))
  }

  /** extract_multiple: the articles of the URLs that could be extracted, in
      the order of the URLs. */
  method ExtractMultiple(urls: seq<string>, page: string -> Page) returns (articles: seq<Article>)
    ensures articles == Somes(Attempts(urls, page))
  {
    ghost var outcomes := Attempts(urls, page);
    articles := [];
    var i := 0;
    while i < |urls|
      invariant 0 <= i <= |urls|
      invariant articles == Somes(outcomes[..i])
    {
      var article := ExtractArticle(urls[i], page(urls[i]));
      SomesStep(outcomes, i);
      if article.Some? {
        articles := articles + [article.value];
      }
      i := i + 1;
    }
    assert outcomes[..i] == outcomes;
  }

  /** Nothing is invented and nothing reordered: each article comes from a URL
      of the list whose page had markdown, every such URL gives one, and there
      are never more articles than URLs. */
  lemma ExtractedArticles(urls: seq<string>, page: string -> Page, a: Article)
    ensures |Somes(Attempts(urls, page))| <= |urls|
    ensures a in Somes(Attempts(urls, page)) ==> a.url in urls && a.contentMarkdown != ""
    ensures a in Somes(Attempts(urls, page)) <==>
      exists i :: 0 <= i < |urls| && ExtractArticle(urls[i], page(urls[i])) == Some(a)
  {
    var att := Attempts(urls, page);
    SomesMembers(att, a);
    if Some(a) in att {
      var i :| 0 <= i < |att| && att[i] == Some(a);
      assert ExtractArticle(urls[i], page(urls[i])) == Some(a);
    } else {
      forall i | 0 <= i < |urls| ensures ExtractArticle(urls[i], page(urls[i])) != Some(a) {
        assert att[i] == ExtractArticle(urls[i], page(urls[i]));
      }
    }
  }

  /** When every page yields markdown, every URL yields its article, in order. */
  lemma AllPagesExtracted(urls: seq<string>, page: string -> Page)
    requires forall i :: 0 <= i < |urls| ==> page(urls[i]).Fetched? && Truthy(page(urls[i]).markdown)
    ensures |Somes(Attempts(urls, page))| == |urls|
    ensures forall i :: 0 <= i < |urls| ==> Somes(Attempts(urls, page))[i].url == urls[i]
  {
    SomesAllSucceeded(Attempts(urls, page));
  }
}
