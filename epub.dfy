/** bskybook/epub.py: the EPUB 2 book EPUBGenerator writes.

    The archive is a sequence of entries (name, compression, payload) that the
    generator's methods append to one after another. The OPF package and the
    NCX table of contents are records carrying every element and attribute the
    program sets; the serialised XML, the fixed container.xml, cover page and
    CSS text, and the DEFLATE bytes are not modelled. The book identifier, the
    second identifier of the NCX and today's date are parameters. */
module Epub {
  import opened Wrappers
  import opened Strings
  import opened Content

  newtype byte = x: int | 0 <= x < 256

  datatype Compression = Stored | Deflated

  /** An item of the OPF manifest. */
  datatype ManifestItem = ManifestItem(id: string, href: string, mediaType: string)

  /** `<meta name=... content=...>` in the OPF metadata. */
  datatype Meta = Meta(name: string, content: string)

  /** The OPF `<metadata>`: dc:title, dc:creator with its opf:role,
      dc:language, dc:date, dc:identifier with its id, and the cover meta. */
  datatype BookMetadata = BookMetadata(
    title: string, creator: string, creatorRole: string, language: string, date: string,
    identifierId: string, identifier: string, coverMeta: Option<Meta>)

  /** The OPF `<package>`. */
  datatype Package = Package(
    version: string, uniqueIdentifier: string, metadata: BookMetadata,
    manifest: seq<ManifestItem>, spineToc: string, spine: seq<string>)

  /** A `<navPoint>`: its id, playOrder, the text of its label (None when the
      article has no title, which leaves the text element empty) and the src of
      its content. */
  datatype NavPoint = NavPoint(id: string, playOrder: nat, labelText: Option<string>, src: string)

  /** The NCX `<ncx>`: version, xml:lang, the dtb:uid and dtb:depth metas, the
      docTitle text and the navMap. */
  datatype Ncx = Ncx(version: string, lang: string, uid: string, depth: string, docTitle: string, navMap: seq<NavPoint>)

  /** The pieces `_create_article_html` fills into its XHTML template. */
  datatype ArticlePage = ArticlePage(
    headTitle: string, heading: string, byline: string, dateLine: string, sourceLink: string, content: string)

  /** What an archive entry holds: plain text, container.xml (which names the
      package's path and media type), the package, the NCX, raw bytes, the
      cover page (which names its image), or an article page. */
  datatype Payload =
    | Text(text: string)
    | ContainerDoc(rootfilePath: string, rootfileMediaType: string)
    | PackageDoc(package: Package)
    | NcxDoc(ncx: Ncx)
    | Binary(data: seq<byte>)
    | CoverPage(imageSrc: string)
    | XhtmlDoc(page: ArticlePage)

  datatype ZipEntry = ZipEntry(name: string, compression: Compression, payload: Payload)

  /** The ZipFile being written: the entries `writestr` has added, in order. */
  class ZipArchive {
    var entries: seq<ZipEntry>

    constructor ()
      ensures entries == []
    {
      entries := [];
    }

    method WriteStr(name: string, payload: Payload, compression: Compression)
      modifies this
      ensures entries == old(entries) + [ZipEntry(name, compression, payload)]
    {
      entries := entries + [ZipEntry(name, compression, payload)];
    }
  }

  // ---------------------------------------------------------------------------
  // _escape_xml
  // ---------------------------------------------------------------------------

  /** The characters XML 1.0 (section 4.6) gives predefined entities for. */
  predicate Special(c: char) {
    c == '&' || c == '<' || c == '>' || c == '"' || c == '\''
  }

  /** A special character's entity; any other character stands for itself. */
  function EscapeChar(c: char): (e: string)
    ensures |e| >= 1
    ensures !Special(c) <==> e == [c]
  {
    match c
    case '&' => "&amp;"
    case '<' => "&lt;"
    case '>' => "&gt;"
    case '"' => "&quot;"
    case '\'' => "&apos;"
    case _ => [c]
  }

  /** Every character replaced by its entity, in one pass. */
  function EscapeAll(s: string): string
    decreases |s|
  {
    if s == [] then [] else EscapeChar(s[0]) + EscapeAll(s[1..])
  }

  /** The five `str.replace` calls of _escape_xml, ampersand first. */
  function ReplaceChain(s: string): string {
    ReplaceAll(ReplaceAll(ReplaceAll(ReplaceAll(ReplaceAll(s, "&", "&amp;"), "<", "&lt;"), ">", "&gt;"), "\"", "&quot;"), "'", "&apos;")
  }

  lemma ReplaceChainAppend(a: string, b: string)
    ensures ReplaceChain(a + b) == ReplaceChain(a) + ReplaceChain(b)
  {
    var a1, b1 := ReplaceAll(a, "&", "&amp;"), ReplaceAll(b, "&", "&amp;");
    ReplaceCharAppend(a, b, '&', "&amp;");
    var a2, b2 := ReplaceAll(a1, "<", "&lt;"), ReplaceAll(b1, "<", "&lt;");
    ReplaceCharAppend(a1, b1, '<', "&lt;");
    var a3, b3 := ReplaceAll(a2, ">", "&gt;"), ReplaceAll(b2, ">", "&gt;");
    ReplaceCharAppend(a2, b2, '>', "&gt;");
    var a4, b4 := ReplaceAll(a3, "\"", "&quot;"), ReplaceAll(b3, "\"", "&quot;");
    ReplaceCharAppend(a3, b3, '"', "&quot;");
    ReplaceCharAppend(a4, b4, '\'', "&apos;");
  }

  /** Replacing one character in a one-character string. */
  lemma ReplaceOne(c: char, d: char, rep: string)
    ensures ReplaceAll([c], [d], rep) == if c == d then rep else [c]
  {
    assert [c][1..] == [];
  }

  /** On one character the chain gives the character's entity: an ampersand
      the first replace produced is never touched again, because the later
      patterns do not occur in "&amp;", and each later entity contains none of
      the patterns after it. */
  lemma ReplaceChainChar(c: char)
    ensures ReplaceChain([c]) == EscapeChar(c)
  {
    var s1 := ReplaceAll([c], "&", "&amp;");
    ReplaceOne(c, '&', "&amp;");
    if c == '&' {
      ReplaceCharAbsent("&amp;", '<', "&lt;");
      ReplaceCharAbsent("&amp;", '>', "&gt;");
      ReplaceCharAbsent("&amp;", '"', "&quot;");
      ReplaceCharAbsent("&amp;", '\'', "&apos;");
    } else {
      ReplaceOne(c, '<', "&lt;");
      if c == '<' {
        ReplaceCharAbsent("&lt;", '>', "&gt;");
        ReplaceCharAbsent("&lt;", '"', "&quot;");
        ReplaceCharAbsent("&lt;", '\'', "&apos;");
      } else {
        ReplaceOne(c, '>', "&gt;");
        if c == '>' {
          ReplaceCharAbsent("&gt;", '"', "&quot;");
          ReplaceCharAbsent("&gt;", '\'', "&apos;");
        } else {
          ReplaceOne(c, '"', "&quot;");
          if c == '"' {
            ReplaceCharAbsent("&quot;", '\'', "&apos;");
          } else {
            ReplaceOne(c, '\'', "&apos;");
          }
        }
      }
    }
  }

  /** Because the ampersand is replaced first, the chained replaces are the
      one-pass entity map. */
  lemma {:induction false} ReplaceChainIsEscapeAll(s: string)
    ensures ReplaceChain(s) == EscapeAll(s)
    decreases |s|
  {
    if s != [] {
      assert s == [s[0]] + s[1..];
      ReplaceChainAppend([s[0]], s[1..]);
      ReplaceChainChar(s[0]);
      ReplaceChainIsEscapeAll(s[1..]);
    }
  }

  /** _escape_xml: empty for None or "", otherwise every special character
      replaced by its entity. */
  function EscapeXml(text: Option<string>): (r: string)
    ensures !Truthy(text) ==> r == ""
    ensures Truthy(text) ==> r == EscapeAll(text.value)
  {
    if !Truthy(text) then ""
    else
      ReplaceChainIsEscapeAll(text.value);
      ReplaceChain(text.value)
  }

  /** The character an XML parser reads at the start of `s` and how many
      characters it takes: one of the five entities, or a plain character. */
  function Decode(s: string): (d: (char, nat))
    requires s != []
    ensures 1 <= d.1 <= |s|
  {
    if s[0] != '&' then (s[0], 1)
    else if PrefixAt(s, 0, "&amp;") then ('&', 5)
    else if PrefixAt(s, 0, "&lt;") then ('<', 4)
    else if PrefixAt(s, 0, "&gt;") then ('>', 4)
    else if PrefixAt(s, 0, "&quot;") then ('"', 6)
    else if PrefixAt(s, 0, "&apos;") then ('\'', 6)
    else ('&', 1)
  }

  /** Reading the entities back: an XML parser's view of escaped text. */
  function Unescape(s: string): string
    decreases |s|
  {
    if s == [] then [] else var d := Decode(s); [d.0] + Unescape(s[d.1..])
  }

  lemma {:induction false} PrefixAtSelf(a: string, b: string, i: nat)
    requires i <= |a|
    ensures PrefixAt(a + b, i, a[i..])
    decreases |a| - i
  {
    if i < |a| {
      PrefixAtSelf(a, b, i + 1);
      assert a[i..][1..] == a[i + 1..];
    }
  }

  /** The parser reads an escaped character back from the front of a text. */
  lemma DecodeEscaped(c: char, rest: string)
    ensures Decode(EscapeChar(c) + rest) == (c, |EscapeChar(c)|)
  {
    var e := EscapeChar(c);
    var s := e + rest;
    assert s[0] == e[0];
    PrefixAtSelf(e, rest, 0);
    assert e[0..] == e;
    if c == '&' {
      assert PrefixAt(s, 0, "&amp;");
    } else if c == '<' {
      assert s[1] == 'l';
      assert PrefixAt(s, 0, "&lt;");
    } else if c == '>' {
      assert s[1] == 'g';
      assert PrefixAt(s, 0, "&gt;");
    } else if c == '"' {
      assert s[1] == 'q';
      assert PrefixAt(s, 0, "&quot;");
    } else if c == '\'' {
      assert s[1] == 'a' && s[2] == 'p';
      assert PrefixAt(s, 0, "&apos;");
    }
  }

  /** Reading back one escaped character and what follows it. */
  lemma UnescapeChar(c: char, rest: string)
    ensures Unescape(EscapeChar(c) + rest) == [c] + Unescape(rest)
  {
    var s := EscapeChar(c) + rest;
    DecodeEscaped(c, rest);
    assert s[|EscapeChar(c)|..] == rest;
  }

  /** Unescaping what was escaped gives the text back. */
  lemma {:induction false} EscapeRoundTrip(s: string)
    ensures Unescape(EscapeAll(s)) == s
    decreases |s|
  {
    if s != [] {
      UnescapeChar(s[0], EscapeAll(s[1..]));
      EscapeRoundTrip(s[1..]);
    }
  }

  /** One of the five entities starts at position i. */
  predicate EntityAt(r: string, i: nat) {
    PrefixAt(r, i, "&amp;") || PrefixAt(r, i, "&lt;") || PrefixAt(r, i, "&gt;")
    || PrefixAt(r, i, "&quot;") || PrefixAt(r, i, "&apos;")
  }

  predicate Markup(c: char) {
    c == '<' || c == '>' || c == '"' || c == '\''
  }

  /** Escaped text: no markup character, and every ampersand starts an entity. */
  predicate SafeText(r: string) {
    (forall i :: 0 <= i < |r| ==> !Markup(r[i]))
    && (forall i :: 0 <= i < |r| && r[i] == '&' ==> EntityAt(r, i))
  }

  lemma {:induction false} PrefixAtExtend(a: string, b: string, i: nat, pat: string)
    requires PrefixAt(a, i, pat)
    ensures PrefixAt(a + b, i, pat)
    decreases |pat|
  {
    if pat != [] {
      PrefixAtExtend(a, b, i + 1, pat[1..]);
    }
  }

  lemma {:induction false} PrefixAtShift(a: string, b: string, j: nat, pat: string)
    requires PrefixAt(b, j, pat)
    ensures PrefixAt(a + b, |a| + j, pat)
    decreases |pat|
  {
    if pat != [] {
      PrefixAtShift(a, b, j + 1, pat[1..]);
    }
  }

  lemma EscapeCharNoMarkup(c: char)
    ensures forall i :: 0 <= i < |EscapeChar(c)| ==> !Markup(EscapeChar(c)[i])
  {
  }

  lemma EscapeCharEntities(c: char)
    ensures forall i :: 0 <= i < |EscapeChar(c)| && EscapeChar(c)[i] == '&' ==> i == 0 && EntityAt(EscapeChar(c), 0)
  {
    var e := EscapeChar(c);
    if c == '&' {
      assert PrefixAt(e, 0, "&amp;");
    } else if c == '<' {
      assert PrefixAt(e, 0, "&lt;");
    } else if c == '>' {
      assert PrefixAt(e, 0, "&gt;");
    } else if c == '"' {
      assert PrefixAt(e, 0, "&quot;");
    } else if c == '\'' {
      assert PrefixAt(e, 0, "&apos;");
    }
  }

  lemma EscapeCharSafe(c: char)
    ensures SafeText(EscapeChar(c))
  {
    EscapeCharNoMarkup(c);
    EscapeCharEntities(c);
  }

  lemma EntityAtExtend(a: string, b: string, i: nat)
    requires EntityAt(a, i)
    ensures EntityAt(a + b, i)
  {
    if PrefixAt(a, i, "&amp;") { PrefixAtExtend(a, b, i, "&amp;"); }
    else if PrefixAt(a, i, "&lt;") { PrefixAtExtend(a, b, i, "&lt;"); }
    else if PrefixAt(a, i, "&gt;") { PrefixAtExtend(a, b, i, "&gt;"); }
    else if PrefixAt(a, i, "&quot;") { PrefixAtExtend(a, b, i, "&quot;"); }
    else { PrefixAtExtend(a, b, i, "&apos;"); }
  }

  lemma EntityAtShift(a: string, b: string, j: nat)
    requires EntityAt(b, j)
    ensures EntityAt(a + b, |a| + j)
  {
    if PrefixAt(b, j, "&amp;") { PrefixAtShift(a, b, j, "&amp;"); }
    else if PrefixAt(b, j, "&lt;") { PrefixAtShift(a, b, j, "&lt;"); }
    else if PrefixAt(b, j, "&gt;") { PrefixAtShift(a, b, j, "&gt;"); }
    else if PrefixAt(b, j, "&quot;") { PrefixAtShift(a, b, j, "&quot;"); }
    else { PrefixAtShift(a, b, j, "&apos;"); }
  }

  lemma SafeAppend(a: string, b: string)
    requires SafeText(a) && SafeText(b)
    ensures SafeText(a + b)
  {
    var r := a + b;
    forall i | 0 <= i < |r| && r[i] == '&' ensures EntityAt(r, i) {
      if i < |a| {
        assert a[i] == '&';
        EntityAtExtend(a, b, i);
      } else {
        assert b[i - |a|] == '&';
        EntityAtShift(a, b, i - |a|);
      }
    }
    forall i | 0 <= i < |r| ensures !Markup(r[i]) {
      if i < |a| { assert r[i] == a[i]; } else { assert r[i] == b[i - |a|]; }
    }
  }

  /** Escaped text holds no `<`, `>`, `"` or `'`, and each `&` in it begins
      one of the five entities. */
  lemma {:induction false} EscapeAllSafe(s: string)
    ensures SafeText(EscapeAll(s))
    decreases |s|
  {
    if s != [] {
      EscapeCharSafe(s[0]);
      EscapeAllSafe(s[1..]);
      SafeAppend(EscapeChar(s[0]), EscapeAll(s[1..]));
    }
  }

  // ---------------------------------------------------------------------------
  // _create_article_html
  // ---------------------------------------------------------------------------

  /** _create_article_html: the title escaped in both the head and the h1; a
      "By" paragraph with the escaped author only when there is an author; the
      date paragraph only when there is a date, not escaped; the source link
      with the escaped URL; and the article's HTML as it is. */
  function CreateArticleHtml(article: Article): (page: ArticlePage)
    ensures page.headTitle == page.heading == EscapeXml(article.title)
    ensures page.byline != "" <==> Truthy(article.author)
    ensures page.dateLine != "" <==> Truthy(article.date)
    ensures Truthy(article.date) ==> page.dateLine == "<p>" + article.date.value + "</p>"
    ensures page.content == article.contentHtml
  {
    ArticlePage(
      EscapeXml(article.title),
      EscapeXml(article.title),
      if Truthy(article.author) then "<p>By " + EscapeXml(article.author) + "</p>" else "",
      if Truthy(article.date) then "<p>" + article.date.value + "</p>" else "",
      "<p><a href=\"" + EscapeXml(Some(article.url)) + "\">Source</a></p>",
      article.contentHtml)
  }

  /** What an escaped field shows: no markup, and the text itself once its
      entities are read back. */
  lemma EscapedField(text: Option<string>)
    ensures SafeText(EscapeXml(text))
    ensures Unescape(EscapeXml(text)) == if Truthy(text) then text.value else ""
  {
    if Truthy(text) {
      EscapeAllSafe(text.value);
      EscapeRoundTrip(text.value);
    }
  }

  /** The heading and the byline cannot inject markup, and reading their
      entities back gives the article's title and author. */
  lemma ArticlePageText(article: Article)
    ensures var page := CreateArticleHtml(article);
      SafeText(page.heading)
      && Unescape(page.heading) == (if Truthy(article.title) then article.title.value else "")
    ensures var page := CreateArticleHtml(article);
      Truthy(article.author) ==>
        var inner := page.byline[6..|page.byline| - 4];
        page.byline == "<p>By " + inner + "</p>" && SafeText(inner) && Unescape(inner) == article.author.value
  {
    var page := CreateArticleHtml(article);
    EscapedField(article.title);
    if Truthy(article.author) {
      EscapedField(article.author);
      assert page.byline[6..|page.byline| - 4] == EscapeXml(article.author);
    }
  }

  /** The source link's href cannot break out of its attribute, and reading
      its entities back gives the article's URL. */
  lemma ArticlePageLink(article: Article)
    ensures var page := CreateArticleHtml(article);
      var href := page.sourceLink[12..|page.sourceLink| - 16];
      page.sourceLink == "<p><a href=\"" + href + "\">Source</a></p>"
      && SafeText(href) && Unescape(href) == article.url
  {
    var page := CreateArticleHtml(article);
    EscapedField(Some(article.url));
    assert page.sourceLink[12..|page.sourceLink| - 16] == EscapeXml(Some(article.url));
  }

  // ---------------------------------------------------------------------------
  // The book's structure
  // ---------------------------------------------------------------------------

  const XhtmlType := "application/xhtml+xml"
  /** The directory of the package inside the archive, and the hrefs, relative
      to it, of the files the manifest lists besides the articles. */
  const ContentDir := "OEBPS/"
  const NcxHref := "toc.ncx"
  const CoverImageHref := "cover.jpg"
  const CoverPageHref := "cover.html"

  /** `if cover_data:`: present and non-empty. */
  predicate HasCover(coverData: Option<seq<byte>>) {
    coverData.Some? && coverData.value != []
  }

  function ArticleId(idx: nat): string {
    "article" + NatToString(idx)
  }

  function ArticleHref(idx: nat): string {
    ArticleId(idx) + ".html"
  }

  /** The manifest items of the articles, in article order. */
  function ArticleItems(n: nat): (items: seq<ManifestItem>)
    ensures |items| == n
  {
    seq(n, i requires 0 <= i < n => ManifestItem(ArticleId(i), ArticleHref(i), XhtmlType))
  }

  lemma ArticleItemsGrow(n: nat)
    ensures ArticleItems(n + 1) == ArticleItems(n) + [ManifestItem(ArticleId(n), ArticleHref(n), XhtmlType)]
  {
  }

  lemma ArticleRefsGrow(n: nat)
    ensures ArticleRefs(n + 1) == ArticleRefs(n) + [ArticleId(n)]
  {
  }

  /** The manifest _add_content_opf builds. */
  function Manifest(n: nat, cover: bool): seq<ManifestItem> {
    [ManifestItem("ncx", NcxHref, "application/x-dtbncx+xml")]
    + (if cover then [ManifestItem("cover-image", CoverImageHref, "image/jpeg"), ManifestItem("cover", CoverPageHref, XhtmlType)] else [])
    + ArticleItems(n)
  }

  function ArticleRefs(n: nat): (refs: seq<string>)
    ensures |refs| == n
  {
    seq(n, i requires 0 <= i < n => ArticleId(i))
  }

  /** The spine's idrefs. */
  function Spine(n: nat, cover: bool): seq<string> {
    (if cover then ["cover"] else []) + ArticleRefs(n)
  }

  function PackageFor(articles: seq<Article>, title: string, author: string, coverData: Option<seq<byte>>,
                      bookId: string, date: string): Package
  {
    var cover := HasCover(coverData);
    Package("2.0", "bookid",
      BookMetadata(title, author, "aut", "en", date, "bookid", "urn:uuid:" + bookId,
        if cover then Some(Meta("cover", "cover-image")) else None),
      Manifest(|articles|, cover), "ncx", Spine(|articles|, cover))
  }

  /** The nav points of the articles: playOrder counts on from the cover's. */
  function ArticleNavPoints(articles: seq<Article>, cover: bool): (points: seq<NavPoint>)
    ensures |points| == |articles|
  {
    seq(|articles|, i requires 0 <= i < |articles| =>
      NavPoint(ArticleId(i), if cover then i + 2 else i + 1, articles[i].title, ArticleHref(i)))
  }

  function NavMap(articles: seq<Article>, cover: bool): seq<NavPoint> {
    (if cover then [NavPoint("cover", 1, Some("Cover"), CoverPageHref)] else [])
    + ArticleNavPoints(articles, cover)
  }

  function NcxFor(articles: seq<Article>, title: string, coverData: Option<seq<byte>>, ncxUid: string): Ncx {
    Ncx("2005-1", "en", "urn:uuid:" + ncxUid, "1", title, NavMap(articles, HasCover(coverData)))
  }

  function MimetypeEntry(): ZipEntry {
    ZipEntry("mimetype", Stored, Text("application/epub+zip"))
  }

  function ContainerEntry(): ZipEntry {
    ZipEntry("META-INF/container.xml", Deflated, ContainerDoc("OEBPS/content.opf", "application/oebps-package+xml"))
  }

  function CoverEntries(coverData: Option<seq<byte>>): seq<ZipEntry> {
    if HasCover(coverData) then
      [ZipEntry(ContentDir + CoverImageHref, Deflated, Binary(coverData.value)),
       ZipEntry(ContentDir + CoverPageHref, Deflated, CoverPage(CoverImageHref))]
    else []
  }

  /** The page of article number idx. */
  function ArticleEntry(idx: nat, article: Article): ZipEntry {
    ZipEntry(ContentDir + ArticleHref(idx), Deflated, XhtmlDoc(CreateArticleHtml(article)))
  }

  function ArticleEntries(articles: seq<Article>): (entries: seq<ZipEntry>)
    ensures |entries| == |articles|
  {
    seq(|articles|, i requires 0 <= i < |articles| => ArticleEntry(i, articles[i]))
  }

  /** The archive create_epub writes, entry by entry. */
  function BookEntries(articles: seq<Article>, title: string, author: string, coverData: Option<seq<byte>>,
                       bookId: string, date: string, ncxUid: string): seq<ZipEntry>
  {
    FrontEntries(articles, title, author, coverData, bookId, date, ncxUid)
    + CoverEntries(coverData) + ArticleEntries(articles)
  }

  /** The four entries every book starts with. */
  function FrontEntries(articles: seq<Article>, title: string, author: string, coverData: Option<seq<byte>>,
                        bookId: string, date: string, ncxUid: string): seq<ZipEntry>
  {
    [MimetypeEntry(), ContainerEntry(),
     ZipEntry("OEBPS/content.opf", Deflated, PackageDoc(PackageFor(articles, title, author, coverData, bookId, date))),
     ZipEntry(ContentDir + NcxHref, Deflated, NcxDoc(NcxFor(articles, title, coverData, ncxUid)))]
  }

  // ---------------------------------------------------------------------------
  // What the structure promises
  // ---------------------------------------------------------------------------

  lemma ArticleIdShape(idx: nat)
    ensures |ArticleId(idx)| >= 8 && ArticleId(idx)[0] == 'a' && ArticleHref(idx)[0] == 'a'
  {
  }

  /** Different articles get different ids and different file names. */
  lemma ArticleNamesInjective(a: nat, b: nat)
    requires a != b
    ensures ArticleId(a) != ArticleId(b) && ArticleHref(a) != ArticleHref(b)
  {
    if ArticleId(a) == ArticleId(b) {
      assert "article" + NatToString(a) + "" == "article" + NatToString(b) + "";
      NumberedNameInjective("article", a, b, "");
    }
    if ArticleHref(a) == ArticleHref(b) {
      NumberedNameInjective("article", a, b, ".html");
    }
  }

  /** The manifest is the NCX, then the cover image and page when there is a
      cover, then one item per article in order: 1 + 2·[cover] + n items. */
  lemma ManifestLayout(n: nat, cover: bool)
    ensures var m := Manifest(n, cover);
      |m| == 1 + (if cover then 2 else 0) + n
      && m[0] == ManifestItem("ncx", NcxHref, "application/x-dtbncx+xml")
      && (cover ==> m[1] == ManifestItem("cover-image", CoverImageHref, "image/jpeg")
                    && m[2] == ManifestItem("cover", CoverPageHref, XhtmlType))
      && forall i :: 0 <= i < n ==> m[|m| - n + i] == ManifestItem(ArticleId(i), ArticleHref(i), XhtmlType)
  {
  }

  /** Two manifest positions hold different ids and different hrefs. */
  lemma ManifestItemsDiffer(n: nat, cover: bool, a: nat, b: nat)
    requires a < b < |Manifest(n, cover)|
    ensures var m := Manifest(n, cover);
      m[a].id != m[b].id && m[a].href != m[b].href
  {
    var m, items := Manifest(n, cover), ArticleItems(n);
    var fixed := [ManifestItem("ncx", NcxHref, "application/x-dtbncx+xml")]
      + (if cover then [ManifestItem("cover-image", CoverImageHref, "image/jpeg"), ManifestItem("cover", CoverPageHref, XhtmlType)] else []);
    assert m == fixed + items;
    var k := |fixed|;
    if a >= k {
      assert m[a] == items[a - k] && m[b] == items[b - k];
      ArticleNamesInjective(a - k, b - k);
    } else if b >= k {
      assert m[a] == fixed[a] && m[b] == items[b - k];
      ArticleIdShape(b - k);
      assert fixed[a].id[0] != 'a' && fixed[a].href[0] != 'a';
    } else {
      // the NCX, the cover image and the cover page: lengths 3, 11, 5 and 7, 9, 10
      assert m[a] == fixed[a] && m[b] == fixed[b];
      assert |fixed[a].id| != |fixed[b].id| && |fixed[a].href| != |fixed[b].href|;
    }
  }

  /** No two manifest items share an id or an href. */
  lemma ManifestDistinct(n: nat, cover: bool)
    ensures var m := Manifest(n, cover);
      forall a, b :: 0 <= a < b < |m| ==> m[a].id != m[b].id && m[a].href != m[b].href
  {
    var m := Manifest(n, cover);
    forall a, b | 0 <= a < b < |m| ensures m[a].id != m[b].id && m[a].href != m[b].href {
      ManifestItemsDiffer(n, cover, a, b);
    }
  }

  /** The spine lists the cover first exactly when there is one, then the
      articles in order, and each idref is the id of a manifest item: the
      spine is the manifest's ids after the NCX and the cover image. */
  lemma SpineResolves(n: nat, cover: bool)
    ensures var m, sp := Manifest(n, cover), Spine(n, cover);
      |sp| == |m| - (if cover then 2 else 1)
      && (forall j :: 0 <= j < |sp| ==> sp[j] == m[|m| - |sp| + j].id)
      && (cover <==> "cover" in sp)
      && (cover ==> sp[0] == "cover")
      && forall i :: 0 <= i < n ==> sp[|sp| - n + i] == ArticleId(i)
  {
    ManifestLayout(n, cover);
  }

  /** Nav point j against spine entry j and the manifest item after the NCX
      and the cover image. */
  lemma NavPointMatches(articles: seq<Article>, cover: bool, j: nat)
    requires j < |articles| + (if cover then 1 else 0)
    ensures var nav, sp, m := NavMap(articles, cover), Spine(|articles|, cover), Manifest(|articles|, cover);
      var c := if cover then 1 else 0;
      |nav| == |sp| == |articles| + c && |m| == |sp| + 1 + c
      && nav[j].id == sp[j] && nav[j].playOrder == j + 1
      && m[j + 1 + c].id == sp[j] && nav[j].src == m[j + 1 + c].href
  {
    var n := |articles|;
    var nav, sp, m := NavMap(articles, cover), Spine(n, cover), Manifest(n, cover);
    var points, refs, items := ArticleNavPoints(articles, cover), ArticleRefs(n), ArticleItems(n);
    if cover {
      var coverItems := [ManifestItem("cover-image", CoverImageHref, "image/jpeg"), ManifestItem("cover", CoverPageHref, XhtmlType)];
      assert m == [ManifestItem("ncx", NcxHref, "application/x-dtbncx+xml")] + coverItems + items;
      if j >= 1 {
        assert nav[j] == points[j - 1];
        assert sp[j] == refs[j - 1];
        assert m[j + 2] == items[j - 1];
      } else {
        assert m[2] == coverItems[1];
      }
    } else {
      assert nav == points && sp == refs;
      assert m == [ManifestItem("ncx", NcxHref, "application/x-dtbncx+xml")] + items;
      assert m[j + 1] == items[j];
    }
  }

  /** The navMap runs parallel to the spine: nav point j has the id of spine
      entry j, playOrder j + 1 (so the orders are exactly 1..k), and as src the
      href of the manifest item with that id, which sits after the NCX and the
      cover image; the label of an article's point is its title. */
  lemma NavMapMatchesSpine(articles: seq<Article>, cover: bool)
    ensures var nav, sp, m := NavMap(articles, cover), Spine(|articles|, cover), Manifest(|articles|, cover);
      var c := if cover then 1 else 0;
      |nav| == |sp| && |m| == |sp| + 1 + c
      && (forall j :: 0 <= j < |nav| ==>
            nav[j].id == sp[j] && nav[j].playOrder == j + 1
            && m[j + 1 + c].id == sp[j] && nav[j].src == m[j + 1 + c].href)
      && forall i :: 0 <= i < |articles| ==> nav[c + i].labelText == articles[i].title
  {
    var n := |articles|;
    var nav, points := NavMap(articles, cover), ArticleNavPoints(articles, cover);
    var c := if cover then 1 else 0;
    assert |nav| == n + c;
    forall j | 0 <= j < |nav|
      ensures nav[j].id == Spine(n, cover)[j] && nav[j].playOrder == j + 1
              && Manifest(n, cover)[j + 1 + c].id == Spine(n, cover)[j]
              && nav[j].src == Manifest(n, cover)[j + 1 + c].href
    {
      NavPointMatches(articles, cover, j);
    }
    forall i | 0 <= i < n ensures nav[c + i].labelText == articles[i].title {
      assert nav[c + i] == points[i];
    }
    if n + c == 0 {
      assert Spine(n, cover) == [] && |Manifest(n, cover)| == 1;
    } else {
      NavPointMatches(articles, cover, 0);
    }
  }

  /** The archive starts with the mimetype, stored, holding exactly
      "application/epub+zip"; then container.xml, which points at the
      package; then the package; everything but the mimetype is deflated. */
  lemma EntriesHead(articles: seq<Article>, title: string, author: string, coverData: Option<seq<byte>>,
                    bookId: string, date: string, ncxUid: string)
    ensures var book := BookEntries(articles, title, author, coverData, bookId, date, ncxUid);
      |book| == 4 + (if HasCover(coverData) then 2 else 0) + |articles|
      && book[0] == ZipEntry("mimetype", Stored, Text("application/epub+zip"))
      && book[1].name == "META-INF/container.xml"
      && book[1].payload.ContainerDoc? && book[1].payload.rootfilePath == book[2].name
      && book[2].name == "OEBPS/content.opf" && book[2].payload.PackageDoc?
      && (forall j :: 1 <= j < |book| ==> book[j].compression == Deflated)
  {
    var book := BookEntries(articles, title, author, coverData, bookId, date, ncxUid);
    var ce, ae := CoverEntries(coverData), ArticleEntries(articles);
    forall j | 4 <= j < |book| ensures book[j].compression == Deflated {
      if j < 4 + |ce| {
        assert book[j] == ce[j - 4];
      } else {
        assert book[j] == ae[j - 4 - |ce|];
      }
    }
  }

  /** After the package, the archive holds one entry per manifest item, in
      manifest order, named "OEBPS/" + its href, and nothing else. */
  lemma EntriesMatchManifest(articles: seq<Article>, title: string, author: string, coverData: Option<seq<byte>>,
                             bookId: string, date: string, ncxUid: string)
    ensures var book, m := BookEntries(articles, title, author, coverData, bookId, date, ncxUid),
                           Manifest(|articles|, HasCover(coverData));
      |book| == |m| + 3
      && forall k :: 0 <= k < |m| ==> book[k + 3].name == ContentDir + m[k].href
  {
    var book, m := BookEntries(articles, title, author, coverData, bookId, date, ncxUid),
                   Manifest(|articles|, HasCover(coverData));
    EntryMatchesItem(articles, title, author, coverData, bookId, date, ncxUid, 0);
    forall k | 0 <= k < |m| ensures book[k + 3].name == ContentDir + m[k].href {
      EntryMatchesItem(articles, title, author, coverData, bookId, date, ncxUid, k);
    }
  }

  /** Entry k + 3 of the archive is the file of manifest item k. */
  lemma EntryMatchesItem(articles: seq<Article>, title: string, author: string, coverData: Option<seq<byte>>,
                         bookId: string, date: string, ncxUid: string, k: nat)
    requires k < |Manifest(|articles|, HasCover(coverData))|
    ensures var book, m := BookEntries(articles, title, author, coverData, bookId, date, ncxUid),
                           Manifest(|articles|, HasCover(coverData));
      |book| == |m| + 3 && book[k + 3].name == ContentDir + m[k].href
  {
    var cover := HasCover(coverData);
    var book, m := BookEntries(articles, title, author, coverData, bookId, date, ncxUid),
                   Manifest(|articles|, cover);
    var ce, ae, items := CoverEntries(coverData), ArticleEntries(articles), ArticleItems(|articles|);
    var coverItems := if cover then [ManifestItem("cover-image", CoverImageHref, "image/jpeg"), ManifestItem("cover", CoverPageHref, XhtmlType)] else [];
    assert m == [ManifestItem("ncx", NcxHref, "application/x-dtbncx+xml")] + coverItems + items;
    var front := FrontEntries(articles, title, author, coverData, bookId, date, ncxUid);
    assert book == front + ce + ae && |front| == 4;
    var first := 1 + |coverItems|;
    if k == 0 {
      assert book[3] == front[3];
    } else if k < first {
      assert book[k + 3] == ce[k - 1];
      assert m[k] == coverItems[k - 1];
    } else {
      assert book[k + 3] == ae[k - first];
      assert m[k] == items[k - first];
    }
  }

  /** The cover page shows the manifest's cover image, and the archive holds
      the cover data under that image's name. */
  lemma CoverEntriesMatch(articles: seq<Article>, title: string, author: string, coverData: Option<seq<byte>>,
                          bookId: string, date: string, ncxUid: string)
    requires HasCover(coverData)
    ensures var book, m := BookEntries(articles, title, author, coverData, bookId, date, ncxUid),
                           Manifest(|articles|, true);
      book[4].payload == Binary(coverData.value) && book[4].name == ContentDir + m[1].href
      && book[5].payload == CoverPage(m[1].href) && book[5].name == ContentDir + m[2].href
  {
    ManifestLayout(|articles|, true);
  }

  /** The package metadata: the cover meta is there exactly when there is
      cover data and names the manifest's cover image; the identifier's id is
      the package's unique-identifier and its text the book's UUID; the spine's
      toc is the NCX's manifest id. */
  lemma PackageMetadata(articles: seq<Article>, title: string, author: string, coverData: Option<seq<byte>>,
                        bookId: string, date: string)
    ensures var p := PackageFor(articles, title, author, coverData, bookId, date);
      (p.metadata.coverMeta.Some? <==> HasCover(coverData))
      && (HasCover(coverData) ==> p.metadata.coverMeta.value == Meta("cover", p.manifest[1].id))
      && p.metadata.identifierId == p.uniqueIdentifier
      && p.metadata.identifier == "urn:uuid:" + bookId
      && p.spineToc == p.manifest[0].id
      && p.metadata.title == title && p.metadata.creator == author
  {
    ManifestLayout(|articles|, HasCover(coverData));
  }

  // ---------------------------------------------------------------------------
  // EPUBGenerator
  // ---------------------------------------------------------------------------

  class EpubGenerator {
    var articles: seq<Article>
    var title: string
    var author: string
    var coverData: Option<seq<byte>>

    constructor ()
      ensures articles == [] && title == "BlueSky Book" && author == "BlueSky Collection" && coverData == None
    {
      articles := [];
      title := "BlueSky Book";
      author := "BlueSky Collection";
      coverData := None;
    }

    /** create_epub: remembers the book's fields, then writes the archive. */
    method CreateEpub(articles: seq<Article>, title: string, author: string, coverData: Option<seq<byte>>,
                      bookId: string, date: string, ncxUid: string)
      returns (epub: ZipArchive)
      modifies this
      ensures this.articles == articles && this.title == title && this.author == author && this.coverData == coverData
      ensures fresh(epub)
      ensures epub.entries == BookEntries(articles, title, author, coverData, bookId, date, ncxUid)
    {
      this.articles := articles;
      this.title := title;
      this.author := author;
      this.coverData := coverData;
      epub := new ZipArchive();
      epub.WriteStr("mimetype", Text("application/epub+zip"), Stored);
      AddContainer(epub);
      AddContentOpf(epub, bookId, date);
      AddTocNcx(epub, ncxUid);
      ghost var front := epub.entries;
      assert front == FrontEntries(articles, title, author, coverData, bookId, date, ncxUid);
      if HasCover(coverData) {
        AddCover(epub);
      }
      ghost var withCover := epub.entries;
      assert withCover == front + CoverEntries(coverData);
      AddArticles(epub);
      assert epub.entries == withCover + ArticleEntries(articles);
    }

    method AddContainer(epub: ZipArchive)
      modifies epub
      ensures epub.entries == old(epub.entries) + [ContainerEntry()]
    {
      epub.WriteStr("META-INF/container.xml", ContainerDoc("OEBPS/content.opf", "application/oebps-package+xml"), Deflated);
    }

    /** _add_content_opf: the metadata, then the manifest and the spine, each
        with one element per article added in a loop. */
    method AddContentOpf(epub: ZipArchive, bookId: string, date: string)
      modifies epub
      ensures epub.entries == old(epub.entries) +
        [ZipEntry("OEBPS/content.opf", Deflated, PackageDoc(PackageFor(articles, title, author, coverData, bookId, date)))]
    {
      var cover := HasCover(coverData);
      var coverMeta := None;
      if cover {
        coverMeta := Some(Meta("cover", "cover-image"));
      }
      var metadata := BookMetadata(title, author, "aut", "en", date, "bookid", "urn:uuid:" + bookId, coverMeta);
      var manifest := [ManifestItem("ncx", NcxHref, "application/x-dtbncx+xml")];
      if cover {
        manifest := manifest + [ManifestItem("cover-image", CoverImageHref, "image/jpeg"), ManifestItem("cover", CoverPageHref, XhtmlType)];
      }
      ghost var head := manifest;
      var n := |articles|;
      var idx := 0;
      while idx < n
        invariant 0 <= idx <= n
        invariant manifest == head + ArticleItems(idx)
        invariant unchanged(epub)
      {
        ArticleItemsGrow(idx);
        manifest := manifest + [ManifestItem(ArticleId(idx), ArticleHref(idx), XhtmlType)];
        idx := idx + 1;
      }
      var spine := [];
      if cover {
        spine := spine + ["cover"];
      }
      ghost var spineHead := spine;
      idx := 0;
      while idx < n
        invariant 0 <= idx <= n
        invariant spine == spineHead + ArticleRefs(idx)
        invariant unchanged(epub)
      {
        ArticleRefsGrow(idx);
        spine := spine + [ArticleId(idx)];
        idx := idx + 1;
      }
      assert manifest == Manifest(n, cover);
      assert spine == Spine(n, cover);
      epub.WriteStr("OEBPS/content.opf", PackageDoc(Package("2.0", "bookid", metadata, manifest, "ncx", spine)), Deflated);
    }

    /** _add_toc_ncx: the head, the title, then the cover's nav point and one
        nav point per article added in a loop. */
    method AddTocNcx(epub: ZipArchive, ncxUid: string)
      modifies epub
      ensures epub.entries == old(epub.entries) +
        [ZipEntry(ContentDir + NcxHref, Deflated, NcxDoc(NcxFor(articles, title, coverData, ncxUid)))]
    {
      var cover := HasCover(coverData);
      var navMap := [];
      if cover {
        navMap := navMap + [NavPoint("cover", 1, Some("Cover"), CoverPageHref)];
      }
      ghost var head := navMap;
      var idx := 0;
      while idx < |articles|
        invariant 0 <= idx <= |articles|
        invariant navMap == head + ArticleNavPoints(articles[..idx], cover)
      {
        var playOrder := if cover then idx + 2 else idx + 1;
        assert ArticleNavPoints(articles[..idx + 1], cover) ==
          ArticleNavPoints(articles[..idx], cover) + [NavPoint(ArticleId(idx), playOrder, articles[idx].title, ArticleHref(idx))];
        navMap := navMap + [NavPoint(ArticleId(idx), playOrder, articles[idx].title, ArticleHref(idx))];
        idx := idx + 1;
      }
      assert articles[..idx] == articles;
      assert navMap == NavMap(articles, cover);
      epub.WriteStr(ContentDir + NcxHref, NcxDoc(Ncx("2005-1", "en", "urn:uuid:" + ncxUid, "1", title, navMap)), Deflated);
    }

    /** _add_cover: the image and its page, or nothing without cover data. */
    method AddCover(epub: ZipArchive)
      modifies epub
      ensures epub.entries == old(epub.entries) + CoverEntries(coverData)
    {
      if !HasCover(coverData) {
        return;
      }
      epub.WriteStr(ContentDir + CoverImageHref, Binary(coverData.value), Deflated);
      epub.WriteStr(ContentDir + CoverPageHref, CoverPage(CoverImageHref), Deflated);
    }

    /** _add_articles: one page per article, in article order. */
    method AddArticles(epub: ZipArchive)
      modifies epub
      ensures epub.entries == old(epub.entries) + ArticleEntries(articles)
    {
      var all := articles;
      ghost var pages := ArticleEntries(all);
      var idx := 0;
      while idx < |all|
        invariant 0 <= idx <= |all|
        invariant epub.entries == old(epub.entries) + pages[..idx]
      {
        var page := CreateArticleHtml(all[idx]);
        assert pages[..idx + 1] == pages[..idx] + [pages[idx]];
        epub.WriteStr(ContentDir + ArticleHref(idx), XhtmlDoc(page), Deflated);
        idx := idx + 1;
      }
      assert pages[..idx] == pages;
    }
  }
}
