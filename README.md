# bskybook in Dafny

bskybook turns a Bluesky author feed into an EPUB 2 e-book, in five steps:

1. It fetches the author's recent posts.
2. It keeps the posts that carry links (links found in the text, plus the embedded external link).
3. It de-duplicates the links and extracts a readable article from each linked page.
4. It builds a cover: a two-column mosaic of the article thumbnails under a translucent title band, or a plain text cover when no thumbnail could be had.
5. It writes the archive:
   - `mimetype`;
   - `META-INF/container.xml`;
   - the OPF package;
   - the NCX table of contents;
   - the optional cover image and cover page;
   - one XHTML page per article.

This project models that pipeline and proves what each step promises. There is one module per source file.

- `Utils` (`utils.py`):
  - the URL scanner is modelled as a scan over a table of regex matches;
  - file-name sanitising;
  - truncation;
  - recovering a handle from a profile URL, including the parts of `urlparse` it relies on.
- `Bluesky` (`bluesky.py`): the loop that turns feed items into posts. The HTTP call is a function from the request to the decoded response.
- `Content` (`content.py`):
  - the decision logic of `extract_article` over what the extractors return;
  - the thumbnail priority chain;
  - the `extract_multiple` loop.
- `Cover` (`cover.py`):
  - the cover's integer geometry: grid, cells, scale-and-centre-crop, text centring and stacking;
  - the ordinal date suffix;
  - the download filter;
  - the choice between mosaic and simple cover.

  A cover is a value listing what is drawn where.
- `Epub` (`epub.py`):
  - `EPUBGenerator` is a class whose methods append entries to a `ZipArchive` object;
  - the OPF package and the NCX are records;
  - XML escaping is modelled with its round trip and its safety property;
  - the lemmas tie the manifest, the spine, the navMap and the archive entries together.
- `Cli` (`cli.py`): the pipeline of `main`. Its parts:
  - link flattening;
  - first-occurrence de-duplication;
  - the article filter;
  - the default output path;
  - the two early exits;
  - the error exit.

`Strings` holds the Python string built-ins the source uses: `str.replace`, `startswith`, `in`, `strip`, slicing, `str(int)`. `Wrappers` holds `Option`, `Result` and `Somes`, which keeps the present values of a sequence in order.

## Model

| member | source | states |
|---|---|---|
| Utils.RunEndMaximal | bskybook/utils.py:61-64 | the greedy `+` of the URL pattern consumes only URL characters and stops at the end of the text or at a character outside the class |
| Utils.MatchAt | bskybook/utils.py:61-63 | a match starts at an `http://`/`https://` scheme and ends strictly after it, within the text |
| Utils.Scan | bskybook/utils.py:64 | the spans `findall` reports lie inside the text, in text order, without overlapping |
| Utils.ScanMatches | bskybook/utils.py:64 | every reported span is a match of the pattern at its own start |
| Utils.ScanCovers | bskybook/utils.py:64 | every position where the matcher finds a match lies inside a reported span: the left-to-right scan skips no match |
| Utils.MatchIsUrl | bskybook/utils.py:61-63 | a match is a scheme followed by at least one URL character, and the character after it is not a URL character |
| Utils.MatchAtIff | bskybook/utils.py:61-63 | the matcher finds a match at a position exactly when `http://` or `https://` starts there and is followed by a URL character: it invents no URL and misses none |
| Utils.ExtractLinksSound | bskybook/utils.py:51-64 | each link is the text of its span, is a URL of the accepted shape and is maximal; the spans are ordered and disjoint; every position where `http://` or `https://` is followed by a URL character lies in one of the spans |
| Utils.SanitizeFilename | bskybook/utils.py:67-81 | the length is min(len, 200); no forbidden character remains; forbidden characters become `_` and all others stay in place |
| Utils.SanitizeFilenameIdempotent | bskybook/utils.py:77-81 | sanitising a sanitised name changes nothing |
| Utils.TruncateText | bskybook/utils.py:84-96 | a short enough text is returned unchanged; otherwise, for a bound of at least 3, the result has exactly the bound's length, ends in `...` and starts with a prefix of the text |
| Utils.AfterScheme | bskybook/utils.py:42 | what urlsplit keeps after the scheme is a suffix of the URL |
| Utils.SplitNetloc | bskybook/utils.py:42 | the network location and the rest, glued back (with the `//`), give the input |
| Utils.DropParams | bskybook/utils.py:42 | the path without its `;params` is a prefix of the path |
| Utils.ExtractHandleFromUrl | bskybook/utils.py:22-48 | a non-http input is returned as is; an http URL is changed only when its host contains `bsky.app` and its path `/profile/`, and then the result neither starts nor ends with `/` |
| Utils.UrlSplit | bskybook/utils.py:42-43 | urlparse of `scheme://net/path` gives `net` as netloc and the path minus its params |
| Utils.ProfileUrlParts | bskybook/utils.py:42-43 | `https://bsky.app/profile/<h>` is an http URL with netloc `bsky.app` and path `/profile/<h>` |
| Utils.ProfilePathReplaced | bskybook/utils.py:44 | removing `/profile/` from `/profile/<h>` leaves `<h>` |
| Utils.ProfileUrlHandle | bskybook/utils.py:31-45 | a bsky.app profile URL yields its handle (the documented example) |
| Bluesky.OrEmpty | bskybook/bluesky.py:94-100 | a missing key reads as the empty string, a present one as its value |
| Bluesky.PostLinksShape | bskybook/bluesky.py:77-87 | the text's links come first, unchanged; the embed URI is appended last exactly when it is non-empty and not among them |
| Bluesky.PostFromItemShape | bskybook/bluesky.py:89-100 | an item gives a post exactly when it has a link; the post carries the requested author, the item's text and links, and `""` for missing fields |
| Bluesky.ItemPost | bskybook/bluesky.py:72-100 | the loop body for one item computes exactly the post PostFromItem describes: none without a link, otherwise the item's fields with the text links and the new embed URI |
| Bluesky.GetAuthorFeed | bskybook/bluesky.py:41-108 | a failed request is passed on as a failure; otherwise the posts are those of the feed items, in feed order |
| Bluesky.FeedPostsFaithful | bskybook/bluesky.py:67-101 | no more posts than items; every post is by the handle, has a link and comes from an item; every linked item gives its post |
| Bluesky.EveryLinkedItemKept | bskybook/bluesky.py:72-101 | when every item has a link there is one post per item, in order, and post i is exactly the post of item i |
| Bluesky.PostLinksNoNewRepeat | bskybook/bluesky.py:83-87 | the embed link never duplicates a text link |
| Content.ExtractThumbnail | bskybook/content.py:136-167 | the first non-empty of og:image, twitter:image and the first img src; none when all are empty or parsing fails |
| Content.TitleAuthorDate | bskybook/content.py:96-111 | no or empty metadata gives `Untitled` and no author or date; dict metadata is `Untitled` only without the key; a falsy Document title becomes `Untitled`; the title is missing only when a dict maps it to None |
| Content.FallbackHtml | bskybook/content.py:83-84 | the fallback HTML is wrapped in one `<p>` … `</p>` |
| Content.NoPairLeft | bskybook/content.py:84 | after replacing every doubled character by a text without it, no two of it are left side by side |
| Content.NoBlankLineLeft | bskybook/content.py:84 | the fallback HTML holds no blank line |
| Content.ExtractArticle | bskybook/content.py:41-134 | an article exactly when the page was fetched and gave markdown; it keeps the URL and the markdown; its HTML is the extracted HTML or the fallback, never empty; its metadata and thumbnail come from the rules above |
| Content.ExtractMultiple | bskybook/content.py:169-185 | the loop returns the successful extractions in URL order |
| Content.ExtractedArticles | bskybook/content.py:178-185 | no more articles than URLs; each comes from a URL of the list that gave markdown; every URL that succeeds contributes its article |
| Content.AllPagesExtracted | bskybook/content.py:178-185 | when every page succeeds, article i is the one for URL i |
| Cover.OrdinalSuffix | bskybook/cover.py:38-50 | the suffix is one of `st`, `nd`, `rd`, `th` |
| Cover.OrdinalSuffixIsEnglish | bskybook/cover.py:47-50 | the source's `10..20` rule agrees for every day with the English rule (11–13 take `th`, otherwise the last digit decides) |
| Cover.NumberField | bskybook/cover.py:57-62 | a number printed before a word that starts with a non-digit is a maximal run of digits that reads back as the number |
| Cover.CreationDateReadsBack | bskybook/cover.py:52-62 | the date starts with `<weekday>, `; the day follows as a maximal run of digits that reads back as the day, then its English ordinal suffix; the text ends with ` of <month> ` and the digits of the year, which read back as the year |
| Cover.SubtitleReadsBack | bskybook/cover.py:259-260 | in the subtitle, after `Created on <weekday>, `, the day reads back as itself and is followed by its English ordinal suffix |
| Cover.ScaleToFill | bskybook/cover.py:199-210 | the scaled image covers the target; the wider image is scaled to the target height, the other to the target width, with the other side the floor of the proportional size |
| Cover.CropToFill | bskybook/cover.py:185-222 | the crop box has exactly the target size, lies inside the scaled image and is centred up to one pixel |
| Cover.Rows | bskybook/cover.py:151-153 | rows is the ceiling of n / 2 |
| Cover.CellHeight | bskybook/cover.py:155-161 | cell height is the floor of 1480 / rows |
| Cover.CellInside | bskybook/cover.py:167-178 | each image's cell lies inside the cover and above the 200-pixel title band, and is at least one pixel high |
| Cover.CellsDisjoint | bskybook/cover.py:167-178 | the cells of two different images do not overlap |
| Cover.MosaicTiles | bskybook/cover.py:167-178 | one tile per image |
| Cover.MosaicTilesFill | bskybook/cover.py:167-178 | each tile is pasted at its cell's origin and its crop fills exactly that cell |
| Cover.CreateMosaic | bskybook/cover.py:137-183 | the paste loop places exactly the tiles of the grid, in image order |
| Cover.CenterX | bskybook/cover.py:277 | `(W - w) // 2` centres a text of width w, up to one pixel |
| Cover.StackText | bskybook/cover.py:276-284 | both lines are centred; the subtitle starts below the title after the spacing; texts and fonts as given |
| Cover.OverlayStartY | bskybook/cover.py:272-274 | the text block is centred on the middle of the title band, up to one pixel, and lies inside the band when it fits |
| Cover.SimpleStartY | bskybook/cover.py:329-331 | the text block is centred on the page, up to one pixel, and lies inside it when it fits |
| Cover.MosaicCover | bskybook/cover.py:240-284 | the background is `#1a1a1a`; the band spans the bottom 200 pixels at alpha 180; title and subtitle use fonts 60 and 24; the subtitle drawn is `Created on <date>, by bskybook` for the given day |
| Cover.SimpleCover | bskybook/cover.py:300-341 | the background is `#2C3E50`; the title and subtitle use fonts 80 and 30; the subtitle drawn is `Created on <date>, by bskybook` for the given day |
| Cover.TextPlacement | bskybook/cover.py:272-340 | on both covers each line is centred, the subtitle follows the title after the spacing, and the block is centred in the band or on the page |
| Cover.FirstImages | bskybook/cover.py:118 | exactly the first min(n, 20) URLs are tried, in order |
| Cover.DownloadImages | bskybook/cover.py:107-135 | the loop keeps the successful downloads of the first 20 URLs, in order |
| Cover.DownloadedImages | bskybook/cover.py:116-135 | at most 20 images; an image is kept exactly when one of the first 20 URLs fetched it |
| Cover.ThumbnailUrls | bskybook/cover.py:83 | the URLs are the articles' non-empty thumbnail URLs, one per such article and in article order; a URL is listed exactly when some article has it; there are no more of them than articles |
| Cover.GenerateCover | bskybook/cover.py:64-92 | the simple cover exactly when no image was downloaded, otherwise the mosaic of the 1–20 downloaded images, titled with the given title |
| Epub.ZipArchive.constructor | bskybook/epub.py:56 | a new archive is empty |
| Epub.ZipArchive.WriteStr | bskybook/epub.py:58 | writing appends one entry with its name, compression and payload |
| Epub.EscapeChar | bskybook/epub.py:379-384 | a character is escaped exactly when it is one of the five special ones |
| Epub.ReplaceChainChar | bskybook/epub.py:379-384 | on one character the five chained replaces act as the per-character map |
| Epub.ReplaceChainIsEscapeAll | bskybook/epub.py:379-384 | because `&` is replaced first, the chain equals the per-character map on every text |
| Epub.EscapeXml | bskybook/epub.py:368-384 | a missing or empty text gives `""`; any other text gives its per-character escape |
| Epub.DecodeEscaped | bskybook/epub.py:379-384 | the reader of entities decodes an escaped character back to it |
| Epub.EscapeRoundTrip | bskybook/epub.py:379-384 | unescaping the escaped text gives the text back |
| Epub.EscapeAllSafe | bskybook/epub.py:379-384 | the escaped text holds no `<`, `>`, `"` or `'`, and every `&` starts one of the five entities of XML 1.0, section 4.6 |
| Epub.EscapedField | bskybook/epub.py:368-384 | an escaped field is safe and reads back as its text, or as `""` when missing or empty |
| Epub.CreateArticleHtml | bskybook/epub.py:307-366 | the title is escaped in the head and the h1; the `By` line appears exactly when there is an author; the date line appears exactly when there is a date, unescaped; the content is inserted verbatim |
| Epub.ArticlePageText | bskybook/epub.py:324-357 | the heading and the author inside the byline carry no markup and read back as the title and the author |
| Epub.ArticlePageLink | bskybook/epub.py:359 | the href of the source link carries no markup and reads back as the article's URL |
| Epub.ArticleItems | bskybook/epub.py:164-169 | one manifest item per article |
| Epub.ArticleIdShape | bskybook/epub.py:167-168 | article ids and hrefs start with `a`, unlike the NCX and cover items |
| Epub.ArticleNamesInjective | bskybook/epub.py:167-168 | different indices give different ids and hrefs |
| Epub.ManifestLayout | bskybook/epub.py:143-169 | the manifest has 1 + 2·[cover] + n items: the NCX, the cover image and page when there is a cover, then the articles in order |
| Epub.ManifestDistinct | bskybook/epub.py:143-169 | no two manifest items share an id or an href |
| Epub.SpineResolves | bskybook/epub.py:171-183 | the spine is `cover` first exactly when there is a cover, then the articles in order, and every idref is a manifest id |
| Epub.ArticleNavPoints | bskybook/epub.py:241-254 | one nav point per article |
| Epub.NavMapMatchesSpine | bskybook/epub.py:225-254 | nav point j has the id of spine entry j and playOrder j + 1, so the orders run exactly from 1 to k; its src is the href of the manifest item with that id; an article's label is its title |
| Epub.PackageMetadata | bskybook/epub.py:106-140 | the cover meta exists exactly when there is cover data and names the cover image; the identifier's id is the package's unique-identifier; its text is `urn:uuid:` + the id; the spine's toc is the NCX item |
| Epub.EntriesHead | bskybook/epub.py:55-74 | the archive starts with `mimetype`, stored and holding `application/epub+zip`, then container.xml pointing at the package, then the package; every other entry is deflated |
| Epub.EntriesMatchManifest | bskybook/epub.py:56-74 | after the package there is exactly one entry per manifest item, in manifest order, named `OEBPS/` + its href |
| Epub.CoverEntriesMatch | bskybook/epub.py:266-295 | with a cover, the archive holds the cover data under the manifest's cover image name, and the cover page shows that image |
| Epub.EpubGenerator.constructor | bskybook/epub.py:21-26 | no articles, title `BlueSky Book`, author `BlueSky Collection`, no cover |
| Epub.EpubGenerator.CreateEpub | bskybook/epub.py:28-76 | the fields are set to the arguments and the new archive holds exactly the book's entries |
| Epub.EpubGenerator.AddContainer | bskybook/epub.py:78-90 | appends container.xml, which points at `OEBPS/content.opf` |
| Epub.EpubGenerator.AddContentOpf | bskybook/epub.py:92-192 | the manifest and spine loops build the package for the current fields; appends it as `OEBPS/content.opf` |
| Epub.EpubGenerator.AddTocNcx | bskybook/epub.py:194-264 | the navMap loop builds the NCX for the current fields; appends it as `OEBPS/toc.ncx` |
| Epub.EpubGenerator.AddCover | bskybook/epub.py:266-295 | appends the cover image and page only when there is non-empty cover data |
| Epub.EpubGenerator.AddArticles | bskybook/epub.py:297-305 | appends `OEBPS/article<i>.html` with page i for each article, in order |
| Cli.AllLinksMembers | bskybook/cli.py:75-77 | a link is in the flattened list exactly when some post carries it |
| Cli.FlattenLinks | bskybook/cli.py:75-77 | the `extend` loop gives the posts' links, post after post |
| Cli.Dedup | bskybook/cli.py:80 | never longer than its input |
| Cli.DedupMembers | bskybook/cli.py:80 | the de-duplicated list has the same members as its input, and no repeats |
| Cli.DedupOrder | bskybook/cli.py:80 | its elements come in the order of their first occurrence in the input |
| Cli.UniqueLinks | bskybook/cli.py:79-80 | the loop with a seen-set computes exactly that list |
| Cli.UniquePostLinks | bskybook/cli.py:74-80 | the unique links hold every link of every post exactly once, in first-occurrence order, and nothing else |
| Cli.DefaultOutputPath | bskybook/cli.py:57-60 | the sanitised handle plus `.epub`: at most 205 characters, no forbidden character in the name |
| Cli.CollectArticles | bskybook/cli.py:74-94 | the articles are the successful extractions of the unique links, in link order |
| Cli.MakeBook | bskybook/cli.py:102-119 | the cover is simple exactly when no thumbnail downloads; cover and book are titled `<handle> - BlueSky Book`; the book by `@<handle>` holds the encoded cover and the book's entries |
| Cli.ExitStatus | bskybook/cli.py:127-131 | the status is 1 exactly after the error exit and 0 on every other end, the two early returns included |
| Cli.Run | bskybook/cli.py:36-131 | error exit, and exit status 1, exactly on a failed request; no book exactly when there are no posts with links or no articles; otherwise the book at the default or given path, with the articles of the unique links, the cover and the entries above |

## Left out

- HTTP. The sessions, timeouts, `raise_for_status`, `close` and the context managers are not modelled. The feed request, each linked page and each thumbnail download are function parameters.
- The library extractors. trafilatura's markdown, HTML and metadata, and BeautifulSoup's three thumbnail candidates, are inputs to `Content.ExtractArticle` (a `Page` value). Any exception they raise is the `FetchFailed` or `ParseFailed` case.
- Pixel work. LANCZOS resizing, pasting, the RGBA alpha composite, colours other than the background name, and font loading with its fallbacks are not modelled. A cover is the list of what is drawn where. `textbbox` is the `measure` parameter; an image is its size.
- Cover.ScaleToFill: compares `iw·th` with `tw·ih` and floors exact integer quotients. This idealises the source's float ratios and `int(...)` conversions, which can round differently for very large or unlucky sizes.
- JPEG encoding at quality 95 is the `encodeJpeg` parameter of `Cli.Run`. Saving the cover to `output_path` in `generate_cover` is not modelled; the pipeline never passes that argument.
- Serialisation. lxml's output, DEFLATE compression, and the literal text of container.xml, cover.html and the article CSS are not modelled. The OPF and NCX are records, and an archive entry is its name, compression and payload.
- The clock and the identifiers. `datetime.now()` is the `today` and `date` parameters. `strftime`'s names are fields of `Today`. `%Y` is printed as `str(year)`, so a year below 1000 is not zero-padded.
- The two `uuid4()` values are separate parameters (`bookId`, `ncxUid`) and are never taken to be equal.
- Logging, `setup_logging`, the click command and its options, `echo`, the progress bar, `mkdir`, writing the file and the size report are not modelled.
- Cli.Run: `KeyboardInterrupt` and exceptions other than a failed feed request are not modelled. Every modelled step after the request is total, so the error exit arises only from the request.
- Cli.CollectArticles: the article loop of `main` (cli.py:90-94) is the same loop as `extract_multiple`, and the model reuses `Content.ExtractMultiple` for it.
- Bluesky.GetAuthorFeed: the JSON keys are taken to hold strings (or be absent). A non-string `text` or `uri` is not modelled. The `limit` is only sent; nothing caps the number of items on the client side.
- Utils.ExtractHandleFromUrl: urlsplit is modelled only as far as the netloc and path fields go:
  - the deletion of tab, CR and LF;
  - the scheme split;
  - the `//` netloc;
  - query and fragment;
  - `;params`.

  Its scheme-character validation and IPv6 bracket checks are not modelled. The profile-URL lemma covers `https://` only.
- Cover: the grid lemmas require at most 2960 images, which keeps cells at least one pixel high. The program never passes more than 20.
- Utils.ExtractLinksSound: `extract_links` does not de-duplicate. `findall` returns a URL once per occurrence, and repeats are dropped only across the whole feed (cli.py:80, `Cli.UniqueLinks`).
