/** bskybook/cli.py: the pipeline `main` runs, without the command-line
    parsing, the echo output, the progress bar and the file system.

    Every outside effect is a parameter: the feed request, the page of a link,
    the download of an image, text measurement, JPEG encoding, the clock and
    the two UUIDs. */
module Cli {
  import opened Wrappers
  import opened Strings
  import opened Utils
  import opened Bluesky
  import opened Content
  import opened Cover
  import opened Epub

  // ---------------------------------------------------------------------------
  // Flattening the posts' links
  // ---------------------------------------------------------------------------

  /** The posts' links, post after post, each post's in its own order. */
  function AllLinks(posts: seq<Post>): seq<string>
    decreases |posts|
  {
    if posts == [] then [] else AllLinks(posts[..|posts| - 1]) + posts[|posts| - 1].links
  }

  /** A link is in the flattened list exactly when some post carries it. */
  lemma {:induction false} AllLinksMembers(posts: seq<Post>, x: string)
    ensures x in AllLinks(posts) <==> exists p :: p in posts && x in p.links
    decreases |posts|
  {
    if posts != [] {
      var init := posts[..|posts| - 1];
      AllLinksMembers(init, x);
      assert forall p :: p in posts <==> p in init || p == posts[|posts| - 1];
    }
  }

  /** The loop that extends `all_links` with each post's links. */
  method FlattenLinks(posts: seq<Post>) returns (all: seq<string>)
    ensures all == AllLinks(posts)
  {
    all := [];
    var i := 0;
    while i < |posts|
      invariant 0 <= i <= |posts|
      invariant all == AllLinks(posts[..i])
    {
      assert posts[..i + 1][..i] == posts[..i];
      all := all + posts[i].links;
      i := i + 1;
    }
    assert posts[..i] == posts;
  }

  // ---------------------------------------------------------------------------
  // list(dict.fromkeys(all_links))
  // ---------------------------------------------------------------------------

  /** The list without repeats, each element kept where it first occurs. */
  function Dedup(xs: seq<string>): (r: seq<string>)
    ensures |r| <= |xs|
    decreases |xs|
  {
    if xs == [] then []
    else
      var init, y := xs[..|xs| - 1], xs[|xs| - 1];
      Dedup(init) + (if y in init then [] else [y])
  }

  /** Position of the first occurrence of x. */
  function FirstIndex(xs: seq<string>, x: string): (i: nat)
    requires x in xs
    ensures i < |xs| && xs[i] == x && x !in xs[..i]
    decreases |xs|
  {
    if xs[0] == x then 0
    else
      var i := 1 + FirstIndex(xs[1..], x);
      assert xs[..i] == [xs[0]] + xs[1..][..i - 1];
      i
  }

  lemma FirstIndexOfPrefix(xs: seq<string>, n: nat, x: string)
    requires n <= |xs| && x in xs[..n]
    ensures x in xs && FirstIndex(xs, x) == FirstIndex(xs[..n], x)
  {
    var j := FirstIndex(xs[..n], x);
    assert xs[..n][..j] == xs[..j];
  }

  /** Dedup keeps every element and invents none, and repeats nothing. */
  lemma {:induction false} DedupMembers(xs: seq<string>)
    ensures forall x :: x in Dedup(xs) <==> x in xs
    ensures forall p, q :: 0 <= p < q < |Dedup(xs)| ==> Dedup(xs)[p] != Dedup(xs)[q]
    decreases |xs|
  {
    if xs != [] {
      var init, y := xs[..|xs| - 1], xs[|xs| - 1];
      DedupMembers(init);
      assert xs == init + [y];
    }
  }

  /** One pair of positions of Dedup(xs), given the order already holds for
      the list without its last element. */
  lemma DedupOrderStep(xs: seq<string>, p: nat, q: nat)
    requires xs != [] && p < q < |Dedup(xs)|
    requires var init := xs[..|xs| - 1];
      (forall x :: x in Dedup(init) <==> x in init)
      && (forall a, b :: 0 <= a < b < |Dedup(init)| ==> FirstIndex(init, Dedup(init)[a]) < FirstIndex(init, Dedup(init)[b]))
    ensures Dedup(xs)[p] in xs && Dedup(xs)[q] in xs
    ensures FirstIndex(xs, Dedup(xs)[p]) < FirstIndex(xs, Dedup(xs)[q])
  {
    var init, y := xs[..|xs| - 1], xs[|xs| - 1];
    var d, r := Dedup(init), Dedup(xs);
    assert r[p] == d[p];
    FirstIndexOfPrefix(xs, |init|, r[p]);
    if q < |d| {
      assert r[q] == d[q];
      FirstIndexOfPrefix(xs, |init|, r[q]);
    } else {
      assert r[q] == y && y !in init;
      assert xs[..|init|] == init;
      assert FirstIndex(xs, y) == |init|;
    }
  }

  /** Dedup lists the elements in the order of their first occurrences. */
  lemma {:induction false} DedupOrder(xs: seq<string>)
    ensures forall x :: x in Dedup(xs) ==> x in xs
    ensures forall p, q :: 0 <= p < q < |Dedup(xs)| ==> FirstIndex(xs, Dedup(xs)[p]) < FirstIndex(xs, Dedup(xs)[q])
    decreases |xs|
  {
    DedupMembers(xs);
    if xs != [] {
      var init := xs[..|xs| - 1];
      DedupOrder(init);
      DedupMembers(init);
      forall p, q | 0 <= p < q < |Dedup(xs)| ensures FirstIndex(xs, Dedup(xs)[p]) < FirstIndex(xs, Dedup(xs)[q]) {
        DedupOrderStep(xs, p, q);
      }
    }
  }

  /** The loop that `dict.fromkeys` performs: a link is appended the first
      time it is seen. */
  method UniqueLinks(links: seq<string>) returns (unique: seq<string>)
    ensures unique == Dedup(links)
  {
    unique := [];
    var seen: set<string> := {};
    var i := 0;
    while i < |links|
      invariant 0 <= i <= |links|
      invariant unique == Dedup(links[..i])
      invariant forall x :: x in seen <==> x in links[..i]
    {
      assert links[..i + 1][..i] == links[..i];
      assert links[..i + 1] == links[..i] + [links[i]];
      if links[i] !in seen {
        unique := unique + [links[i]];
        seen := seen + {links[i]};
      }
      i := i + 1;
    }
    assert links[..i] == links;
  }

  /** The unique links hold every link of every post exactly once, in the
      order the links first occur across the posts, and nothing else. */
  lemma UniquePostLinks(posts: seq<Post>)
    ensures var all, u := AllLinks(posts), Dedup(AllLinks(posts));
      (forall x :: x in u <==> exists p :: p in posts && x in p.links)
      && (forall a, b :: 0 <= a < b < |u| ==> u[a] != u[b])
      && (forall a, b :: 0 <= a < b < |u| ==>
            u[a] in all && u[b] in all && FirstIndex(all, u[a]) < FirstIndex(all, u[b]))
  {
    var all := AllLinks(posts);
    DedupMembers(all);
    DedupOrder(all);
    forall x ensures x in Dedup(all) <==> exists p :: p in posts && x in p.links {
      AllLinksMembers(posts, x);
    }
  }

  // ---------------------------------------------------------------------------
  // The output path and the run
  // ---------------------------------------------------------------------------

  /** `Path(f"{sanitize_filename(handle)}.epub")`, used without --output. */
  function DefaultOutputPath(handle: string): (path: string)
    ensures EndsWith(path, ".epub") && |path| <= MaxFilenameLength + 5
    ensures forall i :: 0 <= i < |path| - 5 ==> !ForbiddenInFilename(path[i])
    ensures path[..|path| - 5] == SanitizeFilename(handle)
  {
    var safe := SanitizeFilename(handle);
    assert (safe + ".epub")[..|safe|] == safe;
    safe + ".epub"
  }

  function BookTitle(handle: string): string {
    handle + " - BlueSky Book"
  }

  function BookAuthor(handle: string): string {
    "@" + handle
  }

  /** How a run ends: the error exit (status 1) after an exception, the two
      early returns that write nothing, or the book written to `path`. */
  datatype Outcome =
    | ErrorExit(message: string)
    | NoPostsWithLinks
    | NoArticlesExtracted
    | BookCreated(path: string, cover: CoverImage, articles: seq<Article>, entries: seq<ZipEntry>)

  /** The process exit status: `SystemExit(1)` after an exception; every
      other end, the two early returns included, is a normal return. */
  function ExitStatus(o: Outcome): (status: int)
    ensures status == 0 || status == 1
    ensures status == 1 <==> o.ErrorExit?
  {
    if o.ErrorExit? then 1 else 0
  }

  /** The articles the posts lead to: one attempt per unique link, in link
      order, keeping those that could be extracted. */
  function LinkArticles(posts: seq<Post>, page: string -> Page): seq<Article> {
    Somes(Attempts(Dedup(AllLinks(posts)), page))
  }

  /** Steps 2 and 3 of main: flatten the links, drop repeats, extract. */
  method CollectArticles(posts: seq<Post>, page: string -> Page) returns (articles: seq<Article>)
    ensures articles == LinkArticles(posts, page)
  {
    var allLinks := FlattenLinks(posts);
    var uniqueLinks := UniqueLinks(allLinks);
    articles := ExtractMultiple(uniqueLinks, page);
  }

  /** Steps 4 and 5 of main: the cover titled like the book, then the book
      by "@handle" with the encoded cover. */
  method MakeBook(articles: seq<Article>, handle: string,
                  fetchImage: string -> Option<ImageSize>, measure: (string, nat) -> TextSize,
                  encodeJpeg: CoverImage -> seq<byte>,
                  today: Today, bookId: string, date: string, ncxUid: string)
    returns (cover: CoverImage, entries: seq<ZipEntry>)
    requires today.day >= 0
    ensures cover.Simple? <==> Somes(Downloads(ThumbnailUrls(articles), fetchImage)) == []
    ensures cover.title.text == BookTitle(handle)
    ensures entries == BookEntries(articles, BookTitle(handle), BookAuthor(handle),
                                   Some(encodeJpeg(cover)), bookId, date, ncxUid)
  {
    cover := GenerateCover(articles, BookTitle(handle), today, fetchImage, measure);
    var coverData := encodeJpeg(cover);
    var generator := new EpubGenerator();
    var epub := generator.CreateEpub(articles, BookTitle(handle), BookAuthor(handle), Some(coverData), bookId, date, ncxUid);
    entries := epub.entries;
  }

  /** main, after the argument parsing: the handle, the feed's posts, their
      unique links, the extracted articles, the cover, then the book; no
      cover and no book when there are no posts or no articles. */
  method Run(profile: string, count: int, output: Option<string>,
             feed: FeedRequest -> FeedResponse, page: string -> Page,
             fetchImage: string -> Option<ImageSize>, measure: (string, nat) -> TextSize,
             encodeJpeg: CoverImage -> seq<byte>,
             today: Today, bookId: string, date: string, ncxUid: string)
    returns (outcome: Outcome)
    requires today.day >= 0
    ensures var handle := ExtractHandleFromUrl(profile);
      var response := feed(AuthorFeedRequest(handle, count));
      (outcome.ErrorExit? <==> response.RequestFailed?)
      && (ExitStatus(outcome) == 1 <==> response.RequestFailed?)
      && (outcome.NoPostsWithLinks? <==>
            response.FeedJson? && FeedPosts(handle, FeedItems(response.feed)) == [])
    ensures var handle := ExtractHandleFromUrl(profile);
      var response := feed(AuthorFeedRequest(handle, count));
      var posts := if response.FeedJson? then FeedPosts(handle, FeedItems(response.feed)) else [];
      var articles := LinkArticles(posts, page);
      (outcome.NoArticlesExtracted? <==> response.FeedJson? && posts != [] && articles == [])
      && (outcome.BookCreated? ==>
            outcome.path == (if output.Some? then output.value else DefaultOutputPath(handle))
            && outcome.articles == articles && articles != []
            && (outcome.cover.Simple? <==> Somes(Downloads(ThumbnailUrls(articles), fetchImage)) == [])
            && outcome.cover.title.text == BookTitle(handle)
            && outcome.entries == BookEntries(articles, BookTitle(handle), BookAuthor(handle),
                                              Some(encodeJpeg(outcome.cover)), bookId, date, ncxUid))
  {
    var handle := ExtractHandleFromUrl(profile);
    var path := if output.Some? then output.value else DefaultOutputPath(handle);
    var posts := GetAuthorFeed(handle, count, feed);
    if posts.Failure? {
      return ErrorExit(posts.error);
    }
    if posts.value == [] {
      return NoPostsWithLinks;
    }
    var articles := CollectArticles(posts.value, page);
    if articles == [] {
      return NoArticlesExtracted;
    }
    var cover, entries := MakeBook(articles, handle, fetchImage, measure, encodeJpeg, today, bookId, date, ncxUid);
    return BookCreated(path, cover, articles, entries);
  }
}
