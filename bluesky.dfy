/** bskybook/bluesky.py: fetching an author's feed from the public Bluesky API
    and turning its items into posts that carry links.

    The HTTP call is a function parameter from the request to the decoded
    response; the JSON feed is a sequence of records whose absent keys are
    None. */
module Bluesky {
  import opened Wrappers
  import opened Strings
  import opened Utils

  /** The Post dataclass. */
  datatype Post = Post(uri: string, text: string, links: seq<string>, createdAt: string, author: string)

  /** The `embed` of a post record: absent or empty (falsy), present without an
      "external" entry, or with one whose "uri" may be missing. */
  datatype Embed = NoEmbed | EmbedWithoutExternal | External(uri: Option<string>)

  /** One entry of the feed: the post's "uri" and its record's "text",
      "createdAt" and "embed"; None stands for a missing key. */
  datatype FeedItem = FeedItem(uri: Option<string>, text: Option<string>, createdAt: Option<string>, embed: Embed)

  /** The getAuthorFeed request: endpoint, actor and limit. */
  datatype FeedRequest = FeedRequest(url: string, actor: string, limit: int)

  /** The outcome of the request: a failed request (connection error, bad
      status or undecodable body) or the decoded body, whose "feed" may be
      missing. */
  datatype FeedResponse = RequestFailed(reason: string) | FeedJson(feed: Option<seq<FeedItem>>)

  const ApiBase := "https://public.api.bsky.app/xrpc"
  const DefaultLimit := 20

  /** `d.get(key, "")`. */
  function OrEmpty(o: Option<string>): (s: string)
    ensures o.Some? ==> s == o.value
    ensures o.None? ==> s == ""
  {
    if o.Some? then o.value else ""
  }

  /** The request get_author_feed sends. */
  function AuthorFeedRequest(handle: string, limit: int): FeedRequest {
    FeedRequest(ApiBase + "/app.bsky.feed.getAuthorFeed", handle, limit)
  }

  /** The items of a response body: `data.get("feed", [])`. */
  function FeedItems(body: Option<seq<FeedItem>>): seq<FeedItem> {
    if body.Some? then body.value else []
  }

  /** A post's links: the links found in its text, in scan order, then the
      embed's external URI when it is non-empty and not among them already. */
  function PostLinks(text: string, embed: Embed): seq<string> {
    var found := ExtractLinks(text);
    if embed.External? && Truthy(embed.uri) && embed.uri.value !in found then found + [embed.uri.value]
    else found
  }

  /** The text's links come first and unchanged; the embed's URI is one more
      link, last, exactly when it is non-empty and new. */
  lemma PostLinksShape(text: string, embed: Embed)
    ensures var found, links := ExtractLinks(text), PostLinks(text, embed);
      |found| <= |links| <= |found| + 1 && links[..|found|] == found
      && (|links| == |found| + 1 <==> embed.External? && Truthy(embed.uri) && embed.uri.value !in found)
      && (|links| == |found| + 1 ==> links[|found|] == embed.uri.value)
  {
    var found := ExtractLinks(text);
    if embed.External? && Truthy(embed.uri) && embed.uri.value !in found {
      assert (found + [embed.uri.value])[..|found|] == found;
    }
  }

  /** The post one feed item becomes, if any: none when it has no link. */
  function PostFromItem(handle: string, item: FeedItem): Option<Post> {
    var text := OrEmpty(item.text);
    var links := PostLinks(text, item.embed);
    if links == [] then None
    else Some(Post(OrEmpty(item.uri), text, links, OrEmpty(item.createdAt), handle))
  }

  /** An item gives a post exactly when it has a link; the post is by the
      requested author and carries the item's fields, "" for missing ones. */
  lemma PostFromItemShape(handle: string, item: FeedItem)
    ensures var r := PostFromItem(handle, item);
      (r.Some? <==> PostLinks(OrEmpty(item.text), item.embed) != [])
      && (r.Some? ==>
            r.value.author == handle && r.value.links != []
            && r.value.text == OrEmpty(item.text) && r.value.links == PostLinks(r.value.text, item.embed)
            && r.value.uri == OrEmpty(item.uri) && r.value.createdAt == OrEmpty(item.createdAt))
  {
  }

  /** What each feed item gives, in feed order. */
  function ItemPosts(handle: string, items: seq<FeedItem>): (r: seq<Option<Post>>)
    ensures |r| == |items|
  {
    seq(|items|, i requires 0 <= i < |items| => PostFromItem(handle, items[i]))
  }

  /** The posts get_author_feed returns for a feed. */
  function FeedPosts(handle: string, items: seq<FeedItem>): seq<Post> {
    Somes(ItemPosts(handle, items))
  }

  /** get_author_feed: one request; a failed request is passed on as a
      failure, otherwise the feed items are turned into posts one by one. */
  method GetAuthorFeed(handle: string, limit: int, fetch: FeedRequest -> FeedResponse)
    returns (r: Result<seq<Post>, string>)
    ensures var response := fetch(AuthorFeedRequest(handle, limit));
      (r.Failure? <==> response.RequestFailed?)
      && (r.Success? ==> r.value == FeedPosts(handle, FeedItems(response.feed)))
  {
    var response := fetch(AuthorFeedRequest(handle, limit));
    if response.RequestFailed? {
      return Failure(response.reason);
    }
    var items := FeedItems(response.feed);
    ghost var outcomes := ItemPosts(handle, items);
    var posts: seq<Post> := [];
    var i := 0;
    while i < |items|
      invariant 0 <= i <= |items|
      invariant posts == Somes(outcomes[..i])
    {
      var post := ItemPost(handle, items[i]);
      SomesStep(outcomes, i);
      if post.Some? {
        posts := posts + [post.value];
      }
      i := i + 1;
    }
    assert outcomes[..i] == outcomes;
    return Success(posts);
  }

  /** The body of get_author_feed's loop for one item: the text's links, the
      external embed's URI added when it is non-empty and new, and a post only
      when there is a link. */
  method ItemPost(handle: string, item: FeedItem) returns (post: Option<Post>)
    ensures post == PostFromItem(handle, item)
  {
    var text := OrEmpty(item.text);
    var links := ExtractLinks(text);
    if item.embed.External? {
      var externalUri := item.embed.uri;
      if Truthy(externalUri) && externalUri.value !in links {
        links := links + [externalUri.value];
      }
    }
    if links != [] {
      return Some(Post(OrEmpty(item.uri), text, links, OrEmpty(item.createdAt), handle));
    }
    return None;
  }

  /** The returned posts keep feed order and are never more than the items;
      each is by the requested author, has at least one link, and comes from
      an item of the feed; every item with a link gives its post. */
  lemma FeedPostsFaithful(handle: string, items: seq<FeedItem>, p: Post)
    ensures |FeedPosts(handle, items)| <= |items|
    ensures p in FeedPosts(handle, items) ==> p.author == handle && p.links != []
    ensures p in FeedPosts(handle, items) <==>
      exists i :: 0 <= i < |items| && PostFromItem(handle, items[i]) == Some(p)
  {
    var att := ItemPosts(handle, items);
    SomesMembers(att, p);
    if Some(p) in att {
      var i :| 0 <= i < |att| && att[i] == Some(p);
      assert PostFromItem(handle, items[i]) == Some(p);
      PostFromItemShape(handle, items[i]);
    } else {
      forall i | 0 <= i < |items| ensures PostFromItem(handle, items[i]) != Some(p) {
        assert att[i] == PostFromItem(handle, items[i]);
      }
    }
  }

  /** A feed whose every item carries a link gives one post per item, in
      order: post i is the post of item i. */
  lemma EveryLinkedItemKept(handle: string, items: seq<FeedItem>)
    requires forall i :: 0 <= i < |items| ==> PostLinks(OrEmpty(items[i].text), items[i].embed) != []
    ensures |FeedPosts(handle, items)| == |items|
    ensures forall i :: 0 <= i < |items| ==>
      PostFromItem(handle, items[i]).Some? && FeedPosts(handle, items)[i] == PostFromItem(handle, items[i]).value
    ensures forall i :: 0 <= i < |items| ==> FeedPosts(handle, items)[i].text == OrEmpty(items[i].text)
  {
    var att := ItemPosts(handle, items);
    forall i | 0 <= i < |items| ensures att[i].Some? && att[i].value.text == OrEmpty(items[i].text) {
      PostFromItemShape(handle, items[i]);
    }
    SomesAllSucceeded(att);
  }

  /** The embed link never repeats a text link, so a post's links are
      distinct whenever its text's links are. */
  lemma PostLinksNoNewRepeat(text: string, embed: Embed)
    requires forall a, b :: 0 <= a < b < |ExtractLinks(text)| ==> ExtractLinks(text)[a] != ExtractLinks(text)[b]
    ensures var links := PostLinks(text, embed);
      forall a, b :: 0 <= a < b < |links| ==> links[a] != links[b]
  {
    var found := ExtractLinks(text);
    var links := PostLinks(text, embed);
    forall a, b | 0 <= a < b < |links| ensures links[a] != links[b] {
      if b == |found| {
        assert links[a] == found[a];
      }
    }
  }
}
