/** The Realm of Darkness listing parser: one post record per `article` element,
    in document order. Cheerio's selectors are not modelled: an article arrives as
    the attribute and the elements inside it that the selectors pick. */
module RealmOfDarknessParser {
  import opened Common
  import opened Text
  import ParserService

  type Anchor = ParserService.Anchor

  /** The `.entry-thumbnail img` element: its four attributes, each possibly absent. */
  datatype Image = Image(
    src: Option<seq<char>>,
    alt: Option<seq<char>>,
    width: Option<seq<char>>,
    height: Option<seq<char>>)

  /** What the selectors pick inside one `article` element. An anchor the selector
      does not find has empty text and no href, as Cheerio reports an empty
      selection. */
  datatype Article = Article(
    id: Option<seq<char>>,           // the article's `id` attribute
    title: Anchor,                   // `.entry-title a`
    continueHref: Option<seq<char>>, // `href` of `.continue-reading`
    dateText: seq<char>,             // text of `.entry-date a`
    author: Anchor,                  // `.entry-author a`
    categories: seq<Anchor>,         // every `.entry-categories a`, in document order
    image: Option<Image>,            // `.entry-thumbnail img`, if there is one
    excerptText: seq<char>)          // text of `.entry-excerpt p`

  datatype Title = Title(text: Option<seq<char>>, url: Option<seq<char>>)

  /** The `{ name, url }` records of the author and of each category. */
  datatype NamedLink = NamedLink(name: Option<seq<char>>, url: Option<seq<char>>)

  datatype Thumbnail = Thumbnail(
    url: Option<seq<char>>,
    alt: Option<seq<char>>,
    width: Option<seq<char>>,
    height: Option<seq<char>>)

  /** The post record `parse` pushes for one article. */
  datatype ListingPost = ListingPost(
    id: Option<seq<char>>,
    title: Title,
    url: Option<seq<char>>,
    date: Option<seq<char>>,
    author: NamedLink,
    categories: seq<NamedLink>,
    thumbnail: Option<Thumbnail>,
    excerpt: Option<seq<char>>)

  /** The object `parse` resolves to. */
  datatype Listing = Listing(posts: seq<ListingPost>, totalPosts: nat)

  const PostPrefix := "post-"

  /** `attr("id")?.replace("post-", "") || null`: the id with the first "post-"
      removed; null when the attribute is absent or nothing is left. */
  function PostId(id: Option<seq<char>>): (r: Option<seq<char>>)
    ensures r.None? <==> (id.None? || id.value == [] || id.value == PostPrefix)
  {
    match id
    case None => None
    case Some(a) =>
      ReplaceFirstByNothing(a, PostPrefix);
      TextOrNull(ReplaceFirst(a, PostPrefix, []))
  }

  /** An id of the form "post-" followed by something gives that something:
      "post-10" gives "10". */
  lemma PostIdStripsPrefix(rest: seq<char>)
    requires rest != []
    ensures PostId(Some(PostPrefix + rest)) == Some(rest)
  {
    ReplaceFirstAtFront(PostPrefix, rest);
  }

  /** An id that does not contain "post-" is kept as it is. */
  lemma PostIdKeepsOtherIds(a: seq<char>)
    requires a != []
    requires forall j: nat :: !OccursAt(a, PostPrefix, j)
    ensures PostId(Some(a)) == Some(a)
  {
    ReplaceFirstAbsent(a, PostPrefix, []);
  }

  /** `extractTitle`. */
  function ExtractTitle(a: Anchor): (r: Title)
    ensures TrimmedOrNull(a.text, r.text)
    ensures AttributeOrNull(a.href, r.url)
  {
    Title(TrimOrNull(a.text), OrNull(a.href))
  }

  /** `extractPostUrl`. */
  function ExtractPostUrl(href: Option<seq<char>>): (r: Option<seq<char>>)
    ensures AttributeOrNull(href, r)
  {
    OrNull(href)
  }

  /** `extractDate`. */
  function ExtractDate(text: seq<char>): (r: Option<seq<char>>)
    ensures TrimmedOrNull(text, r)
  {
    TrimOrNull(text)
  }

  /** `extractAuthor`, and the record pushed for one category anchor. */
  function NamedLinkOf(a: Anchor): (r: NamedLink)
    ensures TrimmedOrNull(a.text, r.name)
    ensures AttributeOrNull(a.href, r.url)
  {
    NamedLink(TrimOrNull(a.text), OrNull(a.href))
  }

  /** The categories of an article, one record per anchor. */
  function CategoriesOf(anchors: seq<Anchor>): (r: seq<NamedLink>)
    ensures |r| == |anchors|
    ensures forall i :: 0 <= i < |anchors| ==> r[i] == NamedLinkOf(anchors[i])
  {
    seq(|anchors|, i requires 0 <= i < |anchors| => NamedLinkOf(anchors[i]))
  }

  /** `extractCategories`: one record per category anchor, in document order. */
  method ExtractCategories(anchors: seq<Anchor>) returns (categories: seq<NamedLink>)
    ensures categories == CategoriesOf(anchors)
  {
    categories := [];
    var i := 0;
    while i < |anchors|
      invariant 0 <= i <= |anchors|
      invariant |categories| == i
      invariant forall j :: 0 <= j < i ==> categories[j] == NamedLinkOf(anchors[j])
    {
      categories := categories + [NamedLinkOf(anchors[i])];
      i := i + 1;
    }
  }

  /** `extractThumbnail`: null when there is no image, otherwise each attribute
      or null. */
  function ExtractThumbnail(image: Option<Image>): (r: Option<Thumbnail>)
    ensures r.None? <==> image.None?
    ensures r.Some? ==>
      && AttributeOrNull(image.value.src, r.value.url)
      && AttributeOrNull(image.value.alt, r.value.alt)
      && AttributeOrNull(image.value.width, r.value.width)
      && AttributeOrNull(image.value.height, r.value.height)
  {
    match image
    case None => None
    case Some(img) => Some(Thumbnail(OrNull(img.src), OrNull(img.alt), OrNull(img.width), OrNull(img.height)))
  }

  /** `extractExcerpt`. */
  function ExtractExcerpt(text: seq<char>): (r: Option<seq<char>>)
    ensures TrimmedOrNull(text, r)
  {
    TrimOrNull(text)
  }

  /** The post record of one article. */
  function PostOf(a: Article): ListingPost {
    ListingPost(
      PostId(a.id),
      ExtractTitle(a.title),
      ExtractPostUrl(a.continueHref),
      ExtractDate(a.dateText),
      NamedLinkOf(a.author),
      CategoriesOf(a.categories),
      ExtractThumbnail(a.image),
      ExtractExcerpt(a.excerptText))
  }

  /** The object literal `parse` builds for one article. */
  method ParseArticle(a: Article) returns (post: ListingPost)
    ensures post == PostOf(a)
  {
    var categories := ExtractCategories(a.categories);
    post := ListingPost(
      PostId(a.id),
      ExtractTitle(a.title),
      ExtractPostUrl(a.continueHref),
      ExtractDate(a.dateText),
      NamedLinkOf(a.author),
      categories,
      ExtractThumbnail(a.image),
      ExtractExcerpt(a.excerptText));
  }

  /** `parse`: one post per article in document order, and their count. */
  method Parse(articles: seq<Article>) returns (listing: Listing)
    ensures |listing.posts| == |articles|
    ensures forall i :: 0 <= i < |articles| ==> listing.posts[i] == PostOf(articles[i])
    ensures listing.totalPosts == |listing.posts|
  {
    var posts: seq<ListingPost> := [];
    var i := 0;
    while i < |articles|
      invariant 0 <= i <= |articles|
      invariant |posts| == i
      invariant forall j :: 0 <= j < i ==> posts[j] == PostOf(articles[j])
    {
      var post := ParseArticle(articles[i]);
      posts := posts + [post];
      i := i + 1;
    }
    listing := Listing(posts, |posts|);
  }
}
