/** The Realm of Darkness crawl: initialize the store, fetch and parse the
    listing page, then upsert every parsed post in order, counting new posts,
    updated posts and posts whose upsert failed. The fetched page is a parameter
    (its articles, or the fetch error); so are the clock reading and the outcome
    of the save for the k-th post. */
module RealmOfDarknessCrawler {
  import opened Common
  import opened Database
  import RealmOfDarknessParser

  type ListingPost = RealmOfDarknessParser.ListingPost
  type Article = RealmOfDarknessParser.Article

  /** The `crawlResults` object; `newPosts` is its `new` counter. */
  datatype CrawlResults = CrawlResults(total: nat, newPosts: nat, updated: nat, errors: nat)

  /** The three counters the loop increments. */
  datatype Tally = Tally(newPosts: nat, updated: nat, errors: nat)

  // ---------------------------------------------------------------------------
  // The post object handed to the store

  function Nullable(o: Option<seq<char>>): Value {
    if o.Some? then Str(o.value) else Null
  }

  function NamedLinkValue(l: RealmOfDarknessParser.NamedLink): Value {
    Object(map["name" := Nullable(l.name), "url" := Nullable(l.url)])
  }

  function ThumbnailValue(t: Option<RealmOfDarknessParser.Thumbnail>): Value {
    match t
    case None => Null
    case Some(th) =>
      Object(map["url" := Nullable(th.url), "alt" := Nullable(th.alt),
                 "width" := Nullable(th.width), "height" := Nullable(th.height)])
  }

  /** The fields of a parsed post as the object the crawler upserts. */
  function PostObject(p: ListingPost): map<seq<char>, Value> {
    map[
      "id" := Nullable(p.id),
      "title" := Object(map["text" := Nullable(p.title.text), "url" := Nullable(p.title.url)]),
      "url" := Nullable(p.url),
      "date" := Nullable(p.date),
      "author" := NamedLinkValue(p.author),
      "categories" := Array(seq(|p.categories|, i requires 0 <= i < |p.categories| => NamedLinkValue(p.categories[i]))),
      "thumbnail" := ThumbnailValue(p.thumbnail),
      "excerpt" := Nullable(p.excerpt)]
  }

  // ---------------------------------------------------------------------------
  // The crawl as a function of the store

  /** The file-system outcomes of the k-th upsert: the crawl's own directory and
      initial-save outcomes, and the k-th save. */
  function UpsertIo(io: Io, writeOk: bool): Io {
    Io(io.mkdirOk, io.initWriteOk, writeOk)
  }

  /** The counter one upsert outcome increments. */
  function Count(c: Tally, r: Result<bool>): (d: Tally)
    ensures r == Ok(true) ==> d == c.(newPosts := c.newPosts + 1)
    ensures r == Ok(false) ==> d == c.(updated := c.updated + 1)
    ensures r.Err? ==> d == c.(errors := c.errors + 1)
    ensures d.newPosts + d.updated + d.errors == c.newPosts + c.updated + c.errors + 1
  {
    match r
    case Ok(isNew) => if isNew then c.(newPosts := c.newPosts + 1) else c.(updated := c.updated + 1)
    case Err(_) => c.(errors := c.errors + 1)
  }

  /** The loop over the parsed posts, in order: the store and the counters after
      upserting `posts`, the k-th with clock reading `clock(k)` and save outcome
      `accepts(k)`. */
  function Run(s: Store, posts: seq<ListingPost>, io: Io, accepts: nat -> bool, clock: nat -> nat): (Store, Tally)
  {
    if posts == [] then (s, Tally(0, 0, 0))
    else
      var n := |posts| - 1;
      var (t, c) := Run(s, posts[..n], io, accepts, clock);
      var (u, r) := AfterUpsert(t, posts[n].id, PostObject(posts[n]), clock(n), UpsertIo(io, accepts(n)));
      (u, Count(c, r))
  }

  /** The posts `parse` makes of the articles. */
  function ParsedPosts(articles: seq<Article>): (r: seq<ListingPost>)
    ensures |r| == |articles|
  {
    seq(|articles|, i requires 0 <= i < |articles| => RealmOfDarknessParser.PostOf(articles[i]))
  }

  /** `crawlPosts`: a failure of `init` or of the fetch is rethrown; otherwise
      the counters of the loop, with `total` the number of parsed posts. */
  function Crawl(s: Store, page: Result<seq<Article>>, io: Io, accepts: nat -> bool, clock: nat -> nat): (r: (Store, Result<CrawlResults>))
    ensures r.1.Err? <==> AfterInit(s, io).1.Fail? || page.Err?
    ensures r.1.Ok? ==> r.1.value.total == |page.value|
    ensures r.1.Ok? ==> r.1.value.newPosts + r.1.value.updated + r.1.value.errors == r.1.value.total
  {
    var (t, o) := AfterInit(s, io);
    if o.Fail? then (t, Err(o.failure))
    else if page.Err? then (t, Err(page.failure))
    else
      var posts := ParsedPosts(page.value);
      RunCounts(t, posts, io, accepts, clock);
      var (u, c) := Run(t, posts, io, accepts, clock);
      (u, Ok(CrawlResults(|posts|, c.newPosts, c.updated, c.errors)))
  }

  // ---------------------------------------------------------------------------
  // The crawler object

  class RealmOfDarknessCrawler {
    const db: DatabaseService

    constructor(file: Disk)
      ensures fresh(db) && db.State() == Store(map[], false, file)
    {
      db := new DatabaseService(file);
    }

    method CrawlPosts(page: Result<seq<Article>>, io: Io, accepts: nat -> bool, clock: nat -> nat)
      returns (r: Result<CrawlResults>)
      modifies db
      ensures (db.State(), r) == Crawl(old(db.State()), page, io, accepts, clock)
    {
      var o := db.Init(io);
      if o.Fail? {
        return Err(o.failure);
      }
      if page.Err? {
        return Err(page.failure);
      }
      var result := RealmOfDarknessParser.Parse(page.value);
      assert result.posts == ParsedPosts(page.value);
      var results := UpsertAll(result.posts, io, accepts, clock);
      r := Ok(results);
    }

    /** The `for` loop of `crawlPosts`: each post upserted under its id, and the
        counter its outcome names incremented; a failed upsert does not stop the
        loop. */
    method UpsertAll(posts: seq<ListingPost>, io: Io, accepts: nat -> bool, clock: nat -> nat)
      returns (results: CrawlResults)
      modifies db
      ensures results.total == |posts|
      ensures db.State() == Run(old(db.State()), posts, io, accepts, clock).0
      ensures Tally(results.newPosts, results.updated, results.errors) == Run(old(db.State()), posts, io, accepts, clock).1
    {
      ghost var start := db.State();
      var tally := Tally(0, 0, 0);
      var i := 0;
      while i < |posts|
        invariant 0 <= i <= |posts|
        invariant db.State() == Run(start, posts[..i], io, accepts, clock).0
        invariant tally == Run(start, posts[..i], io, accepts, clock).1
      {
        RunStep(start, posts, i, io, accepts, clock);
        tally := UpsertOne(posts[i], i, io, accepts, clock, tally);
        i := i + 1;
      }
      assert posts[..|posts|] == posts;
      results := CrawlResults(|posts|, tally.newPosts, tally.updated, tally.errors);
    }

    /** One iteration: upsert the k-th post and increment the counter its outcome
        names. */
    method UpsertOne(post: ListingPost, k: nat, io: Io, accepts: nat -> bool, clock: nat -> nat, tally: Tally)
      returns (next: Tally)
      modifies db
      ensures var (u, r) := AfterUpsert(old(db.State()), post.id, PostObject(post), clock(k), UpsertIo(io, accepts(k)));
        db.State() == u && next == Count(tally, r)
    {
      var isNew := db.UpsertPost(post.id, PostObject(post), clock(k), UpsertIo(io, accepts(k)));
      match isNew {
        case Ok(true) => next := tally.(newPosts := tally.newPosts + 1);
        case Ok(false) => next := tally.(updated := tally.updated + 1);
        case Err(_) => next := tally.(errors := tally.errors + 1);
      }
    }
  }

  /** One more post: the loop over the first i + 1 posts is the loop over the
      first i followed by the upsert of post i. */
  lemma RunStep(s: Store, posts: seq<ListingPost>, i: nat, io: Io, accepts: nat -> bool, clock: nat -> nat)
    requires i < |posts|
    ensures var (t, c) := Run(s, posts[..i], io, accepts, clock);
      var (u, r) := AfterUpsert(t, posts[i].id, PostObject(posts[i]), clock(i), UpsertIo(io, accepts(i)));
      Run(s, posts[..i + 1], io, accepts, clock) == (u, Count(c, r))
  {
    assert posts[..i + 1][..i] == posts[..i];
  }

  // ---------------------------------------------------------------------------
  // What the loop promises

  /** Every post increments exactly one counter. */
  lemma {:induction false} RunCounts(s: Store, posts: seq<ListingPost>, io: Io, accepts: nat -> bool, clock: nat -> nat)
    ensures var (_, c) := Run(s, posts, io, accepts, clock);
      c.newPosts + c.updated + c.errors == |posts|
  {
    if posts != [] {
      RunCounts(s, posts[..|posts| - 1], io, accepts, clock);
    }
  }

  /** The ids of a run of posts; a post without an id contributes `null`. */
  function Ids(posts: seq<ListingPost>): set<Key> {
    if posts == [] then {} else Ids(posts[..|posts| - 1]) + {posts[|posts| - 1].id}
  }

  /** The number of posts whose save succeeds and whose id is in neither the
      store nor an earlier post. */
  function FirstSightings(known: set<Key>, posts: seq<ListingPost>, accepts: nat -> bool): nat {
    if posts == [] then 0
    else
      var n := |posts| - 1;
      FirstSightings(known, posts[..n], accepts)
        + (if accepts(n) && posts[n].id !in known + Ids(posts[..n]) then 1 else 0)
  }

  /** The number of posts whose save fails. */
  function Failures(posts: seq<ListingPost>, accepts: nat -> bool): nat {
    if posts == [] then 0
    else Failures(posts[..|posts| - 1], accepts) + (if accepts(|posts| - 1) then 0 else 1)
  }

  /** In an initialized store, the loop adds every post's id to the keys (null
      ids all under the one key null), leaves the records of other ids alone, and
      keeps the store initialized. */
  lemma {:induction false} RunKeys(s: Store, posts: seq<ListingPost>, io: Io, accepts: nat -> bool, clock: nat -> nat)
    requires s.initialized
    ensures var (u, _) := Run(s, posts, io, accepts, clock);
      && u.initialized
      && u.posts.Keys == s.posts.Keys + Ids(posts)
      && (forall k :: k in s.posts && k !in Ids(posts) ==> u.posts[k] == s.posts[k])
  {
    if posts != [] {
      var n := |posts| - 1;
      RunKeys(s, posts[..n], io, accepts, clock);
      var (t, _) := Run(s, posts[..n], io, accepts, clock);
      UpsertKeys(t, posts[n].id, PostObject(posts[n]), clock(n), UpsertIo(io, accepts(n)));
    }
  }

  /** In an initialized store, `new` counts exactly the saved posts whose id was
      absent when they were processed, and `errors` exactly the failed saves. */
  lemma {:induction false} RunCountsNew(s: Store, posts: seq<ListingPost>, io: Io, accepts: nat -> bool, clock: nat -> nat)
    requires s.initialized
    ensures var (_, c) := Run(s, posts, io, accepts, clock);
      && c.newPosts == FirstSightings(s.posts.Keys, posts, accepts)
      && c.errors == Failures(posts, accepts)
  {
    if posts != [] {
      var n := |posts| - 1;
      RunCountsNew(s, posts[..n], io, accepts, clock);
      RunKeys(s, posts[..n], io, accepts, clock);
      var (t, _) := Run(s, posts[..n], io, accepts, clock);
      UpsertReportsNew(t, posts[n].id, PostObject(posts[n]), clock(n), UpsertIo(io, accepts(n)));
    }
  }

  /** Posts sharing one id that the store does not hold, such as several posts
      with a null id, when every save succeeds: the first is counted new and the
      rest updated. */
  lemma {:induction false} SameIdCountedOnce(known: set<Key>, posts: seq<ListingPost>, accepts: nat -> bool, id: Key)
    requires posts != [] && id !in known
    requires forall i :: 0 <= i < |posts| ==> posts[i].id == id && accepts(i)
    ensures FirstSightings(known, posts, accepts) == 1
    ensures Failures(posts, accepts) == 0
  {
    var n := |posts| - 1;
    if n > 0 {
      SameIdCountedOnce(known, posts[..n], accepts, id);
      assert posts[..n][n - 1].id == id;
    }
  }

  /** The store takes the id before it saves, so when the first of such posts
      fails to save, none of them is ever counted new, whatever later saves do. */
  lemma {:induction false} FailedFirstSaveNeverNew(known: set<Key>, posts: seq<ListingPost>, accepts: nat -> bool, id: Key)
    requires posts != [] && id !in known && !accepts(0)
    requires forall i :: 0 <= i < |posts| ==> posts[i].id == id
    ensures FirstSightings(known, posts, accepts) == 0
  {
    var n := |posts| - 1;
    if n > 0 {
      FailedFirstSaveNeverNew(known, posts[..n], accepts, id);
      assert posts[..n][n - 1].id == id;
    }
  }

  /** A crawl into a store that holds none of the page's (single) id, with every
      save succeeding, counts one new post and the rest as updated. */
  lemma RepeatedIdCrawl(s: Store, articles: seq<Article>, io: Io, accepts: nat -> bool, clock: nat -> nat, id: Key)
    requires AfterInit(s, io).1.Pass? && id !in AfterInit(s, io).0.posts
    requires articles != []
    requires forall i :: 0 <= i < |articles| ==> RealmOfDarknessParser.PostOf(articles[i]).id == id && accepts(i)
    ensures var (_, r) := Crawl(s, Ok(articles), io, accepts, clock);
      r == Ok(CrawlResults(|articles|, 1, |articles| - 1, 0))
  {
    var t := AfterInit(s, io).0;
    var posts := ParsedPosts(articles);
    RunCountsNew(t, posts, io, accepts, clock);
    RunCounts(t, posts, io, accepts, clock);
    SameIdCountedOnce(t.posts.Keys, posts, accepts, id);
  }
}
