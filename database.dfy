/** The post store: an in-memory map from post id to record, loaded lazily from a
    snapshot file, and written back in full after every change. The file system is
    the `disk` state plus, for each call, whether its directory creation and its
    writes succeed; the clock is a parameter. */
module Database {
  import opened Common

  /** A post id: a string, or `null` for a post without one. */
  type Key = Option<seq<char>>

  /** The JavaScript values a record is made of. `Stamp(t)` is the ISO string
      `new Date().toISOString()` gives at instant `t`. */
  datatype Value =
    | Undefined
    | Null
    | Boolean(b: bool)
    | Number(n: int)
    | Str(s: seq<char>)
    | Stamp(t: nat)
    | Array(items: seq<Value>)
    | Object(fields: map<seq<char>, Value>)

  /** The snapshot file: absent, present but unreadable or not JSON, or holding a
      map. */
  datatype Disk = Missing | Unreadable | Holds(contents: map<Key, Value>)

  /** How the file-system calls of one operation turn out. */
  datatype Io = Io(
    mkdirOk: bool,     // creating the data directory in `init`
    initWriteOk: bool, // the save `init` runs when the file is missing
    writeOk: bool)     // the operation's own save

  /** The store's state: the map, the `initialized` flag and the file. */
  datatype Store = Store(posts: map<Key, Value>, initialized: bool, disk: Disk)

  const UpdatedAt := "updatedAt"
  const CrawledAt := "crawledAt"

  /** `v.f` (and `v?.f`): the field of an object, `undefined` for anything else. */
  function Field(v: Value, f: seq<char>): Value {
    if v.Object? && f in v.fields then v.fields[f] else Undefined
  }

  /** JavaScript's falsy values (NaN is not modelled). */
  predicate Falsy(v: Value) {
    v.Undefined? || v.Null? || v == Boolean(false) || v == Number(0) || v == Str([])
  }

  // ---------------------------------------------------------------------------
  // The operations as functions of the store

  /** `save`: the whole map becomes the file, or the write fails and is rethrown. */
  function AfterSave(s: Store, writeOk: bool): (r: (Store, Outcome))
    ensures r.0.posts == s.posts && r.0.initialized == s.initialized
    ensures r.1.Pass? <==> writeOk
    ensures r.1.Pass? ==> r.0.disk == Holds(s.posts)
    ensures r.1.Fail? ==> r.0 == s && r.1.failure == WriteFailed
  {
    if writeOk then (s.(disk := Holds(s.posts)), Pass) else (s, Fail(WriteFailed))
  }

  /** `init`: create the directory, then load the file; a missing file is
      replaced by a snapshot of the current map, any other read error is
      rethrown. The store is initialized only when all of this succeeds. */
  function AfterInit(s: Store, io: Io): (r: (Store, Outcome))
    ensures r.1.Pass? <==> io.mkdirOk && (s.disk.Holds? || (s.disk.Missing? && io.initWriteOk))
    ensures r.1.Pass? ==> r.0.initialized && r.0.disk == Holds(r.0.posts)
    ensures r.1.Pass? ==> r.0.posts == (if s.disk.Holds? then s.disk.contents else s.posts)
    ensures r.1.Fail? ==> r.0 == s
  {
    if !io.mkdirOk then (s, Fail(WriteFailed))
    else
      match s.disk
      case Holds(m) => (s.(posts := m, initialized := true), Pass)
      case Unreadable => (s, Fail(ReadFailed))
      case Missing =>
        var (t, o) := AfterSave(s, io.initWriteOk);
        if o.Fail? then (t, o) else (t.(initialized := true), Pass)
  }

  /** `if (!this.initialized) await this.init()`, which every public operation runs first. */
  function Prepared(s: Store, io: Io): (r: (Store, Outcome))
    ensures s.initialized ==> r == (s, Pass)
    ensures r.1.Pass? ==> r.0.initialized
  {
    if s.initialized then (s, Pass) else AfterInit(s, io)
  }

  /** The record `upsertPost` stores: the post's fields, then `updatedAt` and
      `crawledAt` over them. `crawledAt` is carried over from the previous record
      when there is one; `now` is the single clock reading of the call. */
  function Stamped(post: map<seq<char>, Value>, prior: Option<Value>, now: nat): (r: Value)
    ensures r.Object?
    ensures forall f :: f != UpdatedAt && f != CrawledAt ==> Field(r, f) == (if f in post then post[f] else Undefined)
    ensures Field(r, UpdatedAt) == Stamp(now)
    ensures Field(r, CrawledAt) == (if prior.Some? then Field(prior.value, CrawledAt) else Stamp(now))
  {
    var crawled := if prior.None? then Stamp(now) else Field(prior.value, CrawledAt);
    Object(post[UpdatedAt := Stamp(now)][CrawledAt := crawled])
  }

  /** The previous record under `id`, if there is one. */
  function Prior(m: map<Key, Value>, id: Key): Option<Value> {
    if id in m then Some(m[id]) else None
  }

  /** `upsertPost`: initialize if needed, record whether the id was absent, store
      the stamped record, then save. A failing save is rethrown, but the map has
      already been changed. */
  function AfterUpsert(s: Store, id: Key, post: map<seq<char>, Value>, now: nat, io: Io): (r: (Store, Result<bool>))
  {
    var (t, o) := Prepared(s, io);
    if o.Fail? then (t, Err(o.failure))
    else
      var isNew := id !in t.posts;
      var u := t.(posts := t.posts[id := Stamped(post, Prior(t.posts, id), now)]);
      var (v, w) := AfterSave(u, io.writeOk);
      if w.Fail? then (v, Err(w.failure)) else (v, Ok(isNew))
  }

  /** `getPost`'s answer in a prepared store: the record, or null when the id is
      absent or its record is falsy. */
  function Lookup(m: map<Key, Value>, id: Key): (r: Option<Value>)
    ensures r.None? <==> (id !in m || Falsy(m[id]))
    ensures r.Some? ==> id in m && r.value == m[id]
  {
    if id in m && !Falsy(m[id]) then Some(m[id]) else None
  }

  /** `keys` lists every key of `m` exactly once. */
  predicate Enumerates(m: map<Key, Value>, keys: seq<Key>) {
    && (forall i, j :: 0 <= i < j < |keys| ==> keys[i] != keys[j])
    && (forall i :: 0 <= i < |keys| ==> keys[i] in m)
    && (forall k :: k in m ==> k in keys)
  }

  // ---------------------------------------------------------------------------
  // What upsertPost promises

  /** A successful `upsertPost` reports true exactly when the id was absent
      from the (initialized) map; it succeeds exactly when initialization and
      the save succeed. */
  lemma UpsertReportsNew(s: Store, id: Key, post: map<seq<char>, Value>, now: nat, io: Io)
    ensures var (t, o) := Prepared(s, io);
      var (_, r) := AfterUpsert(s, id, post, now, io);
      && (r.Ok? <==> o.Pass? && io.writeOk)
      && (r.Ok? ==> (r.value <==> id !in t.posts))
  {
  }

  /** Once initialization has succeeded, the key set gains `id` and every other
      record is untouched, even when the save then fails; a failed
      initialization changes nothing. */
  lemma UpsertKeys(s: Store, id: Key, post: map<seq<char>, Value>, now: nat, io: Io)
    ensures var (t, o) := Prepared(s, io);
      var (u, _) := AfterUpsert(s, id, post, now, io);
      && (o.Pass? ==> u.posts.Keys == t.posts.Keys + {id})
      && (o.Pass? ==> forall k :: k in t.posts && k != id ==> u.posts[k] == t.posts[k])
      && (o.Fail? ==> u == s)
  {
  }

  /** The stored record is the post's own fields with the two stamps over them:
      `updatedAt` is now, `crawledAt` is carried over from the previous record or
      is now for a new id, and no other field of the previous record survives. */
  lemma UpsertRecord(s: Store, id: Key, post: map<seq<char>, Value>, now: nat, io: Io)
    ensures var (t, o) := Prepared(s, io);
      var (u, _) := AfterUpsert(s, id, post, now, io);
      o.Pass? ==>
        && id in u.posts
        && Field(u.posts[id], UpdatedAt) == Stamp(now)
        && (id in t.posts ==> Field(u.posts[id], CrawledAt) == Field(t.posts[id], CrawledAt))
        && (id !in t.posts ==> Field(u.posts[id], CrawledAt) == Stamp(now))
        && (forall f :: f != UpdatedAt && f != CrawledAt ==>
              Field(u.posts[id], f) == (if f in post then post[f] else Undefined))
  {
  }

  /** After a successful `upsertPost` the snapshot file holds exactly the map. */
  lemma UpsertPersists(s: Store, id: Key, post: map<seq<char>, Value>, now: nat, io: Io)
    ensures var (u, r) := AfterUpsert(s, id, post, now, io);
      r.Ok? ==> u.initialized && u.disk == Holds(u.posts)
  {
  }

  /** `getPost` right after a successful `upsertPost` finds the stored record. */
  lemma UpsertThenGet(s: Store, id: Key, post: map<seq<char>, Value>, now: nat, io: Io)
    ensures var (u, r) := AfterUpsert(s, id, post, now, io);
      r.Ok? ==> Prepared(u, io) == (u, Pass) && Lookup(u.posts, id) == Some(u.posts[id])
  {
    var (u, r) := AfterUpsert(s, id, post, now, io);
    if r.Ok? {
      UpsertRecord(s, id, post, now, io);
      assert !Falsy(u.posts[id]);
    }
  }

  /** A second `upsertPost` of the same id reports it as known and keeps the
      first `crawledAt`. */
  lemma UpsertTwice(s: Store, id: Key, p: map<seq<char>, Value>, q: map<seq<char>, Value>, now: nat, later: nat, io: Io)
    requires id !in s.posts && s.initialized
    ensures var (u, r) := AfterUpsert(s, id, p, now, io);
      var (v, r') := AfterUpsert(u, id, q, later, io);
      && (r.Ok? ==> r.value)
      && (r.Ok? && r'.Ok? ==> !r'.value)
      && (r.Ok? && r'.Ok? ==> Field(v.posts[id], CrawledAt) == Stamp(now) && Field(v.posts[id], UpdatedAt) == Stamp(later))
  {
    UpsertRecord(s, id, p, now, io);
    var (u, r) := AfterUpsert(s, id, p, now, io);
    UpsertRecord(u, id, q, later, io);
  }

  /** `init` on a fresh store whose file is missing leaves an empty, initialized
      map and an empty snapshot. */
  lemma InitOnMissingFile(io: Io)
    requires io.mkdirOk && io.initWriteOk
    ensures AfterInit(Store(map[], false, Missing), io) == (Store(map[], true, Holds(map[])), Pass)
  {
  }

  /** Running `init` again after it succeeded reloads the snapshot it left,
      which is the map itself, so nothing changes. */
  lemma InitIdempotent(s: Store, io: Io)
    ensures var (t, o) := AfterInit(s, io);
      o.Pass? ==> AfterInit(t, io) == (t, Pass)
  {
  }

  /** A fresh service over the file a successful `upsertPost` left behind loads
      the same map. */
  lemma ReloadRestores(s: Store, id: Key, post: map<seq<char>, Value>, now: nat, io: Io)
    requires io.mkdirOk
    ensures var (u, r) := AfterUpsert(s, id, post, now, io);
      r.Ok? ==> AfterInit(Store(map[], false, u.disk), io) == (Store(u.posts, true, u.disk), Pass)
  {
  }

  // ---------------------------------------------------------------------------
  // The two stamps

  /** A record whose two stamps are both times has `crawledAt` no later than
      `updatedAt`. */
  predicate InOrder(v: Value) {
    Field(v, CrawledAt).Stamp? && Field(v, UpdatedAt).Stamp? ==>
      Field(v, CrawledAt).t <= Field(v, UpdatedAt).t
  }

  predicate AllInOrder(m: map<Key, Value>) {
    forall k :: k in m ==> InOrder(m[k])
  }

  /** No record was first crawled after `now`: the clock has not gone back. */
  predicate CrawledBy(m: map<Key, Value>, now: nat) {
    forall k :: k in m ==> Field(m[k], CrawledAt).Stamp? ==> Field(m[k], CrawledAt).t <= now
  }

  /** Under a clock that does not go back, every upsert keeps every record's
      `crawledAt` no later than its `updatedAt`. */
  lemma UpsertKeepsOrder(s: Store, id: Key, post: map<seq<char>, Value>, now: nat, io: Io)
    requires s.initialized && AllInOrder(s.posts) && CrawledBy(s.posts, now)
    ensures var (u, _) := AfterUpsert(s, id, post, now, io);
      AllInOrder(u.posts) && CrawledBy(u.posts, now)
  {
    var (u, _) := AfterUpsert(s, id, post, now, io);
    UpsertRecord(s, id, post, now, io);
    forall k | k in u.posts ensures InOrder(u.posts[k]) {
      if k != id {
        assert InOrder(s.posts[k]);
      }
    }
  }

  /** The record as the source builds it: for a new post, `updatedAt` and
      `crawledAt` come from two separate readings of the clock. */
  function StampedAsWritten(post: map<seq<char>, Value>, prior: Option<Value>, first: nat, second: nat): (r: Value)
    ensures Field(r, UpdatedAt) == Stamp(first)
    ensures prior.None? ==> Field(r, CrawledAt) == Stamp(second)
  {
    var crawled := if prior.None? then Stamp(second) else Field(prior.value, CrawledAt);
    Object(post[UpdatedAt := Stamp(first)][CrawledAt := crawled])
  }

  /** When the clock ticks between the two readings, a new post is stamped as
      first crawled after its last update. */
  lemma TwoReadingsBreakOrder(post: map<seq<char>, Value>)
    ensures !InOrder(StampedAsWritten(post, None, 0, 1))
  {
  }

  /** With one reading, a new post's two stamps are equal and an old post keeps
      a `crawledAt` no later than the new `updatedAt`. */
  lemma OneReadingKeepsOrder(post: map<seq<char>, Value>, prior: Option<Value>, now: nat)
    requires prior.Some? && Field(prior.value, CrawledAt).Stamp? ==> Field(prior.value, CrawledAt).t <= now
    ensures InOrder(Stamped(post, prior, now))
    ensures prior.None? ==> Field(Stamped(post, prior, now), CrawledAt) == Field(Stamped(post, prior, now), UpdatedAt)
  {
  }

  // ---------------------------------------------------------------------------
  // The service object

  class DatabaseService {
    var posts: map<Key, Value>
    var initialized: bool
    var disk: Disk

    function State(): Store
      reads this
    {
      Store(posts, initialized, disk)
    }

    /** `new DatabaseService()`: an empty map, not yet initialized, over the file
        as it is. */
    constructor(file: Disk)
      ensures State() == Store(map[], false, file)
    {
      posts := map[];
      initialized := false;
      disk := file;
    }

    method Save(writeOk: bool) returns (o: Outcome)
      modifies this
      ensures (State(), o) == AfterSave(old(State()), writeOk)
    {
      if writeOk {
        disk := Holds(posts);
        o := Pass;
      } else {
        o := Fail(WriteFailed);
      }
    }

    method Init(io: Io) returns (o: Outcome)
      modifies this
      ensures (State(), o) == AfterInit(old(State()), io)
    {
      if !io.mkdirOk {
        return Fail(WriteFailed);
      }
      match disk
      case Holds(m) =>
        posts := m;
        initialized := true;
        o := Pass;
      case Unreadable =>
        o := Fail(ReadFailed);
      case Missing =>
        o := Save(io.initWriteOk);
        if o.Pass? {
          initialized := true;
        }
    }

    method Prepare(io: Io) returns (o: Outcome)
      modifies this
      ensures (State(), o) == Prepared(old(State()), io)
    {
      if !initialized {
        o := Init(io);
      } else {
        o := Pass;
      }
    }

    method UpsertPost(id: Key, post: map<seq<char>, Value>, now: nat, io: Io) returns (r: Result<bool>)
      modifies this
      ensures (State(), r) == AfterUpsert(old(State()), id, post, now, io)
    {
      var o := Prepare(io);
      if o.Fail? {
        return Err(o.failure);
      }
      var isNew := id !in posts;
      posts := posts[id := Stamped(post, Prior(posts, id), now)];
      var w := Save(io.writeOk);
      if w.Fail? {
        return Err(w.failure);
      }
      r := Ok(isNew);
    }

    method HasPost(id: Key, io: Io) returns (r: Result<bool>)
      modifies this
      ensures var (t, o) := Prepared(old(State()), io);
        && State() == t
        && (o.Fail? ==> r == Err(o.failure))
        && (o.Pass? ==> r == Ok(id in t.posts))
    {
      var o := Prepare(io);
      if o.Fail? {
        return Err(o.failure);
      }
      r := Ok(id in posts);
    }

    method GetPost(id: Key, io: Io) returns (r: Result<Option<Value>>)
      modifies this
      ensures var (t, o) := Prepared(old(State()), io);
        && State() == t
        && (o.Fail? ==> r == Err(o.failure))
        && (o.Pass? ==> r == Ok(Lookup(t.posts, id)))
    {
      var o := Prepare(io);
      if o.Fail? {
        return Err(o.failure);
      }
      r := Ok(Lookup(posts, id));
    }

    method GetAllPosts(io: Io) returns (r: Result<seq<Value>>, ghost order: seq<Key>)
      modifies this
      ensures var (t, o) := Prepared(old(State()), io);
        && State() == t
        && (o.Fail? ==> r == Err(o.failure))
        && (o.Pass? ==>
              && r.Ok? && Enumerates(t.posts, order) && |r.value| == |order|
              && (forall i :: 0 <= i < |order| ==> r.value[i] == t.posts[order[i]]))
    {
      var o := Prepare(io);
      if o.Fail? {
        return Err(o.failure), [];
      }
      var all;
      all, order := ValuesOf(posts);
      r := Ok(all);
    }
  }

  /** `Array.from(map.values())`: the value of every key, once per key, in an
      order of the keys (`order`) that the model leaves open. */
  method ValuesOf(m: map<Key, Value>) returns (all: seq<Value>, ghost order: seq<Key>)
    ensures |all| == |m|
    ensures forall k :: k in m ==> m[k] in all
    ensures forall v :: v in all ==> v in m.Values
    ensures Enumerates(m, order) && |order| == |all|
    ensures forall i :: 0 <= i < |all| ==> all[i] == m[order[i]]
  {
    all, order := [], [];
    var rest := m.Keys;
    while rest != {}
      invariant rest <= m.Keys
      invariant |all| == |order| && |order| + |rest| == |m|
      invariant forall i :: 0 <= i < |order| ==> order[i] in m && order[i] !in rest && all[i] == m[order[i]]
      invariant forall i, j :: 0 <= i < j < |order| ==> order[i] != order[j]
      invariant forall k :: k in m ==> k in rest || k in order
      decreases |rest|
    {
      var k :| k in rest;
      all, order := all + [m[k]], order + [k];
      rest := rest - {k};
    }
    forall k | k in m
      ensures m[k] in all
    {
      var i :| 0 <= i < |order| && order[i] == k;
      assert all[i] == m[k];
    }
    forall v | v in all
      ensures v in m.Values
    {
      var i :| 0 <= i < |all| && all[i] == v;
      assert order[i] in m;
    }
  }
}
