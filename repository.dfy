/** The cache-aside order repository: an in-memory cache of order pointers
    in front of the four-table store. */
module Repositories {
  import opened Domain
  import opened TableStore

  /** One Go `entities.Order` variable on the heap. The cache maps uids to
      pointers to these, so two keys can share one variable. */
  class OrderCell {
    var value: Order

    constructor (o: Order)
      ensures value == o
    {
      value := o;
    }
  }

  /** The order a lookup result points to, read now. */
  function Deref(r: Lookup<OrderCell>): Lookup<Order>
    reads if r.Found? then {r.value} else {}
  {
    match r
    case Found(cell) => Found(cell.value)
    case NotFound => NotFound
    case Failed(e) => Failed(e)
  }

  /** The rows of `SELECT order_uid FROM orders` as the warm-up sees them: the
      query fails as a whole, or yields one row per uid, None for a row whose
      scan fails. */
  datatype Listing = ListingFailed | Listed(rows: seq<Option<string>>)

  /** Row i of the listing (below n) names k, and looking k up in the store,
      as the i-th interaction, succeeds. */
  ghost predicate LoadedBefore(s: Store, rows: seq<Option<string>>, fault: FaultOracle, k: string, n: nat)
  {
    exists i :: 0 <= i < n && i < |rows| && rows[i] == Some(k) && Fetch(s, k, fault, i).Found?
  }

  lemma LoadedBeforeNext(s: Store, rows: seq<Option<string>>, fault: FaultOracle, k: string, n: nat)
    requires n < |rows|
    ensures LoadedBefore(s, rows, fault, k, n + 1) <==>
              LoadedBefore(s, rows, fault, k, n) || (rows[n] == Some(k) && Fetch(s, k, fault, n).Found?)
  {
    if rows[n] == Some(k) && Fetch(s, k, fault, n).Found? {
      assert 0 <= n < n + 1 && n < |rows| && rows[n] == Some(k) && Fetch(s, k, fault, n).Found?;
    }
  }

  /** The cache entries the warm-up adds from the first n listing rows: row i
      naming k adds the order the i-th lookup of k finds, if it finds one. */
  function Warmed(s: Store, rows: seq<Option<string>>, fault: FaultOracle, n: nat): map<string, Order>
    requires n <= |rows|
  {
    if n == 0 then map[]
    else
      var w := Warmed(s, rows, fault, n - 1);
      match rows[n - 1]
      case None => w
      case Some(k) =>
        match Fetch(s, k, fault, n - 1)
        case Found(o) => w[k := o]
        case _ => w
  }

  /** Every warmed entry is the order assembled from the store's rows. */
  lemma {:induction false} WarmedValues(s: Store, rows: seq<Option<string>>, fault: FaultOracle, n: nat)
    requires n <= |rows|
    ensures forall k :: k in Warmed(s, rows, fault, n) ==>
              k in s.orders && k in s.delivery && k in s.payment && Warmed(s, rows, fault, n)[k] == Assemble(s, k)
  {
    if n > 0 {
      WarmedValues(s, rows, fault, n - 1);
    }
  }

  /** A uid is warmed exactly when some listed row names it and that row's
      lookup succeeds. */
  lemma {:induction false} WarmedKeys(s: Store, rows: seq<Option<string>>, fault: FaultOracle, n: nat)
    requires n <= |rows|
    ensures forall k :: k in Warmed(s, rows, fault, n) <==> LoadedBefore(s, rows, fault, k, n)
  {
    if n > 0 {
      WarmedKeys(s, rows, fault, n - 1);
      forall k {
        LoadedBeforeNext(s, rows, fault, k, n - 1);
      }
    }
  }

  /** On a keyed store, every warmed entry sits under its own uid. */
  lemma WarmedSound(s: Store, rows: seq<Option<string>>, fault: FaultOracle, n: nat)
    requires Keyed(s) && n <= |rows|
    ensures Sound(Warmed(s, rows, fault, n))
  {
    WarmedValues(s, rows, fault, n);
  }

  /** The view after warm-up row i, from the view before it (v0) and the
      lookup's effect on it (v1): a cached uid is left as it was, a found
      one is added. */
  lemma WarmRowView(s: Store, rows: seq<Option<string>>, fault: FaultOracle, i: nat,
                    base: map<string, Order>, v0: map<string, Order>, v1: map<string, Order>)
    requires i < |rows| && rows[i].Some?
    requires v0 == Warmed(s, rows, fault, i) + base
    requires rows[i].value in v0 ==> v1 == v0
    requires rows[i].value !in v0 && Fetch(s, rows[i].value, fault, i).Found? ==>
               v1 == v0[rows[i].value := Fetch(s, rows[i].value, fault, i).value]
    requires rows[i].value !in v0 && !Fetch(s, rows[i].value, fault, i).Found? ==> v1 == v0
    ensures v1 == Warmed(s, rows, fault, i + 1) + base
  {
    var k := rows[i].value;
    if Fetch(s, k, fault, i).Found? {
      FetchOutcome(s, k, fault, i);
      WarmedValues(s, rows, fault, i);
      WarmStep(Warmed(s, rows, fault, i), base, k, Fetch(s, k, fault, i).value);
    }
  }

  /** One warm-up row for k adds o, which agrees with any warmed entry for k;
      an entry already cached for k (base) hides it. */
  lemma WarmStep(w: map<string, Order>, base: map<string, Order>, k: string, o: Order)
    requires k in w ==> w[k] == o
    ensures k in w + base ==> w[k := o] + base == w + base
    ensures k !in w + base ==> w[k := o] + base == (w + base)[k := o]
  {
  }

  /** The cache view that caching the orders of os one after another adds:
      each uid shows the last order of os with that uid. */
  function ViewOf(os: seq<Order>): map<string, Order>
  {
    if os == [] then map[] else ViewOf(os[..|os| - 1])[os[|os| - 1].Uid() := os[|os| - 1]]
  }

  lemma ViewOfSnoc(os: seq<Order>, o: Order)
    ensures ViewOf(os + [o]) == ViewOf(os)[o.Uid() := o]
  {
    assert (os + [o])[..|os|] == os;
  }

  /** The uids of os. */
  ghost function Uids(os: seq<Order>): set<string> {
    set o | o in os :: o.Uid()
  }

  lemma UidsSnoc(os: seq<Order>, o: Order)
    ensures Uids(os + [o]) == Uids(os) + {o.Uid()}
  {
  }

  /** The view of os has an entry for each uid of os. */
  lemma {:induction false} ViewOfKeys(os: seq<Order>)
    ensures ViewOf(os).Keys == Uids(os)
    decreases |os|
  {
    if os != [] {
      var init := os[..|os| - 1];
      ViewOfKeys(init);
      assert os == init + [os[|os| - 1]];
      UidsSnoc(init, os[|os| - 1]);
    }
  }

  /** Adding one more entry on the right of a union. */
  lemma UnionSnoc<K, V>(a: map<K, V>, b: map<K, V>, k: K, v: V)
    ensures (a + b)[k := v] == a + b[k := v]
  {
  }

  /** Every order in a cache view sits under its own uid. */
  ghost predicate Sound(view: map<string, Order>) {
    forall k :: k in view ==> view[k].Uid() == k
  }

  lemma SoundUnion(a: map<string, Order>, b: map<string, Order>)
    requires Sound(a) && Sound(b)
    ensures Sound(a + b)
  {
  }

  lemma SoundGrows(view: map<string, Order>, k: string, o: Order)
    requires Sound(view) && o.Uid() == k
    ensures Sound(view[k := o])
  {
  }

  /** A view showing v under every key of keys. */
  function Shared(keys: set<string>, v: Order): map<string, Order> {
    map k | k in keys :: v
  }

  /** The store loop as written: one decode target for the whole loop. */
  function AsWritten(s: Store, msgs: seq<Bytes>, decode: Decoder, fault: FaultOracle): RunState {
    StoreRun(s, ZeroOrder, msgs, 0, decode, fault, true)
  }

  /** The store loop with a fresh decode target per payload. */
  function FreshPerPayload(s: Store, msgs: seq<Bytes>, decode: Decoder, fault: FaultOracle): RunState {
    StoreRun(s, ZeroOrder, msgs, 0, decode, fault, false)
  }

  class OrderRepository {
    var db: Store
    var cache: map<string, OrderCell>

    /** The orders the cache shows, read through its pointers. */
    ghost function CacheView(): map<string, Order>
      reads this`cache, cache.Values
    {
      map k | k in cache :: cache[k].value
    }

    /** The store is keyed by uid and every cache entry holds the order of its own key. */
    ghost predicate Valid()
      reads this, cache.Values
    {
      Keyed(db) && Sound(CacheView())
    }

    /** `NewOrderRepository`: an empty cache, then the warm-up. */
    constructor (store: Store, listing: Listing, fault: FaultOracle)
      ensures db == store
      ensures CacheView() == (if listing.Listed? then Warmed(store, listing.rows, fault, |listing.rows|) else map[])
      ensures Keyed(store) ==> Valid()
    {
      db := store;
      cache := map[];
      new;
      LoadAllOrdersToCache(listing, fault);
    }

    /** `loadAllOrdersToCache`: looks every listed uid up (row i as the i-th
        interaction) and keeps the ones found; failures are skipped. */
    method LoadAllOrdersToCache(listing: Listing, fault: FaultOracle)
      modifies this
      ensures db == old(db)
      // the warmed orders are added where no entry was cached yet
      ensures CacheView() == (if listing.Listed? then Warmed(db, listing.rows, fault, |listing.rows|) else map[])
                             + old(CacheView())
      ensures old(Valid()) ==> Valid()
    {
      if listing.ListingFailed? {
        assert map[] + CacheView() == CacheView();
        return;
      }
      var rows := listing.rows;
      assert Warmed(db, rows, fault, 0) + CacheView() == CacheView();
      var i := 0;
      while i < |rows|
        invariant 0 <= i <= |rows|
        invariant db == old(db)
        invariant CacheView() == Warmed(db, rows, fault, i) + old(CacheView())
      {
        WarmRow(rows, i, fault, old(CacheView()));
        i := i + 1;
      }
      if old(Valid()) {
        WarmedSound(db, rows, fault, |rows|);
        SoundUnion(Warmed(db, rows, fault, |rows|), old(CacheView()));
      }
    }

    /** One iteration of the warm-up: row i, if it names a uid, is looked up
        and the pointer returned is stored under it (line 44). */
    method WarmRow(rows: seq<Option<string>>, i: nat, fault: FaultOracle, ghost base: map<string, Order>)
      modifies this
      requires i < |rows|
      requires CacheView() == Warmed(db, rows, fault, i) + base
      ensures db == old(db)
      ensures CacheView() == Warmed(db, rows, fault, i + 1) + base
    {
      if rows[i].Some? {
        var uid := rows[i].value;
        ghost var before := CacheView();
        var r := GetOrderByID(uid, fault, i);
        if r.Found? {
          assert cache[uid := r.value] == cache;
          Cache(uid, r.value);
        }
        WarmRowView(db, rows, fault, i, base, before, CacheView());
      }
    }

    /** `GetOrderByID`: the cached pointer on a hit; otherwise the staged
        lookups of the read transaction, caching the assembled order on success. */
    method GetOrderByID(uid: string, fault: FaultOracle, t: nat) returns (r: Lookup<OrderCell>)
      modifies this
      ensures db == old(db)
      // a hit returns the cached pointer and touches nothing
      ensures uid in old(cache) ==> r == Found(old(cache[uid])) && cache == old(cache)
      // a miss returns what the store yields
      ensures uid !in old(cache) ==> Deref(r) == Fetch(db, uid, fault, t)
      // success caches a fresh order under uid and changes no other key
      ensures uid !in old(cache) && r.Found? ==> fresh(r.value) && cache == old(cache)[uid := r.value]
      // not found or an error leaves the cache as it was
      ensures uid !in old(cache) && r.Found? ==> CacheView() == old(CacheView())[uid := r.value.value]
      ensures !r.Found? ==> cache == old(cache)
      ensures old(Valid()) ==> Valid()
    {
      if uid in cache {
        return Found(cache[uid]);
      }
      if fault(t, Begin) { return Failed(DbError(Begin)); }
      if fault(t, SelectOrder) { return Failed(DbError(SelectOrder)); }
      if uid !in db.orders { return NotFound; }
      var header := db.orders[uid];
      if fault(t, SelectDelivery) { return Failed(DbError(SelectDelivery)); }
      if uid !in db.delivery { return NotFound; }
      var delivery := db.delivery[uid];
      if fault(t, SelectPayment) { return Failed(DbError(SelectPayment)); }
      if uid !in db.payment { return NotFound; }
      var payment := db.payment[uid];
      if fault(t, QueryItems) { return Failed(DbError(QueryItems)); }
      var rows := ItemRows(db, uid);
      var items: seq<Item> := [];
      var j := 0;
      while j < |rows|
        invariant 0 <= j <= |rows|
        invariant items == rows[..j]
        invariant forall k :: 0 <= k < j ==> !fault(t, ScanItem(k))
      {
        if fault(t, ScanItem(j)) {
          return Failed(DbError(ScanItem(j)));
        }
        items := items + [rows[j]];
        j := j + 1;
      }
      assert rows[..j] == rows;
      if fault(t, IterateItems) { return Failed(DbError(IterateItems)); }
      ghost var view := CacheView();
      var cell := CacheNew(uid, Order(header, delivery, payment, items));
      if old(Valid()) {
        SoundGrows(view, uid, cell.value);
      }
      return Found(cell);
    }

    /** One write transaction for o, as the t-th: the inserts act on a pending
        copy of the store that only the commit publishes; any failure returns
        with the store untouched (rollback). */
    method Transact(o: Order, fault: FaultOracle, t: nat) returns (err: Option<Error>)
      modifies this`db
      ensures WriteTx(old(db), o, fault, t).Committed? ==>
                err.None? && db == WriteTx(old(db), o, fault, t).store
      ensures WriteTx(old(db), o, fault, t).RolledBack? ==>
                err == Some(WriteTx(old(db), o, fault, t).error) && db == old(db)
    {
      if fault(t, Begin) { return Some(DbError(Begin)); }
      var u := o.Uid();
      if u in db.orders || fault(t, InsertOrder) { return Some(DbError(InsertOrder)); }
      var pending := db.(orders := db.orders[u := o.header]);
      if fault(t, InsertDelivery) { return Some(DbError(InsertDelivery)); }
      pending := pending.(delivery := pending.delivery[u := o.delivery]);
      if fault(t, InsertPayment) { return Some(DbError(InsertPayment)); }
      pending := pending.(payment := pending.payment[u := o.payment]);
      var rows := ItemRows(db, u);
      var j := 0;
      while j < |o.items|
        invariant 0 <= j <= |o.items|
        invariant rows == ItemRows(db, u) + o.items[..j]
        invariant forall k :: 0 <= k < j ==> !fault(t, InsertItem(k))
      {
        if fault(t, InsertItem(j)) {
          return Some(DbError(InsertItem(j)));
        }
        rows := rows + [o.items[j]];
        j := j + 1;
      }
      assert o.items[..j] == o.items;
      if fault(t, Commit) { return Some(DbError(Commit)); }
      db := pending.(items := pending.items[u := rows]);
      return None;
    }

    /** `StoreOrder` as written: ONE order variable for the whole loop. Each
        payload is decoded into it, and each commit caches a pointer to it. */
    method StoreOrder(msgs: seq<Bytes>, decode: Decoder, fault: FaultOracle)
      returns (err: Option<Error>, ghost shared: OrderCell)
      modifies this
      ensures db == AsWritten(old(db), msgs, decode, fault).store
      ensures err == AsWritten(old(db), msgs, decode, fault).error
      // every uid committed is cached as a pointer to the same fresh variable ...
      ensures fresh(shared)
      ensures Aliases(ViewOf(AsWritten(old(db), msgs, decode, fault).committed).Keys, shared)
      // ... so all of them show whatever the last payload decoded into it
      ensures CacheView() == old(CacheView()) + Shared(ViewOf(AsWritten(old(db), msgs, decode, fault).committed).Keys,
                                                      AsWritten(old(db), msgs, decode, fault).target)
    {
      ghost var whole := AsWritten(db, msgs, decode, fault);
      ghost var done: seq<Order> := [];
      ghost var last := ZeroOrder;
      var order := new OrderCell(ZeroOrder);
      shared := order;
      ResumesStart(db, ZeroOrder, msgs, decode, fault, true);
      ghost var ptrs: map<string, OrderCell> := map[];
      assert old(cache) + ptrs == old(cache);
      var i := 0;
      err := None;
      while i < |msgs|
        invariant 0 <= i <= |msgs|
        invariant fresh(order) && shared == order && order.value == last && err.None?
        invariant Resumes(whole, done, db, last, msgs, i, decode, fault, true)
        invariant cache == old(cache) + ptrs
        invariant ptrs.Keys == Uids(done)
        invariant forall k :: k in ptrs ==> ptrs[k] == order
      {
        var d := decode(order.value, msgs[i]);
        order.value := d.order;
        if !d.ok {
          ResumesFail(whole, done, db, last, msgs, i, decode, fault, true);
          err, last := Some(UnmarshalError), d.order;
          break;
        }
        ghost var before := db;
        err := Transact(d.order, fault, i);
        if err.Some? {
          ResumesFail(whole, done, before, last, msgs, i, decode, fault, true);
          last := d.order;
          break;
        }
        ResumesCommit(whole, done, before, last, msgs, i, decode, fault, true, d.order, db);
        UidsSnoc(done, d.order);
        UnionSnoc(old(cache), ptrs, d.order.Uid(), order);
        cache := cache[d.order.Uid() := order];
        done, last, ptrs := done + [d.order], d.order, ptrs[d.order.Uid() := order];
        i := i + 1;
      }
      if err.None? {
        ResumesEnd(whole, done, db, last, msgs, decode, fault, true);
      }
      ViewOfKeys(done);
      SharedView(ptrs, order);
    }

    /** Once the keys of keys have been pointed at a variable allocated since,
        and nothing else has changed, those keys all show its contents. */
    twostate lemma SharedView(new ptrs: map<string, OrderCell>, new cell: OrderCell)
      requires fresh(cell)
      requires cache == old(cache) + ptrs && forall k :: k in ptrs ==> ptrs[k] == cell
      requires unchanged(old(cache).Values)
      ensures Aliases(ptrs.Keys, cell)
      ensures CacheView() == old(CacheView()) + Shared(ptrs.Keys, cell.value)
    {
    }

    /** The keys of keys, and only those, point to cell. */
    ghost predicate Aliases(keys: set<string>, cell: OrderCell)
      reads this`cache
    {
      keys <= cache.Keys && forall k :: k in cache ==> (cache[k] == cell <==> k in keys)
    }

    /** `r.cache[k] = cell`. */
    method Cache(k: string, cell: OrderCell)
      modifies this`cache
      ensures cache == old(cache)[k := cell]
      ensures CacheView() == old(CacheView())[k := cell.value]
    {
      cache := cache[k := cell];
    }

    /** Caches a fresh variable holding o under k. */
    method CacheNew(k: string, o: Order) returns (cell: OrderCell)
      modifies this`cache
      ensures fresh(cell) && cell.value == o
      ensures cache == old(cache)[k := cell]
      ensures CacheView() == old(CacheView())[k := o]
    {
      cell := new OrderCell(o);
      Cache(k, cell);
    }

    /** `StoreOrder` with the order variable declared inside the loop: each
        payload is decoded into a fresh zero order and cached as its own object. */
    method StoreOrderFixed(msgs: seq<Bytes>, decode: Decoder, fault: FaultOracle) returns (err: Option<Error>)
      modifies this
      ensures db == FreshPerPayload(old(db), msgs, decode, fault).store
      ensures err == FreshPerPayload(old(db), msgs, decode, fault).error
      // the cache shows what it showed before, with every committed order
      // added under its uid
      ensures CacheView() == old(CacheView()) + ViewOf(FreshPerPayload(old(db), msgs, decode, fault).committed)
      ensures old(Valid()) ==> Valid()
    {
      ghost var whole := FreshPerPayload(db, msgs, decode, fault);
      ghost var done: seq<Order> := [];
      ghost var last := ZeroOrder;
      ResumesStart(db, ZeroOrder, msgs, decode, fault, false);
      assert old(CacheView()) + ViewOf(done) == old(CacheView());
      var i := 0;
      while i < |msgs|
        invariant 0 <= i <= |msgs|
        invariant Resumes(whole, done, db, last, msgs, i, decode, fault, false)
        invariant CacheView() == old(CacheView()) + ViewOf(done)
        invariant old(Valid()) ==> Valid()
      {
        var d := decode(ZeroOrder, msgs[i]);
        if !d.ok {
          ResumesFail(whole, done, db, last, msgs, i, decode, fault, false);
          return Some(UnmarshalError);
        }
        ghost var before := db;
        err := Transact(d.order, fault, i);
        if err.Some? {
          ResumesFail(whole, done, before, last, msgs, i, decode, fault, false);
          return;
        }
        ghost var view := CacheView();
        var cell := CacheNew(d.order.Uid(), d.order);
        ResumesCommit(whole, done, before, last, msgs, i, decode, fault, false, d.order, db);
        ViewOfSnoc(done, d.order);
        UnionSnoc(old(CacheView()), ViewOf(done), d.order.Uid(), d.order);
        if old(Valid()) {
          InsertKeepsKeyed(before, d.order);
          SoundGrows(view, d.order.Uid(), d.order);
        }
        done, last := done + [d.order], d.order;
        i := i + 1;
      }
      ResumesEnd(whole, done, db, last, msgs, decode, fault, false);
      return None;
    }
  }
}
