/** The relational store behind the repository, abstracted to four tables
    keyed by order uid, with what each read and write transaction of the
    repository does to it. Failures come from a fault oracle. */
module TableStore {
  import opened Domain

  /** orders, delivery and payment hold one row per uid; items holds the
      item rows of a uid in insertion order. */
  datatype Store = Store(
    orders: map<string, OrderHeader>,
    delivery: map<string, Delivery>,
    payment: map<string, Payment>,
    items: map<string, seq<Item>>)

  const EmptyStore: Store := Store(map[], map[], map[], map[])

  /** The rows `SELECT ... FROM items WHERE order_uid = uid` yields. */
  function ItemRows(s: Store, uid: string): seq<Item> {
    if uid in s.items then s.items[uid] else []
  }

  /** Every orders row is stored under its own order_uid (the primary key). */
  ghost predicate Keyed(s: Store) {
    forall k :: k in s.orders ==> s.orders[k].orderUid == k
  }

  // ---------------------------------------------------------------------
  // The read transaction of GetOrderByID on a cache miss.

  /** The order assembled from the four tables. */
  function Assemble(s: Store, uid: string): Order
    requires uid in s.orders && uid in s.delivery && uid in s.payment
  {
    Order(s.orders[uid], s.delivery[uid], s.payment[uid], ItemRows(s, uid))
  }

  /** The index of the first item row whose scan fails in interaction t. */
  function FirstScanFault(fault: FaultOracle, t: nat, n: nat): (r: Option<nat>)
    ensures r.Some? ==> r.value < n && fault(t, ScanItem(r.value))
                        && forall j :: 0 <= j < r.value ==> !fault(t, ScanItem(j))
    ensures r.None? <==> forall j :: 0 <= j < n ==> !fault(t, ScanItem(j))
  {
    var failing := (j: nat) => fault(t, ScanItem(j));
    var r := FirstHit(failing, 0, n);
    assert forall j: nat :: failing(j) == fault(t, ScanItem(j));
    r
  }

  /** The outcome of the staged lookups: order row, delivery row, payment row, item rows.
      A missing row is `(nil, nil)`; any other failure is `(nil, err)`. */
  function Fetch(s: Store, uid: string, fault: FaultOracle, t: nat): Lookup<Order>
  {
    if fault(t, Begin) then Failed(DbError(Begin))
    else if fault(t, SelectOrder) then Failed(DbError(SelectOrder))
    else if uid !in s.orders then NotFound
    else if fault(t, SelectDelivery) then Failed(DbError(SelectDelivery))
    else if uid !in s.delivery then NotFound
    else if fault(t, SelectPayment) then Failed(DbError(SelectPayment))
    else if uid !in s.payment then NotFound
    else if fault(t, QueryItems) then Failed(DbError(QueryItems))
    else match FirstScanFault(fault, t, |ItemRows(s, uid)|)
      case Some(j) => Failed(DbError(ScanItem(j)))
      case None =>
        if fault(t, IterateItems) then Failed(DbError(IterateItems))
        else Found(Assemble(s, uid))
  }

  /** What the staged lookups yield, case by case. */
  lemma FetchOutcome(s: Store, uid: string, fault: FaultOracle, t: nat)
    // not found exactly when one of the three single-row lookups finds no row
    ensures Fetch(s, uid, fault, t).NotFound? <==>
              !fault(t, Begin) && !fault(t, SelectOrder)
              && (uid !in s.orders
                  || (!fault(t, SelectDelivery)
                      && (uid !in s.delivery || (!fault(t, SelectPayment) && uid !in s.payment))))
    // found: the three rows and the item rows in row order
    ensures Fetch(s, uid, fault, t).Found? ==>
              uid in s.orders && uid in s.delivery && uid in s.payment && Fetch(s, uid, fault, t).value == Assemble(s, uid)
    ensures Fetch(s, uid, fault, t).Found? <==>
              && uid in s.orders && uid in s.delivery && uid in s.payment
              && !fault(t, Begin) && !fault(t, SelectOrder) && !fault(t, SelectDelivery)
              && !fault(t, SelectPayment) && !fault(t, QueryItems) && !fault(t, IterateItems)
              && forall j :: 0 <= j < |ItemRows(s, uid)| ==> !fault(t, ScanItem(j))
    // a failure is a database error of a step that was reached
    ensures Fetch(s, uid, fault, t).Failed? ==> Fetch(s, uid, fault, t).error.DbError? && fault(t, Fetch(s, uid, fault, t).error.step)
  {
  }

  // ---------------------------------------------------------------------
  // The write transaction of StoreOrder for one decoded order.

  /** s' is s with one orders, delivery and payment row for o's uid and its
      items appended to the uid's item rows; every other row is as before. */
  ghost predicate RowsAdded(s: Store, s': Store, o: Order) {
    var u := o.Uid();
    && s'.orders.Keys == s.orders.Keys + {u} && s'.orders[u] == o.header
    && s'.delivery.Keys == s.delivery.Keys + {u} && s'.delivery[u] == o.delivery
    && s'.payment.Keys == s.payment.Keys + {u} && s'.payment[u] == o.payment
    && s'.items.Keys == s.items.Keys + {u} && s'.items[u] == ItemRows(s, u) + o.items
    && (forall k :: k in s.orders && k != u ==> s'.orders[k] == s.orders[k])
    && (forall k :: k in s.delivery && k != u ==> s'.delivery[k] == s.delivery[k])
    && (forall k :: k in s.payment && k != u ==> s'.payment[k] == s.payment[k])
    && (forall k :: k in s.items && k != u ==> s'.items[k] == s.items[k])
  }

  /** The store after the transaction for o commits. */
  function Insert(s: Store, o: Order): Store
  {
    var u := o.Uid();
    Store(s.orders[u := o.header], s.delivery[u := o.delivery], s.payment[u := o.payment],
          s.items[u := ItemRows(s, u) + o.items])
  }

  /** A committed transaction adds exactly the rows of its order. */
  lemma CommitAddsRows(s: Store, o: Order, fault: FaultOracle, t: nat)
    requires WriteTx(s, o, fault, t).Committed?
    ensures RowsAdded(s, WriteTx(s, o, fault, t).store, o)
  {
    CommitIsInsert(s, o, fault, t);
    InsertAddsRows(s, o);
  }

  lemma InsertAddsRows(s: Store, o: Order)
    ensures RowsAdded(s, Insert(s, o), o)
  {
  }

  /** A commit means the uid was new and the store is the insert. */
  lemma CommitIsInsert(s: Store, o: Order, fault: FaultOracle, t: nat)
    requires WriteTx(s, o, fault, t).Committed?
    ensures o.Uid() !in s.orders && WriteTx(s, o, fault, t).store == Insert(s, o)
  {
  }

  datatype TxOutcome = Committed(store: Store) | RolledBack(error: Error)

  /** The index of the first item insert that fails in transaction t. */
  function FirstInsertFault(fault: FaultOracle, t: nat, n: nat): (r: Option<nat>)
    ensures r.Some? ==> r.value < n && fault(t, InsertItem(r.value))
                        && forall j :: 0 <= j < r.value ==> !fault(t, InsertItem(j))
    ensures r.None? <==> forall j :: 0 <= j < n ==> !fault(t, InsertItem(j))
  {
    var failing := (j: nat) => fault(t, InsertItem(j));
    var r := FirstHit(failing, 0, n);
    assert forall j: nat :: failing(j) == fault(t, InsertItem(j));
    r
  }

  /** The transaction t writing o: begin, insert into orders (which fails on a
      uid already present, the primary key), delivery, payment, one insert
      per item, commit. Any failure rolls everything back. */
  function WriteTx(s: Store, o: Order, fault: FaultOracle, t: nat): TxOutcome
  {
    if fault(t, Begin) then RolledBack(DbError(Begin))
    else if o.Uid() in s.orders || fault(t, InsertOrder) then RolledBack(DbError(InsertOrder))
    else if fault(t, InsertDelivery) then RolledBack(DbError(InsertDelivery))
    else if fault(t, InsertPayment) then RolledBack(DbError(InsertPayment))
    else match FirstInsertFault(fault, t, |o.items|)
      case Some(j) => RolledBack(DbError(InsertItem(j)))
      case None =>
        if fault(t, Commit) then RolledBack(DbError(Commit))
        else Committed(Insert(s, o))
  }

  /** What the write transaction does, case by case. */
  lemma WriteTxOutcome(s: Store, o: Order, fault: FaultOracle, t: nat)
    // all or nothing: it commits exactly when no step fails ...
    ensures WriteTx(s, o, fault, t).Committed? <==>
              && o.Uid() !in s.orders
              && !fault(t, Begin) && !fault(t, InsertOrder) && !fault(t, InsertDelivery)
              && !fault(t, InsertPayment) && !fault(t, Commit)
              && forall j :: 0 <= j < |o.items| ==> !fault(t, InsertItem(j))
    // ... and then the store has gained exactly o's rows
    ensures WriteTx(s, o, fault, t).Committed? ==> WriteTx(s, o, fault, t).store == Insert(s, o)
    ensures WriteTx(s, o, fault, t).RolledBack? ==> WriteTx(s, o, fault, t).error.DbError?
    ensures WriteTx(s, o, fault, t).RolledBack? && WriteTx(s, o, fault, t).error.step != InsertOrder ==> fault(t, WriteTx(s, o, fault, t).error.step)
  {
  }

  lemma InsertKeepsKeyed(s: Store, o: Order)
    requires Keyed(s)
    ensures Keyed(Insert(s, o))
  {
  }

  // ---------------------------------------------------------------------
  // The store loop: one transaction per payload, stopping at the first failure.

  /** The store, the contents of the decode target after the last payload
      looked at, the orders committed (in order) and the error the loop returns. */
  datatype RunState = RunState(store: Store, target: Order, committed: seq<Order>, error: Option<Error>)

  /** The loop over payloads msgs, the first of which is handled in
      transaction t. With reuse, each payload is decoded into what the previous
      one left in the target (one variable for the whole loop); without it,
      into a fresh zero order. */
  function StoreRun(s: Store, target: Order, msgs: seq<Bytes>, t: nat,
                    decode: Decoder, fault: FaultOracle, reuse: bool): RunState
    decreases |msgs|, 1
  {
    if msgs == [] then RunState(s, target, [], None)
    else StoreFirst(s, target, msgs, t, decode, fault, reuse)
  }

  /** The loop body for the first payload of msgs, then the rest of the loop. */
  function StoreFirst(s: Store, target: Order, msgs: seq<Bytes>, t: nat,
                      decode: Decoder, fault: FaultOracle, reuse: bool): RunState
    requires msgs != []
    decreases |msgs|, 0
  {
    var d := decode(if reuse then target else ZeroOrder, msgs[0]);
    if !d.ok then RunState(s, d.order, [], Some(UnmarshalError))
    else match WriteTx(s, d.order, fault, t)
      case RolledBack(e) => RunState(s, d.order, [], Some(e))
      case Committed(s') =>
        var rest := StoreRun(s', d.order, msgs[1..], t + 1, decode, fault, reuse);
        rest.(committed := [d.order] + rest.committed)
  }

  /** whole is the run from the start, of which done has been committed and
      the rest is the run from payload i in transaction i on store s. */
  ghost predicate Resumes(whole: RunState, done: seq<Order>, s: Store, target: Order, msgs: seq<Bytes>, i: nat,
                          decode: Decoder, fault: FaultOracle, reuse: bool)
    requires i <= |msgs|
  {
    && whole.store == StoreRun(s, target, msgs[i..], i, decode, fault, reuse).store
    && whole.target == StoreRun(s, target, msgs[i..], i, decode, fault, reuse).target
    && whole.error == StoreRun(s, target, msgs[i..], i, decode, fault, reuse).error
    && whole.committed == done + StoreRun(s, target, msgs[i..], i, decode, fault, reuse).committed
  }

  lemma ResumesStart(s: Store, target: Order, msgs: seq<Bytes>, decode: Decoder, fault: FaultOracle, reuse: bool)
    ensures Resumes(StoreRun(s, target, msgs, 0, decode, fault, reuse), [], s, target, msgs, 0, decode, fault, reuse)
  {
    assert msgs[0..] == msgs;
  }

  /** A committed payload moves the resumption point one payload on. */
  lemma ResumesCommit(whole: RunState, done: seq<Order>, s: Store, target: Order, msgs: seq<Bytes>, i: nat,
                      decode: Decoder, fault: FaultOracle, reuse: bool, o: Order, s': Store)
    requires i < |msgs| && Resumes(whole, done, s, target, msgs, i, decode, fault, reuse)
    requires decode(if reuse then target else ZeroOrder, msgs[i]) == Decoded(o, true)
    requires WriteTx(s, o, fault, i).Committed? && s' == WriteTx(s, o, fault, i).store
    ensures s' == Insert(s, o)
    ensures Resumes(whole, done + [o], s', o, msgs, i + 1, decode, fault, reuse)
  {
    assert msgs[i..][0] == msgs[i] && msgs[i..][1..] == msgs[i + 1..];
    var next := StoreRun(s', o, msgs[i + 1..], i + 1, decode, fault, reuse);
    assert StoreFirst(s, target, msgs[i..], i, decode, fault, reuse) == next.(committed := [o] + next.committed);
    assert done + [o] + next.committed == done + ([o] + next.committed);
  }

  /** A failing payload ends the run where it stands. */
  lemma ResumesFail(whole: RunState, done: seq<Order>, s: Store, target: Order, msgs: seq<Bytes>, i: nat,
                    decode: Decoder, fault: FaultOracle, reuse: bool)
    requires i < |msgs| && Resumes(whole, done, s, target, msgs, i, decode, fault, reuse)
    requires var d := decode(if reuse then target else ZeroOrder, msgs[i]);
             !d.ok || WriteTx(s, d.order, fault, i).RolledBack?
    ensures whole.store == s && whole.committed == done
    ensures whole.target == decode(if reuse then target else ZeroOrder, msgs[i]).order
    ensures !decode(if reuse then target else ZeroOrder, msgs[i]).ok ==> whole.error == Some(UnmarshalError)
    ensures decode(if reuse then target else ZeroOrder, msgs[i]).ok ==>
              whole.error == Some(WriteTx(s, decode(if reuse then target else ZeroOrder, msgs[i]).order, fault, i).error)
  {
    assert msgs[i..][0] == msgs[i];
    assert StoreRun(s, target, msgs[i..], i, decode, fault, reuse) == StoreFirst(s, target, msgs[i..], i, decode, fault, reuse);
    assert done + [] == done;
  }

  /** Past the last payload the run is over. */
  lemma ResumesEnd(whole: RunState, done: seq<Order>, s: Store, target: Order, msgs: seq<Bytes>,
                   decode: Decoder, fault: FaultOracle, reuse: bool)
    requires Resumes(whole, done, s, target, msgs, |msgs|, decode, fault, reuse)
    ensures whole == RunState(s, target, done, None)
  {
    assert msgs[|msgs|..] == [];
    assert done + [] == done;
  }

  /** No order of os has uid k. */
  ghost predicate NotCommitted(os: seq<Order>, k: string) {
    forall i :: 0 <= i < |os| ==> os[i].Uid() != k
  }

  /** The loop returns nil exactly when every payload was committed, and
      otherwise it stopped at the payload after the last committed one. */
  lemma {:induction false} StoreRunNilIffAllCommitted(s: Store, target: Order, msgs: seq<Bytes>, t: nat,
                                                      decode: Decoder, fault: FaultOracle, reuse: bool)
    ensures var r := StoreRun(s, target, msgs, t, decode, fault, reuse);
            (r.error.None? <==> |r.committed| == |msgs|) && |r.committed| <= |msgs|
    decreases |msgs|
  {
    if msgs != [] {
      var d := decode(if reuse then target else ZeroOrder, msgs[0]);
      if d.ok && WriteTx(s, d.order, fault, t).Committed? {
        CommitIsInsert(s, d.order, fault, t);
        StoreRunNilIffAllCommitted(WriteTx(s, d.order, fault, t).store, d.order, msgs[1..], t + 1,
                                   decode, fault, reuse);
      }
    }
  }

  /** Payloads after the first failure are never processed: appending more
      payloads to a run that failed changes nothing. */
  lemma {:induction false} StoreRunStopsAtFailure(s: Store, target: Order, msgs: seq<Bytes>, more: seq<Bytes>,
                                                  t: nat, decode: Decoder, fault: FaultOracle, reuse: bool)
    requires StoreRun(s, target, msgs, t, decode, fault, reuse).error.Some?
    ensures StoreRun(s, target, msgs + more, t, decode, fault, reuse)
            == StoreRun(s, target, msgs, t, decode, fault, reuse)
    decreases |msgs|
  {
    assert msgs != [];
    assert (msgs + more)[0] == msgs[0];
    assert (msgs + more)[1..] == msgs[1..] + more;
    var d := decode(if reuse then target else ZeroOrder, msgs[0]);
    if d.ok && WriteTx(s, d.order, fault, t).Committed? {
      CommitIsInsert(s, d.order, fault, t);
      StoreRunStopsAtFailure(WriteTx(s, d.order, fault, t).store, d.order, msgs[1..], more, t + 1,
                             decode, fault, reuse);
    }
  }

  /** A run only adds rows: every orders row present before is still there, unchanged. */
  lemma {:induction false} StoreRunKeepsRows(s: Store, target: Order, msgs: seq<Bytes>, t: nat,
                                             decode: Decoder, fault: FaultOracle, reuse: bool)
    ensures var r := StoreRun(s, target, msgs, t, decode, fault, reuse);
            forall k :: k in s.orders ==> k in r.store.orders && r.store.orders[k] == s.orders[k]
    decreases |msgs|
  {
    if msgs != [] {
      var d := decode(if reuse then target else ZeroOrder, msgs[0]);
      if d.ok && WriteTx(s, d.order, fault, t).Committed? {
        CommitIsInsert(s, d.order, fault, t);
        StoreRunKeepsRows(WriteTx(s, d.order, fault, t).store, d.order, msgs[1..], t + 1,
                          decode, fault, reuse);
      }
    }
  }

  /** Uid k has the same rows in s and s' (in all four tables). */
  ghost predicate Unchanged(s: Store, s': Store, k: string) {
    && (k in s.orders <==> k in s'.orders) && (k in s.orders ==> s'.orders[k] == s.orders[k])
    && (k in s.delivery <==> k in s'.delivery) && (k in s.delivery ==> s'.delivery[k] == s.delivery[k])
    && (k in s.payment <==> k in s'.payment) && (k in s.payment ==> s'.payment[k] == s.payment[k])
    && ItemRows(s', k) == ItemRows(s, k)
  }

  /** The rows of o, committed on top of s, are all present in s'. */
  ghost predicate Persisted(s: Store, s': Store, o: Order) {
    var u := o.Uid();
    && u in s'.orders && s'.orders[u] == o.header
    && u in s'.delivery && s'.delivery[u] == o.delivery
    && u in s'.payment && s'.payment[u] == o.payment
    && ItemRows(s', u) == ItemRows(s, u) + o.items
  }

  lemma InsertFrame(s: Store, o: Order, k: string)
    requires k != o.Uid()
    ensures Unchanged(s, Insert(s, o), k)
  {
  }

  lemma UnchangedTrans(s1: Store, s2: Store, s3: Store, k: string)
    requires Unchanged(s1, s2, k) && Unchanged(s2, s3, k)
    ensures Unchanged(s1, s3, k)
  {
  }

  /** The rows of a uid that a run does not commit are left as they were. */
  lemma {:induction false} StoreRunFrame(s: Store, target: Order, msgs: seq<Bytes>, t: nat,
                                         decode: Decoder, fault: FaultOracle, reuse: bool, k: string)
    requires NotCommitted(StoreRun(s, target, msgs, t, decode, fault, reuse).committed, k)
    ensures Unchanged(s, StoreRun(s, target, msgs, t, decode, fault, reuse).store, k)
    decreases |msgs|
  {
    if msgs != [] {
      var d := decode(if reuse then target else ZeroOrder, msgs[0]);
      if d.ok && WriteTx(s, d.order, fault, t).Committed? {
        CommitIsInsert(s, d.order, fault, t);
        var s' := Insert(s, d.order);
        var rest := StoreRun(s', d.order, msgs[1..], t + 1, decode, fault, reuse);
        assert StoreRun(s, target, msgs, t, decode, fault, reuse).committed == [d.order] + rest.committed;
        assert NotCommitted(rest.committed, k) by {
          forall i | 0 <= i < |rest.committed| ensures rest.committed[i].Uid() != k {
            assert ([d.order] + rest.committed)[i + 1] == rest.committed[i];
          }
        }
        assert d.order.Uid() != k by {
          assert ([d.order] + rest.committed)[0] == d.order;
        }
        InsertFrame(s, d.order, k);
        StoreRunFrame(s', d.order, msgs[1..], t + 1, decode, fault, reuse, k);
        UnchangedTrans(s, s', rest.store, k);
      }
    }
  }

  /** Because of the primary key, the orders a run commits have uids that
      were not in the store before, and pairwise distinct ones. */
  lemma {:induction false} StoreRunFreshUids(s: Store, target: Order, msgs: seq<Bytes>, t: nat,
                                             decode: Decoder, fault: FaultOracle, reuse: bool)
    ensures forall i :: 0 <= i < |StoreRun(s, target, msgs, t, decode, fault, reuse).committed| ==>
              StoreRun(s, target, msgs, t, decode, fault, reuse).committed[i].Uid() !in s.orders
    ensures forall i, j :: 0 <= i < j < |StoreRun(s, target, msgs, t, decode, fault, reuse).committed| ==>
              StoreRun(s, target, msgs, t, decode, fault, reuse).committed[i].Uid()
              != StoreRun(s, target, msgs, t, decode, fault, reuse).committed[j].Uid()
    decreases |msgs|
  {
    if msgs != [] {
      var d := decode(if reuse then target else ZeroOrder, msgs[0]);
      if d.ok && WriteTx(s, d.order, fault, t).Committed? {
        CommitIsInsert(s, d.order, fault, t);
        var u := d.order.Uid();
        var s' := Insert(s, d.order);
        assert u !in s.orders && u in s'.orders;
        var rest := StoreRun(s', d.order, msgs[1..], t + 1, decode, fault, reuse);
        var all := [d.order] + rest.committed;
        assert StoreRun(s, target, msgs, t, decode, fault, reuse).committed == all;
        StoreRunFreshUids(s', d.order, msgs[1..], t + 1, decode, fault, reuse);
        forall i | 0 <= i < |all| ensures all[i].Uid() !in s.orders {
          if i > 0 {
            assert all[i] == rest.committed[i - 1];
          }
        }
        forall i, j | 0 <= i < j < |all| ensures all[i].Uid() != all[j].Uid() {
          assert all[j] == rest.committed[j - 1];
          if i > 0 {
            assert all[i] == rest.committed[i - 1];
          } else {
            assert rest.committed[j - 1].Uid() !in s'.orders;
          }
        }
      }
    }
  }

  /** The first order committed keeps its rows if the rest of the run leaves its uid alone. */
  lemma PersistedFirst(s: Store, o: Order, s2: Store)
    requires Unchanged(Insert(s, o), s2, o.Uid())
    ensures Persisted(s, s2, o)
  {
  }

  /** A later order's rows, committed on top of the first, are also rows
      committed on top of the store before the first. */
  lemma PersistedLater(s: Store, o: Order, s2: Store, o': Order)
    requires o'.Uid() != o.Uid() && Persisted(Insert(s, o), s2, o')
    ensures Persisted(s, s2, o')
  {
    InsertFrame(s, o, o'.Uid());
  }

  /** Each order a run commits has all its rows in the final store. */
  lemma {:induction false} StoreRunPersists(s: Store, target: Order, msgs: seq<Bytes>, t: nat,
                                            decode: Decoder, fault: FaultOracle, reuse: bool)
    ensures forall i :: 0 <= i < |StoreRun(s, target, msgs, t, decode, fault, reuse).committed| ==>
              Persisted(s, StoreRun(s, target, msgs, t, decode, fault, reuse).store,
                        StoreRun(s, target, msgs, t, decode, fault, reuse).committed[i])
    decreases |msgs|
  {
    if msgs != [] {
      var d := decode(if reuse then target else ZeroOrder, msgs[0]);
      if d.ok && WriteTx(s, d.order, fault, t).Committed? {
        CommitIsInsert(s, d.order, fault, t);
        var u := d.order.Uid();
        var s' := Insert(s, d.order);
        var rest := StoreRun(s', d.order, msgs[1..], t + 1, decode, fault, reuse);
        var all := [d.order] + rest.committed;
        assert StoreRun(s, target, msgs, t, decode, fault, reuse) == rest.(committed := all);
        StoreRunPersists(s', d.order, msgs[1..], t + 1, decode, fault, reuse);
        StoreRunFreshUids(s', d.order, msgs[1..], t + 1, decode, fault, reuse);
        assert u in s'.orders;
        assert NotCommitted(rest.committed, u) by {
          forall i | 0 <= i < |rest.committed| ensures rest.committed[i].Uid() != u {
            assert rest.committed[i].Uid() !in s'.orders;
          }
        }
        StoreRunFrame(s', d.order, msgs[1..], t + 1, decode, fault, reuse, u);
        PersistedFirst(s, d.order, rest.store);
        forall i | 0 <= i < |all| ensures Persisted(s, rest.store, all[i]) {
          if i > 0 {
            assert all[i] == rest.committed[i - 1];
            assert rest.committed[i - 1].Uid() !in s'.orders;
            PersistedLater(s, d.order, rest.store, rest.committed[i - 1]);
          }
        }
      }
    }
  }
}
