/** The consumer's batch store as written shares one decode target between
    payloads; these lemmas show what that does to the cache and the store,
    and that a fresh target per payload repairs it. */
module Findings {
  import opened Domain
  import opened TableStore
  import opened Repositories

  /** A view showing one order under several keys is sound exactly when
      every key is that order's uid. */
  lemma SharedSound(keys: set<string>, v: Order)
    ensures Sound(Shared(keys, v)) <==> forall k :: k in keys ==> k == v.Uid()
  {
    if Sound(Shared(keys, v)) {
      forall k | k in keys ensures k == v.Uid() {
        assert Shared(keys, v)[k] == v;
      }
    }
  }

  /** Caching orders one by one, each under its own uid, gives a sound view. */
  lemma {:induction false} ViewOfSound(os: seq<Order>)
    ensures Sound(ViewOf(os))
    decreases |os|
  {
    if os != [] {
      ViewOfSound(os[..|os| - 1]);
      SoundGrows(ViewOf(os[..|os| - 1]), os[|os| - 1].Uid(), os[|os| - 1]);
    }
  }

  /** A decoder for two payloads: [1] sets uid "o1" and signature "sig-1",
      [2] sets uid "o2" and leaves every other field as the target had it. */
  function SampleDecode(prev: Order, msg: Bytes): Decoded {
    if msg == [1] then Decoded(prev.(header := prev.header.(orderUid := "o1", internalSignature := "sig-1")), true)
    else Decoded(prev.(header := prev.header.(orderUid := "o2")), true)
  }

  function NoFaults(t: nat, s: Step): bool {
    false
  }

  const Payloads: seq<Bytes> := [[1], [2]]

  /** What the first payload decodes to, and what the second does on top of
      target. */
  function First(): Order {
    SampleDecode(ZeroOrder, [1]).order
  }

  function Second(target: Order): Order {
    SampleDecode(target, [2]).order
  }

  /** The second payload on its own, after the first committed. */
  lemma {:induction false} RunSecond(reuse: bool)
    ensures var o2 := Second(if reuse then First() else ZeroOrder);
            StoreRun(Insert(EmptyStore, First()), First(), Payloads[1..], 1, SampleDecode, NoFaults, reuse)
            == RunState(Insert(Insert(EmptyStore, First()), o2), o2, [o2], None)
  {
    var o2 := Second(if reuse then First() else ZeroOrder);
    var s1 := Insert(EmptyStore, First());
    assert o2.Uid() == "o2" && s1.orders.Keys == {"o1"};
    WriteTxOutcome(s1, o2, NoFaults, 1);
    assert Payloads[1..][0] == [2] && Payloads[1..][1..] == [];
    assert SampleDecode(if reuse then First() else ZeroOrder, [2]) == Decoded(o2, true);
    assert StoreRun(Insert(s1, o2), o2, [], 2, SampleDecode, NoFaults, reuse) == RunState(Insert(s1, o2), o2, [], None);
  }

  /** Both payloads commit, in order. */
  lemma {:induction false} RunBoth(reuse: bool)
    ensures var o2 := Second(if reuse then First() else ZeroOrder);
            StoreRun(EmptyStore, ZeroOrder, Payloads, 0, SampleDecode, NoFaults, reuse)
            == RunState(Insert(Insert(EmptyStore, First()), o2), o2, [First(), o2], None)
  {
    WriteTxOutcome(EmptyStore, First(), NoFaults, 0);
    assert Payloads[0] == [1];
    RunSecond(reuse);
  }

  /** The view of the two committed orders. */
  lemma ViewOfBoth(o2: Order)
    requires o2.Uid() == "o2"
    ensures ViewOf([First(), o2]) == map["o1" := First(), "o2" := o2]
  {
    ViewOfSnoc([], First());
    ViewOfSnoc([First()], o2);
    assert [] + [First()] == [First()] && [First()] + [o2] == [First(), o2];
  }

  /** As written, both payloads commit, but the cache then shows the "o2"
      order under "o1" as well, and the "o2" row has inherited "o1"'s
      signature. */
  lemma SharedTargetWitness()
    ensures var r := AsWritten(EmptyStore, Payloads, SampleDecode, NoFaults);
            && r.error == None
            && ViewOf(r.committed).Keys == {"o1", "o2"}
            && r.target.Uid() == "o2"
            && !Sound(Shared(ViewOf(r.committed).Keys, r.target))
            && "o2" in r.store.orders && r.store.orders["o2"].internalSignature == "sig-1"
  {
    var o2 := Second(First());
    RunBoth(true);
    ViewOfBoth(o2);
    SharedSound({"o1", "o2"}, o2);
  }

  /** With a fresh target per payload, the same payloads commit, each uid
      shows its own order, and "o2" keeps the signature its payload gives it. */
  lemma FreshTargetWitness()
    ensures var r := FreshPerPayload(EmptyStore, Payloads, SampleDecode, NoFaults);
            && r.error == None
            && ViewOf(r.committed) == map["o1" := First(), "o2" := Second(ZeroOrder)]
            && Sound(ViewOf(r.committed))
            && "o2" in r.store.orders && r.store.orders["o2"].internalSignature == ""
  {
    var o2 := Second(ZeroOrder);
    RunBoth(false);
    ViewOfBoth(o2);
    ViewOfSound([First(), o2]);
  }
}
