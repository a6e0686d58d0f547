/** The consumer-group handler: validation of a decoded order and the
    per-claim loop that hands valid payloads to the store loop and marks
    them on the broker session. */
module Consumers {
  import opened Domain

  /** The five distinct errors `validateOrder` can return. */
  datatype ValidationError =
    | MissingOrderFields
    | MissingDeliveryFields
    | MissingPaymentFields
    | ItemsEmpty
    | MissingItemFields(index: nat)

  // Which fields are checked. internalSignature, requestId, deliveryCost,
  // goodsTotal, customFee and an item's sale are deliberately absent.

  predicate HeaderComplete(h: OrderHeader) {
    && h.orderUid != "" && h.trackNumber != "" && h.entry != ""
    && h.locale != "" && h.customerId != "" && h.deliveryService != ""
    && h.shardKey != "" && h.smId != 0 && h.dateCreated != "" && h.oofShard != ""
  }

  predicate DeliveryComplete(d: Delivery) {
    && d.name != "" && d.phone != "" && d.zip != "" && d.city != ""
    && d.address != "" && d.region != "" && d.email != ""
  }

  predicate PaymentComplete(p: Payment) {
    && p.transaction != "" && p.currency != "" && p.provider != ""
    && p.amount != 0 && p.paymentDt != 0 && p.bank != ""
  }

  predicate ItemComplete(it: Item) {
    && it.chrtId != 0 && it.trackNumber != "" && it.price != 0
    && it.rid != "" && it.name != "" && it.size != ""
    && it.totalPrice != 0 && it.nmId != 0 && it.brand != "" && it.status != 0
  }

  /** The index of the first incomplete item, if there is one. */
  function FirstIncomplete(items: seq<Item>): (r: Option<nat>)
    ensures r.Some? ==> r.value < |items| && !ItemComplete(items[r.value])
                        && forall j :: 0 <= j < r.value ==> ItemComplete(items[j])
    ensures r.None? <==> forall j :: 0 <= j < |items| ==> ItemComplete(items[j])
  {
    var incomplete := (i: nat) => i < |items| && !ItemComplete(items[i]);
    var r := FirstHit(incomplete, 0, |items|);
    assert forall j: nat :: j < |items| ==> (incomplete(j) <==> !ItemComplete(items[j]));
    r
  }

  predicate OrderComplete(o: Order) {
    && HeaderComplete(o.header) && DeliveryComplete(o.delivery) && PaymentComplete(o.payment)
    && |o.items| > 0 && forall i :: 0 <= i < |o.items| ==> ItemComplete(o.items[i])
  }

  /** The verdict of `validateOrder`: None is Go's nil error. */
  function Validate(o: Order): (r: Option<ValidationError>)
    // accepted exactly when every checked field is present
    ensures r.None? <==> OrderComplete(o)
    // groups are reported in a fixed order: order, delivery, payment, items
    ensures r == Some(MissingOrderFields) <==> !HeaderComplete(o.header)
    ensures r == Some(MissingDeliveryFields) <==>
              HeaderComplete(o.header) && !DeliveryComplete(o.delivery)
    ensures r == Some(MissingPaymentFields) <==>
              HeaderComplete(o.header) && DeliveryComplete(o.delivery) && !PaymentComplete(o.payment)
    ensures r == Some(ItemsEmpty) <==>
              HeaderComplete(o.header) && DeliveryComplete(o.delivery) && PaymentComplete(o.payment)
              && o.items == []
    // an item error names the smallest index of an incomplete item
    ensures r.Some? && r.value.MissingItemFields? ==>
              && HeaderComplete(o.header) && DeliveryComplete(o.delivery) && PaymentComplete(o.payment)
              && r.value.index < |o.items| && !ItemComplete(o.items[r.value.index])
              && forall j :: 0 <= j < r.value.index ==> ItemComplete(o.items[j])
  {
    if !HeaderComplete(o.header) then Some(MissingOrderFields)
    else if !DeliveryComplete(o.delivery) then Some(MissingDeliveryFields)
    else if !PaymentComplete(o.payment) then Some(MissingPaymentFields)
    else if |o.items| == 0 then Some(ItemsEmpty)
    else match FirstIncomplete(o.items)
      case Some(i) => Some(MissingItemFields(i))
      case None => None
  }

  /** `validateOrder`: the group checks, then the early-return scan over the items. */
  method ValidateOrder(o: Order) returns (err: Option<ValidationError>)
    ensures err == Validate(o)
  {
    if !HeaderComplete(o.header) { return Some(MissingOrderFields); }
    if !DeliveryComplete(o.delivery) { return Some(MissingDeliveryFields); }
    if !PaymentComplete(o.payment) { return Some(MissingPaymentFields); }
    if |o.items| == 0 { return Some(ItemsEmpty); }
    var i := 0;
    while i < |o.items|
      invariant 0 <= i <= |o.items|
      invariant forall j :: 0 <= j < i ==> ItemComplete(o.items[j])
    {
      if !ItemComplete(o.items[i]) {
        return Some(MissingItemFields(i));
      }
      i := i + 1;
    }
    return None;
  }

  /** The fields `validateOrder` never looks at, overwritten. */
  function WithUncheckedFields(o: Order, signature: string, requestId: string,
                               deliveryCost: int, goodsTotal: int, customFee: int,
                               sales: seq<int>): (r: Order)
    requires |sales| == |o.items|
    ensures |r.items| == |o.items|
  {
    o.(header := o.header.(internalSignature := signature),
       payment := o.payment.(requestId := requestId, deliveryCost := deliveryCost,
                             goodsTotal := goodsTotal, customFee := customFee),
       items := seq(|o.items|, i requires 0 <= i < |o.items| => o.items[i].(sale := sales[i])))
  }

  lemma UncheckedFieldsIgnored(o: Order, signature: string, requestId: string,
                               deliveryCost: int, goodsTotal: int, customFee: int,
                               sales: seq<int>)
    requires |sales| == |o.items|
    ensures Validate(WithUncheckedFields(o, signature, requestId, deliveryCost,
                                         goodsTotal, customFee, sales)) == Validate(o)
  {
    var o' := WithUncheckedFields(o, signature, requestId, deliveryCost, goodsTotal, customFee, sales);
    assert forall i :: 0 <= i < |o.items| ==> (ItemComplete(o'.items[i]) <==> ItemComplete(o.items[i]));
  }

  /** A broker record of the claim: its offset and its payload. */
  datatype Message = Message(offset: int, value: Bytes)

  /** What the handler does observably: push on the hand-off channel, mark on the session. */
  datatype Event = Send(value: Bytes) | Mark(msg: Message)

  /** A payload is handed off when it decodes into a fresh order and that order validates. */
  predicate Accepts(decode: Decoder, value: Bytes) {
    var d := decode(ZeroOrder, value);
    d.ok && Validate(d.order).None?
  }

  /** The accepted messages of a claim, in claim order. */
  function Handoff(claim: seq<Message>, decode: Decoder): seq<Message>
  {
    if claim == [] then []
    else
      var last := claim[|claim| - 1];
      Handoff(claim[..|claim| - 1], decode) + (if Accepts(decode, last.value) then [last] else [])
  }

  function Values(ms: seq<Message>): (vs: seq<Bytes>)
    ensures |vs| == |ms|
    ensures forall k :: 0 <= k < |ms| ==> vs[k] == ms[k].value
  {
    if ms == [] then [] else Values(ms[..|ms| - 1]) + [ms[|ms| - 1].value]
  }

  /** The events of a claim: Send then Mark for every accepted message, nothing for the rest. */
  function Trace(claim: seq<Message>, decode: Decoder): seq<Event>
  {
    if claim == [] then []
    else
      var last := claim[|claim| - 1];
      Trace(claim[..|claim| - 1], decode)
        + (if Accepts(decode, last.value) then [Send(last.value), Mark(last)] else [])
  }

  /** The screening in the body of the claim loop: unmarshal into a fresh
      order, then validate it. */
  method Screen(value: Bytes, decode: Decoder) returns (accepted: bool)
    ensures accepted == Accepts(decode, value)
  {
    var d := decode(ZeroOrder, value);
    if !d.ok {
      return false;
    }
    var verr := ValidateOrder(d.order);
    return verr.None?;
  }

  /** One more message extends the hand-off and the events by that message's share. */
  lemma HandoffSnoc(claim: seq<Message>, i: nat, decode: Decoder)
    requires i < |claim|
    ensures Handoff(claim[..i + 1], decode)
            == Handoff(claim[..i], decode) + (if Accepts(decode, claim[i].value) then [claim[i]] else [])
    ensures Trace(claim[..i + 1], decode)
            == Trace(claim[..i], decode)
               + (if Accepts(decode, claim[i].value) then [Send(claim[i].value), Mark(claim[i])] else [])
  {
    assert claim[..i + 1][..i] == claim[..i];
  }

  /** `ConsumeClaim`: the channel receives, and the session marks, exactly the
      accepted messages in claim order, and each mark directly follows its send. */
  method ConsumeClaim(claim: seq<Message>, decode: Decoder)
    returns (sent: seq<Bytes>, marked: seq<Message>, trace: seq<Event>)
    ensures marked == Handoff(claim, decode)
    ensures sent == Values(marked)
    ensures trace == Trace(claim, decode)
  {
    sent, marked, trace := [], [], [];
    var i := 0;
    while i < |claim|
      invariant 0 <= i <= |claim|
      invariant marked == Handoff(claim[..i], decode)
      invariant sent == Values(marked)
      invariant trace == Trace(claim[..i], decode)
    {
      var msg := claim[i];
      var accepted := Screen(msg.value, decode);
      HandoffSnoc(claim, i, decode);
      if accepted {
        sent := sent + [msg.value];
        trace := trace + [Send(msg.value)];
        marked := marked + [msg];
        trace := trace + [Mark(msg)];
      }
      i := i + 1;
    }
    assert claim[..i] == claim;
  }

  // Properties of the hand-off specification.

  /** Handing off a concatenation hands off each part in turn: the filter keeps claim order. */
  lemma {:induction false} HandoffAppend(a: seq<Message>, b: seq<Message>, decode: Decoder)
    ensures Handoff(a + b, decode) == Handoff(a, decode) + Handoff(b, decode)
    decreases |b|
  {
    if b == [] {
      assert a + b == a;
    } else {
      var b' := b[..|b| - 1];
      assert (a + b)[..|a + b| - 1] == a + b';
      HandoffAppend(a, b', decode);
    }
  }

  /** A message is handed off (and marked) exactly when it is in the claim and accepted. */
  lemma {:induction false} HandoffMembers(claim: seq<Message>, decode: Decoder, m: Message)
    ensures m in Handoff(claim, decode) <==> m in claim && Accepts(decode, m.value)
    decreases |claim|
  {
    if claim != [] {
      var init := claim[..|claim| - 1];
      HandoffMembers(init, decode, m);
      assert claim == init + [claim[|claim| - 1]];
    }
  }

  /** The events come in Send/Mark pairs, one pair per handed-off message, in order. */
  lemma {:induction false} TraceShape(claim: seq<Message>, decode: Decoder)
    ensures |Trace(claim, decode)| == 2 * |Handoff(claim, decode)|
    ensures forall k :: 0 <= k < |Handoff(claim, decode)| ==>
              Trace(claim, decode)[2 * k] == Send(Handoff(claim, decode)[k].value)
              && Trace(claim, decode)[2 * k + 1] == Mark(Handoff(claim, decode)[k])
    decreases |claim|
  {
    if claim != [] {
      TraceShape(claim[..|claim| - 1], decode);
    }
  }

  /** Every mark is immediately preceded by the send of the same payload. */
  lemma MarkFollowsSend(claim: seq<Message>, decode: Decoder)
    ensures forall p :: 0 <= p < |Trace(claim, decode)| && Trace(claim, decode)[p].Mark? ==>
              p > 0 && Trace(claim, decode)[p - 1] == Send(Trace(claim, decode)[p].msg.value)
  {
    TraceShape(claim, decode);
    var t, h := Trace(claim, decode), Handoff(claim, decode);
    forall p | 0 <= p < |t| && t[p].Mark?
      ensures p > 0 && t[p - 1] == Send(t[p].msg.value)
    {
      var k := p / 2;
      assert p == 2 * k || p == 2 * k + 1;
      assert 0 <= k < |h|;
    }
  }
}
