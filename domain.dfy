/** The order entity tree shared by the consumer, the repository and the
    service, together with the abstract collaborators the core talks to:
    the JSON decoder, the database's failure behaviour and the results that
    cross layer boundaries. */
module Domain {

  datatype Option<+T> = None | Some(value: T)

  newtype byte = x: int | 0 <= x < 256

  /** A raw broker payload (a JSON document as bytes). */
  type Bytes = seq<byte>

  datatype Delivery = Delivery(
    name: string, phone: string, zip: string, city: string,
    address: string, region: string, email: string)

  datatype Payment = Payment(
    transaction: string, requestId: string, currency: string, provider: string,
    amount: int, paymentDt: int, bank: string,
    deliveryCost: int, goodsTotal: int, customFee: int)

  datatype Item = Item(
    chrtId: int, trackNumber: string, price: int, rid: string, name: string,
    sale: int, size: string, totalPrice: int, nmId: int, brand: string, status: int)

  /** The scalar fields of an order: exactly the columns of the `orders` table. */
  datatype OrderHeader = OrderHeader(
    orderUid: string, trackNumber: string, entry: string, locale: string,
    internalSignature: string, customerId: string, deliveryService: string,
    shardKey: string, smId: int, dateCreated: string, oofShard: string)

  datatype Order = Order(header: OrderHeader, delivery: Delivery, payment: Payment, items: seq<Item>)
  {
    function Uid(): string { header.orderUid }
  }

  /** Go's zero value of the order struct: every string empty, every number 0, no items. */
  const ZeroOrder: Order :=
    Order(OrderHeader("", "", "", "", "", "", "", "", 0, "", ""),
          Delivery("", "", "", "", "", "", ""),
          Payment("", "", "", "", 0, 0, "", 0, 0, 0),
          [])

  /** What `json.Unmarshal(payload, &target)` leaves behind: the new contents of
      the target and whether it reported success. */
  datatype Decoded = Decoded(order: Order, ok: bool)

  /** The JSON decoder, abstract: it decodes a payload INTO an existing value,
      so fields the payload does not mention may keep the target's old contents. */
  type Decoder = (Order, Bytes) -> Decoded

  /** The database interactions that can fail, on the read and on the write path. */
  datatype Step =
    | Begin
    | SelectOrder | SelectDelivery | SelectPayment | QueryItems | ScanItem(row: nat) | IterateItems
    | InsertOrder | InsertDelivery | InsertPayment | InsertItem(index: nat) | Commit

  /** fault(t, s) holds when step s fails in the t-th database interaction
      (transaction or read) that the caller performs. */
  type FaultOracle = (nat, Step) -> bool

  /** UnmarshalError: a payload did not decode; DbError: a database step failed;
      ConvertError: the entity-to-DTO conversion failed. */
  datatype Error = UnmarshalError | DbError(step: Step) | ConvertError

  /** Go's `(*T, error)` result of a lookup: `(v, nil)`, `(nil, nil)` or `(nil, err)`. */
  datatype Lookup<+T> = Found(value: T) | NotFound | Failed(error: Error)

  /** The first index in [from, n) satisfying p, if any: the early-return
      searches of the source (an incomplete item, a failing row). */
  function FirstHit(p: nat -> bool, from: nat, n: nat): (r: Option<nat>)
    decreases n - from
    ensures r.Some? ==> from <= r.value < n && p(r.value)
    ensures r.Some? ==> forall k :: from <= k < r.value ==> !p(k)
    ensures r.None? <==> forall k :: from <= k < n ==> !p(k)
  {
    if from >= n then None
    else if p(from) then Some(from)
    else FirstHit(p, from + 1, n)
  }
}
