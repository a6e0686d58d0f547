/** The read path end to end: controller, service and repository together. */
module Pipeline {
  import opened Domain
  import opened TableStore
  import opened Repositories
  import Services
  import Controllers

  /** The status a request gets when the repository answers repo(id). */
  function Served<D>(path: string, repo: string -> Lookup<Order>, convert: Order -> Option<D>): Controllers.Reply {
    Controllers.GetOrderByID(path, id => Services.GetOrderByID(repo(id), convert))
  }

  /** For a well-formed path: 404 exactly when the repository returned
      `(nil, nil)`, 500 exactly when it failed or the conversion did, 200
      exactly when an order was found and converted. */
  lemma StatusByRepositoryResult<D>(path: string, repo: string -> Lookup<Order>, convert: Order -> Option<D>)
    requires Controllers.ExtractId(path).Some?
    ensures var id := Controllers.ExtractId(path).value;
            Served(path, repo, convert).status == Controllers.StatusNotFound <==> repo(id).NotFound?
    ensures var id := Controllers.ExtractId(path).value;
            Served(path, repo, convert).status == Controllers.StatusInternalServerError <==>
              repo(id).Failed? || (repo(id).Found? && convert(repo(id).value).None?)
    ensures var id := Controllers.ExtractId(path).value;
            Served(path, repo, convert).status == Controllers.StatusOK <==>
              repo(id).Found? && convert(repo(id).value).Some?
  {
    var id := Controllers.ExtractId(path).value;
    var r := Services.GetOrderByID(repo(id), convert);
    assert Served(path, repo, convert).status == Controllers.Status(r);
  }

  /** On a cache miss, a request gets 404 exactly when the read transaction
      reaches a missing orders, delivery or payment row. */
  lemma MissIsNotFound<D>(s: Store, id: string, fault: FaultOracle, t: nat, convert: Order -> Option<D>)
    ensures Controllers.Status(Services.GetOrderByID(Fetch(s, id, fault, t), convert)) == Controllers.StatusNotFound
            <==> !fault(t, Begin) && !fault(t, SelectOrder)
                 && (id !in s.orders
                     || (!fault(t, SelectDelivery)
                         && (id !in s.delivery || (!fault(t, SelectPayment) && id !in s.payment))))
  {
    FetchOutcome(s, id, fault, t);
  }

  /** One request against the repository: parse the path, look the id up
      (the t-th interaction), map the result through the service and the
      controller. */
  method HandleRequest<D>(repo: OrderRepository, path: string, fault: FaultOracle, t: nat, convert: Order -> Option<D>)
    returns (status: int)
    modifies repo
    // a malformed path is rejected without touching the repository
    ensures Controllers.ExtractId(path).None? ==>
              status == Controllers.StatusBadRequest && repo.cache == old(repo.cache) && repo.db == old(repo.db)
    // a cached order is served from the cache
    ensures Controllers.ExtractId(path).Some? && Controllers.ExtractId(path).value in old(repo.cache) ==>
              status == Controllers.Status(Services.GetOrderByID(
                          Found(old(repo.cache[Controllers.ExtractId(path).value].value)), convert))
    // otherwise the status is that of the store's answer
    ensures Controllers.ExtractId(path).Some? && Controllers.ExtractId(path).value !in old(repo.cache) ==>
              status == Controllers.Status(Services.GetOrderByID(
                          Fetch(old(repo.db), Controllers.ExtractId(path).value, fault, t), convert))
  {
    var id := Controllers.ExtractId(path);
    if id.None? {
      return Controllers.StatusBadRequest;
    }
    var r := repo.GetOrderByID(id.value, fault, t);
    status := Controllers.Status(Services.GetOrderByID(Deref(r), convert));
  }
}
