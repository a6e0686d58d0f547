/** The order service: it passes repository results on, converting a found
    entity into its DTO. */
module Services {
  import opened Domain

  /** `OrderService.GetOrderByID`: an error is passed on unchanged, "not
      found" stays "not found", and a found entity is converted. The
      conversion is abstract; None stands for a conversion error. */
  function GetOrderByID<D>(repo: Lookup<Order>, convert: Order -> Option<D>): (r: Lookup<D>)
    // a repository error comes back as it is
    ensures repo.Failed? ==> r == Failed(repo.error)
    // not found is kept distinct from an error, in both directions
    ensures r.NotFound? <==> repo.NotFound?
    // a result is returned exactly when the entity was found and converted
    ensures r.Found? <==> repo.Found? && convert(repo.value).Some?
    ensures r.Found? ==> r.value == convert(repo.value).value
    // the only new error is the conversion's
    ensures r.Failed? && !repo.Failed? ==> repo.Found? && convert(repo.value).None? && r.error == ConvertError
  {
    match repo
    case Failed(e) => Failed(e)
    case NotFound => NotFound
    case Found(o) =>
      match convert(o)
      case Some(d) => Found(d)
      case None => Failed(ConvertError)
  }

  /** `OrderService.StoreOrder`: the repository's error (or nil) is returned as it is. */
  function StoreOrder(repoErr: Option<Error>): (r: Option<Error>)
    ensures r == repoErr
  {
    if repoErr.Some? then repoErr else None
  }
}
