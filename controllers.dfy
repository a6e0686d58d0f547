/** The HTTP read endpoint `/orders/{id}`: path parsing, the status code
    chosen for each service result, and the listening port. */
module Controllers {
  import opened Domain

  const Prefix: string := "/orders/"
  const DefaultPort: string := "8080"

  const StatusOK: int := 200
  const StatusBadRequest: int := 400
  const StatusNotFound: int := 404
  const StatusInternalServerError: int := 500

  /** `NewOrderController`: the PORT variable, or 8080 when it is empty. */
  function Port(env: string): (port: string)
    ensures env == "" ==> port == DefaultPort
    ensures env != "" ==> port == env
    ensures port != ""
  {
    if env == "" then DefaultPort else env
  }

  /** The id of a request path: what follows the prefix, when the path is
      longer than the prefix and starts with it. */
  function ExtractId(path: string): (id: Option<string>)
    ensures id.Some? <==> |path| > |Prefix| && path[..|Prefix|] == Prefix
    // the id is the rest of the path, and never empty (so the id == ""
    // check that follows can never fire)
    ensures id.Some? ==> Prefix + id.value == path && id.value != ""
  {
    if |path| <= |Prefix| || path[..|Prefix|] != Prefix then None
    else
      assert Prefix + path[|Prefix|..] == path by {
        assert path == path[..|Prefix|] + path[|Prefix|..];
      }
      Some(path[|Prefix|..])
  }

  /** The status written for a service result. */
  function Status<D>(result: Lookup<D>): (status: int)
    ensures status == StatusInternalServerError <==> result.Failed?
    ensures status == StatusNotFound <==> result.NotFound?
    ensures status == StatusOK <==> result.Found?
  {
    match result
    case Failed(_) => StatusInternalServerError
    case NotFound => StatusNotFound
    case Found(_) => StatusOK
  }

  /** What a request produced: the status, and the id the service was asked
      for, if it was asked at all. */
  datatype Reply = Reply(status: int, asked: Option<string>)

  /** `getOrderByID`: 400 for a malformed path without calling the service;
      otherwise one service call with the extracted id, and its result's status. */
  function GetOrderByID<D>(path: string, service: string -> Lookup<D>): (r: Reply)
    // the service is called at most once, with exactly the extracted id
    ensures r.asked == ExtractId(path)
    ensures r.asked.None? ==> r.status == StatusBadRequest
    ensures r.asked.Some? ==> r.status == Status(service(r.asked.value))
    // no service result is reported as a bad request
    ensures r.status == StatusBadRequest <==> r.asked.None?
  {
    match ExtractId(path)
    case None => Reply(StatusBadRequest, None)
    case Some(id) => Reply(Status(service(id)), Some(id))
  }

  /** Every id is reachable: the path built from a non-empty id asks for
      exactly that id. */
  lemma {:induction false} ExtractIdInverse(id: string)
    requires id != ""
    ensures ExtractId(Prefix + id) == Some(id)
  {
    assert (Prefix + id)[..|Prefix|] == Prefix;
    assert (Prefix + id)[|Prefix|..] == id;
  }
}
