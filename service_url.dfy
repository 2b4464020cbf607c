/**
 * `get_service_url` of the backend: the dataset id in a request's parameters selects the
 * data URL and protocol from the dataset access configuration.
 */
module ServiceUrl {
  import opened Wrappers

  const NoDatasetIdMessage: string := "No datasetId specified in the request"
  const UnknownDatasetMessage: string := "The provided datasetId does not exist"

  /** The tuple `(msg, status, service_url, protocol)`. */
  datatype Reply = Reply(msg: map<string, string>, status: int, serviceUrl: string, protocol: string)

  /** A reply, or the InvalidUsage exception with its message. */
  datatype Outcome = Found(reply: Reply) | InvalidUsage(message: string)

  /** What the `try` block can raise: a KeyError from a lookup, or its own InvalidUsage. */
  datatype Raised = KeyError | RaisedInvalidUsage(message: string)

  /** The access entry of the request's dataset carries both a data URL and a protocol. */
  predicate HasService(params: map<string, string>, access: map<string, map<string, string>>) {
    && "datasetId" in params
    && params["datasetId"] in access
    && "urlData" in access[params["datasetId"]]
    && "protocolData" in access[params["datasetId"]]
  }

  /** The body of the `try` block: the two lookups, or the missing-id raise. */
  function TryLookup(params: map<string, string>, access: map<string, map<string, string>>): Result<(string, string), Raised> {
    if "datasetId" in params then
      var id := params["datasetId"];
      if id !in access || "urlData" !in access[id] then Failure(KeyError)
      else if "protocolData" !in access[id] then Failure(KeyError)
      else Success((access[id]["urlData"], access[id]["protocolData"]))
    else
      Failure(RaisedInvalidUsage(NoDatasetIdMessage))
  }

  /**
   * `get_service_url(params)` against `DATASETS['access']`: the `except Exception` clause
   * catches whatever the `try` block raises, its own InvalidUsage included, and raises
   * InvalidUsage("The provided datasetId does not exist") instead.
   */
  function GetServiceUrl(params: map<string, string>, access: map<string, map<string, string>>): (r: Outcome)
    ensures r.Found? <==> HasService(params, access)
    ensures r.Found? ==>
      var entry := access[params["datasetId"]];
      r.reply == Reply(map[], 200, entry["urlData"], entry["protocolData"])
    ensures r.InvalidUsage? ==> r.message == UnknownDatasetMessage
  {
    match TryLookup(params, access)
    case Failure(_) => InvalidUsage(UnknownDatasetMessage)
    case Success((url, protocol)) => Found(Reply(map[], 200, url, protocol))
  }

  /**
   * Every reply has status 200 and an empty message, so a caller's `status > 200` branch is
   * never taken.
   */
  lemma StatusIsAlways200(params: map<string, string>, access: map<string, map<string, string>>)
    ensures GetServiceUrl(params, access).Found? ==>
      GetServiceUrl(params, access).reply.status == 200 && !(GetServiceUrl(params, access).reply.status > 200)
  {
  }

  /**
   * A request without a datasetId raises the missing-id InvalidUsage inside the `try`, yet
   * the caller sees "The provided datasetId does not exist": the first message is lost.
   */
  lemma MissingDatasetIdMessageLost(params: map<string, string>, access: map<string, map<string, string>>)
    requires "datasetId" !in params
    ensures TryLookup(params, access) == Failure(RaisedInvalidUsage(NoDatasetIdMessage))
    ensures GetServiceUrl(params, access) == InvalidUsage(UnknownDatasetMessage)
    ensures GetServiceUrl(params, access).message != NoDatasetIdMessage
  {
  }

  /** The lookup with the handler catching only the lookups' KeyError, as the two messages intend. */
  function GetServiceUrlIntended(params: map<string, string>, access: map<string, map<string, string>>): (r: Outcome)
    ensures "datasetId" !in params ==> r == InvalidUsage(NoDatasetIdMessage)
    ensures "datasetId" in params && !HasService(params, access) ==> r == InvalidUsage(UnknownDatasetMessage)
    ensures r.Found? <==> HasService(params, access)
  {
    match TryLookup(params, access)
    case Failure(KeyError) => InvalidUsage(UnknownDatasetMessage)
    case Failure(RaisedInvalidUsage(message)) => InvalidUsage(message)
    case Success((url, protocol)) => Found(Reply(map[], 200, url, protocol))
  }

  /** The intended lookup differs from the one as written exactly on requests without a datasetId. */
  lemma IntendedDiffersOnlyOnMissingId(params: map<string, string>, access: map<string, map<string, string>>)
    ensures "datasetId" in params ==> GetServiceUrlIntended(params, access) == GetServiceUrl(params, access)
    ensures "datasetId" !in params ==> GetServiceUrlIntended(params, access) != GetServiceUrl(params, access)
  {
  }
}
