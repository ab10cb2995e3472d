/**
 * A connection that first reads a request and then writes a response
 * (src/query_connection.rs). The request handler ends with no response
 * (the connection is done) or with the handler that writes the response;
 * the connection never goes back to reading.
 *
 * The handlers of both stages are values; what their `readable` and
 * `writable` return on a token is given as functions.
 */
module QueryConnections {
  import opened Wrappers

  /** `Stage`: reading the request, or writing the response. */
  datatype Stage<Q, R> = Request(request: Q) | Response(response: R)

  /**
   * What `handle_event` does with the results of the forwarders: the
   * request stage goes on, ends, or hands over to a response handler;
   * the response stage returns its handler's result and stays.
   */
  ghost predicate Handled<Q, R>(before: Stage<Q, R>, after: Stage<Q, R>, r: Option<()>,
                                forwardRequest: Q -> Option<Option<R>>, forwardResponse: R -> Option<()>)
  {
    match before
    case Request(q) =>
      (match forwardRequest(q)
       case None => after == before && r.None?
       case Some(None) => after == before && r == Some(())
       case Some(Some(h)) => after == Response(h) && r.None?)
    case Response(h) => after == before && r == forwardResponse(h)
  }

  class QueryConnection<Q, R> {
    var stage: Stage<Q, R>

    /** `QueryConnection::new`: reading the request. */
    constructor(requestHandler: Q)
      ensures stage == Request(requestHandler)
    {
      stage := Request(requestHandler);
    }

    /**
     * `handle_event`: forwards to the handler of the active stage only,
     * and moves to the response stage when the request handler produced
     * a response handler; a response stage is never left.
     */
    method HandleEvent(forwardRequest: Q -> Option<Option<R>>, forwardResponse: R -> Option<()>)
      returns (r: Option<()>)
      modifies this
      ensures Handled(old(stage), stage, r, forwardRequest, forwardResponse)
      ensures old(stage).Response? ==> stage == old(stage)
      ensures stage.Request? ==> stage == old(stage)
      ensures r == Some(()) ==> stage == old(stage)
    {
      match stage {
        case Request(q) =>
          match forwardRequest(q) {
            case None =>
              r := None;
            case Some(None) =>
              r := Some(());
            case Some(Some(h)) =>
              stage := Response(h);
              r := None;
          }
        case Response(h) =>
          r := forwardResponse(h);
      }
    }

    /** `readable`: the active stage's `readable` on the same token. */
    method Readable(token: nat, requestReadable: (Q, nat) -> Option<Option<R>>, responseReadable: (R, nat) -> Option<()>)
      returns (r: Option<()>)
      modifies this
      ensures Handled(old(stage), stage, r, q => requestReadable(q, token), h => responseReadable(h, token))
    {
      r := HandleEvent(q => requestReadable(q, token), h => responseReadable(h, token));
    }

    /** `writable`: the active stage's `writable` on the same token. */
    method Writable(token: nat, requestWritable: (Q, nat) -> Option<Option<R>>, responseWritable: (R, nat) -> Option<()>)
      returns (r: Option<()>)
      modifies this
      ensures Handled(old(stage), stage, r, q => requestWritable(q, token), h => responseWritable(h, token))
    {
      r := HandleEvent(q => requestWritable(q, token), h => responseWritable(h, token));
    }
  }
}
