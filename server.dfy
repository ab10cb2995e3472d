/**
 * The connection table of the server (src/server.rs): up to 100
 * connections, each in its own slot, addressed by the connection id
 * `slot + 1` in the high half of their event tokens; token 0 belongs to
 * the listening socket.
 *
 * Connection handlers are values; whether a handler finishes on a
 * readable or writable event is given as a function of the handler and
 * the token. Poll registration is a function of the token it registers.
 */
module Servers {
  import opened Wrappers
  import opened Arith
  import opened Tokens

  /** `CONNECTION_COUNT`. */
  const ConnectionCount: nat := 100
  /** `CONN_SOCKET_TOKEN`: the asynchronous token of a connection's own socket. */
  const ConnSocketToken: u32 := 0
  /** `SERVER_TOKEN`. */
  const ServerToken: nat := 0

  /** The readiness of an event. */
  datatype Readiness = Readiness(readable: bool, writable: bool)

  /**
   * `initialize_connections`: a table of `ConnectionCount` slots, every
   * one empty.
   */
  method InitializeConnections<T>() returns (connections: array<Option<T>>)
    ensures fresh(connections) && connections.Length == ConnectionCount
    ensures forall i :: 0 <= i < connections.Length ==> connections[i].None?
  {
    connections := new Option<T>[ConnectionCount];
    for i := 0 to connections.Length
      invariant forall j :: 0 <= j < i ==> connections[j].None?
    {
      connections[i] := None;
    }
  }

  class Server<T> {
    const connections: array<Option<T>>

    ghost predicate Valid()
      reads this
    {
      connections.Length == ConnectionCount
    }

    /** `Server::new` after binding and registering the listener: all slots empty. */
    constructor()
      ensures Valid() && fresh(connections)
      ensures forall i :: 0 <= i < connections.Length ==> connections[i].None?
    {
      var slots := InitializeConnections();
      connections := slots;
    }

    /**
     * `register_connection`: the lowest empty slot `i` gets the new
     * connection's handler, but only if registering its socket under
     * `create_token(i + 1, 0)` succeeds; with no empty slot, or a failed
     * registration, the table is unchanged. The slot used, if any, is
     * returned.
     */
    method RegisterConnection(handler: T, register: u64 -> bool) returns (slot: Option<nat>)
      requires Valid()
      modifies connections
      ensures slot.None? ==> connections[..] == old(connections[..])
      ensures slot.None? ==> (forall j :: 0 <= j < connections.Length ==> old(connections[j]).Some?)
                             || !register(CreateToken64(FirstEmptySlot(old(connections[..])) + 1, ConnSocketToken))
      ensures slot.Some? ==>
        && slot.value < connections.Length && old(connections[slot.value]).None?
        && (forall j :: 0 <= j < slot.value ==> old(connections[j]).Some?)
        && register(CreateToken64(slot.value + 1, ConnSocketToken))
        && connections[..] == old(connections[..])[slot.value := Some(handler)]
    {
      var i := 0;
      while i < connections.Length && connections[i].Some?
        invariant 0 <= i <= connections.Length
        invariant forall j :: 0 <= j < i ==> connections[j].Some?
      {
        i := i + 1;
      }
      if i == connections.Length {
        return None;
      }
      FirstEmptyIs(connections[..], i);
      if !register(CreateToken64(i + 1, ConnSocketToken)) {
        return None;
      }
      connections[i] := Some(handler);
      slot := Some(i);
    }

    /**
     * `handle_event`: the connection id of the token names the slot
     * `id - 1`; an empty slot ignores the event. A readable event is
     * handled first, and if the handler finishes there its slot is
     * returned without the writable part; otherwise a writable event is
     * handled the same way.
     */
    method HandleEvent(token: u64, readiness: Readiness, readableFinishes: (T, u32) -> bool,
                       writableFinishes: (T, u32) -> bool)
      returns (finished: Option<nat>)
      requires Valid()
      requires 1 <= SplitToken64(token).0 <= ConnectionCount
      ensures var (connId, asyncToken) := SplitToken64(token);
        var slot := connections[connId - 1];
        finished.Some? <==>
          && slot.Some?
          && ((readiness.readable && readableFinishes(slot.value, asyncToken))
              || (readiness.writable && writableFinishes(slot.value, asyncToken)))
      ensures finished.Some? ==> finished.value == SplitToken64(token).0 - 1
    {
      var (connId, asyncToken) := SplitToken64(token);
      var index := connId - 1;
      finished := None;
      match connections[index] {
        case None =>
        case Some(handler) =>
          if readiness.readable && readableFinishes(handler, asyncToken) {
            return Some(index);
          }
          if readiness.writable && writableFinishes(handler, asyncToken) {
            return Some(index);
          }
      }
    }

    /**
     * One event of the loop in `start`: the listener's token accepts a
     * connection (if `accept` gave one) and registers it; any other token
     * goes to `handle_event`, and the slot it returns, and only that one,
     * is cleared.
     */
    method Dispatch(token: u64, readiness: Readiness, accepted: Option<T>, register: u64 -> bool,
                    readableFinishes: (T, u32) -> bool, writableFinishes: (T, u32) -> bool)
      requires Valid()
      requires token != ServerToken ==> 1 <= SplitToken64(token).0 <= ConnectionCount
      modifies connections
      ensures token == ServerToken && accepted.None? ==> connections[..] == old(connections[..])
      ensures token == ServerToken && accepted.Some? ==>
        var i := FirstEmptySlot(old(connections[..]));
        connections[..] == if i < ConnectionCount && register(CreateToken64(i + 1, ConnSocketToken))
                           then old(connections[..])[i := accepted]
                           else old(connections[..])
      ensures token != ServerToken ==>
        var index := SplitToken64(token).0 - 1;
        var slot := old(connections[index]);
        var finishes := slot.Some? && ((readiness.readable && readableFinishes(slot.value, SplitToken64(token).1))
                                       || (readiness.writable && writableFinishes(slot.value, SplitToken64(token).1)));
        connections[..] == if finishes then old(connections[..])[index := None] else old(connections[..])
    {
      if token == ServerToken {
        if accepted.Some? {
          var _ := RegisterConnection(accepted.value, register);
        }
      } else {
        var finished := HandleEvent(token, readiness, readableFinishes, writableFinishes);
        if finished.Some? {
          connections[finished.value] := None;
        }
      }
    }
  }

  /** The index `position(|conn| conn.is_none())` finds, or the length when every slot is taken. */
  function FirstEmptySlot<T>(slots: seq<Option<T>>): (i: nat)
    ensures i <= |slots|
    ensures forall j :: 0 <= j < i ==> slots[j].Some?
    ensures i < |slots| ==> slots[i].None?
  {
    if slots == [] || slots[0].None? then 0 else 1 + FirstEmptySlot(slots[1..])
  }

  lemma FirstEmptyIs<T>(slots: seq<Option<T>>, i: nat)
    requires i < |slots| && slots[i].None? && forall j :: 0 <= j < i ==> slots[j].Some?
    ensures FirstEmptySlot(slots) == i
  {
  }

  /**
   * The token a connection is registered under gives back its slot:
   * splitting `create_token(i + 1, 0)` yields connection id `i + 1`, so
   * `handle_event` addresses slot `i`, and never the listener's token 0.
   */
  lemma RegisteredTokenAddressesSlot(i: nat)
    requires i < ConnectionCount
    ensures CreateToken64(i + 1, ConnSocketToken) != ServerToken
    ensures SplitToken64(CreateToken64(i + 1, ConnSocketToken)) == (i + 1, ConnSocketToken)
  {
    SplitCreate64(i + 1, ConnSocketToken);
  }
}
