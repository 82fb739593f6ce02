/**
  The client's record of active stream subscriptions. `Subscribe` and
  `Unsubscribe` send one request and touch the record only when the request
  comes back without an error. The request itself (id assignment, the
  websocket write, waiting for the reply) is an oracle passed in.
 */
module Subscriptions {
  import opened Wrappers

  /** The request map `Subscribe` and `Unsubscribe` build. */
  datatype Command = Command(command: string, streams: seq<string>)

  /** The distinct stream names of a list. */
  function Elements(streams: seq<string>): set<string>
  {
    set x | x in streams
  }

  /** The subscribe loop: mark each listed stream, one after another. */
  function AddAll(active: set<string>, streams: seq<string>): (r: set<string>)
    ensures r == active + Elements(streams)
    decreases |streams|
  {
    if |streams| == 0 then active else
      assert Elements(streams) == {streams[0]} + Elements(streams[1..]);
      AddAll(active + {streams[0]}, streams[1..])
  }

  /** The unsubscribe loop: delete each listed stream, one after another. */
  function RemoveAll(active: set<string>, streams: seq<string>): (r: set<string>)
    ensures r == active - Elements(streams)
    decreases |streams|
  {
    if |streams| == 0 then active else
      assert Elements(streams) == {streams[0]} + Elements(streams[1..]);
      RemoveAll(active - {streams[0]}, streams[1..])
  }

  /**
    `Subscribe`: the reply or error is the request's own. After a successful
    request the active set is the old one plus the listed streams; after an
    error it is unchanged. No unlisted stream ever changes membership.
   */
  function Subscribe<R, E>(request: Command -> Result<R, E>, active: set<string>, streams: seq<string>)
    : (out: (Result<R, E>, set<string>))
    ensures out.0 == request(Command("subscribe", streams))
    ensures out.0.Success? ==> out.1 == active + Elements(streams)
    ensures out.0.Failure? ==> out.1 == active
    ensures forall x | x !in streams :: x in out.1 <==> x in active
  {
    var res := request(Command("subscribe", streams));
    if res.Failure? then (res, active)
    else (res, AddAll(active, streams))
  }

  /**
    `Unsubscribe`: the reply or error is the request's own. After a
    successful request the active set is the old one minus the listed
    streams; after an error it is unchanged. No unlisted stream ever changes
    membership.
   */
  function Unsubscribe<R, E>(request: Command -> Result<R, E>, active: set<string>, streams: seq<string>)
    : (out: (Result<R, E>, set<string>))
    ensures out.0 == request(Command("unsubscribe", streams))
    ensures out.0.Success? ==> out.1 == active - Elements(streams)
    ensures out.0.Failure? ==> out.1 == active
    ensures forall x | x !in streams :: x in out.1 <==> x in active
  {
    var res := request(Command("unsubscribe", streams));
    if res.Failure? then (res, active)
    else (res, RemoveAll(active, streams))
  }

  /**
    Subscribing to "ledger" and "transaction" and then unsubscribing from
    "ledger" alone, both requests succeeding, leaves exactly "transaction".
   */
  lemma SubscribeThenUnsubscribe<R, E>(request: Command -> Result<R, E>)
    requires request(Command("subscribe", ["ledger", "transaction"])).Success?
    requires request(Command("unsubscribe", ["ledger"])).Success?
    ensures var (_, afterSubscribe) := Subscribe(request, {}, ["ledger", "transaction"]);
      var (_, afterUnsubscribe) := Unsubscribe(request, afterSubscribe, ["ledger"]);
      afterUnsubscribe == {"transaction"}
  {
    assert Elements(["ledger", "transaction"]) == {"ledger", "transaction"};
    assert Elements(["ledger"]) == {"ledger"};
  }
}
