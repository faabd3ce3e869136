/**
 * The part of the WebSocket server the message handler uses: the set of
 * connected clients, each with its connection state and the frames sent to
 * it so far, and the loop that notifies every open client of a new message.
 */
module Realtime {
  import opened Schema

  /** The `readyState` values of a WebSocket connection. */
  datatype ReadyState = Connecting | Open | Closing | Closed

  /** The frame `{type: "message", message}` pushed to clients. */
  datatype Event = Event(kind: string, message: Message)

  function NewMessageEvent(m: Message): Event {
    Event("message", m)
  }

  /** One connected socket: its state and everything sent on it, in order. */
  class Client {
    var readyState: ReadyState
    var outbox: seq<Event>

    constructor (state: ReadyState)
      ensures readyState == state && outbox == []
    {
      readyState := state;
      outbox := [];
    }

    /** `client.send(frame)`: the frame is queued after those already sent. */
    method Send(e: Event)
      modifies this`outbox
      ensures outbox == old(outbox) + [e]
    {
      outbox := outbox + [e];
    }
  }

  /** The frames a client receives from one broadcast: one if it is open, none otherwise. */
  function Delivery(state: ReadyState, e: Event): seq<Event> {
    if state == Open then [e] else []
  }

  /** No two entries of the client list are the same socket (`wss.clients` is a set). */
  ghost predicate DistinctClients(clients: seq<Client>) {
    forall i, j :: 0 <= i < j < |clients| ==> clients[i] != clients[j]
  }

  /**
   * `wss.clients.forEach(client => { if (client.readyState === OPEN) client.send(frame) })`:
   * every open client gets the frame exactly once, the others get nothing,
   * and no connection changes state.
   */
  method Broadcast(clients: seq<Client>, e: Event)
    requires DistinctClients(clients)
    modifies set c | c in clients
    ensures forall c :: c in clients ==> c.readyState == old(c.readyState)
    ensures forall c :: c in clients ==> c.outbox == old(c.outbox) + Delivery(old(c.readyState), e)
  {
    var i := 0;
    while i < |clients|
      invariant 0 <= i <= |clients|
      invariant forall c :: c in clients ==> c.readyState == old(c.readyState)
      invariant forall k :: 0 <= k < i ==>
        clients[k].outbox == old(clients[k].outbox) + Delivery(old(clients[k].readyState), e)
      invariant forall k :: i <= k < |clients| ==> clients[k].outbox == old(clients[k].outbox)
    {
      var client := clients[i];
      if client.readyState == Open {
        client.Send(e);
      }
      i := i + 1;
    }
  }
}
