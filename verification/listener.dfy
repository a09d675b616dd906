/**
 The client's reply listener, reduced to its matching rule: a datagram is
 taken as the reply only when its first four bytes are the transaction id
 being waited for, and taking it stops the waiting, so a later datagram with
 the same id is ignored. The receiving thread, the event object's timeout and
 the socket are not part of this model; the datagrams that arrive while a
 reply is awaited are given as a sequence.
 */
module Listener {
  import opened Bytes

  /** `expected_id`, `incoming` and whether the event is set. */
  datatype ListenerState = ListenerState(
    expectedId: Option<seq<byte>>,
    incoming: Option<seq<byte>>,
    eventSet: bool)

  /** The listener as constructed: waiting for nothing, holding nothing. */
  function Initial(): (ls: ListenerState)
    ensures ls.expectedId.None? && ls.incoming.None? && !ls.eventSet
  {
    ListenerState(None, None, false)
  }

  /** `expect`: clear the event and wait for `id`. */
  function Expect(ls: ListenerState, id: seq<byte>): (r: ListenerState)
    ensures r.expectedId == Some(id) && !r.eventSet && r.incoming == ls.incoming
  {
    ls.(eventSet := false, expectedId := Some(id))
  }

  /** `message[0:4]`: the first four bytes, or all of a shorter message. */
  function TransId(message: seq<byte>): (id: seq<byte>)
    ensures |id| == if |message| < 4 then |message| else 4
    ensures id <= message
  {
    if |message| < 4 then message else message[..4]
  }

  /** Whether the listener takes `message` as the awaited reply. */
  predicate Matches(ls: ListenerState, message: seq<byte>) {
    ls.expectedId == Some(TransId(message))
  }

  /** One pass of the loop in `run`. */
  function OnMessage(ls: ListenerState, message: seq<byte>): (r: ListenerState)
    ensures Matches(ls, message) ==> r == ListenerState(None, Some(message), true)
    ensures !Matches(ls, message) ==> r == ls
  {
    if Some(TransId(message)) != ls.expectedId then ls
    else ListenerState(None, Some(message), true)
  }

  /** Once a reply is taken, any further datagram, even one with the same id, is ignored. */
  lemma AcceptedOnce(ls: ListenerState, first: seq<byte>, second: seq<byte>)
    requires Matches(ls, first)
    ensures OnMessage(OnMessage(ls, first), second) == OnMessage(ls, first)
  {
  }

  /** The loop of `run` over the datagrams that arrive, in order. A listener
      that expects nothing ignores them all, and one that ends with its event
      clear took none of them, so nothing changed. */
  function Deliver(ls: ListenerState, messages: seq<seq<byte>>): (r: ListenerState)
    ensures ls.expectedId.None? ==> r == ls
    ensures !r.eventSet ==> r == ls
    decreases |messages|
  {
    if |messages| == 0 then ls else Deliver(OnMessage(ls, messages[0]), messages[1..])
  }

  /** `wait_for_reply`: the stored message if the event was set, else nothing. */
  function WaitForReply(ls: ListenerState): (r: Option<seq<byte>>)
    ensures ls.eventSet ==> r == ls.incoming
    ensures !ls.eventSet ==> r.None?
  {
    if ls.eventSet then ls.incoming else None
  }

  /** The reference answer: the first message whose first four bytes are id. */
  function FirstMatch(messages: seq<seq<byte>>, id: seq<byte>): (r: Option<seq<byte>>)
    ensures r.Some? ==> TransId(r.value) == id
    decreases |messages|
  {
    if |messages| == 0 then None
    else if TransId(messages[0]) == id then Some(messages[0])
    else FirstMatch(messages[1..], id)
  }

  /** `FirstMatch` finds a message exactly when one carries the id, and what
      it finds is such a message with none before it. */
  lemma {:induction false} FirstMatchIsFirst(messages: seq<seq<byte>>, id: seq<byte>)
    ensures var r := FirstMatch(messages, id);
      && (r.None? <==> forall i | 0 <= i < |messages| :: TransId(messages[i]) != id)
      && (r.Some? ==> exists i | 0 <= i < |messages| ::
            messages[i] == r.value && forall j | 0 <= j < i :: TransId(messages[j]) != id)
    decreases |messages|
  {
    var r := FirstMatch(messages, id);
    if |messages| > 0 {
      if TransId(messages[0]) == id {
        assert messages[0] == r.value;
      } else {
        var rest := messages[1..];
        FirstMatchIsFirst(rest, id);
        if r.Some? {
          var i :| 0 <= i < |rest| && rest[i] == r.value && forall j | 0 <= j < i :: TransId(rest[j]) != id;
          assert messages[i + 1] == r.value;
          forall j | 0 <= j < i + 1
            ensures TransId(messages[j]) != id
          {
            if j > 0 {
              assert messages[j] == rest[j - 1];
            }
          }
        } else {
          forall i | 0 <= i < |messages|
            ensures TransId(messages[i]) != id
          {
            if i > 0 {
              assert messages[i] == rest[i - 1];
            }
          }
        }
      }
    }
  }

  /** After `expect(id)`, the reply handed over is the first arriving message
      that carries id; no such message means no reply. */
  lemma {:induction false} ReplyIsFirstMatch(ls: ListenerState, id: seq<byte>, messages: seq<seq<byte>>)
    requires ls.expectedId == Some(id) && !ls.eventSet
    ensures WaitForReply(Deliver(ls, messages)) == FirstMatch(messages, id)
    ensures FirstMatch(messages, id).None? ==> Deliver(ls, messages) == ls
    decreases |messages|
  {
    if |messages| > 0 {
      if TransId(messages[0]) != id {
        ReplyIsFirstMatch(ls, id, messages[1..]);
      }
    }
  }
}
