// The ingest loop of a session (src/main.rs:112-117): each text message
// read from the client is published as its chat line; the first event that
// is not a successfully read text message ends the loop. It is modelled on a
// finite trace of what `receiver.next()` yields. A trace that runs out
// while every event so far was a text message leaves the loop still awaiting
// its next event.
module Ingest {
  import opened Messages

  /** The WebSocket message kinds the client side of the socket can yield. */
  datatype Message =
    | Text(text: string)
    | Binary(data: seq<bv8>)
    | Ping(data: seq<bv8>)
    | Pong(data: seq<bv8>)
    | Close

  /** One result of `receiver.next()`: `None`, `Some(Err(_))` or `Some(Ok(msg))`. */
  datatype Inbound = StreamEnd | ReadError | Received(msg: Message)

  /** Why the loop stopped, or `Awaiting` when the trace ran out first. */
  datatype IngestStop = StreamEnded | ReadFailed | NotText(msg: Message) | Awaiting

  /** The lines the loop published, in order, and why it stopped. */
  datatype IngestRun = IngestRun(published: seq<string>, stop: IngestStop)

  /** The pattern `Some(Ok(Message::Text(_)))` of the `while let`. */
  predicate IsText(e: Inbound)
  {
    e.Received? && e.msg.Text?
  }

  /** The stop caused by an event that does not match the pattern. */
  function StopAt(e: Inbound): IngestStop
    requires !IsText(e)
  {
    match e
    case StreamEnd => StreamEnded
    case ReadError => ReadFailed
    case Received(m) => NotText(m)
  }

  /** What the loop does with `events`, one event at a time. */
  function Ingested(userId: string, events: seq<Inbound>): IngestRun
    decreases |events|
  {
    if events == [] then IngestRun([], Awaiting)
    else if IsText(events[0]) then
      var rest := Ingested(userId, events[1..]);
      IngestRun([ChatLine(userId, events[0].msg.text)] + rest.published, rest.stop)
    else
      IngestRun([], StopAt(events[0]))
  }

  /** Running the loop on `a` and then, if it is still awaiting, on `b`. */
  function Then(a: IngestRun, b: IngestRun): IngestRun
  {
    if a.stop == Awaiting then IngestRun(a.published + b.published, b.stop) else a
  }

  /**
   * The loop publishes `"{id}: {text}"` for each event of the leading run of
   * text messages, in input order, and nothing else; it stops at the first
   * event outside that run (for the reason that event gives), or is still
   * awaiting when the trace holds text messages only.
   */
  lemma {:induction false} IngestedCharacterised(userId: string, events: seq<Inbound>)
    ensures var r := Ingested(userId, events);
      var n := |r.published|;
      n <= |events| &&
      (forall k :: 0 <= k < n ==> IsText(events[k]) && r.published[k] == ChatLine(userId, events[k].msg.text)) &&
      (if n < |events| then !IsText(events[n]) && r.stop == StopAt(events[n]) else r.stop == Awaiting)
    decreases |events|
  {
    if events != [] && IsText(events[0]) {
      var r := Ingested(userId, events);
      var rest := Ingested(userId, events[1..]);
      IngestedCharacterised(userId, events[1..]);
      assert r.published == [ChatLine(userId, events[0].msg.text)] + rest.published;
      forall k | 0 < k < |r.published|
        ensures IsText(events[k]) && r.published[k] == ChatLine(userId, events[k].msg.text)
      {
        assert r.published[k] == rest.published[k - 1];
        assert events[1..][k - 1] == events[k];
      }
      if |r.published| < |events| {
        assert events[1..][|rest.published|] == events[|r.published|];
      }
    }
  }

  /**
   * The loop reads its input one event at a time: running it on `a + b` is
   * running it on `a` and then, only if it is still awaiting, on `b`. In
   * particular, nothing is published at or after the event that stops it.
   */
  lemma {:induction false} IngestedConcat(userId: string, a: seq<Inbound>, b: seq<Inbound>)
    ensures Ingested(userId, a + b) == Then(Ingested(userId, a), Ingested(userId, b))
    decreases |a|
  {
    if a == [] {
      assert a + b == b;
    } else {
      assert (a + b)[0] == a[0];
      if IsText(a[0]) {
        assert (a + b)[1..] == a[1..] + b;
        IngestedConcat(userId, a[1..], b);
      }
    }
  }

  /** One iteration of the loop, taken at position `i` of the trace. */
  lemma IngestedFrom(userId: string, events: seq<Inbound>, i: nat)
    requires i < |events|
    ensures Ingested(userId, events[i..]) ==
      if IsText(events[i]) then
        IngestRun([ChatLine(userId, events[i].msg.text)] + Ingested(userId, events[i + 1..]).published,
                  Ingested(userId, events[i + 1..]).stop)
      else IngestRun([], StopAt(events[i]))
  {
    assert events[i..][0] == events[i];
    assert events[i..][1..] == events[i + 1..];
  }

  /** Once the loop has stopped, further input changes nothing. */
  lemma IngestedStopsForGood(userId: string, events: seq<Inbound>, more: seq<Inbound>)
    requires Ingested(userId, events).stop != Awaiting
    ensures Ingested(userId, events + more) == Ingested(userId, events)
  {
    IngestedConcat(userId, events, more);
  }
}
