// The deliver loop of a session (src/main.rs:101-107): each iteration
// receives one message from the broadcast channel and writes it to the
// client as a text message; a receive error (a lag included) or a failed
// write ends the loop. It is modelled on a finite trace of `rx.recv()`
// results and `sender.send` outcomes. The k-th iteration receives `recvs[k]`
// and, when that is a message, sends it with outcome `sends[k]`. A trace that
// runs out leaves the loop waiting.
module Deliver {

  /** Why `rx.recv()` failed: the channel closed, or the receiver lagged. */
  datatype RecvError = ChannelClosed | Lagged(skipped: nat)

  datatype Recv = Got(msg: string) | RecvErr(err: RecvError)

  datatype SendResult = SendOk | SendErr

  /** Why the loop stopped, or `Waiting` when its trace ran out first. */
  datatype DeliverStop = RecvFailed(err: RecvError) | SendFailed(msg: string) | Waiting

  /** The messages written to the client, in order, and why the loop stopped. */
  datatype DeliverRun = DeliverRun(written: seq<string>, stop: DeliverStop)

  /** What the loop does with the two traces, one iteration at a time. */
  function Delivered(recvs: seq<Recv>, sends: seq<SendResult>): DeliverRun
    decreases |recvs|
  {
    if recvs == [] then DeliverRun([], Waiting)
    else match recvs[0]
      case RecvErr(e) => DeliverRun([], RecvFailed(e))
      case Got(m) =>
        if sends == [] then DeliverRun([], Waiting)
        else if sends[0] == SendErr then DeliverRun([], SendFailed(m))
        else
          var rest := Delivered(recvs[1..], sends[1..]);
          DeliverRun([m] + rest.written, rest.stop)
  }

  /**
   * The loop writes the received messages in the order received, each one
   * sent successfully; it stops at the first receive error (a lag included:
   * nothing is skipped) or the first failed send, and is otherwise waiting
   * for its next receive or send to complete.
   */
  lemma {:induction false} DeliveredCharacterised(recvs: seq<Recv>, sends: seq<SendResult>)
    ensures var r := Delivered(recvs, sends);
      var n := |r.written|;
      n <= |recvs| && n <= |sends| &&
      (forall k :: 0 <= k < n ==> recvs[k] == Got(r.written[k]) && sends[k] == SendOk) &&
      r.stop == (if n == |recvs| then Waiting
                 else if recvs[n].RecvErr? then RecvFailed(recvs[n].err)
                 else if n == |sends| then Waiting
                 else SendFailed(recvs[n].msg)) &&
      (n < |recvs| && recvs[n].Got? && n < |sends| ==> sends[n] == SendErr)
    decreases |recvs|
  {
    if recvs != [] && recvs[0].Got? && sends != [] && sends[0] == SendOk {
      var r := Delivered(recvs, sends);
      var rest := Delivered(recvs[1..], sends[1..]);
      DeliveredCharacterised(recvs[1..], sends[1..]);
      assert r.written == [recvs[0].msg] + rest.written;
      forall k | 0 < k < |r.written|
        ensures recvs[k] == Got(r.written[k]) && sends[k] == SendOk
      {
        assert r.written[k] == rest.written[k - 1];
        assert recvs[1..][k - 1] == recvs[k];
        assert sends[1..][k - 1] == sends[k];
      }
      var n := |r.written|;
      if n < |recvs| {
        assert recvs[1..][n - 1] == recvs[n];
      }
      if n < |sends| {
        assert sends[1..][n - 1] == sends[n];
      }
    }
  }

  /** Once the loop has stopped, nothing later in either trace is sent. */
  lemma {:induction false} DeliveredStopsForGood(recvs: seq<Recv>, sends: seq<SendResult>,
                                                 moreRecvs: seq<Recv>, moreSends: seq<SendResult>)
    requires Delivered(recvs, sends).stop != Waiting
    ensures Delivered(recvs + moreRecvs, sends + moreSends) == Delivered(recvs, sends)
    decreases |recvs|
  {
    assert (recvs + moreRecvs)[0] == recvs[0];
    if recvs[0].Got? {
      assert (sends + moreSends)[0] == sends[0];
      if sends[0] == SendOk {
        assert (recvs + moreRecvs)[1..] == recvs[1..] + moreRecvs;
        assert (sends + moreSends)[1..] == sends[1..] + moreSends;
        DeliveredStopsForGood(recvs[1..], sends[1..], moreRecvs, moreSends);
      }
    }
  }

  /** One iteration of the loop, taken at position `i` of both traces. */
  lemma DeliveredFrom(recvs: seq<Recv>, sends: seq<SendResult>, i: nat)
    requires i < |recvs| && i <= |sends|
    ensures Delivered(recvs[i..], sends[i..]) ==
      match recvs[i]
      case RecvErr(e) => DeliverRun([], RecvFailed(e))
      case Got(m) =>
        if i == |sends| then DeliverRun([], Waiting)
        else if sends[i] == SendErr then DeliverRun([], SendFailed(m))
        else DeliverRun([m] + Delivered(recvs[i + 1..], sends[i + 1..]).written,
                        Delivered(recvs[i + 1..], sends[i + 1..]).stop)
  {
    assert recvs[i..][0] == recvs[i];
    assert recvs[i..][1..] == recvs[i + 1..];
    if i < |sends| {
      assert sends[i..][0] == sends[i];
      assert sends[i..][1..] == sends[i + 1..];
    }
  }

  /** The `while let` loop itself; `written` is what reached the client's socket. */
  method DeliverLoop(recvs: seq<Recv>, sends: seq<SendResult>) returns (written: seq<string>, stop: DeliverStop)
    ensures DeliverRun(written, stop) == Delivered(recvs, sends)
  {
    written, stop := [], Waiting;
    var i := 0;
    var running := true;
    while running && i < |recvs|
      invariant i <= |recvs| && i <= |sends|
      invariant running ==> stop == Waiting
      invariant running ==> Delivered(recvs, sends) == DeliverRun(written + Delivered(recvs[i..], sends[i..]).written,
                                                                  Delivered(recvs[i..], sends[i..]).stop)
      invariant !running ==> Delivered(recvs, sends) == DeliverRun(written, stop)
      decreases |recvs| - i, running
    {
      DeliveredFrom(recvs, sends, i);
      match recvs[i]
      case RecvErr(e) =>
        stop, running := RecvFailed(e), false;
      case Got(m) =>
        if i == |sends| {
          // the send of `m` has not completed within the trace
          running := false;
        } else if sends[i] == SendErr {
          stop, running := SendFailed(m), false;
        } else {
          written := written + [m];
          i := i + 1;
        }
    }
  }
}
