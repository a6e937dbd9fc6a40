// The shared state `AppState` (src/main.rs:53-56) and one run of
// `handle_socket` (src/main.rs:92-131), sequentially. The broadcast sender
// `tx` is modelled by `published`, the sequence of texts handed to
// `tx.send` in order; who receives them is not part of this model.
module Session {
  import opened Messages
  import Presence
  import opened Ingest
  import opened Deliver

  /**
   * Which task `tokio::select!` saw complete first. After the deliver task
   * ends first, the aborted ingest task has read `leftAt` inbound events by
   * the time the left notice is published; the rest of its trace is what it
   * still reads before the abort takes effect.
   */
  datatype Schedule = IngestEndsFirst | DeliverEndsFirst(leftAt: nat)

  /** How many inbound events the ingest task has read when "left" is published. */
  function LeftAt(inbound: seq<Inbound>, schedule: Schedule): nat
  {
    match schedule
    case IngestEndsFirst => |inbound|
    case DeliverEndsFirst(k) => if k < |inbound| then k else |inbound|
  }

  /**
   * The texts one session publishes, in order: the joined notice, the chat
   * lines of the first `k` inbound events, the left notice, and the chat
   * lines the ingest task still publishes on the rest of its trace.
   */
  function SessionLog(userId: string, inbound: seq<Inbound>, k: nat): seq<string>
    requires k <= |inbound|
  {
    var before := Ingested(userId, inbound[..k]);
    var after := if before.stop == Awaiting then Ingested(userId, inbound[k..]).published else [];
    [Joined(userId)] + before.published + [Left(userId)] + after
  }

  /**
   * A session publishes its joined notice first, then exactly the lines of
   * the ingest loop on its whole trace, in order, with the left notice
   * somewhere among them.
   */
  lemma SessionLogShape(userId: string, inbound: seq<Inbound>, k: nat)
    requires k <= |inbound|
    ensures var lines := Ingested(userId, inbound).published;
      var j := |Ingested(userId, inbound[..k]).published|;
      j <= |lines| &&
      SessionLog(userId, inbound, k) == [Joined(userId)] + lines[..j] + [Left(userId)] + lines[j..]
  {
    assert inbound[..k] + inbound[k..] == inbound;
    IngestedConcat(userId, inbound[..k], inbound[k..]);
  }

  /** When the ingest task ends first, every chat line precedes the left notice. */
  lemma SessionLogIngestFirst(userId: string, inbound: seq<Inbound>)
    ensures SessionLog(userId, inbound, |inbound|)
         == [Joined(userId)] + Ingested(userId, inbound).published + [Left(userId)]
  {
    assert inbound[..|inbound|] == inbound;
    assert inbound[|inbound|..] == [];
  }

  /** The joined notice comes first, and each notice appears exactly once. */
  lemma SessionLogBookends(userId: string, inbound: seq<Inbound>, k: nat)
    requires k <= |inbound|
    ensures var log := SessionLog(userId, inbound, k);
      log[0] == Joined(userId) &&
      multiset(log)[Joined(userId)] == 1 && multiset(log)[Left(userId)] == 1
  {
    var lines := Ingested(userId, inbound).published;
    var j := |Ingested(userId, inbound[..k]).published|;
    var joined, left := Joined(userId), Left(userId);
    SessionLogShape(userId, inbound, k);
    NoticesAreNotLines(userId, inbound);
    var a, b := lines[..j], lines[j..];
    assert lines == a + b;
    assert joined !in a && joined !in b && left !in a && left !in b;
    var ms := multiset([joined]) + multiset(a) + multiset([left]) + multiset(b);
    assert multiset(SessionLog(userId, inbound, k)) == ms;
    assert ms[joined] == 1 && ms[left] == 1;
  }

  /** No chat line of `userId` is one of `userId`'s notices. */
  lemma NoticesAreNotLines(userId: string, inbound: seq<Inbound>)
    ensures Joined(userId) !in Ingested(userId, inbound).published
    ensures Left(userId) !in Ingested(userId, inbound).published
  {
    var lines := Ingested(userId, inbound).published;
    IngestedCharacterised(userId, inbound);
    BookendsAreNotChat(userId);
    forall i | 0 <= i < |lines| ensures lines[i] != Joined(userId) && lines[i] != Left(userId) {
      assert lines[i] == ChatLine(userId, inbound[i].msg.text);
    }
  }

  /** One removal from the user set: the texts published by then and the set just before it. */
  datatype Removal = Removal(publishedThen: seq<string>, usersBefore: set<string>)

  class AppState {
    /** `user_set`: the names currently registered. */
    var userSet: set<string>
    /** Every text handed to `tx.send`, oldest first. */
    var published: seq<string>
    /** Every removal from the user set so far, oldest first. */
    ghost var removals: seq<Removal>

    /** The state built in `main`: an empty user set (src/main.rs:29-32). */
    constructor ()
      ensures userSet == {} && published == [] && removals == []
    {
      userSet, published := {}, [];
      removals := [];
    }

    /** `let _ = tx.send(msg)`: the outcome of the send is ignored. */
    method Publish(msg: string)
      modifies this`published
      ensures published == old(published) + [msg]
    {
      published := published + [msg];
    }

    /**
     * `check_username(state, out, name)`: `out` is the caller's string,
     * `out'` the same string after the call.
     */
    method CheckUsername(out: string, name: string) returns (out': string)
      modifies this`userSet
      ensures Presence.Checked(userSet, out') == Presence.Check(old(userSet), out, name)
      ensures name !in old(userSet) ==> userSet == old(userSet) + {name} && out' == out + name
      ensures name in old(userSet) ==> userSet == old(userSet) && out' == out
    {
      out' := out;
      if name !in userSet {
        userSet := userSet + {name};
        out' := out' + name;
      }
    }

    /** `user_set.remove(name)`. */
    method RemoveUser(name: string)
      modifies this`userSet, this`removals
      ensures userSet == Presence.Remove(old(userSet), name)
      ensures removals == old(removals) + [Removal(published, old(userSet))]
    {
      removals := removals + [Removal(published, userSet)];
      userSet := userSet - {name};
    }

    /** The ingest task: publishes one chat line per text message it reads. */
    method RecvTask(userId: string, inbound: seq<Inbound>) returns (stop: IngestStop)
      modifies this`published
      ensures published == old(published) + Ingested(userId, inbound).published
      ensures stop == Ingested(userId, inbound).stop
    {
      var i := 0;
      ghost var lines: seq<string> := [];
      while i < |inbound| && IsText(inbound[i])
        invariant i <= |inbound|
        invariant published == old(published) + lines
        invariant Ingested(userId, inbound).published == lines + Ingested(userId, inbound[i..]).published
        invariant Ingested(userId, inbound).stop == Ingested(userId, inbound[i..]).stop
        decreases |inbound| - i
      {
        var line := ChatLine(userId, inbound[i].msg.text);
        IngestedFrom(userId, inbound, i);
        Publish(line);
        lines := lines + [line];
        i := i + 1;
      }
      if i < |inbound| {
        IngestedFrom(userId, inbound, i);
      }
      stop := if i < |inbound| then StopAt(inbound[i]) else Awaiting;
    }

    /**
     * One session of `userId`. The joined notice is published before either
     * task starts; after the first task ends, the left notice is published
     * and then `userId` is removed, once: the single new entry of
     * `removals` shows the texts published by then, ending with the left
     * notice, and a user set that the session had not touched before, so it
     * never registers `userId`. `written` is what the deliver loop wrote to
     * the client.
     */
    method HandleSocket(userId: string, inbound: seq<Inbound>, recvs: seq<Recv>, sends: seq<SendResult>,
                        schedule: Schedule) returns (written: seq<string>)
      requires schedule == IngestEndsFirst ==> Ingested(userId, inbound).stop != Awaiting
      requires schedule != IngestEndsFirst ==> Delivered(recvs, sends).stop != Waiting
      modifies this
      ensures published == old(published) + SessionLog(userId, inbound, LeftAt(inbound, schedule))
      ensures userSet == Presence.Remove(old(userSet), userId)
      ensures written == Delivered(recvs, sends).written
      // `userId` is removed once, right after the left notice, from the set as it was at the start
      ensures removals == old(removals)
                          + [Removal(old(published) + [Joined(userId)]
                                     + Ingested(userId, inbound[..LeftAt(inbound, schedule)]).published + [Left(userId)],
                                     old(userSet))]
    {
      ghost var start, users, log := published, userSet, removals;
      Publish(Joined(userId));
      var dstop;
      written, dstop := DeliverLoop(recvs, sends);
      var k := LeftAt(inbound, schedule);
      ghost var before := Ingested(userId, inbound[..k]);
      var istop := RecvTask(userId, inbound[..k]);
      assert istop == before.stop;
      assert published == start + [Joined(userId)] + before.published;
      Publish(Left(userId));
      RemoveUser(userId);
      assert removals == log + [Removal(start + [Joined(userId)] + before.published + [Left(userId)], users)];
      ghost var after: seq<string> := [];
      if istop == Awaiting {
        // lines the aborted ingest task still publishes after the left notice
        after := Ingested(userId, inbound[k..]).published;
        istop := RecvTask(userId, inbound[k..]);
      }
      assert SessionLog(userId, inbound, k) == [Joined(userId)] + before.published + [Left(userId)] + after;
      assert published == start + SessionLog(userId, inbound, k);
    }
  }
}
