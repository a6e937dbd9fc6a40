// The three texts a session hands to the broadcast channel (src/main.rs:97,
// 115 and 126). They are plain strings: nothing on the channel records who
// sent a line, so a reader can recover the text of a chat line only when it
// already knows the sender's id.
module Messages {

  datatype Option<T> = None | Some(value: T)

  /** The notice published when a session starts: `"{id} joined."`. */
  function Joined(userId: string): string
  {
    userId + " joined."
  }

  /** The notice published when a session ends: `"{id} left"` (no full stop). */
  function Left(userId: string): string
  {
    userId + " left"
  }

  /** One chat line as the ingest loop publishes it: `"{id}: {text}"`. */
  function ChatLine(userId: string, text: string): string
  {
    userId + ": " + text
  }

  /** Reads the text back out of a chat line sent by `userId`, if `line` is one. */
  function ChatTextOf(userId: string, line: string): (r: Option<string>)
    ensures r.Some? ==> ChatLine(userId, r.value) == line
  {
    var n := |userId|;
    if n + 2 <= |line| && line[..n] == userId && line[n..n + 2] == ": " then
      assert line == line[..n] + line[n..n + 2] + line[n + 2..];
      Some(line[n + 2..])
    else
      None
  }

  /** ChatTextOf inverts ChatLine: a chat line's text is determined by the line. */
  lemma ChatTextOfChatLine(userId: string, text: string)
    ensures ChatTextOf(userId, ChatLine(userId, text)) == Some(text)
  {
    var line := ChatLine(userId, text);
    var n := |userId|;
    assert line[..n] == userId;
    assert line[n..n + 2] == ": ";
    assert line[n + 2..] == text;
  }

  /** Two chat lines from one sender are equal only when their texts are. */
  lemma ChatLineInjective(userId: string, t1: string, t2: string)
    requires ChatLine(userId, t1) == ChatLine(userId, t2)
    ensures t1 == t2
  {
    ChatTextOfChatLine(userId, t1);
    ChatTextOfChatLine(userId, t2);
  }

  /**
   * For one sender the three kinds of text never coincide: neither notice
   * reads as a chat line, and the joined notice differs from the left one.
   */
  lemma BookendsAreNotChat(userId: string)
    ensures ChatTextOf(userId, Joined(userId)) == None
    ensures ChatTextOf(userId, Left(userId)) == None
    ensures Joined(userId) != Left(userId)
    ensures forall text :: ChatLine(userId, text) != Joined(userId) && ChatLine(userId, text) != Left(userId)
  {
    var n := |userId|;
    assert Joined(userId)[n] == ' ';
    assert Left(userId)[n] == ' ';
    assert |Joined(userId)| != |Left(userId)|;
    forall text ensures ChatLine(userId, text) != Joined(userId) && ChatLine(userId, text) != Left(userId) {
      assert ChatLine(userId, text)[n] == ':';
    }
  }

  /**
   * Across senders the flat text is ambiguous: user `a` saying `b + " left"`
   * puts on the channel exactly the departure notice of a user `a + ": " + b`.
   */
  lemma FlatTextIsAmbiguous(a: string, b: string)
    ensures ChatLine(a, b + " left") == Left(a + ": " + b)
  {
    assert a + ": " + (b + " left") == (a + ": " + b) + " left";
  }
}
