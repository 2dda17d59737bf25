/** Worked passes over small mailboxes. */
module Scenarios {
  import opened Mail
  import opened Triage

  const OWNER: string := "owner@x.com"
  const LABEL: Id := "L"

  /** A service whose threads do not change while the pass runs. */
  function Frozen(threads: Threads): ThreadsAfter
  {
    (_: seq<Action>) => threads
  }

  /** A service that shows `before` until the program makes its first
      request, and `after` from then on. */
  function Switching(before: Threads, after: Threads): ThreadsAfter
  {
    (log: seq<Action>) => if log == [] then before else after
  }

  /* ---------------------------------------------------------------------
     Watermark 1000; unread messages at 1500, 1200 and 900
     --------------------------------------------------------------------- */

  const BOB: Message := Message("m1", "t1", 1500, [Header("From", "bob@y.com"), Header("Subject", "hello")])
  const ALICE: Message := Message("m2", "t2", 1200, [Header("From", "alice@x.com"), Header("Subject", "hi")])
  const MINE: Message := Message("m4", "t2", 1100, [Header("From", "owner@x.com")])
  const SEEN: Message := Message("m3", "t3", 900, [Header("Subject", "old")])
  const INBOX: Threads := map["t1" := [BOB], "t2" := [ALICE, MINE]]
  const TO_BOB: seq<Action> := [Send("t1", ReplyText("bob@y.com", "hello")), AddLabel("t1", LABEL)]

  /** Bob's thread has no owner message, so he is answered and his thread
      labelled; Alice's thread already holds one, so she gets nothing. */
  lemma InboxReplies()
    ensures Reply(BOB, INBOX, OWNER, LABEL) == Ok(TO_BOB)
    ensures Reply(ALICE, INBOX, OWNER, LABEL) == Ok([])
  {
    assert From(BOB) == Some("bob@y.com") && Subject(BOB) == Some("hello");
    assert From(ALICE) == Some("alice@x.com");
    assert From(MINE) == Some(OWNER);
    assert NoOwnerReply([BOB], OWNER) == Ok(true);
    assert NoOwnerReply([ALICE, MINE], OWNER) == Ok(false) by {
      assert [ALICE, MINE][1..] == [MINE];
    }
  }

  /** The worked example: the 1500 and 1200 messages are checked, the 900
      one ends the pass; Bob is answered and labelled, Alice gets nothing. */
  lemma PassExample()
    ensures Scan([BOB, ALICE, SEEN], 1000, Frozen(INBOX), [], OWNER, LABEL) == PassOutcome(TO_BOB, Completed)
  {
    var service := Frozen(INBOX);
    InboxReplies();
    assert service([]) == INBOX && service(TO_BOB) == INBOX && [] + TO_BOB == TO_BOB;
    assert [BOB, ALICE, SEEN][1..] == [ALICE, SEEN] && [ALICE, SEEN][1..] == [SEEN];
    assert Scan([SEEN], 1000, service, TO_BOB, OWNER, LABEL) == PassOutcome([], Completed);
    assert Scan([ALICE, SEEN], 1000, service, TO_BOB, OWNER, LABEL) == PassOutcome([], Completed);
    ScanStep([BOB, ALICE, SEEN], 1000, service, [], OWNER, LABEL);
  }

  /** The same pass moves the watermark from 1000 to 1500, the newest
      timestamp it examined. */
  lemma PassExampleWatermark()
    ensures NewWatermark(1000, [BOB, ALICE, SEEN]) == 1500
  {
    assert [BOB, ALICE, SEEN][1..] == [ALICE, SEEN] && [ALICE, SEEN][1..] == [SEEN];
    assert RunningMax(1000, 1500, [ALICE, SEEN]) == 1500;
  }

  /* ---------------------------------------------------------------------
     Two new messages from Bob on one thread
     --------------------------------------------------------------------- */

  const FIRST: Message := Message("m1", "t1", 1500, [Header("From", "bob@y.com"), Header("Subject", "hello")])
  const SECOND: Message := Message("m2", "t1", 1400, [Header("From", "bob@y.com"), Header("Subject", "hello")])
  const REPLY_SENT: Message := Message("r1", "t1", 1450, [Header("From", "owner@x.com")])
  const BEFORE: Threads := map["t1" := [SECOND, FIRST]]
  const AFTER: Threads := map["t1" := [SECOND, FIRST, REPLY_SENT]]
  const TO_THREAD: seq<Action> := [Send("t1", ReplyText("bob@y.com", "hello")), AddLabel("t1", LABEL)]

  /** Checked against the thread as it was, either message is answered;
      once the thread shows the reply from the owner, neither is. */
  lemma SameThreadReplies()
    ensures Reply(FIRST, BEFORE, OWNER, LABEL) == Ok(TO_THREAD)
    ensures Reply(SECOND, BEFORE, OWNER, LABEL) == Ok(TO_THREAD)
    ensures Reply(SECOND, AFTER, OWNER, LABEL) == Ok([])
  {
    assert From(FIRST) == Some("bob@y.com") && Subject(FIRST) == Some("hello");
    assert From(SECOND) == Some("bob@y.com") && Subject(SECOND) == Some("hello");
    assert From(REPLY_SENT) == Some(OWNER);
    assert [SECOND, FIRST][1..] == [FIRST] && [FIRST][1..] == [];
    assert NoOwnerReply([FIRST], OWNER) == Ok(true);
    assert NoOwnerReply([SECOND, FIRST], OWNER) == Ok(true);
    assert [SECOND, FIRST, REPLY_SENT][1..] == [FIRST, REPLY_SENT] && [FIRST, REPLY_SENT][1..] == [REPLY_SENT];
    assert NoOwnerReply([REPLY_SENT], OWNER) == Ok(false);
    assert NoOwnerReply([FIRST, REPLY_SENT], OWNER) == Ok(false);
  }

  /** When the second check still sees the thread as it was before the
      first reply, the pass answers the same thread twice. */
  lemma SameThreadStale()
    ensures Scan([FIRST, SECOND], 1000, Frozen(BEFORE), [], OWNER, LABEL).actions == TO_THREAD + TO_THREAD
  {
    var service := Frozen(BEFORE);
    SameThreadReplies();
    assert service([]) == BEFORE && service(TO_THREAD) == BEFORE && [] + TO_THREAD == TO_THREAD;
    assert [FIRST, SECOND][1..] == [SECOND] && [SECOND][1..] == [];
    assert Scan([SECOND], 1000, service, TO_THREAD, OWNER, LABEL).actions == TO_THREAD;
    ScanStep([FIRST, SECOND], 1000, service, [], OWNER, LABEL);
  }

  /** The service that shows the sent reply from the first request on meets
      what the once-per-thread guarantee asks of a service. */
  lemma UpdatedServiceShowsReplies()
    ensures ShowsSentReplies(Switching(BEFORE, AFTER), OWNER)
  {
    var service := Switching(BEFORE, AFTER);
    assert From(REPLY_SENT) == Some(OWNER);
    forall log: seq<Action>, t: Id | t in RepliedThreads(log) && t in service(log)
      ensures exists i :: 0 <= i < |service(log)[t]| && From(service(log)[t][i]) == Some(OWNER)
    {
      assert log != [];
      assert service(log) == AFTER && t == "t1";
      assert service(log)[t][2] == REPLY_SENT;
    }
  }

  /** When the second check sees the reply the pass sent, the thread is
      answered once. */
  lemma SameThreadUpdated()
    ensures Scan([FIRST, SECOND], 1000, Switching(BEFORE, AFTER), [], OWNER, LABEL).actions == TO_THREAD
  {
    var service := Switching(BEFORE, AFTER);
    SameThreadReplies();
    assert service([]) == BEFORE && service(TO_THREAD) == AFTER && [] + TO_THREAD == TO_THREAD;
    assert [FIRST, SECOND][1..] == [SECOND] && [SECOND][1..] == [];
    assert Scan([SECOND], 1000, service, TO_THREAD, OWNER, LABEL).actions == [];
    ScanStep([FIRST, SECOND], 1000, service, [], OWNER, LABEL);
  }
}
