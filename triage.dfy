/** The triage pass as pure functions of its inputs: the owner-reply check
    (`checkForPrevReply`), the per-message reply decision, the early-stopping
    scan over the unread list, and the watermark it leaves behind. */
module Triage {
  import opened Mail

  /** The value of a message's first `From` header. */
  function From(m: Message): Option<string>
  {
    FindHeader(m.headers, "From")
  }

  /** The value of a message's first `Subject` header. */
  function Subject(m: Message): Option<string>
  {
    FindHeader(m.headers, "Subject")
  }

  /** `Math.max` on timestamps. */
  function Max(a: nat, b: nat): (r: nat)
    ensures r >= a && r >= b && (r == a || r == b)
  {
    if a >= b then a else b
  }

  /* ---------------------------------------------------------------------
     The owner-reply check
     --------------------------------------------------------------------- */

  /** The answer `checkForPrevReply` gives for a fetched thread: messages are
      inspected in order; the first one whose From value is exactly the
      owner's address answers false ("already replied"); a message without a
      From header before that is a fault; true when neither happens. */
  function NoOwnerReply(thread: seq<Message>, owner: string): (r: Result<bool>)
    ensures r.Err? ==> r.error == MissingHeader("From")
    decreases |thread|
  {
    if thread == [] then Ok(true)
    else match From(thread[0])
      case None => Err(MissingHeader("From"))
      case Some(author) =>
        if author == owner then Ok(false) else NoOwnerReply(thread[1..], owner)
  }

  /** `checkForPrevReply(threadId)`: fetch the thread, then check it. A thread
      the service does not have makes the fetch fail. */
  function NoPrevReply(threadId: Id, threads: Threads, owner: string): (r: Result<bool>)
    ensures r == Err(UnknownThread(threadId)) <==> threadId !in threads
    ensures r.Err? ==> r.error == UnknownThread(threadId) || r.error == MissingHeader("From")
  {
    if threadId in threads then NoOwnerReply(threads[threadId], owner)
    else Err(UnknownThread(threadId))
  }

  /** "Already replied" exactly when some message is authored by the owner
      (whole-string equality of its first From value) and every message before
      it has a From header. */
  lemma NoOwnerReplyFalse(thread: seq<Message>, owner: string)
    ensures NoOwnerReply(thread, owner) == Ok(false) <==>
      exists i :: 0 <= i < |thread| && From(thread[i]) == Some(owner) &&
        forall j :: 0 <= j < i ==> From(thread[j]).Some?
  {
    if NoOwnerReply(thread, owner) == Ok(false) {
      OwnerReplyFound(thread, owner);
    }
    if exists i :: 0 <= i < |thread| && From(thread[i]) == Some(owner) &&
        forall j :: 0 <= j < i ==> From(thread[j]).Some? {
      var i :| 0 <= i < |thread| && From(thread[i]) == Some(owner) &&
        forall j :: 0 <= j < i ==> From(thread[j]).Some?;
      OwnerReplyAnswersFalse(thread, owner, i);
    }
  }

  /** An "already replied" answer comes from a message by the owner that only
      messages with a From header precede. */
  lemma {:induction false} OwnerReplyFound(thread: seq<Message>, owner: string)
    requires NoOwnerReply(thread, owner) == Ok(false)
    ensures exists i :: 0 <= i < |thread| && From(thread[i]) == Some(owner) &&
                        forall j :: 0 <= j < i ==> From(thread[j]).Some?
    decreases |thread|
  {
    if From(thread[0]).value == owner {
      assert From(thread[0]) == Some(owner);
    } else {
      var tail := thread[1..];
      OwnerReplyFound(tail, owner);
      var i :| 0 <= i < |tail| && From(tail[i]) == Some(owner) &&
        forall j :: 0 <= j < i ==> From(tail[j]).Some?;
      assert thread[i + 1] == tail[i];
      forall j | 0 <= j < i + 1
        ensures From(thread[j]).Some?
      {
        if j > 0 {
          assert thread[j] == tail[j - 1];
        }
      }
    }
  }

  /** A message by the owner that only messages with a From header precede
      makes the answer "already replied". */
  lemma {:induction false} OwnerReplyAnswersFalse(thread: seq<Message>, owner: string, i: nat)
    requires i < |thread| && From(thread[i]) == Some(owner)
    requires forall j :: 0 <= j < i ==> From(thread[j]).Some?
    ensures NoOwnerReply(thread, owner) == Ok(false)
    decreases i
  {
    if From(thread[0]).value != owner {
      var tail := thread[1..];
      assert tail[i - 1] == thread[i];
      forall j | 0 <= j < i - 1
        ensures From(tail[j]).Some?
      {
        assert tail[j] == thread[j + 1];
      }
      OwnerReplyAnswersFalse(tail, owner, i - 1);
    }
  }

  /** "No reply yet" exactly when every message has a From header and none of
      them is the owner's address; in particular for an empty thread. */
  lemma {:induction false} NoOwnerReplyTrue(thread: seq<Message>, owner: string)
    ensures NoOwnerReply(thread, owner) == Ok(true) <==>
      forall i :: 0 <= i < |thread| ==> From(thread[i]).Some? && From(thread[i]).value != owner
    decreases |thread|
  {
    if thread != [] && From(thread[0]).Some? && From(thread[0]).value != owner {
      var tail := thread[1..];
      NoOwnerReplyTrue(tail, owner);
      assert forall i :: 1 <= i < |thread| ==> thread[i] == tail[i - 1];
    }
  }

  /** Idempotence: once the owner has written in a thread, the check keeps
      answering "already replied" however many messages are added after. */
  lemma {:induction false} OwnerReplyPersists(thread: seq<Message>, more: seq<Message>, owner: string)
    requires NoOwnerReply(thread, owner) == Ok(false)
    ensures NoOwnerReply(thread + more, owner) == Ok(false)
    decreases |thread|
  {
    assert (thread + more)[0] == thread[0];
    if From(thread[0]).value != owner {
      assert (thread + more)[1..] == thread[1..] + more;
      OwnerReplyPersists(thread[1..], more, owner);
    }
  }

  /** At most one automatic reply per thread: once a message authored by the
      owner (such as the reply just sent) is in a thread that had none, the
      next check of that thread answers "already replied". */
  lemma {:induction false} OwnerMessageSuppressesReply(thread: seq<Message>, sent: Message, owner: string)
    requires NoOwnerReply(thread, owner) == Ok(true)
    requires From(sent) == Some(owner)
    ensures NoOwnerReply(thread + [sent], owner) == Ok(false)
    decreases |thread|
  {
    if thread == [] {
      assert thread + [sent] == [sent];
    } else {
      assert (thread + [sent])[0] == thread[0];
      assert (thread + [sent])[1..] == thread[1..] + [sent];
      OwnerMessageSuppressesReply(thread[1..], sent, owner);
    }
  }

  /* ---------------------------------------------------------------------
     The early stop and the watermark
     --------------------------------------------------------------------- */

  /** The position of the first listed message at or below the watermark
      (the one that ends the scan), or the list's length when there is none. */
  function StopIndex(unread: seq<Message>, watermark: nat): (k: nat)
    ensures k <= |unread|
    ensures forall j :: 0 <= j < k ==> unread[j].internalDate > watermark
    ensures k < |unread| ==> unread[k].internalDate <= watermark
    decreases |unread|
  {
    if unread == [] || unread[0].internalDate <= watermark then 0
    else 1 + StopIndex(unread[1..], watermark)
  }

  /** How many messages have their timestamp folded into the running
      maximum: all those before the stop, and the stopping message itself. */
  function Examined(unread: seq<Message>, watermark: nat): nat
  {
    var k := StopIndex(unread, watermark);
    if k < |unread| then k + 1 else k
  }

  /** The loop's running maximum: starting from `current`, fold in the
      timestamps of `rest` in order, up to and including the first one at or
      below `snapshot` (the maximum is taken before the stop test). */
  function RunningMax(snapshot: nat, current: nat, rest: seq<Message>): nat
    decreases |rest|
  {
    if rest == [] then current
    else
      var next := Max(current, rest[0].internalDate);
      if rest[0].internalDate <= snapshot then next else RunningMax(snapshot, next, rest[1..])
  }

  /** The watermark a completed pass writes back to `initTime`. */
  function NewWatermark(watermark: nat, unread: seq<Message>): nat
  {
    RunningMax(watermark, watermark, unread)
  }

  /** The running maximum is the largest of its start value and the examined
      timestamps: it bounds all of them and is one of them. */
  lemma {:induction false} RunningMaxIsMaximum(snapshot: nat, current: nat, rest: seq<Message>)
    ensures RunningMax(snapshot, current, rest) >= current
    ensures forall j :: 0 <= j < Examined(rest, snapshot) ==>
      RunningMax(snapshot, current, rest) >= rest[j].internalDate
    ensures RunningMax(snapshot, current, rest) == current ||
      exists j :: 0 <= j < Examined(rest, snapshot) && RunningMax(snapshot, current, rest) == rest[j].internalDate
    decreases |rest|
  {
    if rest != [] && rest[0].internalDate > snapshot {
      var next := Max(current, rest[0].internalDate);
      var tail := rest[1..];
      RunningMaxIsMaximum(snapshot, next, tail);
      assert StopIndex(rest, snapshot) == 1 + StopIndex(tail, snapshot);
      assert Examined(rest, snapshot) == 1 + Examined(tail, snapshot);
      assert forall j :: 1 <= j < |rest| ==> rest[j] == tail[j - 1];
      var r := RunningMax(snapshot, current, rest);
      if r != current && r != rest[0].internalDate {
        assert r != next;
        var j :| 0 <= j < Examined(tail, snapshot) && r == tail[j].internalDate;
        assert r == rest[j + 1].internalDate;
      }
    }
  }

  /** After a completed pass the watermark is the maximum of the old watermark
      and the timestamps of the examined messages (those before the stop and
      the stopping message); so it never decreases. */
  lemma WatermarkAfterPass(watermark: nat, unread: seq<Message>)
    ensures NewWatermark(watermark, unread) >= watermark
    ensures forall j :: 0 <= j < Examined(unread, watermark) ==>
      NewWatermark(watermark, unread) >= unread[j].internalDate
    ensures NewWatermark(watermark, unread) == watermark ||
      exists j :: 0 <= j < Examined(unread, watermark) &&
        NewWatermark(watermark, unread) == unread[j].internalDate
  {
    RunningMaxIsMaximum(watermark, watermark, unread);
  }

  /** The early stop skips nothing new when the list is newest-first: every
      message from the stop onwards is at or below the watermark. */
  lemma SortedStopSkipsOnlySeen(unread: seq<Message>, watermark: nat)
    requires forall i, j :: 0 <= i < j < |unread| ==> unread[i].internalDate >= unread[j].internalDate
    ensures forall j :: StopIndex(unread, watermark) <= j < |unread| ==>
      unread[j].internalDate <= watermark
  {
    var k := StopIndex(unread, watermark);
    forall j | k <= j < |unread| ensures unread[j].internalDate <= watermark {
      if j > k { assert unread[k].internalDate >= unread[j].internalDate; }
    }
  }

  /* ---------------------------------------------------------------------
     Replying, and the scan
     --------------------------------------------------------------------- */

  /** What handling one examined message asks of the service: nothing when
      the owner has written in its thread; otherwise a reply on its thread to
      its From value with "RE:" + its Subject, then the marker label on the
      same thread. Faults of the check, or a missing From or Subject header on
      the message, are errors. */
  function Reply(m: Message, threads: Threads, owner: string, labelId: Id): (r: Result<seq<Action>>)
    ensures r == Ok([]) <==> NoPrevReply(m.threadId, threads, owner) == Ok(false)
    ensures r.Ok? && r.value != [] <==>
      NoPrevReply(m.threadId, threads, owner) == Ok(true) && From(m).Some? && Subject(m).Some?
    ensures r.Ok? && r.value != [] ==>
      r.value == [Send(m.threadId, ReplyText(From(m).value, Subject(m).value)), AddLabel(m.threadId, labelId)]
  {
    match NoPrevReply(m.threadId, threads, owner)
    case Err(e) => Err(e)
    case Ok(noReply) =>
      if !noReply then Ok([])
      else if From(m).None? then Err(MissingHeader("From"))
      else if Subject(m).None? then Err(MissingHeader("Subject"))
      else Ok([Send(m.threadId, ReplyText(From(m).value, Subject(m).value)), AddLabel(m.threadId, labelId)])
  }

  datatype Status = Completed | Aborted(error: Error)

  /** The effects of a pass, in order, and how it ended. */
  datatype PassOutcome = PassOutcome(actions: seq<Action>, status: Status)

  /** The loop of `checkAndSendReply`: visit the unread messages in list
      order; the first one at or below the watermark ends the scan; each one
      above it is handled by Reply against the threads as the service shows
      them after the requests made so far (`sent`, then this pass's own); an
      error ends the pass, keeping what was already done. */
  function Scan(unread: seq<Message>, watermark: nat, service: ThreadsAfter, sent: seq<Action>,
                owner: string, labelId: Id): PassOutcome
    decreases |unread|
  {
    if unread == [] || unread[0].internalDate <= watermark then PassOutcome([], Completed)
    else match Reply(unread[0], service(sent), owner, labelId)
      case Err(e) => PassOutcome([], Aborted(e))
      case Ok(acts) =>
        var rest := Scan(unread[1..], watermark, service, sent + acts, owner, labelId);
        PassOutcome(acts + rest.actions, rest.status)
  }

  /** The actions one message contributes (none when its reply failed). */
  function Emitted(m: Message, threads: Threads, owner: string, labelId: Id): seq<Action>
  {
    match Reply(m, threads, owner, labelId)
    case Ok(acts) => acts
    case Err(_) => []
  }

  /** The requests made before the `j`-th message is checked: `sent`, then the
      replies of the messages before it, each checked in turn. */
  function LogBefore(unread: seq<Message>, service: ThreadsAfter, sent: seq<Action>,
                     owner: string, labelId: Id, j: nat): seq<Action>
    requires j <= |unread|
    decreases j
  {
    if j == 0 then sent
    else
      var e := Emitted(unread[0], service(sent), owner, labelId);
      LogBefore(unread[1..], service, sent + e, owner, labelId, j - 1)
  }

  lemma LogBeforeStep(unread: seq<Message>, service: ThreadsAfter, sent: seq<Action>,
                      owner: string, labelId: Id, j: nat)
    requires 1 <= j <= |unread|
    ensures LogBefore(unread, service, sent, owner, labelId, j) ==
      LogBefore(unread[1..], service, sent + Emitted(unread[0], service(sent), owner, labelId), owner, labelId, j - 1)
  {
  }

  /** The threads as the check of the `j`-th message fetches them. */
  function ThreadsAt(unread: seq<Message>, service: ThreadsAfter, sent: seq<Action>,
                     owner: string, labelId: Id, j: nat): Threads
    requires j <= |unread|
  {
    service(LogBefore(unread, service, sent, owner, labelId, j))
  }

  /** The actions of the first `j` messages' replies, in order, each message
      checked against the threads as they stand after the ones before it. */
  function Replies(unread: seq<Message>, service: ThreadsAfter, sent: seq<Action>,
                   owner: string, labelId: Id, j: nat): seq<Action>
    requires j <= |unread|
    decreases j
  {
    if j == 0 then []
    else
      var e := Emitted(unread[0], service(sent), owner, labelId);
      e + Replies(unread[1..], service, sent + e, owner, labelId, j - 1)
  }

  /** How many messages a pass handles successfully: it stops at the first
      message at or below the watermark and at the first failing reply. */
  function Handled(unread: seq<Message>, watermark: nat, service: ThreadsAfter, sent: seq<Action>,
                   owner: string, labelId: Id): (k: nat)
    ensures k <= StopIndex(unread, watermark)
    decreases |unread|
  {
    if unread == [] || unread[0].internalDate <= watermark || Reply(unread[0], service(sent), owner, labelId).Err? then 0
    else
      var e := Emitted(unread[0], service(sent), owner, labelId);
      1 + Handled(unread[1..], watermark, service, sent + e, owner, labelId)
  }

  /** The handled messages are a prefix of those before the stop, every one
      of them checked without error against the threads as they stood at its
      turn; when the count falls short of the stop, the next reply failed. */
  lemma {:induction false} HandledCount(unread: seq<Message>, watermark: nat, service: ThreadsAfter, sent: seq<Action>,
                                        owner: string, labelId: Id)
    ensures var k := Handled(unread, watermark, service, sent, owner, labelId);
      (forall j :: 0 <= j < k ==> Reply(unread[j], ThreadsAt(unread, service, sent, owner, labelId, j), owner, labelId).Ok?) &&
      (k < StopIndex(unread, watermark) ==>
        Reply(unread[k], ThreadsAt(unread, service, sent, owner, labelId, k), owner, labelId).Err?)
    decreases |unread|
  {
    var k := Handled(unread, watermark, service, sent, owner, labelId);
    if k > 0 {
      var e := Emitted(unread[0], service(sent), owner, labelId);
      HandledCount(unread[1..], watermark, service, sent + e, owner, labelId);
      assert StopIndex(unread, watermark) == 1 + StopIndex(unread[1..], watermark);
      forall j | 1 <= j <= k && j <= |unread|
        ensures ThreadsAt(unread, service, sent, owner, labelId, j) ==
          ThreadsAt(unread[1..], service, sent + e, owner, labelId, j - 1)
      {
        LogBeforeStep(unread, service, sent, owner, labelId, j);
      }
      assert forall j :: 1 <= j < |unread| ==> unread[j] == unread[1..][j - 1];
    }
  }

  /** One step of Scan past a message above the watermark whose reply succeeded. */
  lemma ScanStep(unread: seq<Message>, watermark: nat, service: ThreadsAfter, sent: seq<Action>,
                 owner: string, labelId: Id)
    requires unread != [] && unread[0].internalDate > watermark
    requires Reply(unread[0], service(sent), owner, labelId).Ok?
    ensures Scan(unread, watermark, service, sent, owner, labelId) ==
      var e := Emitted(unread[0], service(sent), owner, labelId);
      var rest := Scan(unread[1..], watermark, service, sent + e, owner, labelId);
      PassOutcome(e + rest.actions, rest.status)
  {
  }

  /** Regrouping a concatenation; the loop of the pass calls it to keep its
      action log in step with Scan. */
  lemma AppendAssoc(a: seq<Action>, b: seq<Action>, c: seq<Action>)
    ensures (a + b) + c == a + (b + c)
  {
  }

  /** The whole outcome of a pass: its actions are, in list order, the replies
      of the successfully handled messages; it completes when it reached the
      stopping message (or the end of the list), and otherwise ends with the
      error of the first message whose reply failed. */
  lemma ScanOutcome(unread: seq<Message>, watermark: nat, service: ThreadsAfter, sent: seq<Action>,
                    owner: string, labelId: Id)
    ensures var k := Handled(unread, watermark, service, sent, owner, labelId);
      Scan(unread, watermark, service, sent, owner, labelId).actions == Replies(unread, service, sent, owner, labelId, k)
    ensures var k := Handled(unread, watermark, service, sent, owner, labelId);
      var status := Scan(unread, watermark, service, sent, owner, labelId).status;
      (k >= StopIndex(unread, watermark) ==> status == Completed) &&
      (k < StopIndex(unread, watermark) ==>
        status.Aborted? &&
        Reply(unread[k], ThreadsAt(unread, service, sent, owner, labelId, k), owner, labelId) == Err(status.error))
  {
    ScanActions(unread, watermark, service, sent, owner, labelId);
    ScanStatus(unread, watermark, service, sent, owner, labelId);
  }

  /** The actions half of ScanOutcome. */
  lemma {:induction false} ScanActions(unread: seq<Message>, watermark: nat, service: ThreadsAfter, sent: seq<Action>,
                                       owner: string, labelId: Id)
    ensures var k := Handled(unread, watermark, service, sent, owner, labelId);
      Scan(unread, watermark, service, sent, owner, labelId).actions == Replies(unread, service, sent, owner, labelId, k)
    decreases |unread|
  {
    if unread != [] && unread[0].internalDate > watermark && Reply(unread[0], service(sent), owner, labelId).Ok? {
      var e := Emitted(unread[0], service(sent), owner, labelId);
      ScanActions(unread[1..], watermark, service, sent + e, owner, labelId);
      ScanStep(unread, watermark, service, sent, owner, labelId);
      assert Handled(unread, watermark, service, sent, owner, labelId) ==
        1 + Handled(unread[1..], watermark, service, sent + e, owner, labelId);
    }
  }

  /** The status half of ScanOutcome. */
  lemma {:induction false} ScanStatus(unread: seq<Message>, watermark: nat, service: ThreadsAfter, sent: seq<Action>,
                                      owner: string, labelId: Id)
    ensures var k := Handled(unread, watermark, service, sent, owner, labelId);
      var status := Scan(unread, watermark, service, sent, owner, labelId).status;
      (k >= StopIndex(unread, watermark) ==> status == Completed) &&
      (k < StopIndex(unread, watermark) ==>
        status.Aborted? &&
        Reply(unread[k], ThreadsAt(unread, service, sent, owner, labelId, k), owner, labelId) == Err(status.error))
    decreases |unread|
  {
    if unread != [] && unread[0].internalDate > watermark && Reply(unread[0], service(sent), owner, labelId).Ok? {
      var e := Emitted(unread[0], service(sent), owner, labelId);
      var k := Handled(unread, watermark, service, sent, owner, labelId);
      HandledCount(unread, watermark, service, sent, owner, labelId);
      ScanStatus(unread[1..], watermark, service, sent + e, owner, labelId);
      ScanStep(unread, watermark, service, sent, owner, labelId);
      assert k == 1 + Handled(unread[1..], watermark, service, sent + e, owner, labelId);
      assert StopIndex(unread, watermark) == 1 + StopIndex(unread[1..], watermark);
      if k < StopIndex(unread, watermark) {
        assert unread[k] == unread[1..][k - 1];
        LogBeforeStep(unread, service, sent, owner, labelId, k);
      }
    }
  }

  /** A pass completes exactly when every message above the watermark, up to
      the stopping one, was handled without error. */
  lemma ScanCompletes(unread: seq<Message>, watermark: nat, service: ThreadsAfter, sent: seq<Action>,
                      owner: string, labelId: Id)
    ensures Scan(unread, watermark, service, sent, owner, labelId).status == Completed <==>
      forall j :: 0 <= j < StopIndex(unread, watermark) ==>
        Reply(unread[j], ThreadsAt(unread, service, sent, owner, labelId, j), owner, labelId).Ok?
  {
    ScanOutcome(unread, watermark, service, sent, owner, labelId);
    HandledCount(unread, watermark, service, sent, owner, labelId);
  }

  /** The stopping message and everything listed after it have no influence
      on the pass: it is the same as a pass over the messages before it. */
  lemma {:induction false} ScanStopsAtFirstSeen(unread: seq<Message>, watermark: nat, service: ThreadsAfter,
                                                sent: seq<Action>, owner: string, labelId: Id)
    ensures Scan(unread, watermark, service, sent, owner, labelId) ==
      Scan(unread[..StopIndex(unread, watermark)], watermark, service, sent, owner, labelId)
    decreases |unread|
  {
    var k := StopIndex(unread, watermark);
    if k > 0 {
      var tail := unread[1..];
      var prefix := unread[..k];
      assert k == 1 + StopIndex(tail, watermark);
      assert prefix[0] == unread[0] && prefix[1..] == tail[..k - 1];
      if Reply(unread[0], service(sent), owner, labelId).Ok? {
        var e := Emitted(unread[0], service(sent), owner, labelId);
        ScanStopsAtFirstSeen(tail, watermark, service, sent + e, owner, labelId);
        ScanStep(unread, watermark, service, sent, owner, labelId);
        ScanStep(prefix, watermark, service, sent, owner, labelId);
      }
    }
  }

  /** When the first listed message is already at or below the watermark,
      a pass asks nothing of the service and leaves the watermark as it was. */
  lemma FirstSeenStopsPass(unread: seq<Message>, watermark: nat, service: ThreadsAfter, sent: seq<Action>,
                           owner: string, labelId: Id)
    requires unread != [] && unread[0].internalDate <= watermark
    ensures Scan(unread, watermark, service, sent, owner, labelId) == PassOutcome([], Completed)
    ensures NewWatermark(watermark, unread) == watermark
  {
  }

  /** In a pass that completes, every message above the watermark before
      the stop whose thread, as fetched for its check, has no owner message
      gets a reply on its thread and the marker label on that thread. */
  lemma ScanRepliesToEligible(unread: seq<Message>, watermark: nat, service: ThreadsAfter, sent: seq<Action>,
                              owner: string, labelId: Id, j: nat)
    requires Scan(unread, watermark, service, sent, owner, labelId).status == Completed
    requires j < StopIndex(unread, watermark)
    requires NoPrevReply(unread[j].threadId, ThreadsAt(unread, service, sent, owner, labelId, j), owner) == Ok(true)
    ensures From(unread[j]).Some? && Subject(unread[j]).Some?
    ensures Send(unread[j].threadId, ReplyText(From(unread[j]).value, Subject(unread[j]).value))
      in Scan(unread, watermark, service, sent, owner, labelId).actions
    ensures AddLabel(unread[j].threadId, labelId) in Scan(unread, watermark, service, sent, owner, labelId).actions
  {
    ScanOutcome(unread, watermark, service, sent, owner, labelId);
    HandledCount(unread, watermark, service, sent, owner, labelId);
    var k := Handled(unread, watermark, service, sent, owner, labelId);
    assert k == StopIndex(unread, watermark);
    var send := Send(unread[j].threadId, ReplyText(From(unread[j]).value, Subject(unread[j]).value));
    RepliesContains(unread, service, sent, owner, labelId, j, k, send);
    RepliesContains(unread, service, sent, owner, labelId, j, k, AddLabel(unread[j].threadId, labelId));
  }

  /** One step of Replies: the first message's actions, then the rest's. */
  lemma RepliesStep(unread: seq<Message>, service: ThreadsAfter, sent: seq<Action>,
                    owner: string, labelId: Id, i: nat)
    requires 1 <= i <= |unread|
    ensures Replies(unread, service, sent, owner, labelId, i) ==
      Emitted(unread[0], service(sent), owner, labelId) +
      Replies(unread[1..], service, sent + Emitted(unread[0], service(sent), owner, labelId), owner, labelId, i - 1)
  {
  }

  /** Both parts of a concatenation of actions are contained in it. */
  lemma InAppend(a: Action, e: seq<Action>, rest: seq<Action>, whole: seq<Action>)
    requires whole == e + rest
    requires a in e || a in rest
    ensures a in whole
  {
  }

  /** Every action of the `j`-th message's reply is among the replies of the
      first `i` messages when `j < i`. */
  lemma {:induction false} RepliesContains(unread: seq<Message>, service: ThreadsAfter, sent: seq<Action>,
                                           owner: string, labelId: Id, j: nat, i: nat, a: Action)
    requires j < i <= |unread|
    requires a in Emitted(unread[j], ThreadsAt(unread, service, sent, owner, labelId, j), owner, labelId)
    ensures a in Replies(unread, service, sent, owner, labelId, i)
    decreases j
  {
    var e := Emitted(unread[0], service(sent), owner, labelId);
    var tail, log, n := unread[1..], sent + e, i - 1;
    var rest := Replies(tail, service, log, owner, labelId, n);
    RepliesStep(unread, service, sent, owner, labelId, i);
    assert Replies(unread, service, sent, owner, labelId, i) == e + rest;
    if j == 0 {
      assert LogBefore(unread, service, sent, owner, labelId, 0) == sent;
      assert a in e;
    } else {
      LogBeforeStep(unread, service, sent, owner, labelId, j);
      assert tail[j - 1] == unread[j];
      RepliesContains(tail, service, log, owner, labelId, j - 1, n, a);
      assert a in rest;
    }
    InAppend(a, e, rest, Replies(unread, service, sent, owner, labelId, i));
  }

  /* ---------------------------------------------------------------------
     At most one reply per thread
     --------------------------------------------------------------------- */

  /** The threads a list of requests sends a reply on. */
  function RepliedThreads(log: seq<Action>): set<Id>
  {
    set a | a in log && a.Send? :: a.threadId
  }

  /** No two replies in a list of requests go to the same thread. */
  predicate OneReplyPerThread(acts: seq<Action>)
  {
    forall i, j :: 0 <= i < j < |acts| && acts[i].Send? && acts[j].Send? ==> acts[i].threadId != acts[j].threadId
  }

  /** What the owner-reply check relies on the service for: once the program
      has asked for a reply on a thread, fetching that thread shows a message
      whose first From value is exactly the owner's address. */
  ghost predicate ShowsSentReplies(service: ThreadsAfter, owner: string)
  {
    forall log: seq<Action>, t: Id :: t in RepliedThreads(log) && t in service(log) ==>
      exists i :: 0 <= i < |service(log)[t]| && From(service(log)[t][i]) == Some(owner)
  }

  lemma RepliedThreadsAppend(a: seq<Action>, b: seq<Action>)
    ensures RepliedThreads(a + b) == RepliedThreads(a) + RepliedThreads(b)
  {
    assert forall x :: x in a + b <==> x in a || x in b;
  }

  /** A thread the program already replied on gets no new reply, when the
      service shows the sent reply in it. */
  lemma NoReplyAfterReply(m: Message, service: ThreadsAfter, sent: seq<Action>, owner: string, labelId: Id)
    requires ShowsSentReplies(service, owner)
    requires m.threadId in RepliedThreads(sent)
    ensures Reply(m, service(sent), owner, labelId).Ok? ==> Reply(m, service(sent), owner, labelId).value == []
  {
    var threads := service(sent);
    if m.threadId in threads {
      var i :| 0 <= i < |threads[m.threadId]| && From(threads[m.threadId][i]) == Some(owner);
      NoOwnerReplyTrue(threads[m.threadId], owner);
    }
  }

  /** What one message adds to the requests, when the service shows sent
      replies: nothing, or a reply on its thread (which no earlier request
      replied on) followed by a label addition. */
  lemma EmittedShape(m: Message, service: ThreadsAfter, sent: seq<Action>, owner: string, labelId: Id)
    requires ShowsSentReplies(service, owner)
    ensures var e := Emitted(m, service(sent), owner, labelId);
      e == [] ||
      (|e| == 2 && e[0].Send? && e[0].threadId == m.threadId && !e[1].Send? && m.threadId !in RepliedThreads(sent))
  {
    if m.threadId in RepliedThreads(sent) {
      NoReplyAfterReply(m, service, sent, owner, labelId);
    }
  }

  /** Putting one message's requests in front of the rest of a pass keeps
      one reply per thread, and keeps clear of threads replied on before. */
  lemma RepliesConsOnce(e: seq<Action>, rest: seq<Action>, sent: seq<Action>, t: Id)
    requires e == [] || (|e| == 2 && e[0].Send? && e[0].threadId == t && !e[1].Send? && t !in RepliedThreads(sent))
    requires OneReplyPerThread(rest) && RepliedThreads(rest) !! RepliedThreads(sent + e)
    ensures OneReplyPerThread(e + rest) && RepliedThreads(e + rest) !! RepliedThreads(sent)
  {
    RepliedThreadsAppend(sent, e);
    RepliedThreadsAppend(e, rest);
    if e != [] {
      assert RepliedThreads(e) == {t} by {
        assert e == [e[0], e[1]];
      }
      var acts := e + rest;
      forall i, j | 0 <= i < j < |acts| && acts[i].Send? && acts[j].Send?
        ensures acts[i].threadId != acts[j].threadId
      {
        assert acts[j] == rest[j - 2];
        if i < 2 {
          assert acts[j] in rest;
        } else {
          assert acts[i] == rest[i - 2];
        }
      }
    }
  }

  /** Every thread gets at most one reply from a pass, and none that an earlier
      request already replied on, provided the service shows each sent reply
      in its thread as a message from the owner. */
  lemma {:induction false} ScanRepliesOncePerThread(unread: seq<Message>, watermark: nat, service: ThreadsAfter,
                                                    sent: seq<Action>, owner: string, labelId: Id)
    requires ShowsSentReplies(service, owner)
    ensures OneReplyPerThread(Scan(unread, watermark, service, sent, owner, labelId).actions)
    ensures RepliedThreads(Scan(unread, watermark, service, sent, owner, labelId).actions) !! RepliedThreads(sent)
    decreases |unread|
  {
    if unread != [] && unread[0].internalDate > watermark && Reply(unread[0], service(sent), owner, labelId).Ok? {
      var e := Emitted(unread[0], service(sent), owner, labelId);
      ScanRepliesOncePerThread(unread[1..], watermark, service, sent + e, owner, labelId);
      ScanStep(unread, watermark, service, sent, owner, labelId);
      EmittedShape(unread[0], service, sent, owner, labelId);
      RepliesConsOnce(e, Scan(unread[1..], watermark, service, sent + e, owner, labelId).actions, sent, unread[0].threadId);
    }
  }
}
