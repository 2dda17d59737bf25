/** The process-wide state of the auto-responder and the operations that
    change it: startup (`startApp`), the owner-reply check
    (`checkForPrevReply`) and one triage pass (`checkAndSendReply`). The mail
    service is replaced by inputs (what its calls return) and by `outbox`,
    the log of what the program asked it to do. */
module App {
  import opened Mail
  import opened Triage

  class Session {
    /** The cached marker label (`myLabel`). */
    var myLabel: Option<Label>
    /** The watermark (`initTime`): the newest timestamp already seen. */
    var initTime: Option<nat>
    /** The owner's address (`userDetails.emailAddress`). */
    var ownerEmail: Option<string>
    /** Every label creation, reply and label addition asked of the service, in order. */
    var outbox: seq<Action>

    /** Startup has set all three globals, so passes may run. */
    predicate Ready()
      reads this
    {
      myLabel.Some? && initTime.Some? && ownerEmail.Some?
    }

    /** The state before startup: the globals are still undefined. */
    constructor ()
      ensures myLabel == None && initTime == None && ownerEmail == None && outbox == []
    {
      myLabel, initTime, ownerEmail, outbox := None, None, None, [];
    }

    /** The startup part of `startApp`: resolve the marker label by name
        (reusing the first label named "Custom_Label", creating one only when
        there is none; `created` is what the service returns for the
        creation), seed the watermark from the newest unread message, then
        record the owner's address. The listing of unread messages must not
        be empty; when it is, startup fails after the label step. */
    method StartApp(labels: seq<Label>, created: Label, newestUnread: seq<Message>, profileEmail: string)
      returns (status: Status)
      modifies this
      ensures FindLabel(labels, MARKER_LABEL_NAME).Some? ==>
        myLabel == FindLabel(labels, MARKER_LABEL_NAME) && outbox == old(outbox)
      ensures FindLabel(labels, MARKER_LABEL_NAME).None? ==>
        myLabel == Some(created) && outbox == old(outbox) + [CreateLabel(MARKER_LABEL_NAME)]
      ensures newestUnread == [] ==>
        status == Aborted(NoUnreadMessages) && initTime == old(initTime) && ownerEmail == old(ownerEmail)
      ensures newestUnread != [] ==>
        status == Completed && Ready() &&
        initTime == Some(newestUnread[0].internalDate) && ownerEmail == Some(profileEmail)
    {
      var l := FindLabel(labels, MARKER_LABEL_NAME);
      if l.Some? {
        myLabel := l;
      } else {
        outbox := outbox + [CreateLabel(MARKER_LABEL_NAME)];
        myLabel := Some(created);
      }
      if newestUnread == [] {
        return Aborted(NoUnreadMessages);
      }
      initTime := Some(newestUnread[0].internalDate);
      ownerEmail := Some(profileEmail);
      status := Completed;
    }

    /** `checkForPrevReply(threadId)`: fetch the thread and scan its messages
        in order, answering false at the first one from the owner. */
    method CheckForPrevReply(threadId: Id, threads: Threads) returns (r: Result<bool>)
      requires ownerEmail.Some?
      ensures r == NoPrevReply(threadId, threads, ownerEmail.value)
    {
      if threadId !in threads {
        return Err(UnknownThread(threadId));
      }
      var messages := threads[threadId];
      var i := 0;
      while i < |messages|
        invariant 0 <= i <= |messages|
        invariant NoOwnerReply(messages, ownerEmail.value) == NoOwnerReply(messages[i..], ownerEmail.value)
      {
        assert messages[i..][1..] == messages[i + 1..];
        var a := FindHeader(messages[i].headers, "From");
        if a.None? {
          return Err(MissingHeader("From"));
        }
        if a.value == ownerEmail.value {
          return Ok(false);
        }
        i := i + 1;
      }
      return Ok(true);
    }

    /** The body of the pass for one message above the watermark: check the
        thread for a message from the owner; when there is none, send the
        reply on the message's thread and add the marker label to it. The
        From and Subject headers are read only when a reply is due, and a
        missing one fails before anything is sent. */
    method ReplyIfNeeded(msg: Message, threads: Threads) returns (failure: Option<Error>)
      requires Ready()
      modifies this`outbox
      ensures outbox == old(outbox) + Emitted(msg, threads, ownerEmail.value, myLabel.value.id)
      ensures failure == match Reply(msg, threads, ownerEmail.value, myLabel.value.id)
        case Err(e) => Some(e)
        case Ok(_) => None
    {
      var f := CheckForPrevReply(msg.threadId, threads);
      if f.Err? {
        return Some(f.error);
      }
      if f.value {
        var from := FindHeader(msg.headers, "From");
        if from.None? {
          return Some(MissingHeader("From"));
        }
        var subject := FindHeader(msg.headers, "Subject");
        if subject.None? {
          return Some(MissingHeader("Subject"));
        }
        outbox := outbox + [Send(msg.threadId, ReplyText(from.value, subject.value))];
        outbox := outbox + [AddLabel(msg.threadId, myLabel.value.id)];
      }
      return None;
    }

    /** One triage pass (`checkAndSendReply`). `unread` is the unread-inbox
        listing (each entry already fetched in full) and `service` gives
        the threads a fetch returns after the requests made so far. The pass visits the listing in order, folding each
        timestamp into a running maximum; the first message at or below the
        watermark held at the start ends the scan; every other message whose
        thread has no message from the owner gets a reply, then the marker
        label on its thread. A completed pass writes the running maximum back
        as the new watermark; a failing one keeps what it already did and
        leaves the watermark alone. */
    method CheckAndSendReply(unread: seq<Message>, service: ThreadsAfter) returns (status: Status)
      requires Ready()
      modifies this
      ensures Ready() && myLabel == old(myLabel) && ownerEmail == old(ownerEmail)
      ensures unread == [] ==>
        status == Aborted(NoUnreadMessages) && outbox == old(outbox) && initTime == old(initTime)
      ensures unread != [] ==>
        var o := Scan(unread, old(initTime).value, service, old(outbox), ownerEmail.value, myLabel.value.id);
        outbox == old(outbox) + o.actions && status == o.status &&
        initTime == if o.status.Completed? then Some(NewWatermark(old(initTime).value, unread)) else old(initTime)
      ensures initTime.value >= old(initTime).value
    {
      if unread == [] {
        return Aborted(NoUnreadMessages);
      }
      var watermark := initTime.value;
      var newest;
      newest, status := VisitUnread(unread, service, watermark);
      if status.Completed? {
        WatermarkAfterPass(watermark, unread);
        initTime := Some(newest);
      }
    }

    /** The loop of the pass: visit `unread` in order from the head, folding
        each timestamp into a running maximum that starts at `watermark`, and
        stop at the first message at or below `watermark`. Each message above
        it goes through ReplyIfNeeded against the threads fetched after every
        request logged so far; the first failure ends the loop. */
    method VisitUnread(unread: seq<Message>, service: ThreadsAfter, watermark: nat)
      returns (newest: nat, status: Status)
      requires Ready()
      modifies this`outbox
      ensures outbox == old(outbox) + Scan(unread, watermark, service, old(outbox), ownerEmail.value, myLabel.value.id).actions
      ensures status == Scan(unread, watermark, service, old(outbox), ownerEmail.value, myLabel.value.id).status
      ensures status.Completed? ==> newest == NewWatermark(watermark, unread)
    {
      var owner := ownerEmail.value;
      var labelId := myLabel.value.id;
      ghost var outcome := Scan(unread, watermark, service, outbox, owner, labelId);
      newest := watermark;
      var rest := unread;
      ghost var done: seq<Action> := [];
      while rest != []
        invariant RunningMax(watermark, newest, rest) == NewWatermark(watermark, unread)
        invariant outbox == old(outbox) + done
        invariant outcome.actions == done + Scan(rest, watermark, service, outbox, owner, labelId).actions
        invariant outcome.status == Scan(rest, watermark, service, outbox, owner, labelId).status
      {
        var msg := rest[0];
        newest := Max(newest, msg.internalDate);
        if msg.internalDate <= watermark {
          break;
        }
        ghost var before := outbox;
        var threads := service(outbox);
        var failure := ReplyIfNeeded(msg, threads);
        if failure.Some? {
          return newest, Aborted(failure.value);
        }
        ghost var emitted := Emitted(msg, threads, owner, labelId);
        ScanStep(rest, watermark, service, before, owner, labelId);
        AppendAssoc(old(outbox), done, emitted);
        AppendAssoc(done, emitted, Scan(rest[1..], watermark, service, outbox, owner, labelId).actions);
        done := done + emitted;
        rest := rest[1..];
      }
      status := Completed;
    }
  }
}
