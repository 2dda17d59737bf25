# Gmail auto-responder: the triage pass

This project models the core of a small Node.js service, `index.js`, that answers
new mail automatically while the mailbox owner is away. At startup the service
does three things:

- It finds or creates the mailbox label named `Custom_Label`.
- It takes the timestamp of the newest unread inbox message as its *watermark* (`initTime`).
- It records the owner's address.

After that it runs the *triage pass* (`checkAndSendReply`) periodically. One pass goes like this:

- It lists the unread inbox messages and visits them in the order given.
- It folds each message's `internalDate` into a running maximum.
- It stops at the first message at or below the watermark held when the pass began.
- Each other message is checked with `checkForPrevReply`. If the owner has never written in that message's thread, the pass:
  - sends the reply `To: <From>\nSubject: RE:<Subject>\n\nThe user will reply ASAP.\n\nThis is an automated mail!` on the thread;
  - then adds the marker label to the thread.
- A pass that finishes writes the running maximum back as the new watermark.

The model is in four modules:

- `Mail` (`mail.dfy`) holds:
  - the records the service returns: messages, headers and labels;
  - the effects the program asks of it (`Action`: create a label, send a message, add a label to a thread);
  - the `find`-style lookups;
  - the reply text, with a proof that reading the text back line by line gives back its headers;
  - `Threads`, the threads one fetch returns, and `ThreadsAfter`, the threads a fetch returns as a function of the requests made before it.
- `Triage` (`triage.dfy`) describes the pass as pure functions of its inputs:
  - `NoOwnerReply` / `NoPrevReply` for the owner-reply check;
  - `Reply` for what one message asks of the service;
  - `StopIndex` for the early stop;
  - `RunningMax` / `NewWatermark` for the watermark;
  - `Scan` for the whole pass: its actions in order, and how it ended. Each message is checked against the threads as the service shows them after every request made before it, including this pass's own replies.

  The lemmas state what these promise. One of them is the at-most-one-reply-per-thread guarantee, under a stated assumption about the service.
- `Scenarios` (`scenarios.dfy`) works small passes through by hand. One of them is a thread with two new messages, checked against a service that does or does not show the first reply.
- `App` (`session.dfy`) is the imperative program. Class `Session` has the module-level globals as fields:
  - `myLabel`;
  - `initTime`;
  - `ownerEmail`, standing for `userDetails.emailAddress`;
  - `outbox`, the log of every request made to the service.

  Its methods are `StartApp`, `CheckForPrevReply`, `ReplyIfNeeded`, `CheckAndSendReply` and its loop `VisitUnread`. Each method is proved against the `Triage` functions.

Service responses are parameters:

| parameter | what it stands for |
|---|---|
| `labels` | the label list |
| `created` | the label the creation call returns |
| `newestUnread` | the one-message unread listing |
| `profileEmail` | the profile's address |
| `unread` | the unread listing, each entry already fetched in full |
| `service` | the threads a fetch returns, as a function of the requests made so far (`outbox`) |

A JavaScript exception ends the operation. In the model it becomes an `Error`:

| error | cause |
|---|---|
| `MissingHeader("From")`, `MissingHeader("Subject")` | `.value` read on the `undefined` that `find` returns |
| `UnknownThread(id)` | a thread fetch the service refuses |
| `NoUnreadMessages` | an empty listing, where the service omits `messages`, so `[0]` or `for…of` fails |

When an operation fails:

- Requests already made stay in `outbox`.
- The pass does not reach `initTime = currentMax`, so the watermark is kept.

## Model

| member | source | states |
|---|---|---|
| Mail.FindHeader | index.js:138-144 | The `find` over a message's headers by name, followed by `.value`. What it returns is stated by `FindHeaderFirst`. |
| Mail.FindHeaderFirst | index.js:138-144 | The result is None exactly when no header has the name. Otherwise it is the value of the first header with that name. |
| Mail.FindLabel | index.js:66 | The result is None exactly when no label has the name. Otherwise it is the first label with that name. |
| Mail.ReplyText | index.js:136-147 | The reply starts with `To: ` followed by the From value and ends with the fixed two-line body. Its length is the two header values' lengths, the body's and the 19 characters of the template. |
| Mail.ReplyTextHeaders | index.js:136-147 | For single-line header values, the reply's first line is `To: ` followed by the From value. Its second line is `Subject: RE:` followed by the subject unchanged, so an existing `RE:` is not stripped. The remainder is the empty line and the fixed body. |
| Mail.SplitLineJoin | index.js:136-147 | Splitting `line + "\n" + rest` at the first newline gives back `line` and `rest` when `line` has no newline. This is the reading-back half of the reply-text format. |
| Triage.From | index.js:138-140 | A message's first `From` header value, or None. This is the lookup of index.js:138-140 and of index.js:170. |
| Triage.Subject | index.js:141-144 | A message's first `Subject` header value, or None. |
| Triage.Max | index.js:128 | `Math.max` on timestamps: the result is at least both arguments and equals one of them. |
| Triage.NoOwnerReply | index.js:169-173 | The only error the thread check raises is a missing `From` header. |
| Triage.NoPrevReply | index.js:163-174 | `checkForPrevReply`: the check fails with `UnknownThread` exactly when the service does not have the thread. Its only other error is a missing `From` header. |
| Triage.NoOwnerReplyFalse | index.js:169-173 | The check answers "already replied" exactly when some message's first From value equals the owner's address as a whole string, and every message before it has a From header. |
| Triage.OwnerReplyFound | index.js:169-173 | An "already replied" answer implies a message by the owner that only messages with a From header precede. |
| Triage.OwnerReplyAnswersFalse | index.js:169-171 | A message by the owner that only messages with a From header precede makes the answer "already replied". |
| Triage.NoOwnerReplyTrue | index.js:169-173 | The check answers "no reply yet" exactly when every message has a From header and none equals the owner's address. An empty thread is included. |
| Triage.OwnerReplyPersists | index.js:169-173 | Once the answer is "already replied", appending messages to the thread keeps it so. |
| Triage.OwnerMessageSuppressesReply | index.js:130-173 | A thread answered "no reply yet" answers "already replied" once a message whose first From value is exactly the owner's address is appended. |
| Triage.StopIndex | index.js:123-129 | The stop position is the first message whose timestamp is at or below the watermark. Every message before it is above. The position is the list's length when there is no such message. |
| Triage.RunningMax | index.js:121-128 | The `currentMax` fold: the watermark held at the start, then `Math.max` with each timestamp up to and including the stopping message. What it computes is stated by `RunningMaxIsMaximum`. |
| Triage.NewWatermark | index.js:121-160 | The value `initTime` takes when a pass finishes. What it computes is stated by `WatermarkAfterPass`. |
| Triage.RunningMaxIsMaximum | index.js:121-129 | The running maximum is at least its start value and every examined timestamp. It equals one of them. Examined means up to and including the stopping message. |
| Triage.WatermarkAfterPass | index.js:121-160 | The new watermark is the maximum of the old watermark and the examined timestamps. So it never decreases. |
| Triage.SortedStopSkipsOnlySeen | index.js:123-129 | For a newest-first listing, every message from the stop onward is at or below the watermark. |
| Triage.Reply | index.js:130-157 | A message yields no actions exactly when its thread holds an owner message. It yields actions exactly when the check says "no reply yet" and both headers exist. Those actions are one Send on its thread with the reply text, followed by one AddLabel of the marker label on the same thread. |
| Triage.Scan | index.js:123-159 | The loop of `checkAndSendReply`. Each message above the watermark is checked against the threads fetched after every request made before it. The first error ends the pass. What it computes is stated by `ScanOutcome` and the lemmas after it. |
| Triage.Handled | index.js:123-130 | The number of messages a pass handles without error is at most the stop position. |
| Triage.HandledCount | index.js:123-130 | Every handled message has an Ok reply against the threads as fetched at its turn. If fewer messages are handled than the stop position, the next reply is an error. |
| Triage.ScanOutcome | index.js:123-159 | The pass's actions are the replies of the handled messages in list order, each against the threads at its turn. The pass completes when it reaches the stop. Otherwise it ends with the first failing reply's error. |
| Triage.ScanActions | index.js:123-159 | The pass's actions are the concatenated replies of the handled messages, in list order. |
| Triage.ScanStatus | index.js:123-159 | The pass completes exactly when the handled count reaches the stop position. Otherwise it aborts with that message's error, computed against the threads at its turn. |
| Triage.ScanCompletes | index.js:123-159 | A pass completes exactly when every message before the stop has an Ok reply against the threads at its turn. |
| Triage.ScanStopsAtFirstSeen | index.js:129 | The stopping message and everything after it do not affect the pass. The pass equals a pass over the prefix before the stop. |
| Triage.FirstSeenStopsPass | index.js:121-160 | If the first listed message is at or below the watermark, the pass asks nothing of the service and the watermark is unchanged. |
| Triage.ScanRepliesToEligible | index.js:130-157 | In a completed pass, every message before the stop whose thread, as fetched at its turn, has no owner message has both headers. Its Send and its AddLabel are among the pass's actions. |
| Triage.RepliesContains | index.js:123-159 | Every action of one message's reply is among the replies of the messages up to any later position. |
| Triage.NoReplyAfterReply | index.js:130-172 | If the service shows each sent reply as a message from the owner, a thread that already got a reply gets no further actions. |
| Triage.EmittedShape | index.js:130-156 | Under the same assumption, one message adds either nothing, or a Send on its own thread and then a label addition. A Send only goes to a thread that no earlier request replied on. |
| Triage.ScanRepliesOncePerThread | index.js:123-172 | Under the same assumption, a pass sends at most one reply per thread, and none on a thread replied on before the pass. |
| Scenarios.InboxReplies | index.js:130-173 | In the worked inbox, Bob's thread has no owner message, so he is answered and his thread labelled. Alice's thread holds an owner message, so she gets nothing. |
| Scenarios.PassExample | index.js:121-159 | Watermark 1000, timestamps 1500, 1200 and 900. The 1500 message is answered and labelled, the 1200 message gets nothing, and the 900 message ends the pass. |
| Scenarios.PassExampleWatermark | index.js:121-160 | The same pass moves the watermark from 1000 to 1500. |
| Scenarios.SameThreadReplies | index.js:163-173 | Bob's two messages on one thread are each answered against the thread as it was. Once the thread holds the owner's reply, the second is not. |
| Scenarios.SameThreadStale | index.js:123-159 | If the second check sees the thread as it was before the first reply, the pass answers the thread twice. |
| Scenarios.UpdatedServiceShowsReplies | index.js:163-172 | A service that shows the sent reply from the first request on meets the assumption of `ScanRepliesOncePerThread`. |
| Scenarios.SameThreadUpdated | index.js:123-159 | If the second check sees the reply the pass sent, the thread is answered once. |
| App.Session.constructor | index.js:11-15 | Before startup the globals are undefined and nothing has been requested. |
| App.Session.StartApp | index.js:58-101 | An existing `Custom_Label` label is reused (the first one) with nothing created. Otherwise one `CreateLabel("Custom_Label")` is logged and the created label cached. An empty unread listing fails startup after the label step. Otherwise the watermark is the newest unread message's timestamp and the owner's address is recorded. |
| App.Session.CheckForPrevReply | index.js:163-174 | The loop's answer equals `NoPrevReply`. An unknown thread fails. |
| App.Session.ReplyIfNeeded | index.js:130-157 | The outbox grows by exactly the message's `Reply` actions. The failure reported is exactly `Reply`'s error. |
| App.Session.VisitUnread | index.js:121-159 | The loop fetches threads after every request logged so far. It appends exactly `Scan`'s actions to the outbox and returns `Scan`'s status. On completion its running maximum is `NewWatermark`. |
| App.Session.CheckAndSendReply | index.js:112-161 | An empty listing fails with nothing changed. Otherwise the outbox grows by `Scan`'s actions and the status is `Scan`'s. A completed pass sets the watermark to `NewWatermark`, and a failed one keeps it. The label and owner are unchanged, and the watermark never decreases. |

## Left out

- OAuth and the token file (`loadSavedCredentialsIfExist`, `saveCredentials`, `authorize`, index.js:17-56, 176): file I/O and a foreign authentication library.
- The googleapis client and the network. Call results are parameters and call effects are `outbox` entries.
  - What a thread fetch returns is the parameter `service`, a function of the requests made so far. How the service turns a sent reply into a message of its thread is not modelled.
  - Service failures other than an unknown thread are not modelled.
  - Each listed message is given already fetched in full, so `messages.get` is folded into the listing.
  - The profile fetch is a parameter.
  - `maxResults: 1` is not enforced: only the first entry of `newestUnread` is read.
- Base64 encoding of the reply (`Buffer.from(...).toString("base64")`): a library call. The model keeps the text before encoding.
- The timer: the first pass right after startup, `setInterval`, and its `Math.random` period of 45 to 120 seconds (index.js:106-109).
  - Passes are run by the caller.
  - The period is drawn once when the timer is set up, not re-drawn for each firing.
- Concurrency: passes that overlap in time and race on `initTime`. A pass is one atomic method call.
- JavaScript coercion of `internalDate`, which the service returns as a decimal string. Timestamps are `nat`.
  - On the first pass, index.js:129 compares the string from index.js:95 with another string. That compares lexicographically, which agrees with numeric order only for timestamps with the same number of digits.
  - The model assumes numeric order throughout.
- `console.log` output (index.js:103, 113, 157).
- An empty thread: the service never returns one. The JavaScript would fail iterating a missing `messages` field. `NoOwnerReply` answers "no reply yet" for the empty sequence.
- Triage.ScanRepliesOncePerThread: holds only for a service that shows each sent reply in its thread as a message whose first From value is exactly the owner's address.
  - The reply the program sends has no `From` line (index.js:137-146), so the From value is whatever the service records.
  - The comparison at index.js:171 is on whole strings. A recorded `Name <address>` form does not match, and then the thread is answered again on a later pass or a later message. `Scenarios.SameThreadStale` shows the double reply for a service whose threads do not change.
