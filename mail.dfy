/** The records the auto-responder reads from the mail service, the effects it
    has on the service, and the pure lookups and text it builds from them. */
module Mail {

  /** Service-assigned identifiers (message ids, thread ids, label ids). */
  type Id = string

  datatype Option<T> = None | Some(value: T)

  /** One entry of a message's `payload.headers` list. */
  datatype Header = Header(name: string, value: string)

  /** A message as the service returns it, restricted to the fields the
      triage pass reads. `internalDate` is the epoch-millisecond timestamp. */
  datatype Message = Message(id: Id, threadId: Id, internalDate: nat, headers: seq<Header>)

  /** A mailbox label (only its id and name are used). */
  datatype Label = Label(id: Id, name: string)

  /** The ways a startup or a pass fails. `MissingHeader` is the fault of
      reading `.value` from the `undefined` that `find` yields; `UnknownThread`
      is a thread lookup the service refuses; `NoUnreadMessages` is reading
      the message list of a listing that returned none. */
  datatype Error =
    | MissingHeader(name: string)
    | UnknownThread(threadId: Id)
    | NoUnreadMessages

  datatype Result<T> = Ok(value: T) | Err(error: Error)

  /** What the program asks the service to do, in the order it asks. */
  datatype Action =
    | CreateLabel(name: string)
    | Send(threadId: Id, raw: string)
    | AddLabel(threadId: Id, labelId: Id)

  /** The service's threads by id, as one fetch sees them. */
  type Threads = map<Id, seq<Message>>

  /** What a thread fetch returns as a function of every request the program
      has made so far: a reply the program sent may show up in its thread. */
  type ThreadsAfter = seq<Action> -> Threads

  const MARKER_LABEL_NAME: string := "Custom_Label"
  const REPLY_BODY: string := "The user will reply ASAP.\n\nThis is an automated mail!"

  /** `headers.find(h => h.name === name)`, followed by `.value`; what it
      finds is stated by FindHeaderFirst. */
  function FindHeader(headers: seq<Header>, name: string): Option<string>
  {
    if headers == [] then None
    else if headers[0].name == name then Some(headers[0].value)
    else FindHeader(headers[1..], name)
  }

  /** The lookup yields the value of the FIRST header with that name, and
      None exactly when there is none. */
  lemma {:induction false} FindHeaderFirst(headers: seq<Header>, name: string)
    ensures FindHeader(headers, name).None? <==> forall i :: 0 <= i < |headers| ==> headers[i].name != name
    ensures FindHeader(headers, name).Some? ==>
      exists i :: 0 <= i < |headers| && headers[i].name == name && headers[i].value == FindHeader(headers, name).value &&
        forall j :: 0 <= j < i ==> headers[j].name != name
  {
    if headers != [] && headers[0].name != name {
      FindHeaderFirst(headers[1..], name);
      assert forall i :: 1 <= i < |headers| ==> headers[i] == headers[1..][i - 1];
      if FindHeader(headers, name).Some? {
        var k :| 0 <= k < |headers[1..]| && headers[1..][k].name == name &&
          headers[1..][k].value == FindHeader(headers, name).value &&
          forall j :: 0 <= j < k ==> headers[1..][j].name != name;
        assert forall j :: 0 <= j < k + 1 ==> headers[j].name != name by {
          forall j | 0 <= j < k + 1 ensures headers[j].name != name {
            if j > 0 { assert headers[j] == headers[1..][j - 1]; }
          }
        }
      }
    }
  }

  /** `labels.find(l => l.name === name)`: the FIRST label with that name. */
  function FindLabel(labels: seq<Label>, name: string): (r: Option<Label>)
    ensures r.None? <==> forall i :: 0 <= i < |labels| ==> labels[i].name != name
    ensures r.Some? ==>
      exists i :: 0 <= i < |labels| && labels[i] == r.value && r.value.name == name &&
        forall j :: 0 <= j < i ==> labels[j].name != name
  {
    if labels == [] then None
    else if labels[0].name == name then Some(labels[0])
    else
      var r := FindLabel(labels[1..], name);
      assert forall i :: 1 <= i < |labels| ==> labels[i] == labels[1..][i - 1];
      r
  }

  /** The text of the automatic reply before it is base64-encoded: a `To`
      header carrying the sender's From value verbatim, a `Subject` header
      that prefixes "RE:" to the original subject (an existing "RE:" is kept),
      an empty line, and the fixed two-line body. */
  function ReplyText(from: string, subject: string): (r: string)
    ensures |r| == |from| + |subject| + |REPLY_BODY| + 19
    ensures r[..4] == "To: " && r[4..4 + |from|] == from
    ensures r[|r| - |REPLY_BODY| ..] == REPLY_BODY
  {
    var head := "To: " + from + "\n" + "Subject: RE:" + subject + "\n\n";
    assert |head| == |from| + |subject| + 19;
    assert (head + REPLY_BODY)[..|head|] == head && (head + REPLY_BODY)[|head|..] == REPLY_BODY;
    assert head[..4] == "To: " && head[4..4 + |from|] == from;
    head + REPLY_BODY
  }

  /** Splits off the first line: the text before the first '\n' and the text
      after it; the whole string and "" when there is no '\n'. */
  function SplitLine(s: string): (string, string)
  {
    if s == [] then ([], [])
    else if s[0] == '\n' then ([], s[1..])
    else
      var (line, rest) := SplitLine(s[1..]);
      ([s[0]] + line, rest)
  }

  /** Splitting a line terminated by '\n' gives that line back and the rest. */
  lemma {:induction false} SplitLineJoin(line: string, rest: string)
    requires '\n' !in line
    ensures SplitLine(line + "\n" + rest) == (line, rest)
  {
    if line == [] {
      assert line + "\n" + rest == ['\n'] + rest;
    } else {
      var s := line + "\n" + rest;
      assert s[0] == line[0] && line[0] != '\n';
      assert s[1..] == line[1..] + "\n" + rest;
      assert '\n' !in line[1..];
      SplitLineJoin(line[1..], rest);
      assert [line[0]] + line[1..] == line;
    }
  }

  /** Reading the reply back line by line recovers its headers: the first line
      is `To: ` followed by the From value, the second `Subject: RE:` followed by
      the subject exactly as received, and what follows is the empty line and
      the fixed body. Holds whenever the header values are single lines. */
  lemma ReplyTextHeaders(from: string, subject: string)
    requires '\n' !in from && '\n' !in subject
    ensures SplitLine(ReplyText(from, subject)).0 == "To: " + from
    ensures SplitLine(SplitLine(ReplyText(from, subject)).1).0 == "Subject: RE:" + subject
    ensures SplitLine(SplitLine(ReplyText(from, subject)).1).1 == "\n" + REPLY_BODY
  {
    var toLine := "To: " + from;
    var subjectLine := "Subject: RE:" + subject;
    assert '\n' !in toLine by {
      assert forall i :: 0 <= i < |toLine| ==> toLine[i] == if i < 4 then "To: "[i] else from[i - 4];
    }
    assert '\n' !in subjectLine by {
      assert forall i :: 0 <= i < |subjectLine| ==>
        subjectLine[i] == if i < 12 then "Subject: RE:"[i] else subject[i - 12];
    }
    var tail := subjectLine + "\n" + ("\n" + REPLY_BODY);
    assert ReplyText(from, subject) == toLine + "\n" + tail;
    SplitLineJoin(toLine, tail);
    SplitLineJoin(subjectLine, "\n" + REPLY_BODY);
  }
}
