/**
 * `MinioServerStatus`: the value an availability probe produces. The server
 * counts as available exactly when it answered the probe with HTTP 403 (the
 * request was understood and refused, so the server is running); every
 * other outcome is unavailable and explained by an ordered list of messages.
 */
module ServerStatus {
  import opened Outcomes
  import opened Text

  const OK_TEXT := "MinIO is available"
  const NOK_TEXT := "MinIO is NOT available"
  const NO_REQUEST_TEXT := "There was no HTTP request provided for MinioServerStatus upon initialisation."
  const NO_DATA_TEXT := "No data available"
  const FORBIDDEN := 403

  /** An HTTP response: status code and body, already decoded to text. */
  datatype Response = Response(status: int, body: string)

  datatype Status = Status(
    available: bool,
    messages: seq<string>,
    httpStatus: Option<int>,
    data: Option<string>)

  /**
   * `MinioServerStatus(request)`, with `None` for "no response". A refused
   * probe records the "available" text as its first detail line (see
   * `RefusalDetailsReadAvailable`).
   */
  function FromResponse(resp: Option<Response>): (s: Status)
    ensures s.available <==> resp.Some? && resp.value.status == FORBIDDEN
    ensures resp.None? ==> s.messages == [NO_REQUEST_TEXT] && s.httpStatus.None? && s.data.None?
    ensures resp.Some? ==> s.httpStatus == Some(resp.value.status) && s.data.Some?
    ensures resp.Some? && resp.value.body != "" ==> s.data == Some(resp.value.body)
    ensures resp.Some? && resp.value.body == "" ==> s.data == Some(NO_DATA_TEXT)
    ensures resp.Some? && resp.value.status == FORBIDDEN ==> s.messages == []
    ensures resp.Some? && resp.value.status != FORBIDDEN ==> s.messages == [OK_TEXT, "Reason: " + s.data.value]
  {
    match resp
    case None => Status(false, [NO_REQUEST_TEXT], None, None)
    case Some(r) =>
      var data := if r.body != "" then r.body else NO_DATA_TEXT;
      if r.status == FORBIDDEN then Status(true, [], Some(r.status), Some(data))
      else Status(false, [OK_TEXT, "Reason: " + data], Some(r.status), Some(data))
  }

  /** `add_message`: appends one message and touches nothing else. */
  function AddMessage(s: Status, text: string): (r: Status)
    ensures r.messages == s.messages + [text]
    ensures r.available == s.available && r.httpStatus == s.httpStatus && r.data == s.data
  {
    s.(messages := s.messages + [text])
  }

  /** `bool(status)` and `status.is_available` read the same flag. */
  function IsAvailable(s: Status): bool {
    s.available
  }

  /** `details`: the messages joined by newlines, oldest first. */
  function Details(s: Status): string {
    Join(s.messages, '\n')
  }

  function Repr(s: Status): (r: string)
    ensures r == OK_TEXT <==> IsAvailable(s)
    ensures r == NOK_TEXT <==> !IsAvailable(s)
  {
    if IsAvailable(s) then OK_TEXT else NOK_TEXT
  }

  /** Adding a message extends the details by a newline and that message. */
  lemma DetailsAfterAddMessage(s: Status, text: string)
    ensures Details(AddMessage(s, text)) ==
              if s.messages == [] then text else Details(s) + "\n" + text
    ensures IsAvailable(AddMessage(s, text)) == IsAvailable(s)
  {
    JoinAppend(s.messages, text, '\n');
  }

  /** Messages without newlines can be read back from the details in order. */
  lemma DetailsRoundTrip(s: Status)
    requires s.messages != []
    requires forall i :: 0 <= i < |s.messages| ==> '\n' !in s.messages[i]
    ensures Split(Details(s), '\n') == s.messages
  {
    SplitJoin(s.messages, '\n');
  }

  /**
   * A status built without a response stays unavailable whatever is added
   * to it, and its details start with the "no request" message.
   */
  lemma {:induction false} NoResponseNeverAvailable(texts: seq<string>)
    ensures var s := AddAll(FromResponse(None), texts);
            !IsAvailable(s) && Repr(s) == NOK_TEXT && |s.messages| == 1 + |texts| &&
            s.messages[0] == NO_REQUEST_TEXT
    decreases |texts|
  {
    if texts != [] {
      NoResponseNeverAvailable(texts[..|texts| - 1]);
    }
  }

  /** Adds the messages one after another; the statement of `NoResponseNeverAvailable` is phrased with it. */
  function AddAll(s: Status, texts: seq<string>): Status
    decreases |texts|
  {
    if texts == [] then s else AddMessage(AddAll(s, texts[..|texts| - 1]), texts[|texts| - 1])
  }

  /**
   * A refused probe (any status but 403) is unavailable and `__repr__` says
   * so, yet its details open with "MinIO is available".
   */
  lemma RefusalDetailsReadAvailable(r: Response)
    requires r.status != FORBIDDEN
    ensures var s := FromResponse(Some(r));
            !IsAvailable(s) && Repr(s) == NOK_TEXT &&
            Details(s) == OK_TEXT + "\n" + "Reason: " + (if r.body != "" then r.body else NO_DATA_TEXT) &&
            Split(Details(s), '\n')[0] != Repr(s)
  {
    var s := FromResponse(Some(r));
    JoinAppend([OK_TEXT], s.messages[1], '\n');
    assert s.messages == [OK_TEXT] + [s.messages[1]];
    FirstLine(OK_TEXT, "Reason: " + s.data.value);
  }

  /** The first line of `a` + newline + `b` is `a` when `a` has no newline. */
  lemma FirstLine(a: string, b: string)
    requires '\n' !in a
    ensures Split(a + "\n" + b, '\n')[0] == a
  {
    SplitAround(a, b, '\n');
  }
}
