/**
  The chat endpoint `POST /api/chat`: the request gate (authentication, rate
  limit, body, message), the prompt and message list handed to the generation
  backend, and the relay of the backend's event stream to the caller while the
  reply is accumulated and both turns are saved.
 */
module ChatRoute {
  import opened Wrappers
  import opened Strings
  import opened Records
  import opened RateLimit
  import opened Prompt

  const MAX_MESSAGE_LENGTH: nat := 2000
  const HISTORY_LIMIT: nat := 50

  // ---------------------------------------------------------------------------
  // The request gate

  /** The `message` member of the parsed JSON body. */
  datatype MessageField =
    | Absent
    | StringValue(text: string)
    | OtherValue   // null, a number, a boolean, an object or an array

  /**
    The request body: it did not parse as JSON, it is the JSON literal `null`
    (which parses, and which `const { message } = body` cannot destructure), or
    it is any other JSON value. A number, string, boolean or array has no own
    `message` property, so it is a `JsonBody(Absent)`.
   */
  datatype RequestBody = Malformed | NullBody | JsonBody(message: MessageField)

  /** What the body checks end in: the message, a 400 text, or the uncaught `TypeError`. */
  datatype BodyCheck = BodyOk(message: string) | BodyRefused(text: string) | BodyThrows

  /** What the handler does with a request: answer with an error, throw, or go on to generation. */
  datatype Decision =
    | Reject(status: nat, text: string)
    | Unhandled
    | Accept(user: string, message: string)

  const UNAUTHORIZED := "Unauthorized"
  const TOO_MANY := "Too many messages. Please wait a moment."
  const INVALID_BODY := "Invalid request body"
  const MESSAGE_REQUIRED := "Message is required"

  function TooLongText(): string {
    "Message too long (max " + NatToString(MAX_MESSAGE_LENGTH) + " characters)"
  }

  /** The body checks, in source order: parse, destructuring, presence and type, length. */
  function ValidateBody(body: RequestBody): (r: BodyCheck)
  {
    if body.Malformed? then BodyRefused(INVALID_BODY)
    else if body.NullBody? then BodyThrows
    else if !body.message.StringValue? || body.message.text == "" then BodyRefused(MESSAGE_REQUIRED)
    else if Utf16Length(body.message.text) > MAX_MESSAGE_LENGTH then BodyRefused(TooLongText())
    else BodyOk(body.message.text)
  }

  /**
    A message is accepted exactly when it is a non-empty string of at most 2000
    code units; a `null` body throws; every other refusal is one of the three 400 texts.
   */
  lemma ValidateBodyAccepts(body: RequestBody)
    ensures ValidateBody(body).BodyOk? <==>
      && body.JsonBody? && body.message.StringValue?
      && body.message.text != "" && Utf16Length(body.message.text) <= MAX_MESSAGE_LENGTH
    ensures ValidateBody(body).BodyOk? ==> ValidateBody(body).message == body.message.text
    ensures ValidateBody(body).BodyThrows? <==> body.NullBody?
    ensures ValidateBody(body).BodyRefused? ==>
      ValidateBody(body).text in {INVALID_BODY, MESSAGE_REQUIRED, TooLongText()}
  {
  }

  /** The length check names its limit: the rejection text reads "(max 2000 characters)". */
  lemma TooLongTextNamesLimit()
    ensures TooLongText() == "Message too long (max 2000 characters)"
  {
    assert NatToString(2) == "2";
    assert NatToString(20) == NatToString(2) + "0";
    assert NatToString(200) == NatToString(20) + "0";
    assert NatToString(2000) == NatToString(200) + "0";
  }

  /** At the boundary: 2000 code units pass, 2001 are refused with the length text. */
  lemma LengthBoundary(s: string)
    requires Utf16Length(s) == MAX_MESSAGE_LENGTH || Utf16Length(s) == MAX_MESSAGE_LENGTH + 1
    ensures Utf16Length(s) == MAX_MESSAGE_LENGTH ==> ValidateBody(JsonBody(StringValue(s))) == BodyOk(s)
    ensures Utf16Length(s) == MAX_MESSAGE_LENGTH + 1 ==>
      ValidateBody(JsonBody(StringValue(s))) == BodyRefused("Message too long (max 2000 characters)")
  {
    TooLongTextNamesLimit();
  }

  /**
    The gate: 401 without a user, then 429 when the limiter refuses, then the
    body (400, or the uncaught error of a `null` body); `limited` is the
    limiter's answer for that user.
   */
  function Decide(user: Option<string>, limited: bool, body: RequestBody): (d: Decision)
  {
    if user.None? then Reject(401, UNAUTHORIZED)
    else if limited then Reject(429, TOO_MANY)
    else match ValidateBody(body)
      case BodyRefused(e) => Reject(400, e)
      case BodyThrows => Unhandled
      case BodyOk(m) => Accept(user.value, m)
  }

  /** The rejections come in a fixed order, and a request gets to generation only past all of them. */
  lemma DecideOrder(user: Option<string>, limited: bool, body: RequestBody)
    ensures var d := Decide(user, limited, body);
      && (d == Reject(401, UNAUTHORIZED) <==> user.None?)
      && (d == Reject(429, TOO_MANY) <==> user.Some? && limited)
      && (d.Reject? && d.status == 400 <==> user.Some? && !limited && ValidateBody(body).BodyRefused?)
      && (d.Unhandled? <==> user.Some? && !limited && body.NullBody?)
      && (d.Accept? <==> user.Some? && !limited && ValidateBody(body).BodyOk?)
      && (d.Accept? ==> d.user == user.value && d.message == ValidateBody(body).message)
  {
  }

  /**
    The limiter runs before the body is read: a request refused for its body,
    or one whose `null` body throws, has already been recorded against the
    user's window.
   */
  lemma BodyRejectionConsumesSlot(windows: map<string, seq<int>>, userId: string, now: int, body: RequestBody)
    requires Bounded(windows)
    ensures var d := Decide(Some(userId), Limited(windows, userId, now), body);
      (d.Reject? && d.status == 400) || d.Unhandled? ==>
        AfterCheck(windows, userId, now)[userId] == Recent(Stored(windows, userId), now) + [now]
  {
    AfterCheckSpec(windows, userId, now);
  }

  // ---------------------------------------------------------------------------
  // Conversation history and the message list

  /** The user's rows among the first `n` of `chat_messages`, oldest first. */
  function ForUserUpTo(log: seq<ChatMessage>, userId: string, n: nat): (r: seq<ChatMessage>)
    requires n <= |log|
    ensures |r| <= n
    ensures forall i :: 0 <= i < |r| ==> r[i].userId == userId && r[i] in log
  {
    if n == 0 then []
    else ForUserUpTo(log, userId, n - 1) + (if log[n - 1].userId == userId then [log[n - 1]] else [])
  }

  /** The user's rows of `chat_messages`, oldest first. */
  function ForUser(log: seq<ChatMessage>, userId: string): (r: seq<ChatMessage>)
  {
    ForUserUpTo(log, userId, |log|)
  }

  /** Rows appended later do not change the user's rows among the first `n`. */
  lemma {:induction false} ForUserUpToPrefix(log: seq<ChatMessage>, more: seq<ChatMessage>, userId: string, n: nat)
    requires n <= |log|
    ensures ForUserUpTo(log + more, userId, n) == ForUserUpTo(log, userId, n)
  {
    if n > 0 {
      ForUserUpToPrefix(log, more, userId, n - 1);
      assert (log + more)[n - 1] == log[n - 1];
    }
  }

  /** Saving a row extends the user's history by that row exactly when it is theirs. */
  lemma ForUserAppend(log: seq<ChatMessage>, m: ChatMessage, userId: string)
    ensures ForUser(log + [m], userId) == ForUser(log, userId) + (if m.userId == userId then [m] else [])
  {
    ForUserUpToPrefix(log, [m], userId, |log|);
    assert (log + [m])[|log|] == m;
  }

  /**
    The history query as written: `.order("created_at").limit(50)`, which is
    the user's OLDEST fifty rows.
   */
  function HistoryAsWritten(log: seq<ChatMessage>, userId: string): (r: seq<ChatMessage>)
  {
    var mine := ForUser(log, userId);
    if |mine| <= HISTORY_LIMIT then mine else mine[..HISTORY_LIMIT]
  }

  /** The conversation window as intended: the user's most recent fifty rows, oldest first. */
  function RecentHistory(log: seq<ChatMessage>, userId: string): (r: seq<ChatMessage>)
  {
    var mine := ForUser(log, userId);
    if |mine| <= HISTORY_LIMIT then mine else mine[|mine| - HISTORY_LIMIT..]
  }

  /**
    The window holds at most fifty rows, all the user's, and they are the
    latest ones in order: the end of the user's history, so the newest row
    is always in it.
   */
  lemma RecentHistoryIsLatest(log: seq<ChatMessage>, userId: string)
    ensures var mine := ForUser(log, userId);
      var r := RecentHistory(log, userId);
      && |r| == (if |mine| <= HISTORY_LIMIT then |mine| else HISTORY_LIMIT)
      && r == mine[|mine| - |r|..]
      && (mine != [] ==> r[|r| - 1] == mine[|mine| - 1])
      && forall i :: 0 <= i < |r| ==> r[i].userId == userId
  {
  }

  lemma {:induction false} ForUserUpToOwnLog(log: seq<ChatMessage>, userId: string, n: nat)
    requires n <= |log|
    requires forall i :: 0 <= i < |log| ==> log[i].userId == userId
    ensures ForUserUpTo(log, userId, n) == log[..n]
  {
    if n > 0 {
      ForUserUpToOwnLog(log, userId, n - 1);
      assert log[..n] == log[..n - 1] + [log[n - 1]];
    }
  }

  /** A log holding only the user's rows is its own history. */
  lemma ForUserOfOwnLog(log: seq<ChatMessage>, userId: string)
    requires forall i :: 0 <= i < |log| ==> log[i].userId == userId
    ensures ForUser(log, userId) == log
  {
    ForUserUpToOwnLog(log, userId, |log|);
    assert log[..|log|] == log;
  }

  /**
    The source's query misses the newest turn once a user has more than fifty:
    with fifty-one rows, the one just saved is not in the history.
   */
  lemma HistoryAsWrittenMissesNewest(userId: string)
    ensures var older := ChatMessage(userId, User, "older");
      var newest := ChatMessage(userId, User, "newest");
      var log := seq(HISTORY_LIMIT, _ => older) + [newest];
      && newest !in HistoryAsWritten(log, userId)
      && newest in RecentHistory(log, userId)
  {
    var older := ChatMessage(userId, User, "older");
    var newest := ChatMessage(userId, User, "newest");
    var log := seq(HISTORY_LIMIT, _ => older) + [newest];
    ForUserOfOwnLog(log, userId);
    assert HistoryAsWritten(log, userId) == log[..HISTORY_LIMIT];
    assert forall i :: 0 <= i < HISTORY_LIMIT ==> log[..HISTORY_LIMIT][i] == older;
    assert RecentHistory(log, userId)[HISTORY_LIMIT - 1] == newest;
  }

  /** One entry of the `messages` array sent to the backend. */
  datatype ApiMessage = ApiMessage(role: Role, content: string)

  /** `history.map(m => ({ role: m.role, content: m.content }))`. */
  function ApiTurns(history: seq<ChatMessage>): (r: seq<ApiMessage>)
    ensures |r| == |history|
    ensures forall i :: 0 <= i < |history| ==> r[i] == ApiMessage(history[i].role, history[i].content)
  {
    if history == [] then []
    else [ApiMessage(history[0].role, history[0].content)] + ApiTurns(history[1..])
  }

  /** The history rows as `{role, content}`, then the new message as a user turn. */
  function BuildMessages(history: seq<ChatMessage>, message: string): (r: seq<ApiMessage>)
    ensures |r| == |history| + 1
    ensures r[|history|] == ApiMessage(User, message)
    ensures forall i :: 0 <= i < |history| ==> r[i] == ApiMessage(history[i].role, history[i].content)
  {
    ApiTurns(history) + [ApiMessage(User, message)]
  }

  /** Built from the window, the list has at most fifty-one entries and ends with the new message. */
  lemma MessagesBounded(log: seq<ChatMessage>, userId: string, message: string)
    ensures var r := BuildMessages(RecentHistory(log, userId), message);
      |r| <= HISTORY_LIMIT + 1 && r[|r| - 1] == ApiMessage(User, message)
  {
  }

  /**
    The list sent to the backend is the user's latest `min(50, n)` saved turns
    of `n`, oldest first, each as its role and content, then the new message.
   */
  lemma MessagesAreLatestTurns(log: seq<ChatMessage>, userId: string, message: string)
    ensures var mine := ForUser(log, userId);
      var r := BuildMessages(RecentHistory(log, userId), message);
      var k := |r| - 1;
      && k == (if |mine| <= HISTORY_LIMIT then |mine| else HISTORY_LIMIT)
      && r[k] == ApiMessage(User, message)
      && forall i :: 0 <= i < k ==>
           r[i] == ApiMessage(mine[|mine| - k + i].role, mine[|mine| - k + i].content)
  {
    RecentHistoryIsLatest(log, userId);
    MessagesOfLatest(ForUser(log, userId), RecentHistory(log, userId), message);
  }

  /** The message list of a window that ends a history names the history's last rows. */
  lemma MessagesOfLatest(mine: seq<ChatMessage>, h: seq<ChatMessage>, message: string)
    requires |h| <= |mine| && h == mine[|mine| - |h|..]
    ensures var r := BuildMessages(h, message);
      var k := |r| - 1;
      && k == |h|
      && r[k] == ApiMessage(User, message)
      && forall i :: 0 <= i < k ==>
           r[i] == ApiMessage(mine[|mine| - k + i].role, mine[|mine| - k + i].content)
  {
    forall i | 0 <= i < |h| ensures h[i] == mine[|mine| - |h| + i] {
      assert h[i] == mine[|mine| - |h|..][i];
    }
  }

  // ---------------------------------------------------------------------------
  // The stream relay

  /** The `delta` of a `content_block_delta` event. */
  datatype Delta = TextDelta(text: string) | OtherDelta(kind: string)

  /** One event of the backend's stream. */
  datatype StreamEvent = ContentBlockDelta(delta: Delta) | OtherEvent(kind: string)

  /** One server-sent-events frame: `data: {"text": ...}` or `data: [DONE]`. */
  datatype Frame = DataFrame(text: string) | DoneFrame

  predicate IsTextDelta(e: StreamEvent) {
    e.ContentBlockDelta? && e.delta.TextDelta?
  }

  /** The text an event contributes: its delta's text for a text delta, nothing otherwise. */
  function DeltaText(e: StreamEvent): (r: seq<string>)
    ensures |r| <= 1
  {
    if IsTextDelta(e) then [e.delta.text] else []
  }

  /** The texts of the text deltas, in stream order; every other event is skipped. */
  function DeltaTexts(events: seq<StreamEvent>): (r: seq<string>)
    ensures |r| <= |events|
  {
    if events == [] then [] else DeltaTexts(events[..|events| - 1]) + DeltaText(events[|events| - 1])
  }

  function Concat(texts: seq<string>): string {
    if texts == [] then "" else Concat(texts[..|texts| - 1]) + texts[|texts| - 1]
  }

  lemma DeltaTextsStep(events: seq<StreamEvent>, i: nat)
    requires i < |events|
    ensures DeltaTexts(events[..i + 1]) == DeltaTexts(events[..i]) + DeltaText(events[i])
  {
    assert events[..i + 1][..i] == events[..i];
  }

  lemma ConcatAppend(texts: seq<string>, t: string)
    ensures Concat(texts + [t]) == Concat(texts) + t
  {
    assert (texts + [t])[..|texts|] == texts;
  }

  function DataFrames(texts: seq<string>): (r: seq<Frame>)
    ensures |r| == |texts| && forall i :: 0 <= i < |texts| ==> r[i] == DataFrame(texts[i])
  {
    seq(|texts|, i requires 0 <= i < |texts| => DataFrame(texts[i]))
  }

  function FrameText(f: Frame): string {
    if f.DataFrame? then f.text else ""
  }

  lemma DataFramesAppend(texts: seq<string>, t: string)
    ensures DataFrames(texts + [t]) == DataFrames(texts) + [DataFrame(t)]
  {
  }

  /** The text the caller is sent, frame by frame. */
  function FramesText(frames: seq<Frame>): string {
    if frames == [] then "" else FramesText(frames[..|frames| - 1]) + FrameText(frames[|frames| - 1])
  }

  /** Stream order is kept: the deltas of a concatenation are those of each part. */
  lemma {:induction false} DeltaTextsAppend(a: seq<StreamEvent>, b: seq<StreamEvent>)
    ensures DeltaTexts(a + b) == DeltaTexts(a) + DeltaTexts(b)
    decreases |b|
  {
    if b != [] {
      assert (a + b)[..|a + b| - 1] == a + b[..|b| - 1];
      assert (a + b)[|a + b| - 1] == b[|b| - 1];
      DeltaTextsAppend(a, b[..|b| - 1]);
    } else {
      assert a + b == a;
    }
  }

  /** Events that are not text deltas contribute nothing. */
  lemma {:induction false} DeltaTextsSkipsOthers(events: seq<StreamEvent>)
    requires forall i :: 0 <= i < |events| ==> !IsTextDelta(events[i])
    ensures DeltaTexts(events) == []
  {
    if events != [] { DeltaTextsSkipsOthers(events[..|events| - 1]); }
  }

  /** The caller is sent exactly the accumulated reply. */
  lemma {:induction false} FramesTextIsReply(texts: seq<string>)
    ensures FramesText(DataFrames(texts)) == Concat(texts)
    ensures FramesText(DataFrames(texts) + [DoneFrame]) == Concat(texts)
  {
    if texts != [] {
      assert DataFrames(texts)[..|texts| - 1] == DataFrames(texts[..|texts| - 1]);
      FramesTextIsReply(texts[..|texts| - 1]);
    }
    assert (DataFrames(texts) + [DoneFrame])[..|texts|] == DataFrames(texts);
  }

  /** One turn of the relay loop keeps the reply and the frames in step with the deltas seen. */
  lemma RelayStep(events: seq<StreamEvent>, i: nat, texts: seq<string>)
    requires i < |events| && texts == DeltaTexts(events[..i])
    ensures IsTextDelta(events[i]) ==>
      var t := events[i].delta.text;
      && DeltaTexts(events[..i + 1]) == texts + [t]
      && Concat(texts + [t]) == Concat(texts) + t
      && DataFrames(texts + [t]) == DataFrames(texts) + [DataFrame(t)]
    ensures !IsTextDelta(events[i]) ==> DeltaTexts(events[..i + 1]) == texts
  {
    DeltaTextsStep(events, i);
    if IsTextDelta(events[i]) {
      ConcatAppend(texts, events[i].delta.text);
      DataFramesAppend(texts, events[i].delta.text);
    }
  }

  /**
    The `for await` loop of the stream's `start`: for each text delta, append
    its text to `fullResponse` and enqueue one data frame.
   */
  method RelayDeltas(events: seq<StreamEvent>) returns (fullResponse: string, frames: seq<Frame>)
    ensures fullResponse == Concat(DeltaTexts(events))
    ensures frames == DataFrames(DeltaTexts(events))
  {
    fullResponse := "";
    frames := [];
    ghost var texts: seq<string> := [];
    var i := 0;
    while i < |events|
      invariant 0 <= i <= |events|
      invariant texts == DeltaTexts(events[..i])
      invariant fullResponse == Concat(texts)
      invariant frames == DataFrames(texts)
    {
      var e := events[i];
      RelayStep(events, i, texts);
      if e.ContentBlockDelta? && e.delta.TextDelta? {
        var text := e.delta.text;
        fullResponse := fullResponse + text;
        frames := frames + [DataFrame(text)];
        texts := texts + [text];
      }
      i := i + 1;
    }
    assert events[..|events|] == events;
  }

  // ---------------------------------------------------------------------------
  // The endpoint

  /** The response: a single status with a text, or the event stream. */
  /**
    What the caller gets: an error response, the failure the framework reports
    for an exception the handler does not catch, or the event stream.
   */
  datatype Response = Rejected(status: nat, text: string) | Failed | EventStream(frames: seq<Frame>)

  /** What the endpoint does, in order: a row saved, the backend called, a frame sent. */
  datatype Effect =
    | Saved(row: ChatMessage)
    | Generated(system: string, messages: seq<ApiMessage>)
    | Sent(frame: Frame)

  function SentAll(frames: seq<Frame>): (r: seq<Effect>)
    ensures |r| == |frames| && forall i :: 0 <= i < |frames| ==> r[i] == Sent(frames[i])
  {
    seq(|frames|, i requires 0 <= i < |frames| => Sent(frames[i]))
  }

  /** The text the assistant turn saves: the concatenated text deltas. */
  function ReplyText(stream: seq<StreamEvent>): string {
    Concat(DeltaTexts(stream))
  }

  /**
    The effects of one streamed exchange, in order: the user turn saved, the
    backend called, the data frames sent, the assistant turn saved, `[DONE]` sent.
   */
  function ExchangeTrace(asked: ChatMessage, system: string, apiMessages: seq<ApiMessage>,
                         sent: seq<Frame>, answered: ChatMessage): seq<Effect>
  {
    [Saved(asked), Generated(system, apiMessages)] + SentAll(sent) + [Saved(answered), Sent(DoneFrame)]
  }

  /** Appending the effects one by one builds the exchange trace. */
  lemma ExchangeTraceSteps(before: seq<Effect>, asked: ChatMessage, system: string,
                           apiMessages: seq<ApiMessage>, sent: seq<Frame>, answered: ChatMessage)
    ensures before + [Saved(asked)] + [Generated(system, apiMessages)] + SentAll(sent)
              + [Saved(answered)] + [Sent(DoneFrame)]
            == before + ExchangeTrace(asked, system, apiMessages, sent, answered)
  {
  }

  class ChatEndpoint {
    /** The module-level `rateLimitMap`. */
    const limiter: RateLimiter
    /** The `chat_messages` table; rows are only ever appended. */
    var messages: seq<ChatMessage>
    /** Everything the endpoint has done, oldest first. */
    ghost var effects: seq<Effect>

    ghost predicate Valid()
      reads this, limiter
    {
      limiter.Valid()
    }

    constructor (messages: seq<ChatMessage>)
      ensures Valid() && fresh(limiter)
      ensures limiter.windows == map[] && this.messages == messages && effects == []
    {
      limiter := new RateLimiter();
      this.messages := messages;
      effects := [];
    }

    /**
      One request. `user` is the authenticated caller, `now` the clock, `event`,
      `itinerary` and `checklist` the three context queries (`None` when a query
      returned no data) and `stream` the backend's events for this request.
     */
    method Post(user: Option<string>, body: RequestBody, now: int,
                event: Option<EventInfo>, itinerary: Option<seq<ItineraryItem>>,
                checklist: Option<seq<ChecklistItem>>, stream: seq<StreamEvent>)
      returns (r: Response)
      requires Valid()
      modifies this, limiter
      ensures Valid()
      ensures user.None? ==> limiter.windows == old(limiter.windows)
      ensures user.Some? ==> limiter.windows == AfterCheck(old(limiter.windows), user.value, now)
      ensures var d := Decide(user, user.Some? && Limited(old(limiter.windows), user.value, now), body);
        && (d.Reject? ==>
          && r == Rejected(d.status, d.text)
          && messages == old(messages) && effects == old(effects))
        && (d.Unhandled? ==>
          && r == Failed
          && messages == old(messages) && effects == old(effects))
        && (d.Accept? ==>
          var asked := ChatMessage(d.user, User, d.message);
          var answered := ChatMessage(d.user, Assistant, ReplyText(stream));
          var system := SystemPrompt(event, if itinerary.Some? then itinerary.value else [],
                                     if checklist.Some? then checklist.value else []);
          var sent := DataFrames(DeltaTexts(stream));
          var apiMessages := BuildMessages(RecentHistory(old(messages), d.user), d.message);
          && r == EventStream(sent + [DoneFrame])
          && messages == old(messages) + [asked, answered]
          && effects == old(effects) + ExchangeTrace(asked, system, apiMessages, sent, answered))
    {
      if user.None? {
        return Rejected(401, UNAUTHORIZED);
      }
      var userId := user.value;
      var limited := limiter.IsRateLimited(userId, now);
      if limited {
        return Rejected(429, TOO_MANY);
      }
      var checked := ValidateBody(body);
      if checked.BodyRefused? {
        return Rejected(400, checked.text);
      }
      if checked.BodyThrows? {
        return Failed;
      }
      var message := checked.message;

      var itineraryRows := if itinerary.Some? then itinerary.value else [];
      var checklistRows := if checklist.Some? then checklist.value else [];
      var system := SystemPrompt(event, itineraryRows, checklistRows);
      var history := RecentHistory(messages, userId);
      var apiMessages := BuildMessages(history, message);

      r := Exchange(userId, message, system, apiMessages, stream);
      assert Decide(user, limited, body) == Accept(userId, message);
    }

    /**
      The accepted request: save the user turn, call the backend, relay its
      stream, save the assistant turn, send `[DONE]`.
     */
    method Exchange(userId: string, message: string, system: string, apiMessages: seq<ApiMessage>,
                    stream: seq<StreamEvent>)
      returns (r: Response)
      modifies this
      ensures var asked := ChatMessage(userId, User, message);
        var answered := ChatMessage(userId, Assistant, ReplyText(stream));
        var sent := DataFrames(DeltaTexts(stream));
        && r == EventStream(sent + [DoneFrame])
        && messages == old(messages) + [asked, answered]
        && effects == old(effects) + ExchangeTrace(asked, system, apiMessages, sent, answered)
    {
      var asked := ChatMessage(userId, User, message);
      messages := messages + [asked];
      effects := effects + [Saved(asked)];
      effects := effects + [Generated(system, apiMessages)];

      var fullResponse, frames := RelayDeltas(stream);
      effects := effects + SentAll(frames);

      var answered := ChatMessage(userId, Assistant, fullResponse);
      messages := messages + [answered];
      effects := effects + [Saved(answered)];
      effects := effects + [Sent(DoneFrame)];
      r := EventStream(frames + [DoneFrame]);
      ExchangeTraceSteps(old(effects), asked, system, apiMessages, frames, answered);
    }
  }

  /**
    In the effect trace of a streamed reply, the user turn is saved before the
    backend is called, and the assistant turn is saved after every data frame
    and just before the single final `[DONE]` frame.
   */
  lemma StreamedEffectsOrder(asked: ChatMessage, answered: ChatMessage, system: string,
                             messages: seq<ApiMessage>, sent: seq<Frame>)
    requires forall i :: 0 <= i < |sent| ==> sent[i].DataFrame?
    ensures var t := ExchangeTrace(asked, system, messages, sent, answered);
      && t[0] == Saved(asked) && t[1].Generated?
      && t[|t| - 2] == Saved(answered) && t[|t| - 1] == Sent(DoneFrame)
      && (forall i :: 0 <= i < |t| - 1 ==> t[i] != Sent(DoneFrame))
      && (forall i :: 2 <= i < |t| - 2 ==> t[i].Sent? && t[i].frame.DataFrame?)
  {
    var t := ExchangeTrace(asked, system, messages, sent, answered);
    forall i | 2 <= i < |t| - 2 ensures t[i] == Sent(sent[i - 2]) {
      assert t[i] == SentAll(sent)[i - 2];
    }
  }
}
