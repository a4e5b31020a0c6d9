/**
  The SCORM run-time API object the course player exposes to the content frame as `window.API`.
  Method names are those of the SCORM 2004 run-time environment; the data elements addressed are the
  SCORM 1.2 `cmi.core.*` ones. The player's only state is the `progress` number; every call is
  accepted in any order and returns a string. Network requests the calls start are emitted as values;
  the completion request's settlement comes back as a separate event because the state change it
  causes happens only when the request settles.
*/
module ScormPlayer {
  import opened Wrappers
  import opened JsNumber

  const LessonStatus := "cmi.core.lesson_status"
  const ScoreRaw := "cmi.core.score.raw"

  /** A JavaScript number as the player holds it: an integer, or `NaN` from a non-numeric score. */
  datatype Gauge = Percent(value: int) | NotANumber

  datatype Session = Session(progress: Gauge)

  /** `useState(0)`. */
  const Initial := Session(Percent(0))

  datatype Request =
    /** POST to the course's progress endpoint: the clamped progress and the raw score. */
    | ProgressPost(progress: Gauge, score: Gauge, timestamp: string)
    /** POST to the course's completion endpoint. */
    | CompletePost

  datatype Call =
    | Initialize
    | Terminate
    | GetValue(element: string)
    | SetValue(element: string, value: string)
    | Commit
    | GetLastError
    | GetErrorString(code: string)
    | GetDiagnostic(code: string)

  /** What one API call returns to the content, the state after it, and the requests it started. */
  datatype Step = Step(result: string, session: Session, requests: seq<Request>)

  /** `Math.min(Math.max(v, 0), 100)`. */
  function Clamp(v: int): (r: int)
    ensures 0 <= r <= 100
    ensures 0 <= v <= 100 ==> r == v
    ensures v < 0 ==> r == 0
    ensures v > 100 ==> r == 100
  {
    if v < 0 then 0 else if v > 100 then 100 else v
  }

  /** The clamp on a JavaScript number: `Math.max` and `Math.min` propagate `NaN`. */
  function ClampGauge(g: Gauge): (r: Gauge)
    ensures g.NotANumber? <==> r.NotANumber?
    ensures g.Percent? ==> r.value == Clamp(g.value)
  {
    match g
    case NotANumber => NotANumber
    case Percent(v) => Percent(Clamp(v))
  }

  /** `parseInt(value)`. */
  function ParseGauge(value: string): (g: Gauge)
    ensures g.NotANumber? <==> ParseInt(value).None?
    ensures g.Percent? ==> ParseInt(value) == Some(g.value)
  {
    match ParseInt(value)
    case None => NotANumber
    case Some(n) => Percent(n)
  }

  /** `progress.toString()`. */
  function GaugeString(g: Gauge): (s: string)
    ensures g.NotANumber? ==> s == "NaN"
    ensures g.Percent? ==> ParseInt(s) == Some(g.value)
  {
    match g
    case NotANumber => "NaN"
    case Percent(v) => ParseIntOfIntToString(v); IntToString(v)
  }

  /**
    `updateProgress(value)`: the local progress is set to the clamped value before the request is sent,
    so a failed request (whose error is swallowed) leaves the new progress in place.
  */
  function UpdateProgress(s: Session, value: Gauge, now: string): (step: (Session, Request))
    ensures step.0.progress == ClampGauge(value)
    ensures step.1.ProgressPost? && step.1.progress == step.0.progress && step.1.score == value
    ensures step.1.timestamp == now
  {
    var clamped := ClampGauge(value);
    (s.(progress := clamped), ProgressPost(clamped, value, now))
  }

  /** `GetValue(element)`. */
  function ReadElement(s: Session, element: string): (r: string)
    ensures element == LessonStatus ==> (r == "completed" <==> s.progress == Percent(100))
    ensures element == LessonStatus ==> (r == "incomplete" <==> s.progress != Percent(100))
    ensures element == ScoreRaw ==> r == GaugeString(s.progress)
    ensures element != LessonStatus && element != ScoreRaw ==> r == ""
  {
    if element == LessonStatus then
      if s.progress == Percent(100) then "completed" else "incomplete"
    else if element == ScoreRaw then GaugeString(s.progress)
    else ""
  }

  /** One call of the API object; `now` is the clock reading used for the progress request's timestamp. */
  function Api(s: Session, call: Call, now: string): (step: Step)
    ensures call.SetValue? ==> step.result == "true"
    ensures call.Initialize? || call.Terminate? || call.Commit? ==> step.result == "true"
    ensures call.GetLastError? ==> step.result == "0"
    ensures call.GetErrorString? ==> step.result == "No error"
    ensures call.GetDiagnostic? ==> step.result == "No diagnostic info"
    ensures call.GetValue? ==> step.result == ReadElement(s, call.element)
    ensures !(call.SetValue? && call.element == ScoreRaw) ==> step.session == s
    ensures !call.SetValue? ==> step.requests == []
  {
    match call
    case Initialize => Step("true", s, [])
    case Terminate => Step("true", s, [])
    case GetValue(element) => Step(ReadElement(s, element), s, [])
    case SetValue(element, value) =>
      if element == LessonStatus then
        Step("true", s, if value == "completed" then [CompletePost] else [])
      else if element == ScoreRaw then
        var (next, request) := UpdateProgress(s, ParseGauge(value), now);
        Step("true", next, [request])
      else Step("true", s, [])
    case Commit => Step("true", s, [])
    case GetLastError => Step("0", s, [])
    case GetErrorString(_) => Step("No error", s, [])
    case GetDiagnostic(_) => Step("No diagnostic info", s, [])
  }

  /** `handleCompletion` after its request settles: progress becomes 100 only if the request resolved. */
  function CompletionSettled(s: Session, resolved: bool): (next: Session)
    ensures resolved ==> next.progress == Percent(100)
    ensures !resolved ==> next == s
  {
    if resolved then s.(progress := Percent(100)) else s
  }

  /** What the player sees over time: API calls from the content, and completion requests settling. */
  datatype Event =
    | ApiCall(call: Call, now: string)
    | Settled(resolved: bool)

  /** Results returned to the content (one per API call, in order), final state, requests in order. */
  datatype Trace = Trace(results: seq<string>, session: Session, requests: seq<Request>)

  function Run(s: Session, events: seq<Event>): (t: Trace)
    ensures |t.results| <= |events|
    decreases |events|
  {
    if events == [] then Trace([], s, [])
    else
      var before := Run(s, events[..|events| - 1]);
      match events[|events| - 1]
      case ApiCall(call, now) =>
        var step := Api(before.session, call, now);
        Trace(before.results + [step.result], step.session, before.requests + step.requests)
      case Settled(resolved) =>
        Trace(before.results, CompletionSettled(before.session, resolved), before.requests)
  }

  // ---------------------------------------------------------------------------------------------
  // Properties

  /** Clamping lands in [0, 100], leaves in-range values alone, and clamping twice is clamping once. */
  lemma ClampProperties(v: int)
    ensures 0 <= Clamp(v) <= 100
    ensures Clamp(Clamp(v)) == Clamp(v)
    ensures ClampGauge(ClampGauge(Percent(v))) == ClampGauge(Percent(v))
  {
  }

  /** Setting the raw score stores the clamped number and posts it together with the unclamped score. */
  lemma SetScore(s: Session, v: int, now: string)
    ensures var step := Api(s, SetValue(ScoreRaw, IntToString(v)), now);
      && step.result == "true"
      && step.session.progress == Percent(Clamp(v))
      && step.requests == [ProgressPost(Percent(Clamp(v)), Percent(v), now)]
  {
    ParseIntOfIntToString(v);
  }

  /** The score read back after setting an in-range score is the score that was set. */
  lemma ScoreReadBack(s: Session, v: int, now: string)
    requires 0 <= v <= 100
    ensures var after := Api(s, SetValue(ScoreRaw, IntToString(v)), now).session;
      ParseInt(Api(after, GetValue(ScoreRaw), now).result) == Some(v)
  {
    SetScore(s, v, now);
  }

  /** Completion is requested on every call, with no memory of an earlier one and no state change. */
  lemma CompletionNotDeduplicated(s: Session, now: string)
    ensures var first := Api(s, SetValue(LessonStatus, "completed"), now);
      && first.requests == [CompletePost]
      && first.session == s
      && Api(first.session, SetValue(LessonStatus, "completed"), now).requests == [CompletePost]
  {
  }

  /** A lesson status other than "completed" changes nothing and requests nothing. */
  lemma OtherStatusIgnored(s: Session, value: string, now: string)
    requires value != "completed"
    ensures Api(s, SetValue(LessonStatus, value), now) == Step("true", s, [])
  {
  }

  /** Progress stays a number in [0, 100] (or `NaN`) whatever the content does. */
  ghost predicate InRange(s: Session) {
    s.progress.NotANumber? || 0 <= s.progress.value <= 100
  }

  lemma {:induction false} RunKeepsRange(s: Session, events: seq<Event>)
    requires InRange(s)
    ensures InRange(Run(s, events).session)
    decreases |events|
  {
    if events != [] {
      RunKeepsRange(s, events[..|events| - 1]);
    }
  }

  predicate IsCompletionCall(e: Event) {
    e.ApiCall? && e.call.SetValue? && e.call.element == LessonStatus && e.call.value == "completed"
  }

  function CountCompletionCalls(events: seq<Event>): nat
    decreases |events|
  {
    if events == [] then 0
    else CountCompletionCalls(events[..|events| - 1]) + (if IsCompletionCall(events[|events| - 1]) then 1 else 0)
  }

  function CountCompletePosts(requests: seq<Request>): nat
    decreases |requests|
  {
    if requests == [] then 0
    else CountCompletePosts(requests[..|requests| - 1]) + (if requests[|requests| - 1].CompletePost? then 1 else 0)
  }

  lemma {:induction false} CountCompletePostsAppend(a: seq<Request>, b: seq<Request>)
    ensures CountCompletePosts(a + b) == CountCompletePosts(a) + CountCompletePosts(b)
    decreases |b|
  {
    if b != [] {
      assert (a + b)[..|a + b| - 1] == a + b[..|b| - 1];
      CountCompletePostsAppend(a, b[..|b| - 1]);
    } else {
      assert a + b == a;
    }
  }

  /** Exactly one completion request per `SetValue(lesson_status, "completed")` call, over any run. */
  lemma {:induction false} RunCompletionRequests(s: Session, events: seq<Event>)
    ensures CountCompletePosts(Run(s, events).requests) == CountCompletionCalls(events)
    decreases |events|
  {
    if events != [] {
      var prefix := events[..|events| - 1];
      RunCompletionRequests(s, prefix);
      var before := Run(s, prefix);
      match events[|events| - 1]
      case ApiCall(call, now) =>
        var step := Api(before.session, call, now);
        CountCompletePostsAppend(before.requests, step.requests);
        assert CountCompletePosts(step.requests) == if IsCompletionCall(events[|events| - 1]) then 1 else 0 by {
          if step.requests != [] {
            assert step.requests[..0] == [];
          }
        }
      case Settled(_) =>
    }
  }

  function CountApiCalls(events: seq<Event>): nat
    decreases |events|
  {
    if events == [] then 0
    else CountApiCalls(events[..|events| - 1]) + (if events[|events| - 1].ApiCall? then 1 else 0)
  }

  /** Every API call in any run is answered with a result: no call order is refused. */
  lemma {:induction false} RunAnswersEveryCall(s: Session, events: seq<Event>)
    ensures |Run(s, events).results| == CountApiCalls(events)
    decreases |events|
  {
    if events != [] {
      RunAnswersEveryCall(s, events[..|events| - 1]);
    }
  }

  /**
    Events are handled one after another: a run over the first `n` events is the start of the whole run,
    so a later event never changes an answer already given or a request already sent.
  */
  lemma {:induction false} RunExtends(s: Session, events: seq<Event>, n: nat)
    requires n <= |events|
    ensures Run(s, events[..n]).results <= Run(s, events).results
    ensures Run(s, events[..n]).requests <= Run(s, events).requests
    decreases |events|
  {
    if n < |events| {
      var prefix := events[..|events| - 1];
      assert events[..n] == prefix[..n];
      RunExtends(s, prefix, n);
    } else {
      assert events[..n] == events;
    }
  }
}
