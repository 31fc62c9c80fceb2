/** What the two command dispatchers (`KimaiBot.HandleCommand` and
    `KimaiServer.HandleCommand`) have in common: the reply texts, the
    `System.Timers.Timer` they drive, the remote calls they make, and how a
    request is cut into a verb and arguments. */
module Commands {
  import opened Common
  import opened Text

  const LoggedIn: string := "Successfully logged in."
  const LoginFailed: string := "Failed to log in."
  const LoggedOut: string := "Successfully logged out."
  const EntryAdded: string := "Successfully added entry."
  const InvalidCommand: string := "Invalid command."
  const NoCommand: string := "No command provided."

  /** `1000 * 60 * 60 * 24`: one day in milliseconds. */
  const DayMs: int := 1000 * 60 * 60 * 24

  /** The interval a new `System.Timers.Timer` starts with. */
  const DefaultIntervalMs: int := 100

  /** The timer as the dispatchers see it: whether it is started, its
      interval, and how many `Elapsed` handlers are subscribed. */
  datatype Timer = Timer(enabled: bool, intervalMs: int, handlers: nat)

  const NewTimer: Timer := Timer(false, DefaultIntervalMs, 0)

  /** What a successful login does to the timer: one more `Elapsed` handler,
      a one-day interval, and `Start()`. */
  function ArmDaily(t: Timer): Timer {
    Timer(true, DayMs, t.handlers + 1)
  }

  /** The timer only runs with a handler attached, and once a handler is
      attached the interval is one day. */
  predicate Consistent(t: Timer) {
    && (t.enabled ==> t.handlers >= 1)
    && (t.handlers >= 1 ==> t.intervalMs == DayMs)
  }

  /** A call into the HTTP client. `Authenticate` records the credentials
      it posts; `ResetCookies` is the logout's fresh or cleared cookie jar. */
  datatype Call = Authenticate(name: string, password: string) | AddEntry | ResetCookies

  /** The state a dispatcher mutates: its timer, how many times its cookie
      jar has been replaced, and whether its `HttpClientHandler` has sent a
      request. Once it has, .NET refuses to replace the handler's
      `CookieContainer`: the setter throws `InvalidOperationException`. */
  datatype Session = Session(timer: Timer, cookieResets: nat, sent: bool)

  const NewSession: Session := Session(NewTimer, 0, false)

  /** Whether the calls include one that sends a request through the
      handler. */
  predicate Sends(calls: seq<Call>) {
    exists k :: 0 <= k < |calls| && calls[k] != ResetCookies
  }

  /** A consistent timer, and a handler on it only after a request has been
      sent: handlers come from logins, and a login posts. */
  predicate Coherent(s: Session) {
    Consistent(s.timer) && (s.timer.handlers >= 1 ==> s.sent)
  }

  /** The effect of one request: the reply, or `None` when an exception
      escapes the dispatcher; the state afterwards; the calls made. */
  datatype Step = Step(reply: Option<string>, session: Session, calls: seq<Call>)

  /** `request.Split(' ')`. */
  function Args(request: string): (args: seq<string>)
    ensures |args| >= 1
  {
    Split(request, ' ')
  }

  /** `args[0]`: the text before the first space. */
  function Verb(request: string): string {
    Args(request)[0]
  }

  /** The verb of a request is its text up to the first space, or all of it
      when it has none. */
  lemma VerbIsFirstWord(request: string)
    ensures Verb(request) <= request && ' ' !in Verb(request)
    ensures |Verb(request)| < |request| ==> request[|Verb(request)|] == ' '
  {
    FirstTokenIsPrefix(Args(request), ' ');
  }

  /** A `login` that gets past `args[1]` and `args[2]` and whose
      authentication returns `true`. */
  predicate LoginSucceeds(request: string, auth: Remote) {
    Verb(request) == "login" && |Args(request)| >= 3 && auth == Returned(true)
  }

  /** The `AddEntryComboRnD` calls one `Elapsed` event makes: each handler in
      subscription order, `results[i]` being what the i-th one's call does.
      An exception stops the rest of the handler list (the timer swallows
      it). A stopped timer raises no event. */
  function ElapsedCalls(t: Timer, results: seq<Remote>): (calls: seq<Call>)
    requires |results| == t.handlers
    ensures !t.enabled ==> calls == []
    ensures |calls| <= t.handlers
    ensures forall k :: 0 <= k < |calls| ==> calls[k] == AddEntry
    ensures t.enabled && (forall k :: 0 <= k < |results| ==> results[k].Returned?) ==> |calls| == t.handlers
    // every call but the last returned, and stopping early means the last one threw
    ensures t.enabled ==> forall k :: 0 <= k < |calls| - 1 ==> results[k].Returned?
    ensures t.enabled && |calls| < t.handlers ==> |calls| > 0 && results[|calls| - 1] == Raised
  {
    if !t.enabled then [] else HandlerCalls(results)
  }

  function HandlerCalls(results: seq<Remote>): (calls: seq<Call>)
    ensures |calls| <= |results|
    ensures forall k :: 0 <= k < |calls| ==> calls[k] == AddEntry
    ensures (forall k :: 0 <= k < |results| ==> results[k].Returned?) ==> |calls| == |results|
    ensures forall k :: 0 <= k < |calls| - 1 ==> results[k].Returned?
    ensures |calls| < |results| ==> |calls| > 0 && results[|calls| - 1] == Raised
  {
    if results == [] then []
    else if results[0] == Raised then [AddEntry]
    else [AddEntry] + HandlerCalls(results[1..])
  }

  /** Handlers whose calls return leave the later handlers alone: the calls
      of the whole list are those of that returning prefix followed by those
      of the rest. */
  lemma {:induction false} ReturningHandlersCompose(a: seq<Remote>, b: seq<Remote>)
    requires forall k :: 0 <= k < |a| ==> a[k].Returned?
    ensures HandlerCalls(a + b) == HandlerCalls(a) + HandlerCalls(b)
    decreases |a|
  {
    if a == [] {
      assert a + b == b;
    } else {
      assert (a + b)[0] == a[0];
      assert (a + b)[1..] == a[1..] + b;
      ReturningHandlersCompose(a[1..], b);
    }
  }
}
