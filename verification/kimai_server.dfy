/** `KimaiServer.HandleCommand` (KimaiAutoEntryApp/KimaiServer.cs): the
    dispatcher behind the auto-entry app's pipe. Its `Authenticate()` posts
    the server's own readonly credentials and is not guarded, so an
    exception from the POST escapes the dispatcher. */
module KimaiServer {
  import opened Common
  import opened Text
  import opened Commands

  /** The readonly `username` and `password` fields that `Authenticate()`
      posts; the locals of the same name in the login branch shadow them
      and are never used. */
  const ServerName: string := ""
  const ServerPassword: string := ""

  const HelpText: string :=
    "Available commands:\n"
    + "\tkimai login <username> <password>\n"
    + "\tkimai add <project> <activity> <duration> <comment>\n"
    + "\tkimai logout\n"
    + "\tkimai help\n"

  /** One request; `None` is the `null` a closed pipe reads as, and `auth`
      says what `Authenticate()` would do if called. */
  function HandleCommand(s: Session, request: Option<string>, auth: Remote): (r: Step)
    ensures request.None? ==> r == Step(Some(HelpText), s, [])
    ensures r.reply != Some(NoCommand)
    // a posted request marks the handler, even when the post throws
    ensures r.session.sent == (s.sent || Sends(r.calls))
    // an escaping exception changes nothing else
    ensures r.reply.None? ==> r.session == s.(sent := r.session.sent)
    ensures Consistent(s.timer) ==> Consistent(r.session.timer)
    ensures Coherent(s) ==> Coherent(r.session)
    ensures s.timer.enabled ==> r.session.timer.enabled
    ensures request.Some? && Verb(request.value) == "login" && |Args(request.value)| < 3 ==>
              r.reply.None? && r.calls == []
    ensures request.Some? && Verb(request.value) == "login" && |Args(request.value)| >= 3 ==>
              r.calls == [Authenticate(ServerName, ServerPassword)]
    ensures r.reply == Some(LoggedIn) <==> request.Some? && LoginSucceeds(request.value, auth)
    ensures request.Some? && LoginSucceeds(request.value, auth) ==>
              && r.session.timer.enabled
              && r.session.timer.intervalMs == DayMs
              && r.session.timer.handlers == s.timer.handlers + 1
              && r.session.cookieResets == s.cookieResets
    ensures request.Some? && Verb(request.value) == "login" && |Args(request.value)| >= 3 && auth == Returned(false) ==>
              r.reply == Some(LoginFailed) && r.session == s.(sent := true)
    // a throwing `Authenticate()` escapes with no reply
    ensures request.Some? && Verb(request.value) == "login" && |Args(request.value)| >= 3 && auth == Raised ==>
              r == Step(None, s.(sent := true), [Authenticate(ServerName, ServerPassword)])
    // logout: a fresh cookie jar, and the timer keeps running; once a request
    // has been sent, replacing the cookie jar throws
    ensures request.Some? && Verb(request.value) == "logout" && s.sent ==>
              r == Step(None, s, [ResetCookies])
    ensures request.Some? && Verb(request.value) == "logout" && !s.sent ==>
              r == Step(Some(LoggedOut), s.(cookieResets := s.cookieResets + 1), [ResetCookies])
    ensures request.Some? && Verb(request.value) == "help" ==> r == Step(Some(HelpText), s, [])
    // addEntry has no case of its own
    ensures request.Some? && Verb(request.value) !in {"login", "logout", "help"} ==>
              r == Step(Some(InvalidCommand), s, [])
  {
    match request
    case None => Step(Some(HelpText), s, [])
    case Some(text) =>
      var args := Args(text);
      if |args| == 0 then Step(Some(NoCommand), s, [])
      else if args[0] == "login" then
        if |args| < 3 then Step(None, s, [])
        else
          var calls := [Authenticate(ServerName, ServerPassword)];
          assert calls[0] != ResetCookies;
          var posted := s.(sent := true);
          match auth
          case Raised => Step(None, posted, calls)
          case Returned(true) => Step(Some(LoggedIn), posted.(timer := ArmDaily(s.timer)), calls)
          case Returned(false) => Step(Some(LoginFailed), posted, calls)
      else if args[0] == "logout" then
        if s.sent then Step(None, s, [ResetCookies])
        else Step(Some(LoggedOut), s.(cookieResets := s.cookieResets + 1), [ResetCookies])
      else if args[0] == "help" then Step(Some(HelpText), s, [])
      else Step(Some(InvalidCommand), s, [])
  }

  /** The verb listed in the source's own comment is not understood. */
  lemma AddEntryIsInvalid(s: Session, auth: Remote)
    ensures HandleCommand(s, Some("addEntry"), auth) == Step(Some(InvalidCommand), s, [])
  {
    assert Args("addEntry") == ["addEntry"] by {
      SplitUnique("addEntry", ' ', ["addEntry"]);
    }
  }

  /** Only the verb and whether there are at least three words matter: the
      user name and password in the request never reach the remote site. */
  lemma ArgumentsIgnored(s: Session, a: string, b: string, auth: Remote)
    requires Verb(a) == Verb(b)
    requires |Args(a)| >= 3 <==> |Args(b)| >= 3
    ensures HandleCommand(s, Some(a), auth) == HandleCommand(s, Some(b), auth)
  {
  }

  /** Log in, then log out: the login's post marks the handler, so the
      logout throws instead of answering, and the timer keeps running. */
  lemma LogoutAfterLoginFaults(auth: Remote)
    ensures var s := HandleCommand(NewSession, Some("login a b"), auth).session;
            && s.sent
            && HandleCommand(s, Some("logout"), auth) == Step(None, s, [ResetCookies])
  {
    LoginMarks(NewSession, auth);
    LogoutFaults(HandleCommand(NewSession, Some("login a b"), auth).session, auth);
  }

  lemma LoginMarks(s: Session, auth: Remote)
    ensures HandleCommand(s, Some("login a b"), auth).session.sent
  {
    assert Args("login a b") == ["login", "a", "b"] by {
      SplitUnique("login a b", ' ', ["login", "a", "b"]);
    }
  }

  lemma LogoutFaults(s: Session, auth: Remote)
    requires s.sent
    ensures HandleCommand(s, Some("logout"), auth) == Step(None, s, [ResetCookies])
  {
    assert Args("logout") == ["logout"] by {
      SplitUnique("logout", ' ', ["logout"]);
    }
  }

  /** A request together with what its authentication would do. */
  datatype Request = Request(text: Option<string>, auth: Remote)

  /** The state after handling `rs` in order, starting from `s`. */
  function Run(s: Session, rs: seq<Request>): Session
    decreases |rs|
  {
    if rs == [] then s
    else Run(HandleCommand(s, rs[0].text, rs[0].auth).session, rs[1..])
  }

  function SuccessfulLogins(rs: seq<Request>): nat {
    if rs == [] then 0
    else (if rs[0].text.Some? && LoginSucceeds(rs[0].text.value, rs[0].auth) then 1 else 0)
         + SuccessfulLogins(rs[1..])
  }

  /** Every successful login adds one more `Elapsed` handler; none is ever
      removed. */
  lemma {:induction false} HandlersCountLogins(s: Session, rs: seq<Request>)
    ensures Run(s, rs).timer.handlers == s.timer.handlers + SuccessfulLogins(rs)
    decreases |rs|
  {
    if rs != [] {
      HandlersCountLogins(HandleCommand(s, rs[0].text, rs[0].auth).session, rs[1..]);
    }
  }

  /** Once started, the timer is never stopped: after any further requests,
      logouts included, it is still running and still consistent. */
  lemma {:induction false} TimerNeverStops(s: Session, rs: seq<Request>)
    requires s.timer.enabled && Consistent(s.timer)
    ensures Run(s, rs).timer.enabled && Consistent(Run(s, rs).timer)
    decreases |rs|
  {
    if rs != [] {
      TimerNeverStops(HandleCommand(s, rs[0].text, rs[0].auth).session, rs[1..]);
    }
  }
}
