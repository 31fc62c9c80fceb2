/** `KimaiBot.HandleCommand` (KimaiBotService/KimaiBot.cs). Its HTTP client
    is the one with the zero-argument `Authenticate()` and
    `AddEntryComboRnD()` (KimaiBotService/KimaiHttpClient.cs): neither call is
    guarded, so an exception from either escapes the dispatcher. */
module KimaiBot {
  import opened Common
  import opened Text
  import opened Commands

  /** The readonly `username` and `password` fields of the bot's client,
      which are what `Authenticate()` posts. */
  const ClientName: string := ""
  const ClientPassword: string := ""

  /** One request: `auth` and `entry` say what `Authenticate()` and
      `AddEntryComboRnD()` would do if called. */
  function HandleCommand(s: Session, request: string, auth: Remote, entry: Remote): (r: Step)
    // Split never yields an empty array, so this reply cannot occur
    ensures r.reply != Some(NoCommand)
    // a posted request marks the handler, even when the post throws
    ensures r.session.sent == (s.sent || Sends(r.calls))
    // an escaping exception changes nothing else
    ensures r.reply.None? ==> r.session == s.(sent := r.session.sent)
    ensures Consistent(s.timer) ==> Consistent(r.session.timer)
    ensures Coherent(s) ==> Coherent(r.session)
    // login: faults on args[1]/args[2] before any call; otherwise posts the
    // client's own credentials, never the ones in the request
    ensures Verb(request) == "login" && |Args(request)| < 3 ==> r.reply.None? && r.calls == []
    ensures Verb(request) == "login" && |Args(request)| >= 3 ==> r.calls == [Authenticate(ClientName, ClientPassword)]
    ensures r.reply == Some(LoggedIn) <==> LoginSucceeds(request, auth)
    ensures LoginSucceeds(request, auth) ==>
              && r.session.timer.enabled
              && r.session.timer.intervalMs == DayMs
              && r.session.timer.handlers == s.timer.handlers + 1
              && r.session.cookieResets == s.cookieResets
    ensures Verb(request) == "login" && |Args(request)| >= 3 && auth == Returned(false) ==>
              r.reply == Some(LoginFailed) && r.session == s.(sent := true)
    // a throwing `Authenticate()` escapes: no reply, and the timer untouched
    ensures Verb(request) == "login" && |Args(request)| >= 3 && auth == Raised ==>
              r == Step(None, s.(sent := true), [Authenticate(ClientName, ClientPassword)])
    // logout: once a request has been sent, replacing the cookie jar throws
    // before `timer.Stop()` is reached
    ensures Verb(request) == "logout" && s.sent ==> r == Step(None, s, [ResetCookies])
    // before that, it stops the timer but keeps every handler
    ensures Verb(request) == "logout" && !s.sent ==>
              && r.reply == Some(LoggedOut)
              && r.calls == [ResetCookies]
              && !r.session.timer.enabled
              && r.session.timer.handlers == s.timer.handlers
              && r.session.timer.intervalMs == s.timer.intervalMs
              && r.session.cookieResets == s.cookieResets + 1
              && !r.session.sent
    // addEntry: the entry's result is ignored
    ensures Verb(request) == "addEntry" ==> r.calls == [AddEntry] && r.session == s.(sent := true)
    ensures Verb(request) == "addEntry" && entry.Returned? ==> r.reply == Some(EntryAdded)
    ensures Verb(request) == "addEntry" && entry == Raised ==> r.reply.None?
    ensures Verb(request) !in {"login", "logout", "addEntry"} ==> r == Step(Some(InvalidCommand), s, [])
  {
    var args := Args(request);
    if |args| == 0 then Step(Some(NoCommand), s, [])
    else if args[0] == "login" then
      if |args| < 3 then Step(None, s, [])
      else
        var calls := [Authenticate(ClientName, ClientPassword)];
        assert calls[0] != ResetCookies;
        var posted := s.(sent := true);
        match auth
        case Raised => Step(None, posted, calls)
        case Returned(true) => Step(Some(LoggedIn), posted.(timer := ArmDaily(s.timer)), calls)
        case Returned(false) => Step(Some(LoginFailed), posted, calls)
    else if args[0] == "logout" then
      if s.sent then Step(None, s, [ResetCookies])
      else Step(Some(LoggedOut), s.(timer := s.timer.(enabled := false), cookieResets := s.cookieResets + 1), [ResetCookies])
    else if args[0] == "addEntry" then
      var calls := [AddEntry];
      assert calls[0] != ResetCookies;
      match entry
      case Raised => Step(None, s.(sent := true), calls)
      case Returned(_) => Step(Some(EntryAdded), s.(sent := true), calls)
    else Step(Some(InvalidCommand), s, [])
  }

  /** The empty request is not "No command provided.": it splits into one
      empty verb and is an invalid command. */
  lemma EmptyRequestIsInvalid(s: Session, auth: Remote, entry: Remote)
    ensures HandleCommand(s, "", auth, entry) == Step(Some(InvalidCommand), s, [])
  {
    assert Args("") == [""];
  }

  /** Only the verb and whether there are at least three words matter: the
      user name and password in the request never influence anything. */
  lemma ArgumentsIgnored(s: Session, a: string, b: string, auth: Remote, entry: Remote)
    requires Verb(a) == Verb(b)
    requires |Args(a)| >= 3 <==> |Args(b)| >= 3
    ensures HandleCommand(s, a, auth, entry) == HandleCommand(s, b, auth, entry)
  {
  }

  /** A request together with what its remote calls would do. */
  datatype Request = Request(text: string, auth: Remote, entry: Remote)

  /** The state after handling `rs` in order, starting from `s`. */
  function Run(s: Session, rs: seq<Request>): Session
    decreases |rs|
  {
    if rs == [] then s
    else Run(HandleCommand(s, rs[0].text, rs[0].auth, rs[0].entry).session, rs[1..])
  }

  /** How many requests of `rs` are logins that succeed. */
  function SuccessfulLogins(rs: seq<Request>): nat {
    if rs == [] then 0
    else (if LoginSucceeds(rs[0].text, rs[0].auth) then 1 else 0) + SuccessfulLogins(rs[1..])
  }

  /** Handlers accumulate: every successful login subscribes one more and
      nothing ever removes one. */
  lemma {:induction false} HandlersCountLogins(s: Session, rs: seq<Request>)
    ensures Run(s, rs).timer.handlers == s.timer.handlers + SuccessfulLogins(rs)
    decreases |rs|
  {
    if rs != [] {
      HandlersCountLogins(HandleCommand(s, rs[0].text, rs[0].auth, rs[0].entry).session, rs[1..]);
    }
  }

  /** The timer stays consistent over any sequence of requests. */
  lemma {:induction false} RunKeepsConsistent(s: Session, rs: seq<Request>)
    requires Consistent(s.timer)
    ensures Consistent(Run(s, rs).timer)
    decreases |rs|
  {
    if rs != [] {
      RunKeepsConsistent(HandleCommand(s, rs[0].text, rs[0].auth, rs[0].entry).session, rs[1..]);
    }
  }

  /** Once the timer runs, nothing stops it: a running timer has a
      handler, a handler means a request was sent, and from then on every
      logout throws before `timer.Stop()`. */
  lemma {:induction false} TimerNeverStops(s: Session, rs: seq<Request>)
    requires Coherent(s) && s.timer.enabled
    ensures Coherent(Run(s, rs)) && Run(s, rs).timer.enabled
    decreases |rs|
  {
    if rs != [] {
      TimerNeverStops(HandleCommand(s, rs[0].text, rs[0].auth, rs[0].entry).session, rs[1..]);
    }
  }

  /** Log in, log out, log in again: the logout throws, so the timer never
      stops, and the second login subscribes a second handler; one
      `Elapsed` event then submits two entries. */
  lemma ReloginDoublesEntries()
    ensures var rs := [Request("login a b", Returned(true), Returned(true)),
                       Request("logout", Returned(true), Returned(true)),
                       Request("login a b", Returned(true), Returned(true))];
            var t := Run(NewSession, rs).timer;
            && t == Timer(true, DayMs, 2)
            && ElapsedCalls(t, [Returned(true), Returned(true)]) == [AddEntry, AddEntry]
  {
    ReloginSession();
  }

  /** The session after log in, log out, log in: two handlers on a running
      daily timer. */
  lemma ReloginSession()
    ensures Run(NewSession, [Request("login a b", Returned(true), Returned(true)),
                             Request("logout", Returned(true), Returned(true)),
                             Request("login a b", Returned(true), Returned(true))])
            == Session(Timer(true, DayMs, 2), 0, true)
  {
    var login := Request("login a b", Returned(true), Returned(true));
    var logout := Request("logout", Returned(true), Returned(true));
    var s1 := Session(Timer(true, DayMs, 1), 0, true);
    var s3 := Session(Timer(true, DayMs, 2), 0, true);
    LoginStep(NewSession);
    LogoutAfterLoginFaults(s1);
    LoginStep(s1);
    RunOne(s1, login, s3);
    RunCons(s1, logout, [login], s1, s3);
    RunCons(NewSession, login, [logout, login], s1, s3);
    assert [login] + [logout, login] == [login, logout, login];
  }

  lemma LoginStep(s: Session)
    ensures HandleCommand(s, "login a b", Returned(true), Returned(true)).session
         == s.(timer := ArmDaily(s.timer), sent := true)
  {
    assert Args("login a b") == ["login", "a", "b"] by {
      SplitUnique("login a b", ' ', ["login", "a", "b"]);
    }
  }

  /** After a request has been sent, a logout throws: no reply, the timer
      keeps running, and the cookie jar is not replaced. */
  lemma LogoutAfterLoginFaults(s: Session)
    requires s.sent
    ensures HandleCommand(s, "logout", Returned(true), Returned(true)) == Step(None, s, [ResetCookies])
  {
    assert Args("logout") == ["logout"] by {
      SplitUnique("logout", ' ', ["logout"]);
    }
  }

  lemma RunOne(s: Session, q: Request, s': Session)
    requires HandleCommand(s, q.text, q.auth, q.entry).session == s'
    ensures Run(s, [q]) == s'
  {
    assert [q][1..] == [];
  }

  lemma RunCons(s: Session, q: Request, rs: seq<Request>, s': Session, final: Session)
    requires HandleCommand(s, q.text, q.auth, q.entry).session == s'
    requires Run(s', rs) == final
    ensures Run(s, [q] + rs) == final
  {
    assert ([q] + rs)[1..] == rs;
  }
}
