/** `WindowsBackgroundService.ExecuteAsync` of the auto-entry app
    (KimaiAutoEntryApp/WindowsBackgroundService.cs): authenticate on the
    first iteration only, submit an entry on every iteration, then wait a
    day. `KimaiService.Authenticate` and `AddEntryComboRnD` do not catch
    anything, so an exception from either ends the loop. */
module BackgroundService {
  import opened Common
  import opened TimeSpans

  /** What the loop does, in order: the two remote calls with what each
      did, and the delay after each iteration. */
  datatype Event = AuthenticateCall(result: Remote) | AddEntryCall(result: Remote) | Delay(ticks: int)

  /** `TimeSpan.FromDays(1)`. */
  const OneDay: int := TicksPerDay

  /** A call that threw. */
  predicate Raising(e: Event) {
    (e.AuthenticateCall? || e.AddEntryCall?) && e.result == Raised
  }

  /** One iteration with no exception: the authentication only when `first`. */
  function Iteration(first: bool, auth: Remote, entry: Remote): seq<Event> {
    (if first then [AuthenticateCall(auth)] else []) + [AddEntryCall(entry), Delay(OneDay)]
  }

  /** The reference definition: the events of `|entries|` iterations, the
      i-th entry submission doing `entries[i]`. */
  function Schedule(auth: Remote, entries: seq<Remote>): seq<Event>
    decreases |entries|
  {
    if entries == [] then []
    else Schedule(auth, entries[..|entries| - 1]) + Iteration(|entries| == 1, auth, entries[|entries| - 1])
  }

  /** Whether some call made in these iterations throws. */
  predicate Faults(auth: Remote, entries: seq<Remote>) {
    (entries != [] && auth == Raised) || Raised in entries
  }

  /** `ExecuteAsync`, where `entries` has one element per iteration started
      before cancellation: `entries[i]` is what the i-th `AddEntryComboRnD`
      does, `auth` what `Authenticate` does. */
  method Execute(auth: Remote, entries: seq<Remote>) returns (trace: seq<Event>, faulted: bool)
    ensures faulted <==> Faults(auth, entries)
    ensures !faulted ==> trace == Schedule(auth, entries)
    // on a fault the trace is the schedule up to and including the first call that threw
    ensures trace <= Schedule(auth, entries)
    ensures faulted ==> |trace| > 0 && Raising(trace[|trace| - 1])
    ensures forall k :: 0 <= k < |trace| - 1 ==> !Raising(trace[k])
  {
    var once := true;
    trace := [];
    faulted := false;
    var i := 0;
    while i < |entries|
      invariant 0 <= i <= |entries|
      invariant once <==> i == 0
      invariant trace == Schedule(auth, entries[..i])
      invariant forall k :: 0 <= k < |trace| ==> !Raising(trace[k])
      invariant i > 0 ==> auth != Raised
      invariant Raised !in entries[..i]
    {
      SchedulePrefix(auth, entries, i + 1);
      assert entries[..i + 1][..i] == entries[..i];
      assert Schedule(auth, entries[..i + 1]) == trace + Iteration(once, auth, entries[i]);
      if once {
        trace := trace + [AuthenticateCall(auth)];
        if auth == Raised {
          faulted := true;
          return;
        }
        once := false;
      }
      trace := trace + [AddEntryCall(entries[i])];
      if entries[i] == Raised {
        faulted := true;
        return;
      }
      trace := trace + [Delay(OneDay)];
      assert entries[..i + 1] == entries[..i] + [entries[i]];
      i := i + 1;
    }
    assert entries[..i] == entries;
  }

  /** The events of the first `n` iterations begin the events of all. */
  lemma {:induction false} SchedulePrefix(auth: Remote, entries: seq<Remote>, n: nat)
    requires n <= |entries|
    ensures Schedule(auth, entries[..n]) <= Schedule(auth, entries)
    decreases |entries| - n
  {
    if n < |entries| {
      var m := |entries[..n + 1]|;
      assert entries[..n + 1][..m - 1] == entries[..n];
      SchedulePrefix(auth, entries, n + 1);
    } else {
      assert entries[..n] == entries;
    }
  }

  /** How many iterations of `entries` call `AddEntryComboRnD`, and every
      event's place: the authentication comes first and only once, then
      each iteration is an entry submission followed by a one-day delay. */
  lemma {:induction false} ScheduleShape(auth: Remote, entries: seq<Remote>)
    ensures entries == [] ==> Schedule(auth, entries) == []
    ensures entries != [] ==>
              && |Schedule(auth, entries)| == 2 * |entries| + 1
              && Schedule(auth, entries)[0] == AuthenticateCall(auth)
              && (forall i :: 0 <= i < |entries| ==>
                    Schedule(auth, entries)[2 * i + 1] == AddEntryCall(entries[i])
                    && Schedule(auth, entries)[2 * i + 2] == Delay(OneDay))
              && (forall k :: 0 < k < |Schedule(auth, entries)| ==> !Schedule(auth, entries)[k].AuthenticateCall?)
    decreases |entries|
  {
    if |entries| > 1 {
      var n := |entries|;
      var init := entries[..n - 1];
      ScheduleShape(auth, init);
      var s := Schedule(auth, entries);
      var p := Schedule(auth, init);
      assert s == p + [AddEntryCall(entries[n - 1]), Delay(OneDay)];
      forall i | 0 <= i < n
        ensures s[2 * i + 1] == AddEntryCall(entries[i]) && s[2 * i + 2] == Delay(OneDay)
      {
        if i < n - 1 {
          assert init[i] == entries[i];
        }
      }
    }
  }

  /** Authentication is attempted exactly once however long the service
      runs, even when it fails; every odd position is an entry
      submission and every even one a one-day delay. */
  lemma EventPositions(auth: Remote, entries: seq<Remote>, k: nat)
    requires entries != [] && k < |Schedule(auth, entries)|
    ensures Schedule(auth, entries)[k].AuthenticateCall? <==> k == 0
    ensures Schedule(auth, entries)[k].AddEntryCall? <==> k % 2 == 1
    ensures Schedule(auth, entries)[k].Delay? <==> k > 0 && k % 2 == 0
  {
    ScheduleShape(auth, entries);
    if k > 0 {
      var i := (k - 1) / 2;
      assert k == 2 * i + 1 || k == 2 * i + 2;
    }
  }
}
