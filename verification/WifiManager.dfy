/**
  The Wi-Fi event handler and the two mode starters of wifi_manager.c: event bits and the
  retry counter over every sequence of station events.
 */
module WifiManager {

  const MAX_RETRY := 5

  datatype Event = Disconnected(authFailure: bool) | GotIp

  datatype Bits = Bits(ready: bool, lost: bool, apMode: bool, connecting: bool, authFail: bool)

  datatype State = State(bits: Bits, retryCount: nat)

  /** The event uses up the last retry and starts the setup access point. */
  predicate FallsBack(s: State, e: Event) {
    e.Disconnected? && s.retryCount + 1 > MAX_RETRY
  }

  function Handle(s: State, e: Event): State {
    match e
    case GotIp => State(Bits(true, false, false, false, false), 0)
    case Disconnected(auth) =>
      var fallback := FallsBack(s, e);
      State(Bits(false, true, s.bits.apMode || fallback, !fallback, s.bits.authFail || auth),
            if fallback then 0 else s.retryCount + 1)
  }

  function HandleAll(s: State, es: seq<Event>): State
    decreases |es|
  {
    if es == [] then s else Handle(HandleAll(s, es[..|es| - 1]), es[|es| - 1])
  }

  // ── Reference: read off the history alone ──────────────────────────────────

  /** Disconnects since the last GOT_IP. */
  function Streak(es: seq<Event>): nat
    decreases |es|
  {
    if es == [] || es[|es| - 1].GotIp? then 0 else Streak(es[..|es| - 1]) + 1
  }

  /** An authentication failure among them. */
  predicate AuthInStreak(es: seq<Event>) {
    exists i :: |es| - Streak(es) <= i < |es| && 0 <= i && es[i] == Disconnected(true)
  }

  predicate EverOnline(es: seq<Event>) {
    GotIp in es
  }

  lemma {:induction false} StreakBounds(es: seq<Event>)
    ensures Streak(es) <= |es|
    ensures Streak(es) < |es| <==> EverOnline(es)
    decreases |es|
  {
    if es != [] {
      var front, last := es[..|es| - 1], es[|es| - 1];
      StreakBounds(front);
      assert es == front + [last];
      if last.Disconnected? {
        assert GotIp in es <==> GotIp in front;
      }
    }
  }

  lemma AuthExtends(front: seq<Event>, auth: bool)
    ensures AuthInStreak(front + [Disconnected(auth)]) <==> AuthInStreak(front) || auth
  {
    var es := front + [Disconnected(auth)];
    StreakBounds(front);
    assert es[..|es| - 1] == front;
    assert Streak(es) == Streak(front) + 1;
    if auth {
      assert es[|front|] == Disconnected(true);
    }
    if AuthInStreak(front) {
      var i :| |front| - Streak(front) <= i < |front| && 0 <= i && front[i] == Disconnected(true);
      assert es[i] == front[i];
    }
    if AuthInStreak(es) && !auth {
      var i :| |es| - Streak(es) <= i < |es| && 0 <= i && es[i] == Disconnected(true);
      assert front[i] == Disconnected(true);
    }
  }

  /**
    After any events from boot, the counter is the current streak of disconnects modulo six,
    so it stays within 0..5; and the last event fell back to the access point exactly when
    it was a disconnect that completed a multiple of six.
   */
  lemma {:induction false} RetryTrace(boot: State, es: seq<Event>)
    requires boot.retryCount == 0
    ensures HandleAll(boot, es).retryCount == Streak(es) % (MAX_RETRY + 1)
    ensures es != [] ==>
              (FallsBack(HandleAll(boot, es[..|es| - 1]), es[|es| - 1])
               <==> es[|es| - 1].Disconnected? && Streak(es) % (MAX_RETRY + 1) == 0)
    decreases |es|
  {
    if es != [] {
      RetryTrace(boot, es[..|es| - 1]);
    }
  }

  /** The five bits after any events, in terms of the history. */
  lemma {:induction false} BitsTrace(boot: State, es: seq<Event>)
    requires boot.retryCount == 0
    ensures es != [] ==>
              var b := HandleAll(boot, es).bits;
              && b.ready == es[|es| - 1].GotIp?
              && b.lost == !b.ready
              && b.connecting == (b.lost && Streak(es) % (MAX_RETRY + 1) != 0)
              && b.apMode == ((!EverOnline(es) && boot.bits.apMode) || Streak(es) >= MAX_RETRY + 1)
              && b.authFail == ((!EverOnline(es) && boot.bits.authFail) || AuthInStreak(es))
    decreases |es|
  {
    if es != [] {
      var front, last := es[..|es| - 1], es[|es| - 1];
      assert es == front + [last];
      BitsTrace(boot, front);
      RetryTrace(boot, es);
      StreakBounds(es);
      if last.Disconnected? {
        AuthExtends(front, last.authFailure);
        MultiplesOfSix(Streak(front));
        assert EverOnline(es) <==> EverOnline(front);
      }
    }
  }

  lemma MultiplesOfSix(n: nat)
    ensures n + 1 >= MAX_RETRY + 1 <==> n >= MAX_RETRY + 1 || (n + 1) % (MAX_RETRY + 1) == 0
  {}

  // ── The in-place manager ───────────────────────────────────────────────────

  class Manager {
    var ready: bool
    var lost: bool
    var apMode: bool
    var connecting: bool
    var authFail: bool
    var retryCount: nat

    ghost function View(): State
      reads this
    {
      State(Bits(ready, lost, apMode, connecting, authFail), retryCount)
    }

    /** wifi_manager_task: station mode with stored credentials, access point without. */
    constructor (hasCredentials: bool)
      ensures View() == State(if hasCredentials then Bits(false, false, false, true, false)
                              else Bits(false, true, true, false, false), 0)
    {
      ready, lost, apMode, connecting, authFail, retryCount := false, false, false, false, false, 0;
      new;
      if hasCredentials {
        StartStaMode();
      } else {
        StartApMode();
      }
    }

    method StartApMode()
      modifies this
      ensures View() == State(Bits(false, true, true, false, old(authFail)), old(retryCount))
    {
      ready, connecting := false, false;
      lost, apMode := true, true;
    }

    method StartStaMode()
      modifies this
      ensures View() == State(Bits(old(ready), old(lost), false, true, false), old(retryCount))
    {
      apMode, authFail := false, false;
      connecting := true;
    }

    method OnEvent(e: Event) returns (fellBack: bool)
      modifies this
      ensures View() == Handle(old(View()), e)
      ensures fellBack == FallsBack(old(View()), e)
    {
      fellBack := false;
      match e
      case Disconnected(auth) =>
        ready, connecting := false, false;
        lost := true;
        if auth {
          authFail := true;
        }
        retryCount := retryCount + 1;
        if retryCount <= MAX_RETRY {
          connecting := true;
        } else {
          retryCount := 0;
          StartApMode();
          fellBack := true;
        }
      case GotIp =>
        retryCount := 0;
        lost, connecting, apMode, authFail := false, false, false, false;
        ready := true;
    }

    /** Any sequence of events; the number of fallbacks along the way. */
    method OnEvents(es: seq<Event>) returns (fallbacks: nat)
      modifies this
      ensures View() == HandleAll(old(View()), es)
      ensures fallbacks == Fallbacks(old(View()), es)
    {
      fallbacks := 0;
      for i := 0 to |es|
        invariant View() == HandleAll(old(View()), es[..i]) && fallbacks == Fallbacks(old(View()), es[..i])
      {
        assert es[..i + 1][..i] == es[..i];
        var fellBack := OnEvent(es[i]);
        if fellBack { fallbacks := fallbacks + 1; }
      }
      assert es[..|es|] == es;
    }
  }

  function Fallbacks(s: State, es: seq<Event>): nat
    decreases |es|
  {
    if es == [] then 0
    else
      var front := es[..|es| - 1];
      Fallbacks(s, front) + (if FallsBack(HandleAll(s, front), es[|es| - 1]) then 1 else 0)
  }

  /** An unbroken streak of disconnects from boot falls back once per six of them. */
  lemma {:induction false} FallbackCount(boot: State, es: seq<Event>)
    requires boot.retryCount == 0 && !EverOnline(es)
    ensures Fallbacks(boot, es) == |es| / (MAX_RETRY + 1)
    decreases |es|
  {
    StreakBounds(es);
    if es != [] {
      assert forall e :: e in es[..|es| - 1] ==> e in es;
      FallbackCount(boot, es[..|es| - 1]);
      RetryTrace(boot, es);
    }
  }
}
