/**
  How often a session can be used: which runs exchange a session id more than once, and from which
  states a run still can.
*/
module SessionUse {
  import opened Wrappers
  import opened Bytes
  import opened AuthSessions
  import opened Sequences
  import opened SessionProtocol

  /** Whether a delete of the id has succeeded. */
  predicate WasRemoved(h: seq<Event>, id: string) {
    h != [] && (WasRemoved(Front(h), id) || (Last(h).Removed? && Last(h).id == id))
  }

  /** The callbacks that read the row of an id before the first successful delete of it. */
  function EarlyReaders(h: seq<Event>, id: string): set<nat> {
    if h == [] then {}
    else
      EarlyReaders(Front(h), id) +
      if Last(h).Got? && Last(h).id == id && !WasRemoved(Front(h), id) then {Last(h).cb} else {}
  }

  /** How often an id is exchanged, and by which callbacks. */
  function Exchanges(h: seq<Event>, id: string): nat {
    if h == [] then 0 else Exchanges(Front(h), id) + if Last(h).Exchanged? && Last(h).id == id then 1 else 0
  }

  function Exchangers(h: seq<Event>, id: string): set<nat> {
    if h == [] then {}
    else Exchangers(Front(h), id) + if Last(h).Exchanged? && Last(h).id == id then {Last(h).cb} else {}
  }

  /** Callbacks still on their way to the check with a session of this id. */
  function InFlight(callbacks: map<nat, Callback>, id: string): set<nat> {
    set cb | cb in callbacks && Holds(callbacks[cb], id)
  }

  predicate Holds(c: Callback, id: string) {
    !c.Ended? && c.session.id == id
  }

  lemma FlightAfter(callbacks: map<nat, Callback>, cb: nat, c: Callback, id: string)
    ensures InFlight(callbacks[cb := c], id)
         == if Holds(c, id) then InFlight(callbacks, id) + {cb} else InFlight(callbacks, id) - {cb}
  {}

  /** How one more event moves the quantities that meter an id. */
  lemma HistoryGrows(h: seq<Event>, e: Event, id: string)
    ensures EarlyReaders(h + [e], id) ==
              EarlyReaders(h, id) + if e.Got? && e.id == id && !WasRemoved(h, id) then {e.cb} else {}
    ensures Exchangers(h + [e], id) == Exchangers(h, id) + if e.Exchanged? && e.id == id then {e.cb} else {}
    ensures Exchanges(h + [e], id) == Exchanges(h, id) + if e.Exchanged? && e.id == id then 1 else 0
    ensures WasRemoved(h + [e], id) <==> WasRemoved(h, id) || (e.Removed? && e.id == id)
  {
    assert Front(h + [e]) == h && Last(h + [e]) == e;
  }

  /** An event that is no read, delete or exchange of the id moves none of them. */
  lemma HistoryUnmoved(h: seq<Event>, more: seq<Event>, id: string)
    requires |more| <= 1
    requires more != [] ==> more[0].Created? || more[0].UrlRequested? || more[0].id != id
    ensures EarlyReaders(h + more, id) == EarlyReaders(h, id) && Exchangers(h + more, id) == Exchangers(h, id)
    ensures Exchanges(h + more, id) == Exchanges(h, id) && WasRemoved(h + more, id) == WasRemoved(h, id)
  {
    if more == [] {
      assert h + more == h;
    } else {
      assert more == [more[0]];
      HistoryGrows(h, more[0], id);
    }
  }

  /** Only early readers exchange the id, each of them once, on leaving the flight. */
  ghost predicate Metered(used: set<string>, s: State, h: seq<Event>, id: string) {
    && InFlight(s.callbacks, id) <= EarlyReaders(h, id) <= s.callbacks.Keys
    && Exchangers(h, id) <= EarlyReaders(h, id)
    && Exchangers(h, id) !! InFlight(s.callbacks, id)
    && Exchanges(h, id) == |Exchangers(h, id)|
    && (id in s.rows ==> !WasRemoved(h, id) && id in used)
    && (WasRemoved(h, id) ==> id in used)
  }

  lemma MeteredGet(sha256: string -> Data, used: set<string>, s: State, h: seq<Event>, a: Action, id: string)
    requires a.Get? && Metered(used, s, h, id) && Keyed(s.rows)
    ensures Metered(used, Next(s, a), h + Emits(sha256, s, a), id)
  {
    if a.cb in s.callbacks {
      assert h + [] == h;
    } else if a.id == id && CanRead(s, a) {
      MeteredRead(sha256, used, s, h, a, id);
    } else {
      var flight := InFlight(s.callbacks, id);
      assert a.cb !in flight && flight - {a.cb} == flight;
      FlightAfter(s.callbacks, a.cb, Next(s, a).callbacks[a.cb], id);
      HistoryUnmoved(h, Emits(sha256, s, a), id);
    }
  }

  /** A new callback reads the row: it is an early reader, now in flight. */
  lemma MeteredRead(sha256: string -> Data, used: set<string>, s: State, h: seq<Event>, a: Action, id: string)
    requires CanRead(s, a) && a.id == id && Keyed(s.rows) && Metered(used, s, h, id)
    ensures Metered(used, Next(s, a), h + Emits(sha256, s, a), id)
  {
    assert a.cb !in EarlyReaders(h, id);
    FlightAfter(s.callbacks, a.cb, Fetched(s.rows[id], a.code, a.state), id);
    HistoryGrows(h, Got(a.cb, id), id);
  }

  lemma MeteredDelete(sha256: string -> Data, used: set<string>, s: State, h: seq<Event>, a: Action, id: string)
    requires a.Delete? && Metered(used, s, h, id)
    ensures Metered(used, Next(s, a), h + Emits(sha256, s, a), id)
  {
    if CanDelete(s, a.cb) {
      var c := s.callbacks[a.cb];
      assert InFlight(Next(s, a).callbacks, id) == InFlight(s.callbacks, id) by {
        FlightAfter(s.callbacks, a.cb, Deleted(c.session, c.code, c.state), id);
        assert Holds(c, id) <==> a.cb in InFlight(s.callbacks, id);
      }
      assert Next(s, a).callbacks.Keys == s.callbacks.Keys;
      if c.session.id == id && Emits(sha256, s, a) != [] {
        HistoryGrows(h, Removed(a.cb, id), id);
      } else {
        HistoryUnmoved(h, Emits(sha256, s, a), id);
      }
    } else {
      assert h + [] == h;
    }
  }

  lemma MeteredCheck(sha256: string -> Data, used: set<string>, s: State, h: seq<Event>, a: Action, id: string)
    requires a.Check? && Metered(used, s, h, id)
    ensures Metered(used, Next(s, a), h + Emits(sha256, s, a), id)
  {
    if CanCheck(s, a.cb) {
      var c := s.callbacks[a.cb];
      FlightAfter(s.callbacks, a.cb, Ended, id);
      assert Next(s, a).callbacks.Keys == s.callbacks.Keys;
      if c.session.id == id && Emits(sha256, s, a) != [] {
        assert a.cb in InFlight(s.callbacks, id) && a.cb !in Exchangers(h, id);
        HistoryGrows(h, Emits(sha256, s, a)[0], id);
      } else {
        HistoryUnmoved(h, Emits(sha256, s, a), id);
      }
    } else {
      assert h + [] == h;
    }
  }

  lemma MeteredStep(sha256: string -> Data, used: set<string>, s: State, h: seq<Event>, a: Action, id: string)
    requires Metered(used, s, h, id) && Keyed(s.rows) && IdOf(a) !! used
    ensures Metered(used + IdOf(a), Next(s, a), h + Emits(sha256, s, a), id)
  {
    match a
    case Get(_, _, _, _, _) => MeteredGet(sha256, used, s, h, a, id);
    case Delete(_, _) => MeteredDelete(sha256, used, s, h, a, id);
    case Check(_, _) => MeteredCheck(sha256, used, s, h, a, id);
    case _ => MeteredElse(sha256, used, s, h, a, id);
  }

  lemma MeteredElse(sha256: string -> Data, used: set<string>, s: State, h: seq<Event>, a: Action, id: string)
    requires a.Save? || a.RequestUrl? || a.Sweep?
    requires Metered(used, s, h, id) && IdOf(a) !! used
    ensures Metered(used + IdOf(a), Next(s, a), h + Emits(sha256, s, a), id)
  {
    var more := Emits(sha256, s, a);
    assert |more| <= 1 && (more != [] ==> more[0].Created? || more[0].UrlRequested?);
    HistoryUnmoved(h, more, id);
    assert Next(s, a).callbacks == s.callbacks;
    assert id in Next(s, a).rows ==> id in s.rows || id in IdOf(a);
  }

  lemma {:induction false} AlwaysMetered(sha256: string -> Data, actions: seq<Action>, id: string)
    requires Fresh(actions)
    ensures Metered(UsedIds(actions), After(actions), History(sha256, actions), id)
  {
    if actions == [] {
      assert InFlight(INITIAL.callbacks, id) == {};
    } else {
      var rest := Front(actions);
      AlwaysMetered(sha256, rest, id);
      AlwaysKeyed(rest);
      MeteredStep(sha256, UsedIds(rest), After(rest), History(sha256, rest), Last(actions), id);
    }
  }

  /**
    In every interleaving, with deletes that may fail, an id is exchanged only by callbacks that
    read its row before the first successful delete of it, and by each of them at most once.
  */
  lemma ExchangesBounded(sha256: string -> Data, actions: seq<Action>, id: string)
    requires Fresh(actions)
    ensures
      var h := History(sha256, actions);
      Exchangers(h, id) <= EarlyReaders(h, id) && Exchanges(h, id) == |Exchangers(h, id)| <= |EarlyReaders(h, id)|
  {
    AlwaysMetered(sha256, actions, id);
    SubsetIsSmaller(Exchangers(History(sha256, actions), id), EarlyReaders(History(sha256, actions), id));
  }

  lemma SubsetIsSmaller<T>(a: set<T>, b: set<T>)
    requires a <= b
    ensures |a| <= |b|
  {
    assert b == a + (b - a);
  }

  /** Callbacks run whole, and their deletes succeed: every read is followed at once by its delete. */
  ghost predicate Whole(actions: seq<Action>) {
    actions == [] || (Whole(Front(actions)) && Follows(Front(actions), Last(actions)))
  }

  predicate Follows(actions: seq<Action>, a: Action) {
    actions != [] && Last(actions).Get? ==> a == Delete(Last(actions).cb, false)
  }

  /** At most one early reader, and until the row is gone it is the callback that has just read it. */
  ghost predicate OneReader(actions: seq<Action>, s: State, h: seq<Event>, id: string) {
    |EarlyReaders(h, id)| <= 1 &&
    (EarlyReaders(h, id) != {} && !WasRemoved(h, id) ==> JustRead(actions, s, id))
  }

  predicate JustRead(actions: seq<Action>, s: State, id: string) {
    actions != [] && Last(actions).Get? && CanDelete(s, Last(actions).cb) &&
    s.callbacks[Last(actions).cb].session.id == id && id in s.rows
  }

  lemma OneReaderGet(sha256: string -> Data, actions: seq<Action>, a: Action, s: State, h: seq<Event>, id: string)
    requires a.Get? && OneReader(actions, s, h, id) && Follows(actions, a) && Keyed(s.rows)
    ensures OneReader(actions + [a], Next(s, a), h + Emits(sha256, s, a), id)
  {
    assert EarlyReaders(h, id) == {} || WasRemoved(h, id);
    if a.id == id && CanRead(s, a) {
      OneReaderRead(sha256, actions, a, s, h, id);
    } else {
      HistoryUnmoved(h, Emits(sha256, s, a), id);
    }
  }

  lemma OneReaderRead(sha256: string -> Data, actions: seq<Action>, a: Action, s: State, h: seq<Event>, id: string)
    requires CanRead(s, a) && a.id == id && Keyed(s.rows)
    requires EarlyReaders(h, id) == {} || (WasRemoved(h, id) && |EarlyReaders(h, id)| <= 1)
    ensures OneReader(actions + [a], Next(s, a), h + Emits(sha256, s, a), id)
  {
    HistoryGrows(h, Got(a.cb, id), id);
    assert Last(actions + [a]) == a;
    assert JustRead(actions + [a], Next(s, a), id);
  }

  lemma OneReaderElse(sha256: string -> Data, actions: seq<Action>, a: Action, s: State, h: seq<Event>, id: string)
    requires !a.Get? && OneReader(actions, s, h, id) && Follows(actions, a)
    ensures OneReader(actions + [a], Next(s, a), h + Emits(sha256, s, a), id)
  {
    var more := Emits(sha256, s, a);
    if more == [] {
      assert h + more == h;
      assert EarlyReaders(h, id) == {} || WasRemoved(h, id);
    } else {
      assert more == [more[0]] && !more[0].Got?;
      HistoryGrows(h, more[0], id);
    }
  }

  lemma {:induction false} OneEarlyReader(sha256: string -> Data, actions: seq<Action>, id: string)
    requires Whole(actions)
    ensures OneReader(actions, After(actions), History(sha256, actions), id)
  {
    if actions != [] {
      var rest := Front(actions);
      OneEarlyReader(sha256, rest, id);
      AlwaysKeyed(rest);
      assert actions == rest + [Last(actions)];
      if Last(actions).Get? {
        OneReaderGet(sha256, rest, Last(actions), After(rest), History(sha256, rest), id);
      } else {
        OneReaderElse(sha256, rest, Last(actions), After(rest), History(sha256, rest), id);
      }
    }
  }

  /** Single use: when callbacks run whole and their deletes succeed, no id is exchanged twice. */
  lemma SingleUse(sha256: string -> Data, actions: seq<Action>, id: string)
    requires Fresh(actions) && Whole(actions)
    ensures Exchanges(History(sha256, actions), id) <= 1
  {
    ExchangesBounded(sha256, actions, id);
    OneEarlyReader(sha256, actions, id);
  }

  // ---------------------------------------------------------------------------------------
  // Exactly when an id can still be exchanged twice. `from` is the earliest reading that clocks
  // may still give; None leaves them free.

  predicate Usable(session: Session, from: Option<int>) {
    from.Some? ==> !session.IsExpired(from.value)
  }

  predicate OnTime(a: Action, from: Option<int>) {
    from.Some? && (a.Check? || a.Sweep?) ==> from.value <= a.now
  }

  ghost predicate AllOnTime(more: seq<Action>, from: Option<int>) {
    forall i :: 0 <= i < |more| ==> OnTime(more[i], from)
  }

  /** Some continuation of the run exchanges the id twice in all. */
  ghost predicate CanExchangeTwice(sha256: string -> Data, actions: seq<Action>, id: string, from: Option<int>) {
    exists more :: Fresh(actions + more) && AllOnTime(more, from) && Exchanges(History(sha256, actions + more), id) >= 2
  }

  /** A callback on its way to an exchange: in flight, with the right state, not too late. */
  predicate Able(c: Callback, id: string, from: Option<int>) {
    Holds(c, id) && c.session.state == c.state && Usable(c.session, from)
  }

  function Contenders(callbacks: map<nat, Callback>, id: string, from: Option<int>): set<nat> {
    set cb | cb in callbacks && Able(callbacks[cb], id, from)
  }

  /** The callbacks that have exchanged the id, and those on their way to. */
  function Claimants(s: State, h: seq<Event>, id: string, from: Option<int>): set<nat> {
    Exchangers(h, id) + Contenders(s.callbacks, id, from)
  }

  /** The row is there, and can still be read in time. */
  predicate Open(rows: Table, id: string, from: Option<int>) {
    id in rows && Usable(rows[id], from)
  }

  lemma ContendersAfter(callbacks: map<nat, Callback>, cb: nat, c: Callback, id: string, from: Option<int>)
    ensures Contenders(callbacks[cb := c], id, from) ==
              if Able(c, id, from)
              then Contenders(callbacks, id, from) + {cb}
              else Contenders(callbacks, id, from) - {cb}
  {}

  lemma ExchangersGrow(h: seq<Event>, more: seq<Event>, id: string)
    requires |more| <= 1
    ensures Exchangers(h + more, id) ==
              Exchangers(h, id) + if more != [] && more[0].Exchanged? && more[0].id == id then {more[0].cb} else {}
  {
    if more == [] {
      assert h + more == h;
    } else {
      assert more == [more[0]];
      HistoryGrows(h, more[0], id);
    }
  }

  // A closed id gains no claimant.

  lemma ClosedGet(sha256: string -> Data, s: State, a: Action, id: string, from: Option<int>)
    requires a.Get? && Keyed(s.rows) && !Open(s.rows, id, from)
    ensures Contenders(Next(s, a).callbacks, id, from) <= Contenders(s.callbacks, id, from)
  {
    if a.cb !in s.callbacks {
      ContendersAfter(s.callbacks, a.cb, Next(s, a).callbacks[a.cb], id, from);
    }
  }

  lemma ClosedDelete(s: State, a: Action, id: string, from: Option<int>)
    requires a.Delete?
    ensures Contenders(Next(s, a).callbacks, id, from) == Contenders(s.callbacks, id, from)
  {
    if CanDelete(s, a.cb) {
      var c := s.callbacks[a.cb];
      ContendersAfter(s.callbacks, a.cb, Deleted(c.session, c.code, c.state), id, from);
      assert Able(c, id, from) <==> a.cb in Contenders(s.callbacks, id, from);
    }
  }

  /** Whoever exchanges was a contender. */
  lemma ClosedCheck(sha256: string -> Data, s: State, a: Action, id: string, from: Option<int>)
    requires a.Check? && OnTime(a, from)
    ensures Contenders(Next(s, a).callbacks, id, from) <= Contenders(s.callbacks, id, from)
    ensures
      var more := Emits(sha256, s, a);
      more != [] && more[0].Exchanged? && more[0].id == id ==> more[0].cb in Contenders(s.callbacks, id, from)
  {
    if CanCheck(s, a.cb) {
      ContendersAfter(s.callbacks, a.cb, Ended, id, from);
    }
  }

  lemma ClaimantsOnlyLeave(sha256: string -> Data, s: State, h: seq<Event>, a: Action, id: string, from: Option<int>)
    requires Keyed(s.rows) && OnTime(a, from) && id !in IdOf(a) && !Open(s.rows, id, from)
    ensures !Open(Next(s, a).rows, id, from)
    ensures Claimants(Next(s, a), h + Emits(sha256, s, a), id, from) <= Claimants(s, h, id, from)
  {
    OnlyChecksExchange(sha256, s, a);
    ExchangersGrow(h, Emits(sha256, s, a), id);
    ContendersOnlyLeave(sha256, s, a, id, from);
  }

  lemma ContendersOnlyLeave(sha256: string -> Data, s: State, a: Action, id: string, from: Option<int>)
    requires Keyed(s.rows) && OnTime(a, from) && !Open(s.rows, id, from)
    ensures Contenders(Next(s, a).callbacks, id, from) <= Contenders(s.callbacks, id, from)
    ensures
      var more := Emits(sha256, s, a);
      more != [] && more[0].Exchanged? && more[0].id == id ==> more[0].cb in Contenders(s.callbacks, id, from)
  {
    OnlyChecksExchange(sha256, s, a);
    match a
    case Get(_, _, _, _, _) => ClosedGet(sha256, s, a, id, from);
    case Delete(_, _) => ClosedDelete(s, a, id, from);
    case Check(_, _) => ClosedCheck(sha256, s, a, id, from);
    case _ => assert Next(s, a).callbacks == s.callbacks;
  }

  lemma {:induction false} ClosedStaysClosed(
      sha256: string -> Data, actions: seq<Action>, more: seq<Action>, id: string, from: Option<int>)
    requires Fresh(actions + more) && AllOnTime(more, from)
    requires id in UsedIds(actions) && !Open(After(actions).rows, id, from)
    ensures id in UsedIds(actions + more) && !Open(After(actions + more).rows, id, from)
    ensures Claimants(After(actions + more), History(sha256, actions + more), id, from)
         <= Claimants(After(actions), History(sha256, actions), id, from)
  {
    if more == [] {
      assert actions + more == actions;
    } else {
      var rest, a := actions + Front(more), Last(more);
      assert Front(actions + more) == rest && Last(actions + more) == a;
      ClosedStaysClosed(sha256, actions, Front(more), id, from);
      AlwaysKeyed(rest);
      ClaimantsOnlyLeave(sha256, After(rest), History(sha256, rest), a, id, from);
    }
  }

  // A claimant can be brought to its exchange, and an open row claimed twice.

  /** From one run to a longer one: nobody who claims the id loses the claim. */
  ghost predicate LeadsTo(sha256: string -> Data, before: seq<Action>, after: seq<Action>, id: string,
                          from: Option<int>)
  {
    && Fresh(after)
    && Claimants(After(before), History(sha256, before), id, from)
         <= Claimants(After(after), History(sha256, after), id, from)
    && Exchangers(History(sha256, before), id) <= Exchangers(History(sha256, after), id)
  }

  lemma LeadsOnward(sha256: string -> Data, a: seq<Action>, b: seq<Action>, c: seq<Action>, id: string,
                    from: Option<int>)
    requires LeadsTo(sha256, a, b, id, from) && LeadsTo(sha256, b, c, id, from)
    ensures LeadsTo(sha256, a, c, id, from)
  {}

  lemma Joined(actions: seq<Action>, first: seq<Action>, second: seq<Action>, from: Option<int>)
    returns (more: seq<Action>)
    requires AllOnTime(first, from) && AllOnTime(second, from)
    ensures actions + more == (actions + first) + second && AllOnTime(more, from)
  {
    more := first + second;
  }

  lemma FreshMore(actions: seq<Action>, a: Action)
    requires Fresh(actions) && IdOf(a) !! UsedIds(actions)
    ensures Fresh(actions + [a])
  {
    assert Front(actions + [a]) == actions && Last(actions + [a]) == a;
  }

  lemma ExchangerChecks(sha256: string -> Data, actions: seq<Action>, cb: nat, id: string, from: Option<int>)
    returns (more: seq<Action>)
    requires Fresh(actions) && CanCheck(After(actions), cb) && Able(After(actions).callbacks[cb], id, from)
    ensures LeadsTo(sha256, actions, actions + more, id, from) && AllOnTime(more, from)
    ensures cb in Exchangers(History(sha256, actions + more), id)
  {
    var a := Check(cb, After(actions).callbacks[cb].session.expiresAt);
    more := [a];
    FreshMore(actions, a);
    OneMore(sha256, actions, a);
    CheckExchanges(sha256, After(actions), History(sha256, actions), cb, id, from);
  }

  /** Checked at its session's last instant, a contender exchanges. */
  lemma CheckExchanges(sha256: string -> Data, s: State, h: seq<Event>, cb: nat, id: string, from: Option<int>)
    requires CanCheck(s, cb) && Able(s.callbacks[cb], id, from)
    ensures
      var a := Check(cb, s.callbacks[cb].session.expiresAt);
      var h' := h + Emits(sha256, s, a);
      && OnTime(a, from)
      && Exchangers(h', id) == Exchangers(h, id) + {cb}
      && Claimants(s, h, id, from) <= Claimants(Next(s, a), h', id, from)
  {
    var c := s.callbacks[cb];
    var a := Check(cb, c.session.expiresAt);
    var e := Exchanged(cb, id, c.state, c.code, c.session.codeVerifier, a.now);
    assert Emits(sha256, s, a) == [e];
    ExchangersGrow(h, [e], id);
    ContendersAfter(s.callbacks, cb, Ended, id, from);
  }

  lemma ContenderDeletes(sha256: string -> Data, actions: seq<Action>, cb: nat, id: string, from: Option<int>)
    returns (more: seq<Action>)
    requires Fresh(actions) && CanDelete(After(actions), cb) && Able(After(actions).callbacks[cb], id, from)
    ensures LeadsTo(sha256, actions, actions + more, id, from) && AllOnTime(more, from)
    ensures CanCheck(After(actions + more), cb) && Able(After(actions + more).callbacks[cb], id, from)
  {
    var s, a := After(actions), Delete(cb, false);
    more := [a];
    FreshMore(actions, a);
    OneMore(sha256, actions, a);
    OnlyChecksExchange(sha256, s, a);
    ExchangersGrow(History(sha256, actions), Emits(sha256, s, a), id);
    ClosedDelete(s, a, id, from);
  }

  lemma ClaimantExchanges(sha256: string -> Data, actions: seq<Action>, cb: nat, id: string, from: Option<int>)
    returns (more: seq<Action>)
    requires Fresh(actions) && cb in Claimants(After(actions), History(sha256, actions), id, from)
    ensures LeadsTo(sha256, actions, actions + more, id, from) && AllOnTime(more, from)
    ensures cb in Exchangers(History(sha256, actions + more), id)
  {
    if cb in Exchangers(History(sha256, actions), id) {
      more := [];
      assert actions + more == actions;
    } else if CanCheck(After(actions), cb) {
      more := ExchangerChecks(sha256, actions, cb, id, from);
    } else {
      var first := ContenderDeletes(sha256, actions, cb, id, from);
      var second := ExchangerChecks(sha256, actions + first, cb, id, from);
      LeadsOnward(sha256, actions, actions + first, (actions + first) + second, id, from);
      more := Joined(actions, first, second, from);
    }
  }

  /** Two claimants, two exchanges. */
  lemma TwoClaimantsExchange(sha256: string -> Data, actions: seq<Action>, id: string, from: Option<int>)
    requires Fresh(actions) && |Claimants(After(actions), History(sha256, actions), id, from)| >= 2
    ensures CanExchangeTwice(sha256, actions, id, from)
  {
    var x, y := TwoOf(Claimants(After(actions), History(sha256, actions), id, from));
    var more := BothExchange(sha256, actions, x, y, id, from);
    ExchangesBounded(sha256, actions + more, id);
    SubsetIsSmaller({x, y}, Exchangers(History(sha256, actions + more), id));
  }

  lemma TwoOf(all: set<nat>) returns (x: nat, y: nat)
    requires |all| >= 2
    ensures x in all && y in all && x != y
  {
    x :| x in all;
    assert |all - {x}| >= 1;
    y :| y in all - {x};
  }

  lemma BothExchange(sha256: string -> Data, actions: seq<Action>, x: nat, y: nat, id: string, from: Option<int>)
    returns (more: seq<Action>)
    requires Fresh(actions) && {x, y} <= Claimants(After(actions), History(sha256, actions), id, from)
    ensures LeadsTo(sha256, actions, actions + more, id, from) && AllOnTime(more, from)
    ensures {x, y} <= Exchangers(History(sha256, actions + more), id)
  {
    var first := ClaimantExchanges(sha256, actions, x, id, from);
    var second := ClaimantExchanges(sha256, actions + first, y, id, from);
    LeadsOnward(sha256, actions, actions + first, (actions + first) + second, id, from);
    more := Joined(actions, first, second, from);
  }

  lemma {:induction false} Above(used: set<nat>) returns (n: nat)
    ensures forall x :: x in used ==> x < n
  {
    n := 0;
    if used != {} {
      var x :| x in used;
      var m := Above(used - {x});
      assert used == (used - {x}) + {x};
      n := if x < m then m else x + 1;
    }
  }

  lemma NewText(used: set<string>) returns (text: string)
    ensures text !in used
  {
    var lengths: set<nat> := set t | t in used :: |t|;
    var n := Above(lengths);
    text := seq(n, _ => 'x');
    assert text in used ==> |text| in lengths;
  }

  /** One more callback reads an open row, with the right state. */
  lemma RowIsRead(sha256: string -> Data, actions: seq<Action>, id: string, from: Option<int>)
    returns (cb: nat, more: seq<Action>)
    requires Fresh(actions) && Open(After(actions).rows, id, from)
    ensures LeadsTo(sha256, actions, actions + more, id, from) && AllOnTime(more, from)
    ensures After(actions + more).rows == After(actions).rows
    ensures cb !in After(actions).callbacks && cb in Contenders(After(actions + more).callbacks, id, from)
    ensures After(actions).callbacks.Keys <= After(actions + more).callbacks.Keys
  {
    var s := After(actions);
    cb := Above(s.callbacks.Keys);
    var a := Get(cb, id, "code", s.rows[id].state, false);
    more := [a];
    AlwaysKeyed(actions);
    FreshMore(actions, a);
    OneMore(sha256, actions, a);
    ExchangersGrow(History(sha256, actions), Emits(sha256, s, a), id);
    ContendersAfter(s.callbacks, cb, Fetched(s.rows[id], "code", s.rows[id].state), id, from);
  }

  lemma OpenRowExchangesTwice(sha256: string -> Data, actions: seq<Action>, id: string, from: Option<int>)
    requires Fresh(actions) && Open(After(actions).rows, id, from)
    ensures CanExchangeTwice(sha256, actions, id, from)
  {
    var x, first := RowIsRead(sha256, actions, id, from);
    var y, second := RowIsRead(sha256, actions + first, id, from);
    var next := (actions + first) + second;
    SubsetIsSmaller({x, y}, Claimants(After(next), History(sha256, next), id, from));
    TwoClaimantsExchange(sha256, next, id, from);
    StillCan(sha256, actions + first, second, id, from);
    StillCan(sha256, actions, first, id, from);
  }

  lemma StillCan(sha256: string -> Data, actions: seq<Action>, more: seq<Action>, id: string, from: Option<int>)
    requires AllOnTime(more, from) && CanExchangeTwice(sha256, actions + more, id, from)
    ensures CanExchangeTwice(sha256, actions, id, from)
  {
    var second :| Fresh((actions + more) + second) && AllOnTime(second, from) &&
                Exchanges(History(sha256, (actions + more) + second), id) >= 2;
    var both := Joined(actions, more, second, from);
  }

  /** An id that was never used can still be saved. */
  lemma UnusedIdIsSaved(sha256: string -> Data, actions: seq<Action>, id: string, from: Option<int>) returns (a: Action)
    requires Fresh(actions) && id !in UsedIds(actions)
    ensures Fresh(actions + [a]) && OnTime(a, from) && Open(After(actions + [a]).rows, id, from)
  {
    var s := After(actions);
    AlwaysMetered(sha256, actions, id);
    var state := NewText(set k | k in s.rows :: s.rows[k].state);
    var init := Above(s.initiations.Keys);
    var session := Session(id, state, "verifier", "uri", if from.Some? then from.value else 0);
    assert forall k :: k in s.rows ==> s.rows[k].state != state;
    assert CanSave(s, init, session);
    a := Save(init, session);
    FreshMore(actions, a);
    OneMore(sha256, actions, a);
  }

  lemma UnusedIdExchangesTwice(sha256: string -> Data, actions: seq<Action>, id: string, from: Option<int>)
    requires Fresh(actions) && id !in UsedIds(actions)
    ensures CanExchangeTwice(sha256, actions, id, from)
  {
    var a := UnusedIdIsSaved(sha256, actions, id, from);
    OpenRowExchangesTwice(sha256, actions + [a], id, from);
    StillCan(sha256, actions, [a], id, from);
  }

  /**
    Exactly when single use can still fail, for continuations whose clocks read `from` or later: the
    id is yet to be saved, or its row is there and unexpired at `from`, or the callbacks that have
    exchanged it and those in flight with the right state and an unexpired session are two or more.
  */
  lemma ExchangedTwiceExactly(sha256: string -> Data, actions: seq<Action>, id: string, from: Option<int>)
    requires Fresh(actions)
    ensures CanExchangeTwice(sha256, actions, id, from) <==>
              || id !in UsedIds(actions)
              || Open(After(actions).rows, id, from)
              || |Claimants(After(actions), History(sha256, actions), id, from)| >= 2
  {
    if id !in UsedIds(actions) {
      UnusedIdExchangesTwice(sha256, actions, id, from);
    } else if Open(After(actions).rows, id, from) {
      OpenRowExchangesTwice(sha256, actions, id, from);
    } else if |Claimants(After(actions), History(sha256, actions), id, from)| >= 2 {
      TwoClaimantsExchange(sha256, actions, id, from);
    } else {
      forall more | Fresh(actions + more) && AllOnTime(more, from)
        ensures Exchanges(History(sha256, actions + more), id) <= 1
      {
        ClosedStaysClosed(sha256, actions, more, id, from);
        ExchangesBounded(sha256, actions + more, id);
        SubsetIsSmaller(Exchangers(History(sha256, actions + more), id),
                        Claimants(After(actions), History(sha256, actions), id, from));
      }
    }
  }

  /**
    The same with clocks left free, for an id already saved: as long as its row is there, and
    afterwards while two callbacks have exchanged it or are in flight with the right state.
  */
  lemma DoubleExchangeExactly(sha256: string -> Data, actions: seq<Action>, id: string)
    requires Fresh(actions) && id in UsedIds(actions)
    ensures (exists more :: Fresh(actions + more) && Exchanges(History(sha256, actions + more), id) >= 2) <==>
              || id in After(actions).rows
              || |Exchangers(History(sha256, actions), id) + Contenders(After(actions).callbacks, id, None)| >= 2
  {
    ExchangedTwiceExactly(sha256, actions, id, None);
    if more :| Fresh(actions + more) && Exchanges(History(sha256, actions + more), id) >= 2 {
      assert AllOnTime(more, None);
    }
  }

  // Two callbacks, 1 and 2, that both present the right state.

  const SAMPLE := Session("id", "state", "verifier", "uri", 10)
  const GET1 := Get(1, "id", "code", "state", false)
  const GET2 := Get(2, "id", "code", "state", false)
  const READ := Fetched(SAMPLE, "code", "state")
  const DELETED := Deleted(SAMPLE, "code", "state")
  const BOTH := map[1 := DELETED, 2 := DELETED]

  const RACE := [Save(0, SAMPLE)] + [GET1] + [GET2] + [Delete(1, false)] + [Delete(2, false)]
  const REPLAY := [Save(0, SAMPLE)] + [GET1] + [Delete(1, true)] + [GET2] + [Delete(2, false)]

  lemma DeletedExchanges(sha256: string -> Data, actions: seq<Action>, cb: nat)
    requires cb in After(actions).callbacks && After(actions).callbacks[cb] == DELETED
    ensures After(actions + [Check(cb, 0)]).callbacks == After(actions).callbacks[cb := Ended]
    ensures Exchanges(History(sha256, actions + [Check(cb, 0)]), "id") == Exchanges(History(sha256, actions), "id") + 1
  {
    var s := After(actions);
    assert Emits(sha256, s, Check(cb, 0)) == [Exchanged(cb, "id", "state", "code", "verifier", 0)];
    OneMore(sha256, actions, Check(cb, 0));
    HistoryGrows(History(sha256, actions), Exchanged(cb, "id", "state", "code", "verifier", 0), "id");
  }

  lemma SampleSaved(sha256: string -> Data)
    ensures After([Save(0, SAMPLE)]) == State(map["id" := SAMPLE], map[0 := Saved(SAMPLE)], map[])
  {
    OneMore(sha256, [], Save(0, SAMPLE));
    assert [] + [Save(0, SAMPLE)] == [Save(0, SAMPLE)];
  }

  lemma RaceState(sha256: string -> Data)
    ensures After(RACE).callbacks == BOTH
  {
    SampleSaved(sha256);
    var saved := [Save(0, SAMPLE)];
    OneMore(sha256, saved, GET1);
    OneMore(sha256, saved + [GET1], GET2);
    assert After(saved + [GET1] + [GET2]).callbacks == map[1 := READ, 2 := READ];
    OneMore(sha256, saved + [GET1] + [GET2], Delete(1, false));
    OneMore(sha256, saved + [GET1] + [GET2] + [Delete(1, false)], Delete(2, false));
  }

  lemma ReplayState(sha256: string -> Data)
    ensures After(REPLAY).callbacks == BOTH
  {
    SampleSaved(sha256);
    var saved := [Save(0, SAMPLE)];
    OneMore(sha256, saved, GET1);
    OneMore(sha256, saved + [GET1], Delete(1, true));
    assert After(saved + [GET1] + [Delete(1, true)]).callbacks == map[1 := DELETED];
    OneMore(sha256, saved + [GET1] + [Delete(1, true)], GET2);
    OneMore(sha256, saved + [GET1] + [Delete(1, true)] + [GET2], Delete(2, false));
  }

  /** Two interleaved callbacks, or one failed delete, do exchange an id twice. */
  lemma DoubleExchange(sha256: string -> Data)
    ensures Exchanges(History(sha256, RACE + [Check(1, 0)] + [Check(2, 0)]), "id") >= 2
    ensures Exchanges(History(sha256, REPLAY + [Check(1, 0)] + [Check(2, 0)]), "id") >= 2
  {
    RaceState(sha256);
    DeletedExchanges(sha256, RACE, 1);
    DeletedExchanges(sha256, RACE + [Check(1, 0)], 2);
    ReplayState(sha256);
    DeletedExchanges(sha256, REPLAY, 1);
    DeletedExchanges(sha256, REPLAY + [Check(1, 0)], 2);
  }
}
