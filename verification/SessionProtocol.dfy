/**
  Sign-in flows and the background sweep, interleaved statement by statement: saving a session
  and asking for its URL are separate, and so are a callback's read, delete, and check. The
  history lists what the statements did, in order.
*/
module SessionProtocol {
  import opened Wrappers
  import opened Bytes
  import opened AuthSessions
  import opened Sequences
  import AuthService
  import Base64

  /** How far a callback has come. */
  datatype Callback =
    | Fetched(session: Session, code: string, state: string)
    | Deleted(session: Session, code: string, state: string)
    | Ended

  /** How far a started flow has come: its session is saved, and then its URL is asked for. */
  datatype Initiation = Saved(session: Session) | Redirected

  datatype State = State(rows: Table, initiations: map<nat, Initiation>, callbacks: map<nat, Callback>)

  datatype Event =
    | Created(init: nat, session: Session)
    | UrlRequested(init: nat, id: string, state: string, challenge: string)
    | Got(cb: nat, id: string)
    | Removed(cb: nat, id: string)
    | Exchanged(cb: nat, id: string, state: string, code: string, verifier: string, now: int)

  datatype Action =
    | Save(init: nat, session: Session)
    | RequestUrl(init: nat)
    | Get(cb: nat, id: string, code: string, state: string, fault: bool)
    | Delete(cb: nat, fault: bool)
    | Check(cb: nat, now: int)
    | Sweep(now: int)

  const INITIAL := State(map[], map[], map[])

  // A statement out of turn, for its flow or its callback, changes nothing. A number stands for one
  // call of the service.

  predicate CanRead(s: State, a: Action) {
    a.Get? && a.cb !in s.callbacks && a.id in s.rows && !a.fault
  }

  predicate CanDelete(s: State, cb: nat) {
    cb in s.callbacks && s.callbacks[cb].Fetched?
  }

  predicate CanCheck(s: State, cb: nat) {
    cb in s.callbacks && s.callbacks[cb].Deleted?
  }

  ghost predicate CanSave(s: State, init: nat, session: Session) {
    init !in s.initiations && Fits(s.rows, session)
  }

  predicate CanRequest(s: State, init: nat) {
    init in s.initiations && s.initiations[init].Saved?
  }

  /** The state after one statement. */
  ghost function Next(s: State, a: Action): State {
    match a
    case Save(init, session) =>
      if CanSave(s, init, session)
      then s.(rows := s.rows[session.id := session], initiations := s.initiations[init := Saved(session)])
      else s
    case RequestUrl(init) =>
      if CanRequest(s, init) then s.(initiations := s.initiations[init := Redirected]) else s
    case Get(cb, id, code, state, _) =>
      if cb in s.callbacks then s
      else if !CanRead(s, a) then s.(callbacks := s.callbacks[cb := Ended])
      else s.(callbacks := s.callbacks[cb := Fetched(s.rows[id], code, state)])
    case Delete(cb, fault) =>
      if CanDelete(s, cb) then
        var c := s.callbacks[cb];
        State(if fault then s.rows else s.rows - {c.session.id}, s.initiations,
              s.callbacks[cb := Deleted(c.session, c.code, c.state)])
      else s
    case Check(cb, now) => if CanCheck(s, cb) then s.(callbacks := s.callbacks[cb := Ended]) else s
    case Sweep(now) => s.(rows := Swept(s.rows, now))
  }

  /** What the statement leaves in the history. */
  ghost function Emits(sha256: string -> Data, s: State, a: Action): seq<Event> {
    match a
    case Save(init, session) => if CanSave(s, init, session) then [Created(init, session)] else []
    case RequestUrl(init) =>
      if !CanRequest(s, init) then []
      else
        var session := s.initiations[init].session;
        [UrlRequested(init, session.id, session.state, DeriveChallenge(sha256, session.codeVerifier))]
    case Get(cb, id, _, _, _) => if CanRead(s, a) then [Got(cb, id)] else []
    case Delete(cb, fault) =>
      if CanDelete(s, cb) && !fault && s.callbacks[cb].session.id in s.rows
      then [Removed(cb, s.callbacks[cb].session.id)]
      else []
    case Check(cb, now) => if CanCheck(s, cb) then Checked(cb, s.callbacks[cb], now) else []
    case Sweep(_) => []
  }

  function Checked(cb: nat, c: Callback, now: int): seq<Event>
    requires c.Deleted?
  {
    if c.session.IsExpired(now) || c.session.state != c.state then []
    else [Exchanged(cb, c.session.id, c.state, c.code, c.session.codeVerifier, now)]
  }

  ghost function After(actions: seq<Action>): State {
    if actions == [] then INITIAL else Next(After(Front(actions)), Last(actions))
  }

  ghost function History(sha256: string -> Data, actions: seq<Action>): seq<Event> {
    if actions == [] then []
    else History(sha256, Front(actions)) + Emits(sha256, After(Front(actions)), Last(actions))
  }

  lemma OneMore(sha256: string -> Data, actions: seq<Action>, a: Action)
    ensures After(actions + [a]) == Next(After(actions), a)
    ensures History(sha256, actions + [a]) == History(sha256, actions) + Emits(sha256, After(actions), a)
  {
    assert Front(actions + [a]) == actions && Last(actions + [a]) == a;
  }

  /**
    Taken together, a flow's two statements do what the service's method does once its save goes
    through, and ask for the URL once; a save the database faults is no statement.
  */
  lemma WholeInitiation(sha256: string -> Data, s: State, init: nat, session: Session, urlFault: bool, t': Table,
                        called: seq<AuthService.ProviderCall>, r: Result<string, AuthService.InitiateError>)
    requires init !in s.initiations
    requires AuthService.Started(sha256, s.rows, session, false, urlFault, t', called, r)
    ensures
      var saved := Next(s, Save(init, session));
      && Next(saved, RequestUrl(init)).rows == t'
      && Emits(sha256, s, Save(init, session)) == (if called == [] then [] else [Created(init, session)])
      && Emits(sha256, saved, RequestUrl(init)) ==
           (if called == [] then []
            else [UrlRequested(init, called[0].id, called[0].state, called[0].challenge)])
      && Emits(sha256, Next(saved, RequestUrl(init)), RequestUrl(init)) == []
  {}

  /** Taken together, a callback's three statements do what the service's method does in one go. */
  lemma WholeCallback(sha256: string -> Data, s: State, cb: nat, id: string, code: string, state: string, now: int,
                      getFault: bool, deleteFault: bool, exchangeFault: bool, t': Table,
                      called: seq<AuthService.ProviderCall>, r: Result<(), AuthService.CallbackError>)
    requires cb !in s.callbacks && Keyed(s.rows)
    requires AuthService.Outcome(s.rows, id, code, state, now, getFault, deleteFault, exchangeFault, t', called, r)
    ensures
      var read := Next(s, Get(cb, id, code, state, getFault));
      var deleted := Next(read, Delete(cb, deleteFault));
      && Next(deleted, Check(cb, now)).rows == t'
      && Emits(sha256, deleted, Check(cb, now)) ==
           if called == [] then [] else [Exchanged(cb, id, state, code, called[0].verifier, now)]
  {
    assert id !in s.rows ==> s.rows - {id} == s.rows;
  }

  /** The sweep's one statement removes exactly the rows past their last instant. */
  lemma WholeSweep(s: State, now: int, id: string)
    ensures id in Next(s, Sweep(now)).rows <==> id in s.rows && now <= s.rows[id].expiresAt
    ensures id in Next(s, Sweep(now)).rows ==> Next(s, Sweep(now)).rows[id] == s.rows[id]
  {}

  // ---------------------------------------------------------------------------------------
  // Fresh ids.

  function IdOf(a: Action): set<string> {
    if a.Save? then {a.session.id} else {}
  }

  function StateOf(a: Action): set<string> {
    if a.Save? then {a.session.state} else {}
  }

  /** The ids, and the states, of all sessions a run tries to save. */
  function UsedIds(actions: seq<Action>): set<string> {
    if actions == [] then {} else UsedIds(Front(actions)) + IdOf(Last(actions))
  }

  function UsedStates(actions: seq<Action>): set<string> {
    if actions == [] then {} else UsedStates(Front(actions)) + StateOf(Last(actions))
  }

  /** Session ids are drawn at random: none comes up twice. */
  ghost predicate Fresh(actions: seq<Action>) {
    actions == [] || (Fresh(Front(actions)) && IdOf(Last(actions)) !! UsedIds(Front(actions)))
  }

  /** So are states; only the sweep's effect depends on it. */
  ghost predicate FreshStates(actions: seq<Action>) {
    actions == [] || (FreshStates(Front(actions)) && StateOf(Last(actions)) !! UsedStates(Front(actions)))
  }

  lemma {:induction false} AlwaysKeyed(actions: seq<Action>)
    ensures Keyed(After(actions).rows)
  {
    if actions != [] {
      AlwaysKeyed(Front(actions));
    }
  }

  // ---------------------------------------------------------------------------------------
  // The sweep changes nobody's sign-in.

  function NoSweeps(actions: seq<Action>): seq<Action> {
    if actions == [] then []
    else NoSweeps(Front(actions)) + if Last(actions).Sweep? then [] else [Last(actions)]
  }

  /** The readings taken by checks and sweeps do not go backwards, and none is past `now`. */
  ghost predicate Timely(actions: seq<Action>, now: int) {
    actions == [] || (ReadAt(Last(actions), now) <= now && Timely(Front(actions), ReadAt(Last(actions), now)))
  }

  function ReadAt(a: Action, now: int): int {
    if a.Check? || a.Sweep? then a.now else now
  }

  /** The code exchanges, with their callbacks, codes, verifiers and times, in order. */
  function ExchangeLog(h: seq<Event>): seq<Event> {
    if h == [] then [] else ExchangeLog(Front(h)) + if Last(h).Exchanged? then [Last(h)] else []
  }

  lemma LogGrows(h: seq<Event>, more: seq<Event>)
    requires |more| <= 1
    ensures ExchangeLog(h + more) == ExchangeLog(h) + if more != [] && more[0].Exchanged? then more else []
  {
    if more == [] {
      assert h + more == h;
    } else {
      assert Front(h + more) == h && Last(h + more) == more[0];
    }
  }

  /** A swept run s and its unswept twin t: what t has over s is expired, and so are t's extra readers. */
  ghost predicate Twins(ids: set<string>, states: set<string>, s: State, t: State, now: int) {
    && (forall id :: RowTwin(ids, states, s.rows, t.rows, id, now))
    && s.callbacks.Keys == t.callbacks.Keys
    && (forall cb :: cb in t.callbacks ==> CallbackTwin(ids, s.rows, s.callbacks[cb], t.callbacks[cb], now))
    && s.initiations == t.initiations
  }

  predicate RowTwin(ids: set<string>, states: set<string>, rows: Table, more: Table, id: string, now: int) {
    && (id in rows ==> id in more && more[id] == rows[id])
    && (id in more ==> id in rows || more[id].IsExpired(now))
    && (id in more ==> id in ids && more[id].state in states && more[id].id == id)
  }

  predicate CallbackTwin(ids: set<string>, rows: Table, c: Callback, d: Callback, now: int) {
    && (d.Ended? || d.session.id in ids)
    && (c == d || (c.Ended? && !d.Ended? && d.session.IsExpired(now) && d.session.id !in rows))
  }

  lemma TwinsSave(ids: set<string>, states: set<string>, s: State, t: State, a: Action, now: int)
    requires a.Save? && Twins(ids, states, s, t, now) && IdOf(a) !! ids && StateOf(a) !! states
    ensures Twins(ids + IdOf(a), states + StateOf(a), Next(s, a), Next(t, a), now)
    ensures CanSave(s, a.init, a.session) == CanSave(t, a.init, a.session)
  {
    assert a.session.id in IdOf(a) && a.session.state in StateOf(a);
    forall id
      ensures id in t.rows ==> id != a.session.id && t.rows[id].state != a.session.state
      ensures id in s.rows ==> id != a.session.id && s.rows[id].state != a.session.state
    {
      assert RowTwin(ids, states, s.rows, t.rows, id, now);
    }
    forall id
      ensures RowTwin(ids + IdOf(a), states + StateOf(a), Next(s, a).rows, Next(t, a).rows, id, now)
    {
      assert RowTwin(ids, states, s.rows, t.rows, id, now);
    }
    forall cb | cb in t.callbacks
      ensures CallbackTwin(ids + IdOf(a), Next(s, a).rows, s.callbacks[cb], t.callbacks[cb], now)
    {
      assert CallbackTwin(ids, s.rows, s.callbacks[cb], t.callbacks[cb], now);
    }
  }

  lemma TwinsGet(ids: set<string>, states: set<string>, s: State, t: State, a: Action, now: int)
    requires a.Get? && Twins(ids, states, s, t, now)
    ensures Twins(ids, states, Next(s, a), Next(t, a), now)
  {
    assert RowTwin(ids, states, s.rows, t.rows, a.id, now);
    forall cb | cb in Next(t, a).callbacks
      ensures CallbackTwin(ids, s.rows, Next(s, a).callbacks[cb], Next(t, a).callbacks[cb], now)
    {
      if cb in t.callbacks {
        assert CallbackTwin(ids, s.rows, s.callbacks[cb], t.callbacks[cb], now);
      }
    }
  }

  lemma TwinsDelete(ids: set<string>, states: set<string>, s: State, t: State, a: Action, now: int)
    requires a.Delete? && Twins(ids, states, s, t, now)
    ensures Twins(ids, states, Next(s, a), Next(t, a), now)
  {
    if CanDelete(t, a.cb) {
      assert CallbackTwin(ids, s.rows, s.callbacks[a.cb], t.callbacks[a.cb], now);
    }
    forall id
      ensures RowTwin(ids, states, Next(s, a).rows, Next(t, a).rows, id, now)
    {
      assert RowTwin(ids, states, s.rows, t.rows, id, now);
    }
    forall cb | cb in t.callbacks
      ensures CallbackTwin(ids, Next(s, a).rows, Next(s, a).callbacks[cb], Next(t, a).callbacks[cb], now)
    {
      assert CallbackTwin(ids, s.rows, s.callbacks[cb], t.callbacks[cb], now);
    }
  }

  lemma TwinsCheck(ids: set<string>, states: set<string>, s: State, t: State, a: Action)
    requires a.Check? && Twins(ids, states, s, t, a.now)
    ensures Twins(ids, states, Next(s, a), Next(t, a), a.now)
  {
    forall cb | cb in t.callbacks
      ensures CallbackTwin(ids, s.rows, Next(s, a).callbacks[cb], Next(t, a).callbacks[cb], a.now)
    {
      assert CallbackTwin(ids, s.rows, s.callbacks[cb], t.callbacks[cb], a.now);
    }
  }

  lemma TwinsSweep(ids: set<string>, states: set<string>, s: State, t: State, a: Action)
    requires a.Sweep? && Twins(ids, states, s, t, a.now)
    ensures Twins(ids, states, Next(s, a), t, a.now)
  {
    forall id
      ensures RowTwin(ids, states, Next(s, a).rows, t.rows, id, a.now)
    {
      assert RowTwin(ids, states, s.rows, t.rows, id, a.now);
    }
    forall cb | cb in t.callbacks
      ensures CallbackTwin(ids, Next(s, a).rows, s.callbacks[cb], t.callbacks[cb], a.now)
    {
      assert CallbackTwin(ids, s.rows, s.callbacks[cb], t.callbacks[cb], a.now);
    }
  }

  lemma TwinsLater(ids: set<string>, states: set<string>, s: State, t: State, now: int, later: int)
    requires Twins(ids, states, s, t, now) && now <= later
    ensures Twins(ids, states, s, t, later)
  {
    forall id
      ensures RowTwin(ids, states, s.rows, t.rows, id, later)
    {
      assert RowTwin(ids, states, s.rows, t.rows, id, now);
    }
    forall cb | cb in t.callbacks
      ensures CallbackTwin(ids, s.rows, s.callbacks[cb], t.callbacks[cb], later)
    {
      assert CallbackTwin(ids, s.rows, s.callbacks[cb], t.callbacks[cb], now);
    }
  }

  lemma TwinsStep(ids: set<string>, states: set<string>, s: State, t: State, a: Action, now: int)
    requires Twins(ids, states, s, t, now) && ReadAt(a, now) == now
    requires IdOf(a) !! ids && StateOf(a) !! states
    ensures Twins(ids + IdOf(a), states + StateOf(a), Next(s, a), if a.Sweep? then t else Next(t, a), now)
  {
    assert !a.Save? ==> ids + IdOf(a) == ids && states + StateOf(a) == states;
    match a
    case Save(_, _) => TwinsSave(ids, states, s, t, a, now);
    case RequestUrl(_) =>
    case Get(_, _, _, _, _) => TwinsGet(ids, states, s, t, a, now);
    case Delete(_, _) => TwinsDelete(ids, states, s, t, a, now);
    case Check(_, _) => TwinsCheck(ids, states, s, t, a);
    case Sweep(_) => TwinsSweep(ids, states, s, t, a);
  }

  /** A callback that only the unswept twin still has holds an expired session, so neither exchanges. */
  lemma TwinsExchangeAlike(sha256: string -> Data, ids: set<string>, states: set<string>, s: State, t: State,
                           a: Action, now: int)
    requires a.Check? && Twins(ids, states, s, t, now) && a.now == now
    ensures Emits(sha256, s, a) == Emits(sha256, t, a)
  {
    if a.cb in t.callbacks {
      assert CallbackTwin(ids, s.rows, s.callbacks[a.cb], t.callbacks[a.cb], now);
    }
  }

  lemma TwinsLogStep(sha256: string -> Data, ids: set<string>, states: set<string>, s: State, t: State,
                     h: seq<Event>, g: seq<Event>, a: Action, now: int)
    requires Twins(ids, states, s, t, now) && ReadAt(a, now) == now && ExchangeLog(h) == ExchangeLog(g)
    ensures ExchangeLog(h + Emits(sha256, s, a)) == ExchangeLog(g + if a.Sweep? then [] else Emits(sha256, t, a))
  {
    var ours, theirs := Emits(sha256, s, a), if a.Sweep? then [] else Emits(sha256, t, a);
    OnlyChecksExchange(sha256, s, a);
    OnlyChecksExchange(sha256, t, a);
    if a.Check? {
      TwinsExchangeAlike(sha256, ids, states, s, t, a, now);
    }
    LogGrows(h, ours);
    LogGrows(g, theirs);
  }

  lemma OnlyChecksExchange(sha256: string -> Data, s: State, a: Action)
    ensures |Emits(sha256, s, a)| <= 1
    ensures Emits(sha256, s, a) != [] && Emits(sha256, s, a)[0].Exchanged? ==> a.Check?
  {}

  /** The twin's run, one action on. */
  lemma NoSweepsStep(sha256: string -> Data, actions: seq<Action>)
    requires actions != []
    ensures
      var rest, a := NoSweeps(Front(actions)), Last(actions);
      && After(NoSweeps(actions)) == (if a.Sweep? then After(rest) else Next(After(rest), a))
      && History(sha256, NoSweeps(actions))
           == History(sha256, rest) + if a.Sweep? then [] else Emits(sha256, After(rest), a)
  {
    var rest, a := NoSweeps(Front(actions)), Last(actions);
    if a.Sweep? {
      assert NoSweeps(actions) == rest;
    } else {
      OneMore(sha256, rest, a);
    }
  }

  lemma {:induction false} SweptRunHasTwin(sha256: string -> Data, actions: seq<Action>, now: int)
    requires Fresh(actions) && FreshStates(actions) && Timely(actions, now)
    ensures Twins(UsedIds(actions), UsedStates(actions), After(actions), After(NoSweeps(actions)), now)
    ensures ExchangeLog(History(sha256, actions)) == ExchangeLog(History(sha256, NoSweeps(actions)))
  {
    if actions == [] {
      assert forall id :: RowTwin({}, {}, INITIAL.rows, INITIAL.rows, id, now);
    } else {
      var rest, a := Front(actions), Last(actions);
      var read := ReadAt(a, now);
      var ids, states, s, t := UsedIds(rest), UsedStates(rest), After(rest), After(NoSweeps(rest));
      SweptRunHasTwin(sha256, rest, read);
      NoSweepsStep(sha256, actions);
      TwinsLogStep(sha256, ids, states, s, t, History(sha256, rest), History(sha256, NoSweeps(rest)), a, read);
      TwinsStep(ids, states, s, t, a, read);
      TwinsLater(ids + IdOf(a), states + StateOf(a), Next(s, a), if a.Sweep? then t else Next(t, a), read, now);
    }
  }

  /**
    Sweeps, wherever they fall, change no exchange: a run performs the same exchanges as the run
    with its sweeps left out.
  */
  lemma SweepIsInvisible(sha256: string -> Data, actions: seq<Action>, now: int)
    requires Fresh(actions) && FreshStates(actions) && Timely(actions, now)
    ensures ExchangeLog(History(sha256, actions)) == ExchangeLog(History(sha256, NoSweeps(actions)))
  {
    SweptRunHasTwin(sha256, actions, now);
  }

  // ---------------------------------------------------------------------------------------
  // Challenge binding.

  /** A session with the flow that created it. */
  datatype Flow = Flow(init: nat, session: Session)

  type Flows = map<string, Flow>

  /** The flows so far, by session id. */
  function FlowsOf(h: seq<Event>): Flows {
    if h == [] then map[]
    else if Last(h).Created? then FlowsOf(Front(h))[Last(h).session.id := Flow(Last(h).init, Last(h).session)]
    else FlowsOf(Front(h))
  }

  /** The ids whose authorization URL has been requested. */
  function Requested(h: seq<Event>): set<string> {
    if h == [] then {} else Requested(Front(h)) + if Last(h).UrlRequested? then {Last(h).id} else {}
  }

  /** An event is bound to a flow before it; a new flow has an id and a number no earlier one had. */
  ghost predicate Bound(sha256: string -> Data, flows: Flows, e: Event) {
    match e
    case Created(init, session) => session.id !in flows && forall id :: id in flows ==> flows[id].init != init
    case UrlRequested(init, id, _, _) => id in flows && flows[id].init == init && Asks(sha256, e, flows[id].session)
    case Exchanged(_, id, _, _, _, _) => id in flows && Redeems(e, flows[id].session)
    case _ => true
  }

  /** The URL was requested with the session's state and the S256 challenge of its verifier. */
  predicate Asks(sha256: string -> Data, e: Event, session: Session) {
    && e.UrlRequested? && e.id == session.id && e.state == session.state
    && e.challenge == Base64.Encode(Base64.Url, false, sha256(session.codeVerifier))
  }

  /** The code was exchanged with the session's own state and verifier, and before it expired. */
  predicate Redeems(e: Event, session: Session) {
    && e.Exchanged? && e.id == session.id && e.state == session.state && e.verifier == session.codeVerifier
    && e.now <= session.expiresAt
  }

  ghost predicate AllBound(sha256: string -> Data, h: seq<Event>) {
    h == [] || (AllBound(sha256, Front(h)) && Bound(sha256, FlowsOf(Front(h)), Last(h)))
  }

  predicate Known(flows: Flows, session: Session) {
    session.id in flows && flows[session.id].session == session
  }

  /** Every session in hand is that of a flow; a flow has requested its URL or has yet to do so. */
  ghost predicate Accounted(ids: set<string>, s: State, flows: Flows, requested: set<string>) {
    && flows.Keys <= ids
    && (forall id :: id in s.rows ==> s.rows[id].id == id && Known(flows, s.rows[id]))
    && (forall cb :: cb in s.callbacks && !s.callbacks[cb].Ended? ==> Known(flows, s.callbacks[cb].session))
    && (forall id :: id in flows ==> FlowAccounted(s, flows[id], id, requested))
    && (forall init :: CanRequest(s, init) ==> InFlows(flows, init, s.initiations[init].session))
  }

  predicate FlowAccounted(s: State, flow: Flow, id: string, requested: set<string>) {
    && flow.session.id == id && flow.init in s.initiations
    && (id in requested || s.initiations[flow.init] == Saved(flow.session))
  }

  predicate InFlows(flows: Flows, init: nat, session: Session) {
    session.id in flows && flows[session.id] == Flow(init, session)
  }

  lemma AccountedSave(ids: set<string>, s: State, flows: Flows, requested: set<string>, a: Action)
    requires a.Save? && Accounted(ids, s, flows, requested) && IdOf(a) !! ids && CanSave(s, a.init, a.session)
    ensures Accounted(ids + IdOf(a), Next(s, a), flows[a.session.id := Flow(a.init, a.session)], requested)
  {
    assert a.session.id in IdOf(a);
    var s', flows' := Next(s, a), flows[a.session.id := Flow(a.init, a.session)];
    forall id | id in flows'
      ensures FlowAccounted(s', flows'[id], id, requested)
    {
      if id != a.session.id {
        assert FlowAccounted(s, flows[id], id, requested);
      }
    }
    forall init | CanRequest(s', init)
      ensures InFlows(flows', init, s'.initiations[init].session)
    {
      if init != a.init {
        assert CanRequest(s, init) && InFlows(flows, init, s.initiations[init].session);
      }
    }
  }

  lemma AccountedRequest(ids: set<string>, s: State, flows: Flows, requested: set<string>, init: nat)
    requires Accounted(ids, s, flows, requested) && CanRequest(s, init)
    ensures Accounted(ids, Next(s, RequestUrl(init)), flows, requested + {s.initiations[init].session.id})
  {
    var s', session := Next(s, RequestUrl(init)), s.initiations[init].session;
    assert InFlows(flows, init, session);
    forall id | id in flows
      ensures FlowAccounted(s', flows[id], id, requested + {session.id})
    {
      assert FlowAccounted(s, flows[id], id, requested);
    }
    forall i | CanRequest(s', i)
      ensures InFlows(flows, i, s'.initiations[i].session)
    {
      assert CanRequest(s, i) && s'.initiations[i] == s.initiations[i];
    }
  }

  lemma AccountedElse(ids: set<string>, s: State, flows: Flows, requested: set<string>, a: Action)
    requires Accounted(ids, s, flows, requested)
    requires a.Save? ==> !CanSave(s, a.init, a.session)
    requires a.RequestUrl? ==> !CanRequest(s, a.init)
    ensures Accounted(ids, Next(s, a), flows, requested)
  {
    ElseHandsOn(s, a);
    FlowsUnmoved(s, Next(s, a), flows, requested);
  }

  /** A callback's session is one it had, or one it has just read. */
  ghost predicate HandedOn(s: State, c: Callback, cb: nat) {
    || c.Ended?
    || (cb in s.callbacks && !s.callbacks[cb].Ended? && s.callbacks[cb].session == c.session)
    || exists id :: id in s.rows && s.rows[id] == c.session
  }

  lemma ElseHandsOn(s: State, a: Action)
    requires a.Save? ==> !CanSave(s, a.init, a.session)
    requires a.RequestUrl? ==> !CanRequest(s, a.init)
    ensures
      var s' := Next(s, a);
      && s'.initiations == s.initiations
      && (forall id :: id in s'.rows ==> id in s.rows && s'.rows[id] == s.rows[id])
      && (forall cb :: cb in s'.callbacks ==> HandedOn(s, s'.callbacks[cb], cb))
  {}

  /** What flows rely on is their initiations alone. */
  lemma FlowsUnmoved(s: State, s': State, flows: Flows, requested: set<string>)
    requires s'.initiations == s.initiations
    requires forall id :: id in flows ==> FlowAccounted(s, flows[id], id, requested)
    requires forall init :: CanRequest(s, init) ==> InFlows(flows, init, s.initiations[init].session)
    ensures forall id :: id in flows ==> FlowAccounted(s', flows[id], id, requested)
    ensures forall init :: CanRequest(s', init) ==> InFlows(flows, init, s'.initiations[init].session)
  {
    forall id | id in flows
      ensures FlowAccounted(s', flows[id], id, requested)
    {
      assert FlowAccounted(s, flows[id], id, requested);
    }
    forall init | CanRequest(s', init)
      ensures InFlows(flows, init, s'.initiations[init].session)
    {
      assert CanRequest(s, init);
    }
  }

  function FlowsPlus(flows: Flows, more: seq<Event>): Flows {
    if more != [] && more[0].Created? then flows[more[0].session.id := Flow(more[0].init, more[0].session)] else flows
  }

  function RequestedPlus(requested: set<string>, more: seq<Event>): set<string> {
    requested + if more != [] && more[0].UrlRequested? then {more[0].id} else {}
  }

  lemma AccountedStep(sha256: string -> Data, ids: set<string>, s: State, flows: Flows, requested: set<string>,
                      a: Action)
    requires Accounted(ids, s, flows, requested) && IdOf(a) !! ids
    ensures
      var more := Emits(sha256, s, a);
      Accounted(ids + IdOf(a), Next(s, a), FlowsPlus(flows, more), RequestedPlus(requested, more))
  {
    PlusEmitted(sha256, s, flows, requested, a);
    if a.Save? && CanSave(s, a.init, a.session) {
      AccountedSave(ids, s, flows, requested, a);
    } else if a.RequestUrl? && CanRequest(s, a.init) {
      AccountedRequest(ids, s, flows, requested, a.init);
      AccountedWiden(ids, IdOf(a), Next(s, a), flows, requested + {s.initiations[a.init].session.id});
    } else {
      AccountedElse(ids, s, flows, requested, a);
      AccountedWiden(ids, IdOf(a), Next(s, a), flows, requested);
    }
  }

  /** Only a save adds a flow, and only a request adds to the requested ids. */
  lemma PlusEmitted(sha256: string -> Data, s: State, flows: Flows, requested: set<string>, a: Action)
    ensures FlowsPlus(flows, Emits(sha256, s, a)) ==
              if a.Save? && CanSave(s, a.init, a.session)
              then flows[a.session.id := Flow(a.init, a.session)]
              else flows
    ensures RequestedPlus(requested, Emits(sha256, s, a)) ==
              if a.RequestUrl? && CanRequest(s, a.init)
              then requested + {s.initiations[a.init].session.id}
              else requested
  {}

  lemma AccountedWiden(ids: set<string>, more: set<string>, s: State, flows: Flows, requested: set<string>)
    requires Accounted(ids, s, flows, requested)
    ensures Accounted(ids + more, s, flows, requested)
  {}

  lemma StepIsBound(sha256: string -> Data, ids: set<string>, s: State, flows: Flows, requested: set<string>, a: Action)
    requires Accounted(ids, s, flows, requested) && IdOf(a) !! ids
    ensures |Emits(sha256, s, a)| <= 1
    ensures Emits(sha256, s, a) != [] ==> Bound(sha256, flows, Emits(sha256, s, a)[0])
  {
    match a
    case Save(init, session) =>
      assert session.id in IdOf(a);
      assert forall id :: id in flows ==> FlowAccounted(s, flows[id], id, requested);
    case RequestUrl(init) =>
      assert CanRequest(s, init) ==> InFlows(flows, init, s.initiations[init].session);
    case _ =>
  }

  lemma FlowsGrow(h: seq<Event>, more: seq<Event>)
    requires |more| <= 1
    ensures FlowsOf(h + more) == FlowsPlus(FlowsOf(h), more)
    ensures Requested(h + more) == RequestedPlus(Requested(h), more)
  {
    if more == [] {
      assert h + more == h;
    } else {
      assert Front(h + more) == h && Last(h + more) == more[0];
    }
  }

  lemma BoundGrows(sha256: string -> Data, h: seq<Event>, more: seq<Event>)
    requires AllBound(sha256, h) && |more| <= 1 && (more != [] ==> Bound(sha256, FlowsOf(h), more[0]))
    ensures AllBound(sha256, h + more)
  {
    if more == [] {
      assert h + more == h;
    } else {
      assert Front(h + more) == h && Last(h + more) == more[0];
    }
  }

  lemma {:induction false} AlwaysBound(sha256: string -> Data, actions: seq<Action>)
    requires Fresh(actions)
    ensures
      var h := History(sha256, actions);
      AllBound(sha256, h) && Accounted(UsedIds(actions), After(actions), FlowsOf(h), Requested(h))
  {
    if actions != [] {
      var rest, a := Front(actions), Last(actions);
      AlwaysBound(sha256, rest);
      var s, h, ids := After(rest), History(sha256, rest), UsedIds(rest);
      StepIsBound(sha256, ids, s, FlowsOf(h), Requested(h), a);
      BoundGrows(sha256, h, Emits(sha256, s, a));
      FlowsGrow(h, Emits(sha256, s, a));
      AccountedStep(sha256, ids, s, FlowsOf(h), Requested(h), a);
    }
  }

  /** An event is bound in its place. */
  lemma {:induction false} BoundInPlace(sha256: string -> Data, h: seq<Event>, i: nat)
    requires AllBound(sha256, h) && i < |h|
    ensures Bound(sha256, FlowsOf(h[..i]), h[i])
  {
    if i < |h| - 1 {
      BoundInPlace(sha256, Front(h), i);
      assert Front(h)[..i] == h[..i];
    }
  }

  /** Once created, a flow stays what it is. */
  lemma {:induction false} FlowStays(sha256: string -> Data, h: seq<Event>, n: nat, k: nat)
    requires AllBound(sha256, h) && n < k <= |h| && h[n].Created?
    ensures InFlows(FlowsOf(h[..k]), h[n].init, h[n].session)
  {
    assert Front(h[..k]) == h[..k - 1] && Last(h[..k]) == h[k - 1];
    if n < k - 1 {
      FlowStays(sha256, h, n, k - 1);
      BoundInPlace(sha256, h, k - 1);
    }
  }

  /** Where the flow of an id was created. */
  lemma {:induction false} FlowWasCreated(h: seq<Event>, k: nat, id: string) returns (n: nat)
    requires k <= |h| && id in FlowsOf(h[..k])
    ensures n < k && h[n] == Created(FlowsOf(h[..k])[id].init, FlowsOf(h[..k])[id].session) && h[n].session.id == id
  {
    assert Front(h[..k]) == h[..k - 1] && Last(h[..k]) == h[k - 1];
    if h[k - 1].Created? && h[k - 1].session.id == id {
      n := k - 1;
    } else {
      n := FlowWasCreated(h, k - 1, id);
    }
  }

  /** No two flows share a session id or a number. */
  lemma FlowsAreDistinct(sha256: string -> Data, h: seq<Event>, n: nat, m: nat)
    requires AllBound(sha256, h) && n < |h| && m < |h| && h[n].Created? && h[m].Created?
    requires h[n].session.id == h[m].session.id || h[n].init == h[m].init
    ensures n == m
  {
    if n < m {
      FlowStays(sha256, h, n, m);
      BoundInPlace(sha256, h, m);
      assert false;
    } else if m < n {
      FlowStays(sha256, h, m, n);
      BoundInPlace(sha256, h, n);
      assert false;
    }
  }

  lemma {:induction false} RequestWasMade(h: seq<Event>, id: string) returns (j: nat)
    requires id in Requested(h)
    ensures j < |h| && h[j].UrlRequested? && h[j].id == id
  {
    if Last(h).UrlRequested? && Last(h).id == id {
      j := |h| - 1;
    } else {
      j := RequestWasMade(Front(h), id);
    }
  }

  /** A URL request for the session created at m comes after it, from the same flow, with its state and challenge. */
  ghost predicate AsksFor(sha256: string -> Data, h: seq<Event>, m: nat, j: nat)
    requires m < |h| && j < |h| && h[m].Created?
  {
    m < j && Asks(sha256, h[j], h[m].session) && h[j].init == h[m].init
  }

  lemma RequestIsBound(sha256: string -> Data, h: seq<Event>, m: nat, j: nat)
    requires AllBound(sha256, h) && m < |h| && j < |h|
    requires h[m].Created? && h[j].UrlRequested? && h[j].id == h[m].session.id
    ensures AsksFor(sha256, h, m, j)
  {
    BoundInPlace(sha256, h, j);
    var n := FlowWasCreated(h, j, h[j].id);
    FlowsAreDistinct(sha256, h, n, m);
  }

  /**
    Each code exchange redeems, unexpired, the session of exactly one InitiateAuth call before it, m;
    no other call has its number or its session id. Every authorization URL requested for that id was
    requested by the same call after m, with the same state and the S256 challenge of the very
    verifier exchanged, which reads back as its hash; and there is such a request unless the call has yet to make it.
  */
  lemma ChallengeBinding(sha256: string -> Data, actions: seq<Action>, i: nat) returns (m: nat)
    requires Fresh(actions) && i < |History(sha256, actions)| && History(sha256, actions)[i].Exchanged?
    ensures
      var h := History(sha256, actions);
      && m < i && h[m].Created? && Redeems(h[i], h[m].session)
      && (forall n :: 0 <= n < |h| && h[n].Created? && (h[n].session.id == h[i].id || h[n].init == h[m].init) ==>
            n == m)
      && (forall j :: 0 <= j < |h| && h[j].UrlRequested? && h[j].id == h[i].id ==>
            AsksFor(sha256, h, m, j) &&
            Base64.Decode(Base64.Url, false, h[j].challenge) == Some(sha256(h[i].verifier)))
      && ((exists j :: 0 <= j < |h| && AsksFor(sha256, h, m, j)) ||
          (h[m].init in After(actions).initiations && After(actions).initiations[h[m].init] == Saved(h[m].session)))
  {
    var h := History(sha256, actions);
    AlwaysBound(sha256, actions);
    BoundInPlace(sha256, h, i);
    m := FlowWasCreated(h, i, h[i].id);
    forall n | 0 <= n < |h| && h[n].Created? && (h[n].session.id == h[i].id || h[n].init == h[m].init)
      ensures n == m
    {
      FlowsAreDistinct(sha256, h, n, m);
    }
    forall j | 0 <= j < |h| && h[j].UrlRequested? && h[j].id == h[i].id
      ensures AsksFor(sha256, h, m, j)
      ensures Base64.Decode(Base64.Url, false, h[j].challenge) == Some(sha256(h[i].verifier))
    {
      RequestIsBound(sha256, h, m, j);
      Base64.RoundTrip(Base64.Url, false, sha256(h[i].verifier));
    }
    FlowStays(sha256, h, m, |h|);
    assert h[..|h|] == h;
    assert FlowAccounted(After(actions), FlowsOf(h)[h[i].id], h[i].id, Requested(h));
    if h[i].id in Requested(h) {
      var j := RequestWasMade(h, h[i].id);
      assert AsksFor(sha256, h, m, j);
    }
  }
}
