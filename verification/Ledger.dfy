/**
  Registrations, revocations and executions interleaved statement by statement: attestation and
  insertion are separate, and so are token verification, key lookup and the final check. The
  history records what happened; the results say what every finalised transfer has behind it.
*/
module Ledger {
  import opened Wrappers
  import opened Bytes
  import opened EnclaveKeys
  import opened Banking
  import Jwt = InternalJwt
  import Transfer

  /** How far a request has come, by call number. */
  datatype Call =
    | Done
    | Attested(row: Key)
    | Authorised(claims: Jwt.Claims, payload: Transfer.Payload)
    | Listed(claims: Jwt.Claims, payload: Transfer.Payload, keys: seq<Key>)

  datatype Event =
    | DeviceAttested(call: nat, row: Key, platform: string, attestation: string)
    | KeyStored(call: nat, row: Key)
    | KeyRevoked(id: string)
    | TokenAccepted(call: nat, token: string, nowNs: int, claims: Jwt.Claims, payload: Transfer.Payload)
    | KeysListed(call: nat, keys: seq<Key>)
    | Finalised(call: nat, payload: Transfer.Payload)

  datatype State = State(table: Table, calls: map<nat, Call>, history: seq<Event>)

  datatype Action =
    | Attest(call: nat, user: string, key: Key, platform: string, attestation: string, now: int)
    | Store(call: nat, fault: bool)
    | Revoke(id: string)
    | Authorise(call: nat, token: string, payload: Transfer.Payload, nowNs: int)
    | List(call: nat, keys: seq<Key>, fault: bool)
    | Finish(call: nat)

  const INITIAL := State(map[], map[], [])

  /**
    One statement of one request; `fault` says that the database fails it. A request that is
    refused leaves no trace, and a call number is used once.
  */
  ghost function Step<K>(env: Env<K>, s: State, a: Action): State {
    match a
    case Attest(call, user, key, platform, attestation, now) =>
      if call in s.calls || !env.attests(platform, attestation) then s
      else
        var row := key.(userId := user, registeredAt := now);
        s.(calls := s.calls[call := Attested(row)],
           history := s.history + [DeviceAttested(call, row, platform, attestation)])
    case Store(call, fault) =>
      if !(call in s.calls && s.calls[call].Attested?) then s
      else
        var row, ended := s.calls[call].row, s.calls[call := Done];
        if fault || row.id in s.table then s.(calls := ended)
        else s.(table := s.table[row.id := row], calls := ended, history := s.history + [KeyStored(call, row)])
    case Revoke(id) =>
      s.(table := s.table - {id}, history := s.history + [KeyRevoked(id)])
    case Authorise(call, token, payload, nowNs) =>
      if call in s.calls then s
      else
        var verified := Jwt.Verify(env.jwt, token, env.secret, nowNs);
        if verified.Err? || EXECUTE_SCOPE !in verified.value.scopes then s
        else s.(calls := s.calls[call := Authorised(verified.value, payload)],
                history := s.history + [TokenAccepted(call, token, nowNs, verified.value, payload)])
    case List(call, keys, fault) =>
      if !(call in s.calls && s.calls[call].Authorised?) then s
      else if fault then s.(calls := s.calls[call := Done])
      else if !IsListing(s.table, s.calls[call].claims.subject, keys) then s
      else
        var c := s.calls[call];
        s.(calls := s.calls[call := Listed(c.claims, c.payload, keys)],
           history := s.history + [KeysListed(call, keys)])
    case Finish(call) =>
      if !(call in s.calls && s.calls[call].Listed?) then s
      else
        var c, ended := s.calls[call], s.calls[call := Done];
        if !exists k :: k in c.keys && Verifies(env, k, c.payload) then s.(calls := ended)
        else s.(calls := ended, history := s.history + [Finalised(call, c.payload)])
  }

  /** Taken together, a registration's two statements do to the table what the service's method does. */
  lemma WholeRegistration<K>(env: Env<K>, s: State, call: nat, user: string, key: Key, platform: string,
                             attestation: string, now: int, fault: bool, t': Table, r: Result<(), RegisterError>)
    requires call !in s.calls && Registration(env, s.table, user, key, platform, attestation, now, fault, t', r)
    ensures
      var s1 := Step(env, s, Attest(call, user, key, platform, attestation, now));
      var s2 := Step(env, s1, Store(call, fault));
      && s2.table == t'
      && s2.history == s1.history + if r.Ok? then [KeyStored(call, t'[key.id])] else []
  {}

  /**
    Taken together, an execution's three statements finalise the payload exactly when the service's
    method succeeds, whether or not the key lookup faults, and leave the table alone.
  */
  lemma WholeExecution<K>(env: Env<K>, s: State, call: nat, token: string, p: Transfer.Payload, nowNs: int,
                          keys: seq<Key>, fault: bool, r: Result<(), ExecuteError>)
    requires call !in s.calls && Keyed(s.table) && Outcome(env, s.table, token, p, nowNs, fault, r)
    requires
      var verified := Jwt.Verify(env.jwt, token, env.secret, nowNs);
      verified.Ok? && !fault ==> IsListing(s.table, verified.value.subject, keys)
    ensures
      var s1 := Step(env, s, Authorise(call, token, p, nowNs));
      var s2 := Step(env, s1, List(call, keys, fault));
      var s3 := Step(env, s2, Finish(call));
      && s3.table == s.table
      && s3.history == s2.history + if r.Ok? then [Finalised(call, p)] else []
  {
    var s1 := Step(env, s, Authorise(call, token, p, nowNs));
    var verified := Jwt.Verify(env.jwt, token, env.secret, nowNs);
    if verified.Err? || EXECUTE_SCOPE !in verified.value.scopes {
      assert s1 == s;
    } else {
      assert s1.calls[call] == Authorised(verified.value, p) && s1.table == s.table;
      AuthorisedFinishes(env, s1, call, keys, fault);
      if !fault {
        ListingDecides(env, s.table, verified.value.subject, keys, p);
      }
    }
  }

  /** An authorised call finalises exactly if its lookup succeeds and finds a key that verifies the order. */
  lemma AuthorisedFinishes<K>(env: Env<K>, s: State, call: nat, keys: seq<Key>, fault: bool)
    requires call in s.calls && s.calls[call].Authorised?
    requires !fault ==> IsListing(s.table, s.calls[call].claims.subject, keys)
    ensures
      var p := s.calls[call].payload;
      var s2 := Step(env, s, List(call, keys, fault));
      var s3 := Step(env, s2, Finish(call));
      && s3.table == s.table
      && s3.history == s2.history +
           if !fault && exists k :: k in keys && Verifies(env, k, p) then [Finalised(call, p)] else []
  {
    var c, s2 := s.calls[call], Step(env, s, List(call, keys, fault));
    assert s2.table == s.table && s2.calls[call] == if fault then Done else Listed(c.claims, c.payload, keys);
  }

  ghost function Run<K>(env: Env<K>, actions: seq<Action>): State {
    if actions == [] then INITIAL else Step(env, Run(env, actions[..|actions| - 1]), actions[|actions| - 1])
  }

  // ---------------------------------------------------------------------------------------
  // Evidence.

  /** The table as the history tells it. */
  function TableOf(h: seq<Event>): Table {
    if h == [] then map[] else Applied(TableOf(h[..|h| - 1]), h[|h| - 1])
  }

  function Applied(t: Table, e: Event): Table {
    match e
    case KeyStored(_, row) => t[row.id := row]
    case KeyRevoked(id) => t - {id}
    case _ => t
  }

  /** Event i, in its place in a history, is fully accounted for by the events before it. */
  ghost predicate Justified<K>(env: Env<K>, h: seq<Event>, i: nat)
    requires i < |h|
  {
    match h[i]
    case DeviceAttested(_, _, platform, attestation) => env.attests(platform, attestation)
    case KeyStored(call, row) =>
      row.id !in TableOf(h[..i]) && exists j: nat :: j < i && AttestsRow(h[j], call, row)
    case KeyRevoked(_) => true
    case TokenAccepted(_, token, nowNs, claims, _) =>
      Jwt.Verify(env.jwt, token, env.secret, nowNs) == Ok(claims) && EXECUTE_SCOPE in claims.scopes
    case KeysListed(call, keys) =>
      exists j: nat :: j < i && Accepts(h[j], call) && IsListing(TableOf(h[..i]), h[j].claims.subject, keys)
    case Finalised(call, payload) =>
      exists j: nat, l: nat :: j < l < i && Supports(env, h, j, l, call, payload)
  }

  predicate AttestsRow(e: Event, call: nat, row: Key) {
    e.DeviceAttested? && e.call == call && e.row == row
  }

  predicate Accepts(e: Event, call: nat) {
    e.TokenAccepted? && e.call == call
  }

  /** The token accepted at j and the keys listed at l for one call, one of which signs the payload. */
  ghost predicate Supports<K>(env: Env<K>, h: seq<Event>, j: nat, l: nat, call: nat, payload: Transfer.Payload)
    requires j < l < |h|
  {
    && Accepts(h[j], call) && h[j].payload == payload
    && h[l].KeysListed? && h[l].call == call && IsListing(TableOf(h[..l]), h[j].claims.subject, h[l].keys)
    && exists k :: k in h[l].keys && Verifies(env, k, payload)
  }

  /** What the calls in flight rely on is in the history. */
  ghost predicate CallRecorded(h: seq<Event>, call: nat, c: Call) {
    match c
    case Done => true
    case Attested(row) => exists j: nat :: j < |h| && AttestsRow(h[j], call, row)
    case Authorised(claims, payload) =>
      exists j: nat :: j < |h| && Accepts(h[j], call) && h[j].claims == claims && h[j].payload == payload
    case Listed(claims, payload, keys) =>
      exists j: nat, l: nat :: j < l < |h| && ListedAt(h, j, l, call, claims, payload, keys)
  }

  ghost predicate ListedAt(h: seq<Event>, j: nat, l: nat, call: nat, claims: Jwt.Claims, payload: Transfer.Payload,
                           keys: seq<Key>)
    requires j < l < |h|
  {
    && Accepts(h[j], call) && h[j].claims == claims && h[j].payload == payload
    && h[l] == KeysListed(call, keys) && IsListing(TableOf(h[..l]), claims.subject, keys)
  }

  ghost predicate Inv<K>(env: Env<K>, s: State) {
    && s.table == TableOf(s.history)
    && (forall i :: 0 <= i < |s.history| ==> Justified(env, s.history, i))
    && (forall call :: call in s.calls ==> CallRecorded(s.history, call, s.calls[call]))
  }

  /** More history takes nothing away from what was there. */
  lemma HistoryGrows<K>(env: Env<K>, h: seq<Event>, e: Event)
    ensures TableOf(h + [e]) == Applied(TableOf(h), e)
    ensures forall i :: 0 <= i < |h| && Justified(env, h, i) ==> Justified(env, h + [e], i)
    ensures forall call, c :: CallRecorded(h, call, c) ==> CallRecorded(h + [e], call, c)
  {
    var g := h + [e];
    assert g[..|h|] == h;
    forall i | 0 <= i < |h| && Justified(env, h, i)
      ensures Justified(env, g, i)
    {
      JustifiedInPrefix(env, h, e, i);
    }
    forall call, c | CallRecorded(h, call, c)
      ensures CallRecorded(g, call, c)
    {
      RecordedInPrefix(h, e, call, c);
    }
  }

  lemma JustifiedInPrefix<K>(env: Env<K>, h: seq<Event>, e: Event, i: nat)
    requires i < |h| && Justified(env, h, i)
    ensures Justified(env, h + [e], i)
  {
    var g := h + [e];
    assert g[i] == h[i] && g[..i] == h[..i];
    match h[i]
    case KeyStored(call, row) =>
      var j: nat :| j < i && AttestsRow(h[j], call, row);
      assert AttestsRow(g[j], call, row);
    case KeysListed(call, keys) =>
      var j: nat :| j < i && Accepts(h[j], call) && IsListing(TableOf(h[..i]), h[j].claims.subject, keys);
      assert Accepts(g[j], call);
    case Finalised(call, payload) =>
      var j: nat, l: nat :| j < l < i && Supports(env, h, j, l, call, payload);
      assert g[..l] == h[..l];
      assert Supports(env, g, j, l, call, payload);
    case _ =>
  }

  lemma RecordedInPrefix(h: seq<Event>, e: Event, call: nat, c: Call)
    requires CallRecorded(h, call, c)
    ensures CallRecorded(h + [e], call, c)
  {
    var g := h + [e];
    match c
    case Done =>
    case Attested(row) =>
      var j: nat :| j < |h| && AttestsRow(h[j], call, row);
      assert AttestsRow(g[j], call, row);
    case Authorised(claims, payload) =>
      var j: nat :| j < |h| && Accepts(h[j], call) && h[j].claims == claims && h[j].payload == payload;
      assert Accepts(g[j], call);
    case Listed(claims, payload, keys) =>
      var j: nat, l: nat :| j < l < |h| && ListedAt(h, j, l, call, claims, payload, keys);
      assert g[..l] == h[..l];
      assert ListedAt(g, j, l, call, claims, payload, keys);
  }

  /** A step that records e keeps the invariant if e is justified and the calls it touches are recorded. */
  lemma RecordingKeepsInv<K>(env: Env<K>, s: State, s': State, e: Event)
    requires Inv(env, s)
    requires s'.history == s.history + [e] && s'.table == Applied(s.table, e)
    requires Justified(env, s'.history, |s.history|)
    requires forall call :: call in s'.calls ==>
               (call in s.calls && s'.calls[call] == s.calls[call]) || CallRecorded(s'.history, call, s'.calls[call])
    ensures Inv(env, s')
  {
    HistoryGrows(env, s.history, e);
  }

  lemma AttestKeepsInv<K>(env: Env<K>, s: State, a: Action)
    requires a.Attest? && Inv(env, s)
    ensures Inv(env, Step(env, s, a))
  {
    var s', n := Step(env, s, a), |s.history|;
    if s' != s {
      assert AttestsRow(s'.history[n], a.call, s'.calls[a.call].row);
      RecordingKeepsInv(env, s, s', s'.history[n]);
    }
  }

  lemma AuthoriseKeepsInv<K>(env: Env<K>, s: State, a: Action)
    requires a.Authorise? && Inv(env, s)
    ensures Inv(env, Step(env, s, a))
  {
    var s', n := Step(env, s, a), |s.history|;
    if s' != s {
      assert Accepts(s'.history[n], a.call);
      RecordingKeepsInv(env, s, s', s'.history[n]);
    }
  }

  lemma StoreKeepsInv<K>(env: Env<K>, s: State, call: nat, fault: bool)
    requires Inv(env, s)
    ensures Inv(env, Step(env, s, Store(call, fault)))
  {
    var s' := Step(env, s, Store(call, fault));
    if s'.history != s.history {
      var row, n := s.calls[call].row, |s.history|;
      assert CallRecorded(s.history, call, s.calls[call]);
      var j: nat :| j < n && AttestsRow(s.history[j], call, row);
      assert s'.history[..n] == s.history && AttestsRow(s'.history[j], call, row);
      RecordingKeepsInv(env, s, s', KeyStored(call, row));
    }
  }

  lemma ListKeepsInv<K>(env: Env<K>, s: State, call: nat, keys: seq<Key>, fault: bool)
    requires Inv(env, s)
    ensures Inv(env, Step(env, s, List(call, keys, fault)))
  {
    var s' := Step(env, s, List(call, keys, fault));
    if s'.history != s.history {
      ListingIsJustified(env, s, call, keys);
      RecordingKeepsInv(env, s, s', KeysListed(call, keys));
    }
  }

  lemma ListingIsJustified<K>(env: Env<K>, s: State, call: nat, keys: seq<Key>)
    requires Inv(env, s) && call in s.calls && s.calls[call].Authorised?
    requires IsListing(s.table, s.calls[call].claims.subject, keys)
    ensures
      var c, g := s.calls[call], s.history + [KeysListed(call, keys)];
      Justified(env, g, |s.history|) && CallRecorded(g, call, Listed(c.claims, c.payload, keys))
  {
    var c, n, g := s.calls[call], |s.history|, s.history + [KeysListed(call, keys)];
    assert CallRecorded(s.history, call, c);
    var j: nat :| j < n && Accepts(s.history[j], call) && s.history[j].claims == c.claims &&
                  s.history[j].payload == c.payload;
    assert g[..n] == s.history && Accepts(g[j], call);
    assert ListedAt(g, j, n, call, c.claims, c.payload, keys);
  }

  lemma FinishKeepsInv<K>(env: Env<K>, s: State, call: nat)
    requires Inv(env, s)
    ensures Inv(env, Step(env, s, Finish(call)))
  {
    var s' := Step(env, s, Finish(call));
    if s'.history != s.history {
      var e := Finalised(call, s.calls[call].payload);
      FinishIsJustified(env, s, call, e);
      RecordingKeepsInv(env, s, s', e);
    }
  }

  lemma FinishIsJustified<K>(env: Env<K>, s: State, call: nat, e: Event)
    requires Inv(env, s) && call in s.calls && s.calls[call].Listed? && e == Finalised(call, s.calls[call].payload)
    requires exists k :: k in s.calls[call].keys && Verifies(env, k, s.calls[call].payload)
    ensures Justified(env, s.history + [e], |s.history|)
  {
    var c, g := s.calls[call], s.history + [e];
    assert CallRecorded(s.history, call, c);
    var j: nat, l: nat :| j < l < |s.history| && ListedAt(s.history, j, l, call, c.claims, c.payload, c.keys);
    assert g[..l] == s.history[..l];
    assert Supports(env, g, j, l, call, c.payload);
  }

  lemma StepKeepsInv<K>(env: Env<K>, s: State, a: Action)
    requires Inv(env, s)
    ensures Inv(env, Step(env, s, a))
  {
    match a
    case Attest(_, _, _, _, _, _) => AttestKeepsInv(env, s, a);
    case Authorise(_, _, _, _) => AuthoriseKeepsInv(env, s, a);
    case Revoke(id) => RecordingKeepsInv(env, s, Step(env, s, a), KeyRevoked(id));
    case Store(call, fault) => StoreKeepsInv(env, s, call, fault);
    case List(call, keys, fault) => ListKeepsInv(env, s, call, keys, fault);
    case Finish(call) => FinishKeepsInv(env, s, call);
  }

  lemma {:induction false} Reachable<K>(env: Env<K>, actions: seq<Action>)
    ensures Inv(env, Run(env, actions))
  {
    if actions != [] {
      Reachable(env, actions[..|actions| - 1]);
      StepKeepsInv(env, Run(env, actions[..|actions| - 1]), actions[|actions| - 1]);
    }
  }

  /** Where a row of the table came from. */
  lemma {:induction false} RowWasStored(h: seq<Event>, n: nat, id: string) returns (m: nat)
    requires n <= |h| && id in TableOf(h[..n])
    ensures m < n && h[m].KeyStored? && h[m].row == TableOf(h[..n])[id] && h[m].row.id == id
  {
    assert h[..n][..n - 1] == h[..n - 1];
    if h[n - 1].KeyStored? && h[n - 1].row.id == id {
      m := n - 1;
    } else {
      m := RowWasStored(h, n - 1, id);
    }
  }

  /**
    Every key in the table of every reachable state passed attestation in the call that stored it,
    and was stored as attested: with the id of the attested user.
  */
  lemma RowWasAttested<K>(env: Env<K>, actions: seq<Action>, id: string) returns (attested: nat, stored: nat)
    requires id in Run(env, actions).table
    ensures attested < stored < |Run(env, actions).history|
    ensures
      var s := Run(env, actions);
      && s.table[id].id == id
      && s.history[attested].DeviceAttested? && s.history[attested].row == s.table[id]
      && env.attests(s.history[attested].platform, s.history[attested].attestation)
      && s.history[stored] == KeyStored(s.history[attested].call, s.table[id])
  {
    var h := Run(env, actions).history;
    Reachable(env, actions);
    assert h[..|h|] == h;
    stored := RowWasStored(h, |h|, id);
    attested := AttestationOf(env, h, stored);
  }

  lemma AttestationOf<K>(env: Env<K>, h: seq<Event>, stored: nat) returns (attested: nat)
    requires stored < |h| && h[stored].KeyStored?
    requires forall i :: 0 <= i < |h| ==> Justified(env, h, i)
    ensures attested < stored && AttestsRow(h[attested], h[stored].call, h[stored].row)
    ensures env.attests(h[attested].platform, h[attested].attestation)
  {
    assert Justified(env, h, stored);
    attested :| attested < stored && AttestsRow(h[attested], h[stored].call, h[stored].row);
    assert Justified(env, h, attested);
  }

  /**
    Behind every finalised transfer of every reachable state there is, in this order: the
    attestation of a device, the storing of its key by the same call, the listing of that key from
    the table as it then was, for a token verified before the listing with the execute scope and
    with the key's owner as its subject; and the key verifies the payload.
  */
  lemma FinalisedHasEvidence<K>(env: Env<K>, actions: seq<Action>, i: nat)
    returns (attested: nat, stored: nat, accepted: nat, listed: nat, key: Key)
    requires i < |Run(env, actions).history| && Run(env, actions).history[i].Finalised?
    ensures attested < stored < listed < i && accepted < listed
    ensures
      var h := Run(env, actions).history;
      && h[attested].DeviceAttested? && h[attested].row == key
      && env.attests(h[attested].platform, h[attested].attestation)
      && h[stored] == KeyStored(h[attested].call, key)
      && h[accepted].TokenAccepted? && h[accepted].call == h[i].call && h[accepted].payload == h[i].payload
      && Jwt.Verify(env.jwt, h[accepted].token, env.secret, h[accepted].nowNs) == Ok(h[accepted].claims)
      && EXECUTE_SCOPE in h[accepted].claims.scopes
      && h[listed].KeysListed? && h[listed].call == h[i].call && key in h[listed].keys
      && key.id in TableOf(h[..listed]) && TableOf(h[..listed])[key.id] == key
      && key.userId == h[accepted].claims.subject
      && Verifies(env, key, h[i].payload)
  {
    var h := Run(env, actions).history;
    Reachable(env, actions);
    accepted, listed, key := SupportOf(env, h, i);
    stored := RowWasStored(h, listed, key.id);
    attested := AttestationOf(env, h, stored);
  }

  /** The accepted token behind a finalised transfer, and the listed key that verifies it. */
  lemma SupportOf<K>(env: Env<K>, h: seq<Event>, i: nat) returns (accepted: nat, listed: nat, key: Key)
    requires i < |h| && h[i].Finalised?
    requires forall i :: 0 <= i < |h| ==> Justified(env, h, i)
    ensures accepted < listed < i
    ensures
      && h[accepted].TokenAccepted? && h[accepted].call == h[i].call && h[accepted].payload == h[i].payload
      && Jwt.Verify(env.jwt, h[accepted].token, env.secret, h[accepted].nowNs) == Ok(h[accepted].claims)
      && EXECUTE_SCOPE in h[accepted].claims.scopes
      && h[listed].KeysListed? && h[listed].call == h[i].call && key in h[listed].keys
      && key.id in TableOf(h[..listed]) && TableOf(h[..listed])[key.id] == key
      && key.userId == h[accepted].claims.subject
      && Verifies(env, key, h[i].payload)
  {
    assert Justified(env, h, i);
    accepted, listed :| accepted < listed < i && Supports(env, h, accepted, listed, h[i].call, h[i].payload);
    assert Justified(env, h, accepted);
    key :| key in h[listed].keys && Verifies(env, key, h[i].payload);
  }

  /** No step changes a row that stays: in particular a key never changes hands. */
  lemma RowsAreImmutable<K>(env: Env<K>, s: State, a: Action, id: string)
    requires id in s.table && id in Step(env, s, a).table
    ensures Step(env, s, a).table[id] == s.table[id]
  {}

  // ---------------------------------------------------------------------------------------
  // Non-repudiation.

  /** The orders each key's device was asked to sign. */
  type Orders<!K> = K -> set<Transfer.Payload>

  ghost predicate WasSigned<K>(signed: Orders<K>, key: K, text: string) {
    exists q :: q in signed(key) && Transfer.Canonical(q) == text
  }

  /** The library says yes, in either of its ways, only to what the device of the key was asked to sign. */
  ghost predicate Unforgeable<K(!new)>(lib: Transfer.Library<K>, signed: Orders<K>) {
    && (forall key: K, text: string, sig: Data :: YesToDer(lib, key, text, sig) ==> WasSigned(signed, key, text))
    && (forall key: K, text: string, r: int, s: int :: YesTo(lib, key, text, r, s) ==> WasSigned(signed, key, text))
  }

  predicate YesToDer<K>(lib: Transfer.Library<K>, key: K, text: string, sig: Data) {
    lib.ecdsaDer(key, lib.sha256(text), sig)
  }

  predicate YesTo<K>(lib: Transfer.Library<K>, key: K, text: string, r: int, s: int) {
    lib.ecdsa(key, lib.sha256(text), r, s)
  }

  lemma VerifiedWasSigned<K(!new)>(env: Env<K>, signed: Orders<K>, key: Key, p: Transfer.Payload)
    returns (publicKey: K, q: Transfer.Payload)
    requires Unforgeable(env.crypto, signed) && Verifies(env, key, p)
    ensures env.crypto.parseKey(key.pem) == Some(publicKey)
    ensures q in signed(publicKey) && Transfer.Canonical(q) == Transfer.Canonical(p)
  {
    var sig, rs;
    publicKey, sig, rs := Transfer.AcceptanceRestsOnLibrary(env.crypto, key.pem, p);
    var text := Transfer.Canonical(p);
    assert YesToDer(env.crypto, publicKey, text, sig) || YesTo(env.crypto, publicKey, text, rs.0, rs.1);
    assert WasSigned(signed, publicKey, text);
    q :| q in signed(publicKey) && Transfer.Canonical(q) == Transfer.Canonical(p);
  }

  /**
    If signatures cannot be forged, an attested device of the user the token names signed the bytes
    of every finalised order, as those of an order of its own. With currencies of one length, the
    three bytes of the schema guard, that order has the same amount, currency, second, and sender
    joined to receiver; if the finalised order has no colon in either, also the same two parties, and
    if the guard lets both orders in, already when no second colon has an account on either side.
  */
  lemma FinalisedWasSigned<K(!new)>(env: Env<K>, signed: Orders<K>, actions: seq<Action>, i: nat)
    returns (attested: nat, accepted: nat, publicKey: K, q: Transfer.Payload)
    requires i < |Run(env, actions).history| && Run(env, actions).history[i].Finalised?
    requires Unforgeable(env.crypto, signed)
    ensures attested < i && accepted < i
    ensures
      var h := Run(env, actions).history;
      var p := h[i].payload;
      && h[accepted].TokenAccepted? && h[accepted].call == h[i].call
      && h[attested].DeviceAttested? && env.attests(h[attested].platform, h[attested].attestation)
      && h[attested].row.userId == h[accepted].claims.subject
      && env.crypto.parseKey(h[attested].row.pem) == Some(publicKey)
      && q in signed(publicKey) && Transfer.Canonical(q) == Transfer.Canonical(p)
      && (|q.currency| == |p.currency| ==> Transfer.SameTerms(p, q))
      && (|q.currency| == |p.currency| && ':' !in p.sender && ':' !in p.receiver ==>
            q.sender == p.sender && q.receiver == p.receiver)
      && (Transfer.Guarded(p) && Transfer.Guarded(q) && Transfer.OneCut(p, Transfer.MIN_ACCOUNT) ==>
            q.sender == p.sender && q.receiver == p.receiver)
  {
    var stored, listed, key;
    attested, stored, accepted, listed, key := FinalisedHasEvidence(env, actions, i);
    var p := Run(env, actions).history[i].payload;
    publicKey, q := VerifiedWasSigned(env, signed, key, p);
    if |q.currency| == |p.currency| {
      Transfer.CanonicalDetermines(p, q);
    }
    if |q.currency| == |p.currency| && ':' !in p.sender && ':' !in p.receiver {
      Transfer.ColonFreeHasOneCut(p);
      Transfer.CutAtTheOnlyCut(p, q, 0);
    }
    if Transfer.Guarded(p) && Transfer.Guarded(q) && Transfer.OneCut(p, Transfer.MIN_ACCOUNT) {
      Transfer.PartiesAreNamedExactly(p);
    }
  }
}
