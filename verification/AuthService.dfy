/** The sign-in service: starting a PKCE flow and handling its callback. */
module AuthService {
  import opened Wrappers
  import opened Bytes
  import opened AuthSessions
  import Base64

  /** What the identity provider is asked. The session id is kept for reference only in Exchange. */
  datatype ProviderCall =
    | Authorize(id: string, state: string, challenge: string, redirectUri: string)
    | Exchange(id: string, code: string, verifier: string)

  datatype InitiateError = NotPersisted(error: RepositoryError) | UrlFailed

  datatype CallbackError = NotRetrieved(error: RepositoryError) | SessionExpired | InvalidState | ExchangeFailed

  /**
    What becomes of a flow that starts with the session: the table afterwards, the calls made to the
    provider, and the answer. The provider is given the verifier's S256 challenge, never the verifier.
  */
  ghost predicate Started(sha256: string -> Data, t: Table, session: Session, saveFault: bool, urlFault: bool,
                          t': Table, called: seq<ProviderCall>, r: Result<string, InitiateError>)
  {
    if saveFault then t' == t && called == [] && r == Err(NotPersisted(DatabaseFault))
    else if !Fits(t, session) then t' == t && called == [] && r == Err(NotPersisted(Conflict))
    else
      && t' == t[session.id := session]
      && (var challenge := Base64.Encode(Base64.Url, false, sha256(session.codeVerifier));
          called == [Authorize(session.id, session.state, challenge, session.redirectUri)])
      && r == if urlFault then Err(UrlFailed) else Ok(session.id)
  }

  /** What becomes of a callback: the table afterwards, the calls made to the provider, and the answer. */
  ghost predicate Outcome(t: Table, id: string, code: string, state: string, now: int, getFault: bool,
                          deleteFault: bool, exchangeFault: bool, t': Table, called: seq<ProviderCall>,
                          r: Result<(), CallbackError>)
  {
    if getFault then t' == t && called == [] && r == Err(NotRetrieved(DatabaseFault))
    else if id !in t then t' == t && called == [] && r == Err(NotRetrieved(NotFound))
    else
      && t' == (if deleteFault then t else t - {id})
      && if now > t[id].expiresAt then called == [] && r == Err(SessionExpired)
         else if t[id].state != state then called == [] && r == Err(InvalidState)
         else called == [Exchange(id, code, t[id].codeVerifier)] &&
              r == if exchangeFault then Err(ExchangeFailed) else Ok(())
  }

  class Service {
    const repo: SQLSessionRepository
    const sha256: string -> Data
    /** The calls made to the provider, in order. */
    var calls: seq<ProviderCall>

    constructor (repo: SQLSessionRepository, sha256: string -> Data)
      ensures this.repo == repo && this.sha256 == sha256 && calls == []
    {
      this.repo, this.sha256 := repo, sha256;
      calls := [];
    }

    /** A session of two random texts and five minutes to live, which keeps the verifier to itself. */
    method InitiateAuth(redirectUri: string, stateBytes: Data, verifierBytes: Data, uuid: string, now: int,
                        saveFault: bool, urlFault: bool)
      returns (r: Result<string, InitiateError>)
      requires repo.Valid()
      modifies this`calls, repo
      ensures repo.Valid()
      ensures old(calls) <= calls
      ensures
        var state := Base64.Encode(Base64.Url, false, stateBytes);
        var verifier := Base64.Encode(Base64.Url, false, verifierBytes);
        var session := Session(uuid, state, verifier, redirectUri, now + 5 * 60 * 1_000_000_000);
        Started(sha256, old(repo.rows), session, saveFault, urlFault, repo.rows, calls[|old(calls)|..], r)
    {
      var state := RandomText(stateBytes);
      var verifier := RandomText(verifierBytes);
      var challenge := DeriveChallenge(sha256, verifier);
      var session := Session(uuid, state, verifier, redirectUri, now + SESSION_LIFETIME_NS);
      var saved := repo.Save(session, saveFault);
      if saved.Err? {
        return Err(NotPersisted(saved.error));
      }
      var redirect := session.(codeVerifier := challenge);
      calls := calls + [Authorize(redirect.id, redirect.state, redirect.codeVerifier, redirect.redirectUri)];
      if urlFault {
        return Err(UrlFailed);
      }
      return Ok(uuid);
    }

    /** Read, delete, and only then check; the delete's own error is ignored. */
    method HandleCallback(id: string, code: string, state: string, now: int,
                          getFault: bool, deleteFault: bool, exchangeFault: bool)
      returns (r: Result<(), CallbackError>)
      requires repo.Valid()
      modifies this`calls, repo
      ensures repo.Valid()
      ensures old(calls) <= calls
      ensures Outcome(old(repo.rows), id, code, state, now, getFault, deleteFault, exchangeFault,
                      repo.rows, calls[|old(calls)|..], r)
    {
      var got := repo.Get(id, getFault);
      if got.Err? {
        return Err(NotRetrieved(got.error));
      }
      var session := got.value;
      var _ := repo.Delete(id, deleteFault);
      if session.IsExpired(now) {
        return Err(SessionExpired);
      }
      if session.state != state {
        return Err(InvalidState);
      }
      calls := calls + [Exchange(id, code, session.codeVerifier)];
      if exchangeFault {
        return Err(ExchangeFailed);
      }
      return Ok(());
    }
  }
}
