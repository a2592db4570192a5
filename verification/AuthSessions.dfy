/** The table of transient sign-in sessions, and the PKCE texts they hold. */
module AuthSessions {
  import opened Wrappers
  import opened Bytes
  import Base64

  const SESSION_LIFETIME_NS := 300_000_000_000

  datatype Session = Session(id: string, state: string, codeVerifier: string, redirectUri: string, expiresAt: int) {
    /** Past its last instant: the sweep and the callback must agree on this. */
    predicate IsExpired(now: int) {
      now > expiresAt
    }
  }

  type Table = map<string, Session>

  datatype RepositoryError = DatabaseFault | Conflict | NotFound

  ghost predicate Keyed(t: Table) {
    forall id :: id in t ==> t[id].id == id
  }

  /** The primary key and the unique state column leave room for the row. */
  ghost predicate Fits(t: Table, s: Session) {
    s.id !in t && forall id :: id in t ==> t[id].state != s.state
  }

  function Swept(t: Table, now: int): Table {
    map id | id in t && !t[id].IsExpired(now) :: t[id]
  }

  class SQLSessionRepository {
    var rows: Table

    ghost predicate Valid()
      reads this
    {
      Keyed(rows)
    }

    constructor ()
      ensures Valid() && rows == map[]
    {
      rows := map[];
    }

    method Save(session: Session, fault: bool) returns (r: Result<(), RepositoryError>)
      requires Valid()
      modifies this
      ensures Valid()
      ensures r.Ok? <==> !fault && Fits(old(rows), session)
      ensures r.Err? ==> r.error == if fault then DatabaseFault else Conflict
      ensures rows == if r.Ok? then old(rows)[session.id := session] else old(rows)
    {
      if fault {
        return Err(DatabaseFault);
      }
      if session.id in rows || exists id :: id in rows && rows[id].state == session.state {
        return Err(Conflict);
      }
      rows := rows[session.id := session];
      return Ok(());
    }

    method Get(id: string, fault: bool) returns (r: Result<Session, RepositoryError>)
      requires Valid()
      ensures r.Ok? <==> !fault && id in rows
      ensures r.Ok? ==> r.value == rows[id] && r.value.id == id
      ensures r.Err? ==> r.error == if fault then DatabaseFault else NotFound
    {
      if fault {
        return Err(DatabaseFault);
      }
      if id !in rows {
        return Err(NotFound);
      }
      return Ok(rows[id]);
    }

    method Delete(id: string, fault: bool) returns (r: Result<(), RepositoryError>)
      requires Valid()
      modifies this
      ensures Valid()
      ensures r.Ok? <==> !fault && id in old(rows)
      ensures r.Err? ==> r.error == if fault then DatabaseFault else NotFound
      ensures rows == if fault then old(rows) else old(rows) - {id}
    {
      if fault {
        return Err(DatabaseFault);
      }
      var present := id in rows;
      rows := map k | k in rows && k != id :: rows[k];
      return if present then Ok(()) else Err(NotFound);
    }

    method DeleteExpired(now: int, fault: bool) returns (r: Result<(), RepositoryError>)
      requires Valid()
      modifies this
      ensures Valid()
      ensures r.Ok? <==> !fault
      ensures rows == if fault then old(rows) else Swept(old(rows), now)
    {
      if fault {
        return Err(DatabaseFault);
      }
      rows := map id | id in rows && !(rows[id].expiresAt < now) :: rows[id];
      return Ok(());
    }
  }

  // ---------------------------------------------------------------------------------------
  // PKCE texts.

  function RandomText(random: Data): string {
    Base64.Encode(Base64.Url, false, random)
  }

  /** The S256 challenge of section 4.2 of RFC 7636. */
  function DeriveChallenge(sha256: string -> Data, verifier: string): string {
    Base64.Encode(Base64.Url, false, sha256(verifier))
  }

  /** The unreserved characters of section 4.1 of RFC 7636. */
  predicate Unreserved(c: char) {
    'A' <= c <= 'Z' || 'a' <= c <= 'z' || '0' <= c <= '9' || c in "-._~"
  }

  /**
    Thirty-two random bytes make a verifier of the shape section 4.1 of RFC 7636 asks for, short
    enough for its column, which reads back as them; so different bytes make different verifiers.
  */
  lemma VerifierIsWellFormed(random: Data)
    requires |random| == 32
    ensures |RandomText(random)| == 43 && forall i :: 0 <= i < 43 ==> Unreserved(RandomText(random)[i])
    ensures Base64.Decode(Base64.Url, false, RandomText(random)) == Some(random)
  {
    TextOf32(random);
  }

  lemma TextOf32(data: Data)
    requires |data| == 32
    ensures
      var text := Base64.Encode(Base64.Url, false, data);
      && |text| == 43 && (forall i :: 0 <= i < 43 ==> Unreserved(text[i]))
      && Base64.Decode(Base64.Url, false, text) == Some(data)
  {
    Base64.LengthOfEncoded(Base64.Url, false, data);
    Base64.EncodedDigits(Base64.Url, false, data);
    Base64.RoundTrip(Base64.Url, false, data);
  }

  /**
    The challenge is the base64url text of the verifier's hash, as section 4.2 of RFC 7636 has it: it
    reads back as the hash, and for SHA-256's 32 bytes it is 43 unreserved characters.
  */
  lemma ChallengeIsS256(sha256: string -> Data, verifier: string)
    ensures DeriveChallenge(sha256, verifier) == Base64.Encode(Base64.Url, false, sha256(verifier))
    ensures Base64.Decode(Base64.Url, false, DeriveChallenge(sha256, verifier)) == Some(sha256(verifier))
    ensures |sha256(verifier)| == 32 ==>
              var challenge := DeriveChallenge(sha256, verifier);
              |challenge| == 43 && forall i :: 0 <= i < 43 ==> Unreserved(challenge[i])
  {
    Base64.RoundTrip(Base64.Url, false, sha256(verifier));
    if |sha256(verifier)| == 32 {
      TextOf32(sha256(verifier));
    }
  }
}
