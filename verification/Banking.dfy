/**
  Device registration, the edge's token swap, and the intranet's execution of a transfer.
*/
module Banking {
  import opened Wrappers
  import opened Bytes
  import opened Clock
  import opened EnclaveKeys
  import Jwt = InternalJwt
  import Transfer

  const EXECUTE_SCOPE := "transfer:execute"
  const MINUTE_NS := 60_000_000_000
  const BEARER := "Bearer "

  /** Everything outside the service: the secret, the libraries, and the device attestation verdict. */
  datatype Env<!K> = Env(
    secret: string,
    jwt: Jwt.Library,
    crypto: Transfer.Library<K>,
    attests: (string, string) -> bool,
    marshal: Transfer.Payload -> Data,
    unmarshal: Data -> Option<Transfer.Payload>)

  datatype RegisterError = AttestationFailed | NotSaved(error: RepositoryError)

  datatype ExecuteError =
    | MissingBearer
    | MalformedBody
    | BadToken(refusal: Jwt.Refusal)
    | MissingScope
    | LookupFailed
    | NoKeys
    | SignatureInvalid

  datatype EdgeError = NonPositiveAmount | EmptyAccount | SwapFailed(refusal: Jwt.Refusal)

  predicate Verifies<K>(env: Env<K>, key: Key, p: Transfer.Payload) {
    Transfer.VerifyEnclaveSignature(env.crypto, key.pem, p).Ok?
  }

  /** What becomes of a registration: the table afterwards, and the answer. */
  ghost predicate Registration<K>(env: Env<K>, t: Table, user: string, key: Key, platform: string, attestation: string,
                                  now: int, fault: bool, t': Table, r: Result<(), RegisterError>)
  {
    if !env.attests(platform, attestation) then t' == t && r == Err(AttestationFailed)
    else if fault then t' == t && r == Err(NotSaved(DatabaseFault))
    else if key.id in t then t' == t && r == Err(NotSaved(DuplicateKey))
    else t' == t[key.id := key.(userId := user, registeredAt := now)] && r == Ok(())
  }

  /** What becomes of an execution request, told without order or loops. */
  ghost predicate Outcome<K>(env: Env<K>, t: Table, token: string, p: Transfer.Payload, nowNs: int, fault: bool,
                       r: Result<(), ExecuteError>)
  {
    match Jwt.Verify(env.jwt, token, env.secret, nowNs)
    case Err(refusal) => r == Err(BadToken(refusal))
    case Ok(claims) =>
      if EXECUTE_SCOPE !in claims.scopes then r == Err(MissingScope)
      else if fault then r == Err(LookupFailed)
      else if forall id :: id in t ==> t[id].userId != claims.subject then r == Err(NoKeys)
      else if exists id :: id in t && t[id].userId == claims.subject && Verifies(env, t[id], p) then r == Ok(())
      else r == Err(SignatureInvalid)
  }

  /** A listing is empty, or holds a key that verifies the order, exactly if the table tells so of the user's keys. */
  lemma ListingDecides<K>(env: Env<K>, t: Table, user: string, keys: seq<Key>, p: Transfer.Payload)
    requires Keyed(t) && IsListing(t, user, keys)
    ensures keys == [] <==> forall id :: id in t ==> t[id].userId != user
    ensures (exists k :: k in keys && Verifies(env, k, p)) <==>
            (exists id :: id in t && t[id].userId == user && Verifies(env, t[id], p))
  {
    forall id | id in t && t[id].userId == user
      ensures t[id] in keys
    {
      assert t[id].id == id;
    }
    if keys != [] {
      assert keys[0] in keys;
    }
    if k :| k in keys && Verifies(env, k, p) {
      assert k.id in t && t[k.id] == k;
    }
    if id :| id in t && t[id].userId == user && Verifies(env, t[id], p) {
      assert t[id] in keys;
    }
  }

  /** The request the edge sends to the intranet. */
  datatype Forwarded = Forwarded(authorization: string, body: Data)

  function Swap<K>(env: Env<K>, user: string, p: Transfer.Payload, nowNs: int): Result<Forwarded, EdgeError> {
    if p.amountCents <= 0 then Err(NonPositiveAmount)
    else if p.sender == "" || p.receiver == "" then Err(EmptyAccount)
    else
      match Jwt.Generate(env.jwt, user, [EXECUTE_SCOPE], env.secret, MINUTE_NS, nowNs)
      case Err(refusal) => Err(SwapFailed(refusal))
      case Ok(token) => Ok(Forwarded(BEARER + token, env.marshal(p)))
  }

  class BankingService<!K(!new)> {
    const env: Env<K>
    const keyRepo: EnclaveKeyRepository
    var ledger: seq<Transfer.Payload>

    constructor (env: Env<K>, keyRepo: EnclaveKeyRepository)
      ensures this.env == env && this.keyRepo == keyRepo && ledger == []
    {
      this.env, this.keyRepo := env, keyRepo;
      ledger := [];
    }

    /** Nothing is stored unless the device passes attestation first, and what is stored belongs to the caller. */
    method RegisterDeviceKey(user: string, key: Key, platform: string, attestation: string, now: int, fault: bool)
      returns (r: Result<(), RegisterError>)
      requires keyRepo.Valid()
      modifies keyRepo
      ensures keyRepo.Valid()
      ensures Registration(env, old(keyRepo.rows), user, key, platform, attestation, now, fault, keyRepo.rows, r)
    {
      if !env.attests(platform, attestation) {
        return Err(AttestationFailed);
      }
      var row := key;
      row := row.(userId := user);
      row := row.(registeredAt := now);
      var saved := keyRepo.SaveKey(row, fault);
      match saved
      case Err(error) => return Err(NotSaved(error));
      case Ok(_) => return Ok(());
    }

    /** The scope loop and the key loop decide existence, whatever the order of the scopes and keys. */
    method ExecuteIntranetTransfer(token: string, p: Transfer.Payload, nowNs: int, fault: bool)
      returns (r: Result<(), ExecuteError>)
      requires keyRepo.Valid()
      modifies this`ledger
      ensures Outcome(env, keyRepo.rows, token, p, nowNs, fault, r)
      ensures ledger == if r.Ok? then old(ledger) + [p] else old(ledger)
    {
      var verified := Jwt.Verify(env.jwt, token, env.secret, nowNs);
      if verified.Err? {
        return Err(BadToken(verified.error));
      }
      var claims := verified.value;

      var hasScope, i := false, 0;
      while i < |claims.scopes| && !hasScope
        invariant i <= |claims.scopes|
        invariant hasScope <==> EXECUTE_SCOPE in claims.scopes[..i]
      {
        if claims.scopes[i] == EXECUTE_SCOPE {
          hasScope := true;
        }
        i := i + 1;
      }
      if !hasScope {
        assert claims.scopes[..i] == claims.scopes;
        return Err(MissingScope);
      }

      var listed := keyRepo.GetKeysByUserID(claims.subject, fault);
      if listed.Err? {
        return Err(LookupFailed);
      }
      var keys := listed.value;
      ListingDecides(env, keyRepo.rows, claims.subject, keys, p);
      if |keys| == 0 {
        return Err(NoKeys);
      }

      var signatureValid, j := false, 0;
      while j < |keys| && !signatureValid
        invariant j <= |keys|
        invariant signatureValid ==> exists k :: k in keys && Verifies(env, k, p)
        invariant !signatureValid ==> forall k :: k in keys[..j] ==> !Verifies(env, k, p)
      {
        var checked := Transfer.VerifyEnclaveSignature(env.crypto, keys[j].pem, p);
        if checked.Ok? {
          assert keys[j] in keys && Verifies(env, keys[j], p);
          signatureValid := true;
        }
        j := j + 1;
      }
      if !signatureValid {
        assert keys[..j] == keys;
        return Err(SignatureInvalid);
      }
      ledger := ledger + [p];
      return Ok(());
    }

    /** The intranet's HTTP entry: strip the scheme, decode the body, execute. */
    method ExecutePrivateTransfer(request: Forwarded, nowNs: int, fault: bool) returns (r: Result<(), ExecuteError>)
      requires keyRepo.Valid()
      modifies this`ledger
      ensures !(BEARER <= request.authorization) ==> r == Err(MissingBearer) && ledger == old(ledger)
      ensures BEARER <= request.authorization && env.unmarshal(request.body).None? ==>
                r == Err(MalformedBody) && ledger == old(ledger)
      ensures BEARER <= request.authorization && env.unmarshal(request.body).Some? ==>
                var token, p := request.authorization[|BEARER|..], env.unmarshal(request.body).value;
                Outcome(env, keyRepo.rows, token, p, nowNs, fault, r)
                && ledger == if r.Ok? then old(ledger) + [p] else old(ledger)
    {
      if !(BEARER <= request.authorization) {
        return Err(MissingBearer);
      }
      var token := request.authorization[|BEARER|..];
      var decoded := env.unmarshal(request.body);
      if decoded.None? {
        return Err(MalformedBody);
      }
      r := ExecuteIntranetTransfer(token, decoded.value, nowNs, fault);
    }
  }

  // ---------------------------------------------------------------------------------------
  // Edge to ledger.

  /** Which orders the edge forwards, and the first thing wrong with the others. */
  lemma SwapsExactly<K>(env: Env<K>, user: string, p: Transfer.Payload, nowNs: int)
    ensures Swap(env, user, p, nowNs).Ok? <==>
              p.amountCents > 0 && p.sender != "" && p.receiver != "" && env.secret != ""
    ensures Swap(env, user, p, nowNs) == Err(NonPositiveAmount) <==> p.amountCents <= 0
    ensures Swap(env, user, p, nowNs) == Err(EmptyAccount) <==>
              p.amountCents > 0 && (p.sender == "" || p.receiver == "")
  {}

  /** What is forwarded: the order itself, under a token of the user's for the one scope and a minute. */
  lemma SwapForwards<K>(env: Env<K>, user: string, p: Transfer.Payload, nowNs: int) returns (token: string)
    requires Swap(env, user, p, nowNs).Ok?
    ensures Swap(env, user, p, nowNs).value == Forwarded("Bearer " + token, env.marshal(p))
    ensures Jwt.Generate(env.jwt, user, ["transfer:execute"], env.secret, 60_000_000_000, nowNs) == Ok(token)
  {
    token := Jwt.Generate(env.jwt, user, [EXECUTE_SCOPE], env.secret, MINUTE_NS, nowNs).value;
  }

  /** The codec reads back the claims minted for the user at that instant. */
  ghost predicate ReadsBack(lib: Jwt.Library, user: string, mintNs: int) {
    var claims := Jwt.MintedClaims(user, [EXECUTE_SCOPE], MINUTE_NS, mintNs);
    lib.unmarshal(lib.marshal(claims)) == Some(claims)
  }

  /** Within the minute of a token minted at mintNs: through the end of the second a minute later. */
  ghost predicate WithinMinute(mintNs: int, nowNs: int) {
    exists s :: InSecond(mintNs, s) && nowNs < (s + 61) * 1_000_000_000
  }

  /**
    An order the edge forwards is executed, within the minute its token lives, exactly when a key
    registered to the edge's user verifies it; afterwards the token alone keeps it out.
  */
  lemma EdgeToLedger<K>(env: Env<K>, t: Table, user: string, p: Transfer.Payload, mintNs: int, nowNs: int,
                        r: Result<(), ExecuteError>)
    requires env.secret != "" && p.amountCents > 0 && p.sender != "" && p.receiver != ""
    requires ReadsBack(env.jwt, user, mintNs) && env.unmarshal(env.marshal(p)) == Some(p)
    ensures Swap(env, user, p, mintNs).Ok?
    ensures
      var request := Swap(env, user, p, mintNs).value;
      "Bearer " <= request.authorization && env.unmarshal(request.body) == Some(p) &&
      (Outcome(env, t, request.authorization[7..], p, nowNs, false, r) ==>
        if !WithinMinute(mintNs, nowNs) then r == Err(BadToken(Jwt.TokenExpired))
        else r.Ok? <==> exists id :: id in t && t[id].userId == user && Verifies(env, t[id], p))
  {
    SwapsExactly(env, user, p, mintNs);
    var token := SwapForwards(env, user, p, mintNs);
    assert ("Bearer " + token)[7..] == token;
    var claims := Jwt.MintedTokenVerifies(env.jwt, user, [EXECUTE_SCOPE], env.secret, MINUTE_NS, mintNs, nowNs);
    MinuteLater(mintNs, claims.expiresAt, nowNs);
  }

  lemma MinuteLater(mintNs: int, expiresAt: int, nowNs: int)
    requires InSecond(mintNs + 60_000_000_000, expiresAt)
    ensures WithinMinute(mintNs, nowNs) <==> nowNs < (expiresAt + 1) * 1_000_000_000
  {
    assert InSecond(mintNs, expiresAt - 60);
  }

  /**
    In particular a genuine signature of a registered key, raw or DER of any length but 64 bytes, in
    hex or base64, gets the order executed.
  */
  lemma GenuineOrderExecuted<K>(env: Env<K>, t: Table, id: string, publicKey: K, sig: Data, p: Transfer.Payload,
                                mintNs: int, nowNs: int, r: Result<(), ExecuteError>)
    requires env.secret != "" && p.amountCents > 0 && p.sender != "" && p.receiver != ""
    requires id in t && t[id].pem != "" && env.crypto.parseKey(t[id].pem) == Some(publicKey)
    requires ReadsBack(env.jwt, t[id].userId, mintNs) && env.unmarshal(env.marshal(p)) == Some(p)
    requires
      var hash := env.crypto.sha256(Transfer.Canonical(p));
      || Transfer.SignsRaw(env.crypto, publicKey, hash, sig)
      || (Transfer.SignsDer(env.crypto, publicKey, hash, sig) && |sig| != 64)
    requires p.signature == Transfer.Hex.Encode(sig) ||
             p.signature == Transfer.Base64.Encode(Transfer.Base64.Std, true, sig)
    requires WithinMinute(mintNs, nowNs)
    requires Swap(env, t[id].userId, p, mintNs).Ok?
    requires Outcome(env, t, Swap(env, t[id].userId, p, mintNs).value.authorization[|BEARER|..], p, nowNs, false, r)
    ensures r == Ok(())
  {
    EdgeToLedger(env, t, t[id].userId, p, mintNs, nowNs, r);
    Transfer.GenuineSignatureAccepted(env.crypto, t[id].pem, publicKey, p, sig);
  }
}
