/**
  The short-lived token the edge mints and the intranet verifies: two base64url parts and a MAC,
  separated by dots.
*/
module InternalJwt {
  import opened Wrappers
  import opened Bytes
  import opened Clock
  import opened Splitting
  import Base64

  datatype Claims = Claims(subject: string, expiresAt: int, issuedAt: int, scopes: seq<string>)

  /** HMAC-SHA256 and the JSON codec, with the bytes the codec gives for the fixed header. */
  datatype Library = Library(
    header: Data,
    marshal: Claims -> Data,
    unmarshal: Data -> Option<Claims>,
    hmac: (string, string) -> Data)

  datatype Refusal =
    | EmptySecret
    | InvalidFormat
    | InvalidSignature
    | UndecodableClaims
    | UnparsableClaims
    | TokenExpired

  function Base64Url(data: Data): string {
    Base64.Encode(Base64.Url, false, data)
  }

  /** The third part of a token whose first two parts are joined in `signingInput`. */
  function Mac(lib: Library, secret: string, signingInput: string): string {
    Base64Url(lib.hmac(secret, signingInput))
  }

  function MintedClaims(subject: string, scopes: seq<string>, ttlNs: int, nowNs: int): Claims {
    Claims(subject, Unix(nowNs + ttlNs), Unix(nowNs), scopes)
  }

  function Generate(lib: Library, subject: string, scopes: seq<string>, secret: string, ttlNs: int, nowNs: int)
    : Result<string, Refusal>
  {
    if secret == "" then Err(EmptySecret)
    else
      var claims := MintedClaims(subject, scopes, ttlNs, nowNs);
      var signingInput := Base64Url(lib.header) + "." + Base64Url(lib.marshal(claims));
      Ok(signingInput + "." + Mac(lib, secret, signingInput))
  }

  function Verify(lib: Library, token: string, secret: string, nowNs: int): Result<Claims, Refusal> {
    if secret == "" then Err(EmptySecret)
    else
      var parts := Split(token, '.');
      if |parts| != 3 then Err(InvalidFormat)
      else if parts[2] != Mac(lib, secret, parts[0] + "." + parts[1]) then Err(InvalidSignature)
      else
        match Base64.Decode(Base64.Url, false, parts[1])
        case None => Err(UndecodableClaims)
        case Some(data) =>
          match lib.unmarshal(data)
          case None => Err(UnparsableClaims)
          case Some(claims) => if Unix(nowNs) > claims.expiresAt then Err(TokenExpired) else Ok(claims)
  }

  // ---------------------------------------------------------------------------------------

  lemma ThreeParts(token: string, h: string, c: string, s: string)
    ensures Split(token, '.') == [h, c, s] <==>
              token == h + "." + c + "." + s && '.' !in h && '.' !in c && '.' !in s
  {
    var parts := [h, c, s];
    SplitExactly(token, '.', parts);
    assert parts[1..] == [c, s] && [c, s][1..] == [s];
    assert Join([c, s], '.') == c + "." + s;
    assert Join(parts, '.') == h + ['.'] + (c + "." + s) == h + "." + c + "." + s;
    assert (forall p :: p in parts ==> '.' !in p) <==> '.' !in h && '.' !in c && '.' !in s by {
      assert parts[0] == h && parts[1] == c && parts[2] == s;
    }
  }

  /** A token with header part h and claims part c, correctly signed and carrying `claims`. */
  ghost predicate IsToken(lib: Library, secret: string, token: string, h: string, c: string, claims: Claims) {
    && '.' !in h && '.' !in c
    && token == h + "." + c + "." + Base64.Encode(Base64.Url, false, lib.hmac(secret, h + "." + c))
    && Base64.Decode(Base64.Url, false, c).Some?
    && lib.unmarshal(Base64.Decode(Base64.Url, false, c).value) == Some(claims)
  }

  /** The instant is no later than the second the claims name, inclusive. */
  predicate Unexpired(claims: Claims, nowNs: int) {
    nowNs < (claims.expiresAt + 1) * 1_000_000_000
  }

  lemma UnexpiredIsUnix(claims: Claims, nowNs: int)
    ensures Unexpired(claims, nowNs) <==> Unix(nowNs) <= claims.expiresAt
  {
    UnixIsItsSecond(nowNs, Unix(nowNs));
  }

  lemma TokenIsRead(lib: Library, secret: string, token: string, nowNs: int, h: string, c: string, held: Claims)
    requires secret != "" && IsToken(lib, secret, token, h, c, held)
    ensures Verify(lib, token, secret, nowNs) == if Unexpired(held, nowNs) then Ok(held) else Err(TokenExpired)
  {
    UnexpiredIsUnix(held, nowNs);
    Base64.UrlTextHasNoDot(lib.hmac(secret, h + "." + c));
    ThreeParts(token, h, c, Mac(lib, secret, h + "." + c));
  }

  lemma TokenWasRead(lib: Library, secret: string, token: string, nowNs: int)
    returns (h: string, c: string, held: Claims)
    requires Verify(lib, token, secret, nowNs).Ok? || Verify(lib, token, secret, nowNs) == Err(TokenExpired)
    ensures secret != "" && IsToken(lib, secret, token, h, c, held)
    ensures Verify(lib, token, secret, nowNs) == if Unexpired(held, nowNs) then Ok(held) else Err(TokenExpired)
  {
    var parts := Split(token, '.');
    assert parts == [parts[0], parts[1], parts[2]];
    h, c := parts[0], parts[1];
    ThreeParts(token, h, c, parts[2]);
    held := lib.unmarshal(Base64.Decode(Base64.Url, false, c).value).value;
    UnexpiredIsUnix(held, nowNs);
  }

  /**
    Verification accepts exactly the well-made tokens through the last nanosecond of the second they
    name, and yields the claims they carry.
  */
  lemma VerifyExactly(lib: Library, token: string, secret: string, nowNs: int, claims: Claims)
    ensures Verify(lib, token, secret, nowNs) == Ok(claims) <==>
              secret != "" && Unexpired(claims, nowNs) && exists h, c :: IsToken(lib, secret, token, h, c, claims)
  {
    if h, c :| IsToken(lib, secret, token, h, c, claims) && secret != "" {
      TokenIsRead(lib, secret, token, nowNs, h, c, claims);
    }
    if Verify(lib, token, secret, nowNs) == Ok(claims) {
      var h, c, held := TokenWasRead(lib, secret, token, nowNs);
    }
  }

  /** After that it refuses them as expired, and nothing else. */
  lemma ExpiredExactly(lib: Library, token: string, secret: string, nowNs: int)
    ensures Verify(lib, token, secret, nowNs) == Err(TokenExpired) <==>
              secret != "" &&
              exists h, c, held: Claims :: IsToken(lib, secret, token, h, c, held) && !Unexpired(held, nowNs)
  {
    if h, c, held: Claims :| IsToken(lib, secret, token, h, c, held) && !Unexpired(held, nowNs) && secret != "" {
      TokenIsRead(lib, secret, token, nowNs, h, c, held);
    }
    if Verify(lib, token, secret, nowNs) == Err(TokenExpired) {
      var h, c, held := TokenWasRead(lib, secret, token, nowNs);
    }
  }

  /** Which tokens have the wrong form, whatever they contain. */
  lemma FormatRefused(lib: Library, token: string, secret: string, nowNs: int)
    ensures Verify(lib, token, secret, nowNs) == Err(EmptySecret) <==> secret == ""
    ensures Verify(lib, token, secret, nowNs) == Err(InvalidFormat) <==>
              secret != "" && !exists h, c, s :: InThreeParts(token, h, c, s)
  {
    var parts := Split(token, '.');
    if h, c, s :| InThreeParts(token, h, c, s) {
      ThreeParts(token, h, c, s);
    } else if |parts| == 3 {
      assert parts == [parts[0], parts[1], parts[2]];
      ThreeParts(token, parts[0], parts[1], parts[2]);
      assert InThreeParts(token, parts[0], parts[1], parts[2]);
    }
  }

  predicate InThreeParts(token: string, h: string, c: string, s: string) {
    token == h + "." + c + "." + s && '.' !in h && '.' !in c && '.' !in s
  }

  /** For the others, the first thing wrong is the error: the MAC, the claims' text, the claims. */
  lemma RefusedBecause(lib: Library, token: string, secret: string, nowNs: int, h: string, c: string, s: string)
    requires secret != "" && InThreeParts(token, h, c, s)
    ensures
      var r := Verify(lib, token, secret, nowNs);
      if s != Base64.Encode(Base64.Url, false, lib.hmac(secret, h + "." + c)) then r == Err(InvalidSignature)
      else if Base64.Decode(Base64.Url, false, c).None? then r == Err(UndecodableClaims)
      else if lib.unmarshal(Base64.Decode(Base64.Url, false, c).value).None? then r == Err(UnparsableClaims)
      else r.Ok? || r == Err(TokenExpired)
  {
    ThreeParts(token, h, c, s);
  }

  /** A minted token is the header, the claims and their MAC, in base64url, joined by dots. */
  lemma MintedTokenIs(lib: Library, subject: string, scopes: seq<string>, secret: string, ttlNs: int, nowNs: int)
    returns (h: string, c: string, claims: Claims)
    requires secret != ""
    ensures claims.subject == subject && claims.scopes == scopes
    ensures InSecond(nowNs, claims.issuedAt) && InSecond(nowNs + ttlNs, claims.expiresAt)
    ensures h == Base64.Encode(Base64.Url, false, lib.header)
    ensures c == Base64.Encode(Base64.Url, false, lib.marshal(claims))
    ensures Generate(lib, subject, scopes, secret, ttlNs, nowNs)
         == Ok(h + "." + c + "." + Base64.Encode(Base64.Url, false, lib.hmac(secret, h + "." + c)))
  {
    claims := MintedClaims(subject, scopes, ttlNs, nowNs);
    UnixIsItsSecond(nowNs, Unix(nowNs));
    UnixIsItsSecond(nowNs + ttlNs, Unix(nowNs + ttlNs));
    h, c := Base64Url(lib.header), Base64Url(lib.marshal(claims));
  }

  /**
    A minted token names the second its lifetime ends in; it is accepted through that second,
    inclusive, and refused as expired from the next one on, and while accepted yields the claims it
    was minted with.
  */
  lemma MintedTokenVerifies(
      lib: Library, subject: string, scopes: seq<string>, secret: string, ttlNs: int, mintNs: int, nowNs: int)
    returns (claims: Claims)
    requires secret != ""
    requires lib.unmarshal(lib.marshal(MintedClaims(subject, scopes, ttlNs, mintNs)))
          == Some(MintedClaims(subject, scopes, ttlNs, mintNs))
    ensures claims.subject == subject && claims.scopes == scopes
    ensures InSecond(mintNs, claims.issuedAt) && InSecond(mintNs + ttlNs, claims.expiresAt)
    ensures Generate(lib, subject, scopes, secret, ttlNs, mintNs).Ok?
    ensures Verify(lib, Generate(lib, subject, scopes, secret, ttlNs, mintNs).value, secret, nowNs)
         == if nowNs < (claims.expiresAt + 1) * 1_000_000_000 then Ok(claims) else Err(TokenExpired)
  {
    var h, c;
    h, c, claims := MintedTokenIs(lib, subject, scopes, secret, ttlNs, mintNs);
    SecondIsOne(mintNs, claims.issuedAt, Unix(mintNs));
    SecondIsOne(mintNs + ttlNs, claims.expiresAt, Unix(mintNs + ttlNs));
    assert claims == MintedClaims(subject, scopes, ttlNs, mintNs);
    Base64.UrlTextHasNoDot(lib.header);
    Base64.UrlTextHasNoDot(lib.marshal(claims));
    Base64.RoundTrip(Base64.Url, false, lib.marshal(claims));
    TokenIsRead(lib, secret, Generate(lib, subject, scopes, secret, ttlNs, mintNs).value, nowNs, h, c, claims);
  }

  lemma SecondIsOne(ns: int, s: int, t: int)
    requires InSecond(ns, s) && t == Unix(ns)
    ensures s == t
  {
    UnixIsItsSecond(ns, s);
  }
}
