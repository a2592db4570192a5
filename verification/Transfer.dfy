/**
  A transfer order, the text a device signs for it, and the check of that signature.
*/
module Transfer {
  import opened Wrappers
  import opened Bytes
  import opened Clock
  import Base64
  import Decimal
  import Hex

  datatype Payload = Payload(
    id: string,
    sender: string,
    receiver: string,
    amountCents: int,
    currency: string,
    timestampNs: int,
    signature: string)

  /** The bytes a device signs. */
  function Canonical(p: Payload): string {
    p.sender + ":" + p.receiver + ":" + Decimal.Print(p.amountCents) + ":" + p.currency
      + ":" + Decimal.Print(Unix(p.timestampNs))
  }

  // ---------------------------------------------------------------------------------------
  // What the signed bytes determine.

  lemma CutAtLastColon(a: string, b: string, c: string, d: string)
    requires a + ":" + b == c + ":" + d && ':' !in b && ':' !in d
    ensures a == c && b == d
  {
    ColonAt(a, b);
    ColonAt(c, d);
    CutThere(a, b, c, d);
  }

  /** Where the joining colon is, and what is on either side of it. */
  lemma ColonAt(a: string, b: string)
    ensures
      var s := a + ":" + b;
      && |s| == |a| + 1 + |b| && s[|a|] == ':'
      && (forall i :: 0 <= i < |a| ==> s[i] == a[i])
      && (forall i :: |a| < i < |s| ==> s[i] == b[i - |a| - 1])
  {}

  lemma CutThere(a: string, b: string, c: string, d: string)
    requires a + ":" + b == c + ":" + d && |a| == |c|
    ensures a == c && b == d
  {
    var s, t := a + ":" + b, c + ":" + d;
    assert a == s[..|a|] && c == t[..|c|] && b == s[|a| + 1..] && d == t[|c| + 1..];
  }

  lemma CutAtFirstColon(a: string, b: string, c: string, d: string)
    requires a + ":" + b == c + ":" + d && ':' !in a && ':' !in c
    ensures a == c && b == d
  {
    ColonAt(a, b);
    ColonAt(c, d);
    CutThere(a, b, c, d);
  }

  lemma CutBeforeSuffix(a: string, b: string, c: string, d: string)
    requires a + b == c + d && |b| == |d|
    ensures a == c && b == d
  {
    assert a == (a + b)[..|a|] && c == (c + d)[..|c|];
    assert b == (a + b)[|a|..] && d == (c + d)[|c|..];
  }

  lemma PrintIsInjective(m: int, n: int)
    requires Decimal.Print(m) == Decimal.Print(n)
    ensures m == n
  {
    Decimal.RoundTrip(m);
    Decimal.RoundTrip(n);
  }

  /** The bytes are the five fields in this order, the amount and the second as plain decimals. */
  lemma CanonicalReads(p: Payload) returns (amount: string, second: string)
    ensures Canonical(p) == p.sender + ":" + p.receiver + ":" + amount + ":" + p.currency + ":" + second
    ensures Decimal.Parse(amount) == p.amountCents && InSecond(p.timestampNs, Decimal.Parse(second))
    ensures ':' !in amount && ':' !in second
  {
    amount, second := Decimal.Print(p.amountCents), Decimal.Print(Unix(p.timestampNs));
    Decimal.RoundTrip(p.amountCents);
    Decimal.RoundTrip(Unix(p.timestampNs));
    UnixIsItsSecond(p.timestampNs, Unix(p.timestampNs));
  }

  function Parties(p: Payload): string {
    p.sender + ":" + p.receiver
  }

  /** The signed terms: all but the id, the fraction of a second, and where sender and receiver meet. */
  ghost predicate SameTerms(p: Payload, q: Payload) {
    && p.amountCents == q.amountCents && p.currency == q.currency
    && SameSecond(p.timestampNs, q.timestampNs) && Parties(p) == Parties(q)
  }

  /**
    Two orders whose currencies are equally long, as the guard's three bytes are, have the same
    signed bytes exactly when they agree on the amount, the currency, the second they are stamped
    in, and the sender and receiver joined by a colon.
  */
  lemma CanonicalDetermines(p: Payload, q: Payload)
    requires |p.currency| == |q.currency|
    ensures Canonical(p) == Canonical(q) <==> SameTerms(p, q)
  {
    SameSecondIsSameUnix(p.timestampNs, q.timestampNs);
    if Canonical(p) == Canonical(q) {
      var pa, qa := Decimal.Print(p.amountCents), Decimal.Print(q.amountCents);
      var pt, qt := Decimal.Print(Unix(p.timestampNs)), Decimal.Print(Unix(q.timestampNs));
      var pFront, qFront := Parties(p) + ":" + pa, Parties(q) + ":" + qa;
      assert Canonical(p) == (pFront + (":" + p.currency)) + ":" + pt;
      assert Canonical(q) == (qFront + (":" + q.currency)) + ":" + qt;
      CutAtLastColon(pFront + (":" + p.currency), pt, qFront + (":" + q.currency), qt);
      CutBeforeSuffix(pFront, ":" + p.currency, qFront, ":" + q.currency);
      assert p.currency == (":" + p.currency)[1..] && q.currency == (":" + q.currency)[1..];
      CutAtLastColon(Parties(p), pa, Parties(q), qa);
      PrintIsInjective(p.amountCents, q.amountCents);
      PrintIsInjective(Unix(p.timestampNs), Unix(q.timestampNs));
    }
  }

  /** With colon-free senders, the signed bytes determine all five fields; the receiver may hold colons. */
  lemma CanonicalIsInjective(p: Payload, q: Payload)
    requires |p.currency| == |q.currency| && ':' !in p.sender && ':' !in q.sender
    ensures Canonical(p) == Canonical(q) <==>
              p.sender == q.sender && p.receiver == q.receiver && p.amountCents == q.amountCents &&
              p.currency == q.currency && SameSecond(p.timestampNs, q.timestampNs)
  {
    CanonicalDetermines(p, q);
    if Canonical(p) == Canonical(q) {
      CutAtFirstColon(p.sender, p.receiver, q.sender, q.receiver);
    }
  }

  // Orders as the schema guard in front of both services lets them in.

  const MIN_ACCOUNT := 6
  const CURRENCY_LENGTH := 3

  /** Go's zero time, the first instant of year 1. */
  const ZERO_TIME_NS := -62_135_596_800 * NANOS_PER_SECOND

  predicate Guarded(p: Payload) {
    && p.id != "" && |p.sender| >= MIN_ACCOUNT && |p.receiver| >= MIN_ACCOUNT && p.amountCents > 0
    && |p.currency| == CURRENCY_LENGTH && p.timestampNs != ZERO_TIME_NS && p.signature != ""
  }

  /** No colon but the joining one leaves at least `least` characters on either side of it. */
  ghost predicate OneCut(p: Payload, least: nat) {
    forall i :: least <= i < |Parties(p)| - least && i != |p.sender| ==> Parties(p)[i] != ':'
  }

  lemma CutAtTheOnlyCut(p: Payload, q: Payload, least: nat)
    requires Parties(p) == Parties(q) && OneCut(p, least) && |q.sender| >= least && |q.receiver| >= least
    ensures q.sender == p.sender && q.receiver == p.receiver
  {
    ColonAt(q.sender, q.receiver);
    CutThere(q.sender, q.receiver, p.sender, p.receiver);
  }

  /** The same order with sender and receiver cut apart at colon i. */
  function CutAt(p: Payload, i: nat): Payload
    requires i < |Parties(p)|
  {
    p.(sender := Parties(p)[..i], receiver := Parties(p)[i + 1..])
  }

  lemma CutAtKeepsTerms(p: Payload, i: nat)
    requires i < |Parties(p)| && Parties(p)[i] == ':'
    ensures Canonical(CutAt(p, i)) == Canonical(p)
  {
    assert Parties(CutAt(p, i)) == Parties(p)[..i] + ":" + Parties(p)[i + 1..] == Parties(p);
    CanonicalDetermines(CutAt(p, i), p);
  }

  /** Every order the guard lets in with these bytes names the same sender and receiver. */
  ghost predicate NamesItsParties(p: Payload) {
    forall q: Payload | Guarded(q) && Canonical(q) == Canonical(p) :: q.sender == p.sender && q.receiver == p.receiver
  }

  /**
    Which guarded orders can be told from their bytes alone: exactly those in which no second colon
    leaves an account's length on either side of it.
  */
  lemma PartiesAreNamedExactly(p: Payload)
    requires Guarded(p)
    ensures NamesItsParties(p) <==> OneCut(p, 6)
  {
    if OneCut(p, MIN_ACCOUNT) {
      forall q: Payload | Guarded(q) && Canonical(q) == Canonical(p)
        ensures q.sender == p.sender && q.receiver == p.receiver
      {
        CanonicalDetermines(p, q);
        CutAtTheOnlyCut(p, q, MIN_ACCOUNT);
      }
    } else {
      var i :| MIN_ACCOUNT <= i < |Parties(p)| - MIN_ACCOUNT && i != |p.sender| && Parties(p)[i] == ':';
      CutAtKeepsTerms(p, i);
      assert Guarded(CutAt(p, i));
    }
  }

  lemma ColonFreeHasOneCut(p: Payload)
    requires ':' !in p.sender && ':' !in p.receiver
    ensures OneCut(p, 0)
  {
    ColonAt(p.sender, p.receiver);
  }

  /**
    The guard does not keep two orders apart: these differ in both parties and have the same bytes.
    Without its three-byte currency, even the amount and the currency could differ.
  */
  lemma CanonicalCollides()
    ensures
      var p := Payload("1", "ACCT01:ACCT02", "ACCT03", 1, "USD", 0, "s");
      var q := Payload("1", "ACCT01", "ACCT02:ACCT03", 1, "USD", 0, "s");
      Guarded(p) && Guarded(q) && Canonical(p) == Canonical(q) && p.sender != q.sender && p.receiver != q.receiver
    ensures
      var p := Payload("1", "ACCT01", "ACCT02", 1, "2:USD", 0, "s");
      var q := Payload("1", "ACCT01", "ACCT02:1", 2, "USD", 0, "s");
      Canonical(p) == Canonical(q)
  {
    assert Decimal.Print(1) == "1" && Decimal.Print(2) == "2";
    assert "ACCT01:ACCT02" + ":" + "ACCT03" == "ACCT01" + ":" + "ACCT02:ACCT03";
    assert "ACCT01" + ":" + "ACCT02" + ":" + "1" + ":" + "2:USD"
        == "ACCT01" + ":" + "ACCT02:1" + ":" + "2" + ":" + "USD";
  }

  // ---------------------------------------------------------------------------------------
  // Reading the signature text.

  /** Hex is tried first; whatever it rejects is read as padded base64. */
  function DecodeSignature(text: string): Option<Data> {
    FirstRead(Hex.Decode(text), Base64.Decode(Base64.Std, true, text))
  }

  function FirstRead(first: Option<Data>, second: Option<Data>): Option<Data> {
    if first.Some? then first else second
  }

  /** A signature written in hex is always read back. */
  lemma HexSignatureRead(data: Data)
    ensures DecodeSignature(Hex.Encode(data)) == Some(data)
  {
    Hex.RoundTrip(data);
  }

  predicate HexText(text: string) {
    forall i :: 0 <= i < |text| ==> Hex.IsDigit(text[i])
  }

  /**
    A signature written in base64 is read back exactly when its text is not made of hex digits
    alone; if it is, the hex attempt captures it and yields other bytes.
  */
  lemma Base64SignatureReadExactly(data: Data)
    requires data != []
    ensures DecodeSignature(Base64.Encode(Base64.Std, true, data)) == Some(data)
       <==> !HexText(Base64.Encode(Base64.Std, true, data))
  {
    Base64.RoundTrip(Base64.Std, true, data);
    CapturedIsShorter(data);
  }

  /** Base64 text made of hex digits has no padding, and the hex reader makes two bytes of every three. */
  lemma CapturedIsShorter(data: Data)
    ensures
      var captured := Hex.Decode(Base64.Encode(Base64.Std, true, data));
      (captured.Some? <==> HexText(Base64.Encode(Base64.Std, true, data))) &&
      (captured.Some? ==> |data| % 3 == 0 && |captured.value| * 3 == |data| * 2)
  {
    var text := Base64.Encode(Base64.Std, true, data);
    Hex.DecodeAccepts(text);
    Base64.LengthOfEncoded(Base64.Std, true, data);
    if |data| % 3 != 0 {
      Base64.EndsInPadding(Base64.Std, data);
      NotHexAt(text, |text| - 1);
    }
  }

  lemma NotHexAt(text: string, i: nat)
    requires i < |text| && !Hex.IsDigit(text[i])
    ensures !HexText(text)
  {}

  /** So is every base64 signature of 64 bytes, for it ends in '=', and every DER one, for it starts with 'M'. */
  lemma UsualSignatureRead(data: Data)
    requires |data| == 64 || (data != [] && data[0] == 0x30)
    ensures DecodeSignature(Base64.Encode(Base64.Std, true, data)) == Some(data)
  {
    if |data| == 64 {
      UnevenSignatureRead(data);
    } else {
      DerStartsWithM(data);
      Base64SignatureReadExactly(data);
    }
  }

  lemma UnevenSignatureRead(data: Data)
    requires |data| % 3 != 0
    ensures DecodeSignature(Base64.Encode(Base64.Std, true, data)) == Some(data)
  {
    CapturedIsShorter(data);
    Base64SignatureReadExactly(data);
  }

  lemma DerStartsWithM(data: Data)
    requires data != [] && data[0] == 0x30
    ensures !HexText(Base64.Encode(Base64.Std, true, data))
  {
    Base64.FirstCharacter(Base64.Std, true, data);
    assert Base64.Digit(Base64.Std, 0x30 / 4) == 'M';
    NotHexAt(Base64.Encode(Base64.Std, true, data), 0);
  }

  /** A signature that is misread: three zero bytes in base64 come back as two bytes 0xAA. */
  lemma MisreadSignature()
    ensures Base64.Encode(Base64.Std, true, [0, 0, 0]) == "AAAA"
    ensures DecodeSignature("AAAA") == Some([0xAA, 0xAA])
  {
    assert Base64.Encode(Base64.Std, true, [0, 0, 0]) == Base64.Group(Base64.Std, 0, 0, 0) + [];
    assert Hex.Decode([]) == Some([]);
    assert Hex.Value('A') == Some(10);
    assert "AAAA" == ['A', 'A'] + "AA" && "AA" == ['A', 'A'] + [];
    Hex.DecodePair('A', 'A', [], []);
    assert [0xAA] + [] == [0xAA] && [0xAA] + [0xAA] == [0xAA, 0xAA];
    Hex.DecodePair('A', 'A', "AA", [0xAA]);
  }

  // ---------------------------------------------------------------------------------------
  // The check of a signature against one registered key.

  /** The cryptographic library: key parsing, hashing, and ECDSA on numbers and on DER. */
  datatype Library<!Key> = Library(
    parseKey: string -> Option<Key>,
    sha256: string -> Data,
    ecdsa: (Key, Data, int, int) -> bool,
    ecdsaDer: (Key, Data, Data) -> bool,
    unmarshal: Data -> Option<(int, int)>)

  datatype Refusal = EmptyKey | EmptySignature | UnusableKey | UnreadableSignature | WrongSignature

  /** Big-endian bytes as a number. */
  function Number(data: Data): int {
    if data == [] then 0 else Number(data[..|data| - 1]) * 256 + data[|data| - 1]
  }

  function Pow256(n: nat): int {
    if n == 0 then 1 else 256 * Pow256(n - 1)
  }

  /** What comes first weighs most. */
  lemma {:induction false} NumberIsBigEndian(a: Data, b: Data)
    ensures Number(a + b) == Number(a) * Pow256(|b|) + Number(b)
    ensures |b| == 1 ==> Number(b) == b[0]
  {
    if b == [] {
      assert a + b == a;
    } else {
      var front := b[..|b| - 1];
      NumberIsBigEndian(a, front);
      assert (a + b)[..|a + b| - 1] == a + front;
      Shifted(Number(a), Pow256(|front|), Number(front));
    }
  }

  lemma Shifted(x: int, p: int, y: int)
    ensures (x * p + y) * 256 == x * (256 * p) + y * 256
  {}

  /** Sixty-four bytes are read as R || S; anything else as DER, with a lenient second attempt. */
  predicate Signs<Key>(lib: Library<Key>, key: Key, hash: Data, sig: Data) {
    if |sig| == 64 then lib.ecdsa(key, hash, Number(sig[..32]), Number(sig[32..]))
    else
      lib.ecdsaDer(key, hash, sig) ||
      match lib.unmarshal(sig)
      case None => false
      case Some(rs) => lib.ecdsa(key, hash, rs.0, rs.1)
  }

  function VerifyEnclaveSignature<Key>(lib: Library<Key>, pem: string, p: Payload): Result<(), Refusal> {
    if pem == "" then Err(EmptyKey)
    else if p.signature == "" then Err(EmptySignature)
    else
      match lib.parseKey(pem)
      case None => Err(UnusableKey)
      case Some(key) =>
        match DecodeSignature(p.signature)
        case None => Err(UnreadableSignature)
        case Some(sig) =>
          if Signs(lib, key, lib.sha256(Canonical(p)), sig) then Ok(()) else Err(WrongSignature)
  }

  predicate SignsRaw<Key>(lib: Library<Key>, key: Key, hash: Data, sig: Data) {
    |sig| == 64 && lib.ecdsa(key, hash, Number(sig[..32]), Number(sig[32..]))
  }

  predicate SignsDer<Key>(lib: Library<Key>, key: Key, hash: Data, sig: Data) {
    sig != [] && sig[0] == 0x30 && lib.ecdsaDer(key, hash, sig)
  }

  /**
    A genuine signature, raw or DER, in hex or base64, is accepted: always if it is raw, and if it is
    DER exactly when it is not 64 bytes long or those happen to verify as R || S.
  */
  lemma GenuineSignatureAccepted<Key>(lib: Library<Key>, pem: string, key: Key, p: Payload, sig: Data)
    requires pem != "" && lib.parseKey(pem) == Some(key)
    requires
      var hash := lib.sha256(Canonical(p));
      SignsRaw(lib, key, hash, sig) || SignsDer(lib, key, hash, sig)
    requires p.signature == Hex.Encode(sig) || p.signature == Base64.Encode(Base64.Std, true, sig)
    ensures VerifyEnclaveSignature(lib, pem, p).Ok?
       <==> |sig| != 64 || SignsRaw(lib, key, lib.sha256(Canonical(p)), sig)
  {
    if p.signature == Hex.Encode(sig) {
      HexSignatureRead(sig);
    } else {
      UsualSignatureRead(sig);
      Base64.FirstCharacter(Base64.Std, true, sig);
    }
  }

  /** The numbers R and S that a signature may stand for. */
  predicate ReadsAs<Key>(lib: Library<Key>, sig: Data, rs: (int, int)) {
    if |sig| == 64 then rs == (Number(sig[..32]), Number(sig[32..])) else lib.unmarshal(sig) == Some(rs)
  }

  /** The library says yes: to the DER signature as it is, or to the numbers it stands for. */
  ghost predicate LibraryAccepts<Key>(lib: Library<Key>, key: Key, hash: Data, sig: Data) {
    || (|sig| != 64 && lib.ecdsaDer(key, hash, sig))
    || exists rs :: ReadsAs(lib, sig, rs) && lib.ecdsa(key, hash, rs.0, rs.1)
  }

  lemma SignsExactly<Key>(lib: Library<Key>, key: Key, hash: Data, sig: Data)
    ensures Signs(lib, key, hash, sig) <==> LibraryAccepts(lib, key, hash, sig)
  {
    if |sig| == 64 {
      assert ReadsAs(lib, sig, (Number(sig[..32]), Number(sig[32..])));
    } else if lib.unmarshal(sig).Some? {
      assert ReadsAs(lib, sig, lib.unmarshal(sig).value);
    }
  }

  /** What is accepted: exactly what can be read and what the library says yes to for the canonical bytes. */
  lemma AcceptedExactly<Key>(lib: Library<Key>, pem: string, p: Payload)
    ensures VerifyEnclaveSignature(lib, pem, p).Ok? <==>
              && pem != "" && p.signature != ""
              && lib.parseKey(pem).Some? && DecodeSignature(p.signature).Some?
              && LibraryAccepts(lib, lib.parseKey(pem).value, lib.sha256(Canonical(p)),
                                DecodeSignature(p.signature).value)
  {
    if lib.parseKey(pem).Some? && DecodeSignature(p.signature).Some? {
      SignsExactly(lib, lib.parseKey(pem).value, lib.sha256(Canonical(p)), DecodeSignature(p.signature).value);
    }
  }

  /** Otherwise the first thing that is wrong is the error. */
  lemma RefusedBecause<Key>(lib: Library<Key>, pem: string, p: Payload, refusal: Refusal)
    requires VerifyEnclaveSignature(lib, pem, p) == Err(refusal)
    ensures refusal == if pem == "" then EmptyKey
                       else if p.signature == "" then EmptySignature
                       else if lib.parseKey(pem).None? then UnusableKey
                       else if DecodeSignature(p.signature).None? then UnreadableSignature
                       else WrongSignature
  {}

  /** Every acceptance rests on a yes from the library. */
  lemma AcceptanceRestsOnLibrary<Key>(lib: Library<Key>, pem: string, p: Payload)
    returns (key: Key, sig: Data, rs: (int, int))
    requires VerifyEnclaveSignature(lib, pem, p).Ok?
    ensures lib.parseKey(pem) == Some(key) && DecodeSignature(p.signature) == Some(sig)
    ensures lib.ecdsaDer(key, lib.sha256(Canonical(p)), sig) || lib.ecdsa(key, lib.sha256(Canonical(p)), rs.0, rs.1)
  {
    AcceptedExactly(lib, pem, p);
    key, sig, rs := lib.parseKey(pem).value, DecodeSignature(p.signature).value, (0, 0);
    if !lib.ecdsaDer(key, lib.sha256(Canonical(p)), sig) {
      rs :| ReadsAs(lib, sig, rs) && lib.ecdsa(key, lib.sha256(Canonical(p)), rs.0, rs.1);
    }
  }
}
