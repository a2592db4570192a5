/** Bytes, and the text forms they take on the wire. A text is a string of single-byte characters. */
module Bytes {
  type byte = b: int | 0 <= b < 256

  type Data = seq<byte>
}

/** Hexadecimal, section 8 of RFC 4648: lower case when written, either case when read. */
module Hex {
  import opened Wrappers
  import opened Bytes

  function Digit(n: int): (c: char)
    requires 0 <= n < 16
    ensures Value(c) == Some(n)
  {
    if n < 10 then '0' + n as char else 'a' + (n - 10) as char
  }

  function Value(c: char): (v: Option<int>)
    ensures v.Some? ==> 0 <= v.value < 16
  {
    if '0' <= c <= '9' then Some((c - '0') as int)
    else if 'a' <= c <= 'f' then Some((c - 'a') as int + 10)
    else if 'A' <= c <= 'F' then Some((c - 'A') as int + 10)
    else None
  }

  predicate IsDigit(c: char) {
    Value(c).Some?
  }

  function Encode(data: Data): (s: string)
    ensures |s| == 2 * |data|
    ensures forall c :: c in s ==> IsDigit(c)
  {
    if data == [] then [] else [Digit(data[0] / 16), Digit(data[0] % 16)] + Encode(data[1..])
  }

  const LOWER: string := "0123456789abcdef"
  const UPPER: string := "0123456789ABCDEF"

  /** The digits of section 8 of RFC 4648, written in lower case and read in either. */
  lemma DigitsAreHex(c: char, n: nat)
    requires n < 16
    ensures Digit(n) == LOWER[n]
    ensures Value(c) == Some(n) <==> c == LOWER[n] || c == UPPER[n]
  {
    DigitsInARow(n);
    assert Value(c) == Some(n) <==>
      c == (if n < 10 then '0' + n as char else 'a' + (n - 10) as char) ||
      c == if n < 10 then '0' + n as char else 'A' + (n - 10) as char;
  }

  lemma DigitsInARow(n: nat)
    requires n < 16
    ensures LOWER[n] == if n < 10 then '0' + n as char else 'a' + (n - 10) as char
    ensures UPPER[n] == if n < 10 then '0' + n as char else 'A' + (n - 10) as char
  {}

  /** Each byte in its place, the high half first. */
  lemma {:induction false} EncodeAt(data: Data, i: nat)
    requires i < |data|
    ensures Encode(data)[2 * i] == LOWER[data[i] / 16] && Encode(data)[2 * i + 1] == LOWER[data[i] % 16]
  {
    DigitsAreHex('0', data[0] / 16);
    DigitsAreHex('0', data[0] % 16);
    if i > 0 {
      EncodeAt(data[1..], i - 1);
    }
  }

  function Decode(s: string): Option<Data> {
    if s == [] then Some([])
    else if |s| == 1 || !IsDigit(s[0]) || !IsDigit(s[1]) then None
    else
      match Decode(s[2..])
      case None => None
      case Some(rest) => Some([Value(s[0]).value * 16 + Value(s[1]).value] + rest)
  }

  lemma DecodePair(c: char, d: char, rest: string, data: Data)
    requires IsDigit(c) && IsDigit(d) && Decode(rest) == Some(data)
    ensures Decode([c, d] + rest) == Some([Value(c).value * 16 + Value(d).value] + data)
  {
    assert ([c, d] + rest)[2..] == rest;
  }

  /** Exactly which texts are read, and how many bytes they give. */
  lemma {:induction false} DecodeAccepts(s: string)
    ensures Decode(s).Some? <==> |s| % 2 == 0 && forall i :: 0 <= i < |s| ==> IsDigit(s[i])
    ensures Decode(s).Some? ==> |Decode(s).value| * 2 == |s|
  {
    if |s| >= 2 {
      DecodeAccepts(s[2..]);
      assert forall i :: 2 <= i < |s| ==> s[i] == s[2..][i - 2];
      assert (forall i :: 0 <= i < |s| ==> IsDigit(s[i])) <==>
             IsDigit(s[0]) && IsDigit(s[1]) && forall i :: 0 <= i < |s[2..]| ==> IsDigit(s[2..][i]);
    }
  }

  /** Reading back what was written gives the same bytes. */
  lemma {:induction false} RoundTrip(data: Data)
    ensures Decode(Encode(data)) == Some(data)
  {
    if data != [] {
      RoundTrip(data[1..]);
      var s := Encode(data);
      assert s[2..] == Encode(data[1..]);
      assert [data[0]] + data[1..] == data;
    }
  }
}

/** Base64, sections 4 and 5 of RFC 4648, with the reading rules of Go's encoding/base64. */
module Base64 {
  import opened Wrappers
  import opened Bytes

  /** The standard alphabet and the URL-safe one differ in their last two characters. */
  datatype Alphabet = Std | Url

  function Digit(a: Alphabet, n: int): (c: char)
    requires 0 <= n < 64
  {
    if n < 26 then 'A' + n as char
    else if n < 52 then 'a' + (n - 26) as char
    else if n < 62 then '0' + (n - 52) as char
    else if n == 62 then (if a.Std? then '+' else '-')
    else if a.Std? then '/' else '_'
  }

  function Value(a: Alphabet, c: char): (v: Option<int>)
    ensures v.Some? ==> 0 <= v.value < 64
  {
    if 'A' <= c <= 'Z' then Some((c - 'A') as int)
    else if 'a' <= c <= 'z' then Some((c - 'a') as int + 26)
    else if '0' <= c <= '9' then Some((c - '0') as int + 52)
    else if c == (if a.Std? then '+' else '-') then Some(62)
    else if c == (if a.Std? then '/' else '_') then Some(63)
    else None
  }

  predicate IsDigit(a: Alphabet, c: char) {
    Value(a, c).Some?
  }

  lemma DigitValue(a: Alphabet, n: int)
    requires 0 <= n < 64
    ensures Value(a, Digit(a, n)) == Some(n)
  {}

  const CAPITALS: string := "ABCDEFGHIJKLMNOPQRSTUVWXYZ"
  const SMALL: string := "abcdefghijklmnopqrstuvwxyz"
  const NUMERALS: string := "0123456789"

  function Letters(a: Alphabet): (s: string)
    ensures |s| == 64
  {
    CAPITALS + SMALL + NUMERALS + if a.Std? then "+/" else "-_"
  }

  lemma LettersInARow(n: nat)
    ensures n < 26 ==> CAPITALS[n] == 'A' + n as char
    ensures n < 26 ==> SMALL[n] == 'a' + n as char
    ensures n < 10 ==> NUMERALS[n] == '0' + n as char
  {}

  /** The alphabets of sections 4 and 5 of RFC 4648. */
  lemma DigitsAreLetters(a: Alphabet, c: char, n: nat)
    requires n < 64
    ensures Digit(a, n) == Letters(a)[n]
    ensures Value(a, c) == Some(n) <==> c == Letters(a)[n]
  {
    DigitIsLetter(a, n);
    ValueDigit(a, c, n);
  }

  lemma DigitIsLetter(a: Alphabet, n: nat)
    requires n < 64
    ensures Digit(a, n) == Letters(a)[n]
  {
    LettersInPlace(a, n);
    if n < 26 {
      LettersInARow(n);
    } else if n < 52 {
      LettersInARow(n - 26);
    } else if n < 62 {
      LettersInARow(n - 52);
    }
  }

  lemma LettersInPlace(a: Alphabet, n: nat)
    requires n < 64
    ensures Letters(a)[n] ==
              if n < 26 then CAPITALS[n] else if n < 52 then SMALL[n - 26] else if n < 62 then NUMERALS[n - 52]
              else if n == 62 then (if a.Std? then '+' else '-') else if a.Std? then '/' else '_'
  {}

  lemma ValueDigit(a: Alphabet, c: char, n: nat)
    requires n < 64
    ensures Value(a, c) == Some(n) <==> c == Digit(a, n)
  {}

  /** Padded output fills the last group of four with '='; raw output leaves it short. */
  function Encode(a: Alphabet, padded: bool, data: Data): string {
    if data == [] then []
    else if |data| == 1 then Tail1(a, data[0]) + if padded then "==" else ""
    else if |data| == 2 then Tail2(a, data[0], data[1]) + if padded then "=" else ""
    else Group(a, data[0], data[1], data[2]) + Encode(a, padded, data[3..])
  }

  function Group(a: Alphabet, x: byte, y: byte, z: byte): (s: string)
    ensures |s| == 4
  {
    [Digit(a, x / 4), Digit(a, x % 4 * 16 + y / 16), Digit(a, y % 16 * 4 + z / 64), Digit(a, z % 64)]
  }

  function Tail1(a: Alphabet, x: byte): (s: string)
    ensures |s| == 2
  {
    [Digit(a, x / 4), Digit(a, x % 4 * 16)]
  }

  function Tail2(a: Alphabet, x: byte, y: byte): (s: string)
    ensures |s| == 3
  {
    [Digit(a, x / 4), Digit(a, x % 4 * 16 + y / 16), Digit(a, y % 16 * 4)]
  }

  /** What the digits of a text, read from the left, add up to. */
  function Sum(a: Alphabet, s: string): int {
    if s == [] then 0
    else Sum(a, s[..|s| - 1]) * 64 + (match Value(a, s[|s| - 1]) case None => 0 case Some(v) => v)
  }

  /** Three bytes are one 24-bit number cut into four digits; one or two are filled up with zero bits. */
  lemma PiecesAreBigEndian(a: Alphabet, x: byte, y: byte, z: byte)
    ensures Sum(a, Group(a, x, y, z)) == x * 65536 + y * 256 + z
    ensures Sum(a, Tail1(a, x)) == x * 16
    ensures Sum(a, Tail2(a, x, y)) == (x * 256 + y) * 4
  {
    SumOfFour(a, x / 4, x % 4 * 16 + y / 16, y % 16 * 4 + z / 64, z % 64);
    SumOfTwo(a, x / 4, x % 4 * 16);
    SumOfThree(a, x / 4, x % 4 * 16 + y / 16, y % 16 * 4);
  }

  lemma SumOfTwo(a: Alphabet, p: nat, q: nat)
    requires p < 64 && q < 64
    ensures Sum(a, [Digit(a, p), Digit(a, q)]) == p * 64 + q
  {
    SumMore(a, [], p);
    SumMore(a, [Digit(a, p)], q);
    assert [] + [Digit(a, p)] == [Digit(a, p)];
    assert [Digit(a, p)] + [Digit(a, q)] == [Digit(a, p), Digit(a, q)];
  }

  lemma SumOfThree(a: Alphabet, p: nat, q: nat, r: nat)
    requires p < 64 && q < 64 && r < 64
    ensures Sum(a, [Digit(a, p), Digit(a, q), Digit(a, r)]) == p * 4096 + q * 64 + r
  {
    SumOfTwo(a, p, q);
    SumMore(a, [Digit(a, p), Digit(a, q)], r);
    assert [Digit(a, p), Digit(a, q)] + [Digit(a, r)] == [Digit(a, p), Digit(a, q), Digit(a, r)];
  }

  lemma SumOfFour(a: Alphabet, p: nat, q: nat, r: nat, t: nat)
    requires p < 64 && q < 64 && r < 64 && t < 64
    ensures Sum(a, [Digit(a, p), Digit(a, q), Digit(a, r), Digit(a, t)]) == p * 262144 + q * 4096 + r * 64 + t
  {
    SumOfThree(a, p, q, r);
    SumMore(a, [Digit(a, p), Digit(a, q), Digit(a, r)], t);
    assert [Digit(a, p), Digit(a, q), Digit(a, r)] + [Digit(a, t)]
        == [Digit(a, p), Digit(a, q), Digit(a, r), Digit(a, t)];
  }

  lemma SumMore(a: Alphabet, s: string, n: nat)
    requires n < 64
    ensures Sum(a, s + [Digit(a, n)]) == Sum(a, s) * 64 + n
  {
    DigitValue(a, n);
    assert (s + [Digit(a, n)])[..|s|] == s;
  }

  /** Nothing but digits of the alphabet, and '=' if padded. */
  ghost predicate OnlyDigits(a: Alphabet, padded: bool, s: string) {
    forall i :: 0 <= i < |s| ==> IsDigit(a, s[i]) || (padded && s[i] == '=')
  }

  lemma GroupIsDigits(a: Alphabet, x: byte, y: byte, z: byte)
    ensures OnlyDigits(a, false, Group(a, x, y, z))
  {
    DigitValue(a, x / 4);
    DigitValue(a, x % 4 * 16 + y / 16);
    DigitValue(a, y % 16 * 4 + z / 64);
    DigitValue(a, z % 64);
  }

  lemma Tail1IsDigits(a: Alphabet, x: byte)
    ensures OnlyDigits(a, false, Tail1(a, x))
  {
    DigitValue(a, x / 4);
    DigitValue(a, x % 4 * 16);
  }

  lemma Tail2IsDigits(a: Alphabet, x: byte, y: byte)
    ensures OnlyDigits(a, false, Tail2(a, x, y))
  {
    DigitValue(a, x / 4);
    DigitValue(a, x % 4 * 16 + y / 16);
    DigitValue(a, y % 16 * 4);
  }

  lemma {:induction false} EncodedDigits(a: Alphabet, padded: bool, data: Data)
    ensures OnlyDigits(a, padded, Encode(a, padded, data))
  {
    if |data| == 1 {
      Tail1IsDigits(a, data[0]);
    } else if |data| == 2 {
      Tail2IsDigits(a, data[0], data[1]);
    } else if |data| >= 3 {
      GroupIsDigits(a, data[0], data[1], data[2]);
      EncodedDigits(a, padded, data[3..]);
    }
  }

  /** Line breaks are skipped wherever they stand. */
  function WithoutBreaks(s: string): string {
    if s == [] then []
    else (if s[0] == '\n' || s[0] == '\r' then [] else [s[0]]) + WithoutBreaks(s[1..])
  }

  function Decode(a: Alphabet, padded: bool, s: string): Option<Data> {
    DecodeGroups(a, padded, WithoutBreaks(s))
  }

  /** Three bytes out of four digits. */
  function Joined(w: int, x: int, y: int, z: int): (data: Data)
    requires 0 <= w < 64 && 0 <= x < 64 && 0 <= y < 64 && 0 <= z < 64
    ensures |data| == 3
  {
    [w * 4 + x / 16, x % 16 * 16 + y / 4, y % 4 * 64 + z]
  }

  /** Leftover bits of a short last group are ignored: the reader is not strict. */
  function DecodeGroups(a: Alphabet, padded: bool, s: string): Option<Data> {
    if s == [] then Some([])
    else if |s| >= 4 && IsDigit(a, s[0]) && IsDigit(a, s[1]) && IsDigit(a, s[2]) && IsDigit(a, s[3]) then
      var w, x, y, z := Value(a, s[0]).value, Value(a, s[1]).value, Value(a, s[2]).value, Value(a, s[3]).value;
      match DecodeGroups(a, padded, s[4..])
      case None => None
      case Some(rest) => Some(Joined(w, x, y, z) + rest)
    else DecodeShort(a, padded, s)
  }

  /** The last group when it is short: padded to four characters, or cut off after two or three. */
  function DecodeShort(a: Alphabet, padded: bool, s: string): Option<Data> {
    if padded && |s| != 4 then None
    else if !padded && |s| > 3 then None
    else if |s| < 2 || !IsDigit(a, s[0]) || !IsDigit(a, s[1]) then None
    else
      var w, x := Value(a, s[0]).value, Value(a, s[1]).value;
      if (padded && s[2] == '=' && s[3] == '=') || (!padded && |s| == 2) then Some(Joined(w, x, 0, 0)[..1])
      else if !IsDigit(a, s[2]) || (padded && s[3] != '=') then None
      else Some(Joined(w, x, Value(a, s[2]).value, 0)[..2])
  }

  /** Exactly the texts that are read: whole groups, of which the last may be padded, or cut short if raw. */
  ghost predicate Readable(a: Alphabet, padded: bool, s: string) {
    if padded then |s| % 4 == 0 && exists d: nat :: |s| - 2 <= d <= |s| && DigitsThenPadding(a, s, d)
    else |s| % 4 != 1 && DigitsThenPadding(a, s, |s|)
  }

  ghost predicate DigitsThenPadding(a: Alphabet, s: string, d: nat)
    requires d <= |s|
  {
    && (forall i :: 0 <= i < d ==> IsDigit(a, s[i]))
    && (forall i :: d <= i < |s| ==> s[i] == '=')
  }

  lemma ReadableAfterGroup(a: Alphabet, padded: bool, s: string)
    requires |s| >= 4 && IsDigit(a, s[0]) && IsDigit(a, s[1]) && IsDigit(a, s[2]) && IsDigit(a, s[3])
    ensures Readable(a, padded, s) <==> Readable(a, padded, s[4..])
  {
    var t := s[4..];
    assert forall i :: 0 <= i < |t| ==> t[i] == s[i + 4];
    if padded {
      if d: nat :| |s| - 2 <= d <= |s| && DigitsThenPadding(a, s, d) {
        if d < 4 {
          assert false;
        }
        assert DigitsThenPadding(a, t, d - 4);
      }
      if d: nat :| |t| - 2 <= d <= |t| && DigitsThenPadding(a, t, d) {
        assert forall i :: 4 <= i < |s| ==> s[i] == t[i - 4];
        assert DigitsThenPadding(a, s, d + 4);
      }
    } else {
      assert forall i :: 4 <= i < |s| ==> s[i] == t[i - 4];
    }
  }

  lemma ReadableShort(a: Alphabet, padded: bool, s: string)
    requires s != []
    requires |s| < 4 || !(IsDigit(a, s[0]) && IsDigit(a, s[1]) && IsDigit(a, s[2]) && IsDigit(a, s[3]))
    ensures Readable(a, padded, s) <==> DecodeShort(a, padded, s).Some?
  {
    if padded {
      PaddedShort(a, s);
    }
  }

  lemma PaddedShort(a: Alphabet, s: string)
    requires s != []
    requires |s| < 4 || !(IsDigit(a, s[0]) && IsDigit(a, s[1]) && IsDigit(a, s[2]) && IsDigit(a, s[3]))
    ensures Readable(a, true, s) <==> DecodeShort(a, true, s).Some?
  {
    if |s| == 4 {
      assert DecodeShort(a, true, s).Some? <==> DigitsThenPadding(a, s, 2) || DigitsThenPadding(a, s, 3);
    }
  }

  lemma {:induction false} DecodeAccepts(a: Alphabet, padded: bool, s: string)
    ensures DecodeGroups(a, padded, s).Some? <==> Readable(a, padded, s)
  {
    if s == [] {
      assert DigitsThenPadding(a, s, 0);
    } else if |s| >= 4 && IsDigit(a, s[0]) && IsDigit(a, s[1]) && IsDigit(a, s[2]) && IsDigit(a, s[3]) {
      DecodeAccepts(a, padded, s[4..]);
      ReadableAfterGroup(a, padded, s);
    } else {
      ReadableShort(a, padded, s);
    }
  }

  /** Dropping line breaks goes piece by piece. */
  lemma {:induction false} WithoutBreaksJoins(s: string, t: string)
    ensures WithoutBreaks(s + t) == WithoutBreaks(s) + WithoutBreaks(t)
  {
    if s == [] {
      assert s + t == t;
    } else {
      assert (s + t)[1..] == s[1..] + t;
      WithoutBreaksJoins(s[1..], t);
    }
  }

  /** A line break changes nothing, wherever it stands. */
  lemma BreaksAreSkipped(a: Alphabet, padded: bool, s: string, t: string, c: char)
    requires c == '\n' || c == '\r'
    ensures Decode(a, padded, s + [c] + t) == Decode(a, padded, s + t)
  {
    WithoutBreaksJoins(s + [c], t);
    WithoutBreaksJoins(s, [c]);
    WithoutBreaksJoins(s, t);
    assert [c][1..] == [];
    assert WithoutBreaks([c]) == [];
    assert WithoutBreaks(s + [c] + t) == WithoutBreaks(s) + WithoutBreaks(t);
  }

  lemma {:induction false} NoBreaks(s: string)
    requires forall i :: 0 <= i < |s| ==> s[i] != '\n' && s[i] != '\r'
    ensures WithoutBreaks(s) == s
  {
    if s != [] {
      NoBreaks(s[1..]);
      assert [s[0]] + s[1..] == s;
    }
  }

  /** Cutting three bytes into four sextets loses nothing. */
  lemma Sextets(x: byte, y: byte, z: byte)
    ensures x % 4 * 16 + y / 16 < 64 && y % 16 * 4 + z / 64 < 64
    ensures Joined(x / 4, x % 4 * 16 + y / 16, y % 16 * 4 + z / 64, z % 64) == [x, y, z]
  {
    assert x == x / 4 * 4 + x % 4 && y == y / 16 * 16 + y % 16 && z == z / 64 * 64 + z % 64;
  }

  lemma TwoRead(a: Alphabet, padded: bool, c: char, d: char, p: nat, q: nat)
    requires Value(a, c) == Some(p) && Value(a, d) == Some(q)
    ensures DecodeGroups(a, padded, [c, d] + if padded then "==" else "") == Some(Joined(p, q, 0, 0)[..1])
  {}

  lemma ThreeRead(a: Alphabet, padded: bool, c: char, d: char, e: char, p: nat, q: nat, r: nat)
    requires Value(a, c) == Some(p) && Value(a, d) == Some(q) && Value(a, e) == Some(r)
    ensures DecodeGroups(a, padded, [c, d, e] + if padded then "=" else "") == Some(Joined(p, q, r, 0)[..2])
  {}

  lemma FourRead(a: Alphabet, padded: bool, c: char, d: char, e: char, f: char, p: nat, q: nat, r: nat, t: nat,
                 rest: string, data: Data)
    requires Value(a, c) == Some(p) && Value(a, d) == Some(q) && Value(a, e) == Some(r) && Value(a, f) == Some(t)
    requires DecodeGroups(a, padded, rest) == Some(data)
    ensures DecodeGroups(a, padded, [c, d, e, f] + rest) == Some(Joined(p, q, r, t) + data)
  {
    var s := [c, d, e, f] + rest;
    assert s[0] == c && s[1] == d && s[2] == e && s[3] == f && s[4..] == rest;
  }

  lemma OneByte(a: Alphabet, padded: bool, x: byte)
    ensures DecodeGroups(a, padded, Tail1(a, x) + if padded then "==" else "") == Some([x])
  {
    Sextets(x, 0, 0);
    assert Joined(x / 4, x % 4 * 16, 0, 0)[..1] == [x];
    DigitValue(a, x / 4);
    DigitValue(a, x % 4 * 16);
    TwoRead(a, padded, Digit(a, x / 4), Digit(a, x % 4 * 16), x / 4, x % 4 * 16);
  }

  lemma TwoBytes(a: Alphabet, padded: bool, x: byte, y: byte)
    ensures DecodeGroups(a, padded, Tail2(a, x, y) + if padded then "=" else "") == Some([x, y])
  {
    var p, q, r := x / 4, x % 4 * 16 + y / 16, y % 16 * 4;
    assert q < 64 && Joined(p, q, r, 0)[..2] == [x, y] by {
      Sextets(x, y, 0);
    }
    DigitValue(a, p);
    DigitValue(a, q);
    DigitValue(a, r);
    ThreeRead(a, padded, Digit(a, p), Digit(a, q), Digit(a, r), p, q, r);
  }

  lemma ThreeBytes(a: Alphabet, padded: bool, x: byte, y: byte, z: byte, rest: string, data: Data)
    requires DecodeGroups(a, padded, rest) == Some(data)
    ensures DecodeGroups(a, padded, Group(a, x, y, z) + rest) == Some([x, y, z] + data)
  {
    var p, q, r, t := x / 4, x % 4 * 16 + y / 16, y % 16 * 4 + z / 64, z % 64;
    Sextets(x, y, z);
    DigitValue(a, p);
    DigitValue(a, q);
    DigitValue(a, r);
    DigitValue(a, t);
    FourRead(a, padded, Digit(a, p), Digit(a, q), Digit(a, r), Digit(a, t), p, q, r, t, rest, data);
  }

  lemma {:induction false} DecodeEncoded(a: Alphabet, padded: bool, data: Data)
    ensures DecodeGroups(a, padded, Encode(a, padded, data)) == Some(data)
  {
    if |data| >= 3 {
      DecodeEncoded(a, padded, data[3..]);
      ThreeBytes(a, padded, data[0], data[1], data[2], Encode(a, padded, data[3..]), data[3..]);
      assert data == [data[0], data[1], data[2]] + data[3..];
    } else {
      DecodeShortData(a, padded, data);
    }
  }

  lemma DecodeShortData(a: Alphabet, padded: bool, data: Data)
    requires |data| < 3
    ensures DecodeGroups(a, padded, Encode(a, padded, data)) == Some(data)
  {
    if |data| == 1 {
      OneByte(a, padded, data[0]);
      assert data == [data[0]];
    } else if |data| == 2 {
      TwoBytes(a, padded, data[0], data[1]);
      assert data == [data[0], data[1]];
    }
  }

  lemma DigitsAreNoBreaks(a: Alphabet, padded: bool, s: string)
    requires OnlyDigits(a, padded, s)
    ensures WithoutBreaks(s) == s
  {
    assert Value(a, '\n') == None == Value(a, '\r');
    NoBreaks(s);
  }

  /** Reading back what was written gives the same bytes, in either alphabet, padded or raw. */
  lemma RoundTrip(a: Alphabet, padded: bool, data: Data)
    ensures Decode(a, padded, Encode(a, padded, data)) == Some(data)
  {
    EncodedDigits(a, padded, data);
    DigitsAreNoBreaks(a, padded, Encode(a, padded, data));
    DecodeEncoded(a, padded, data);
  }

  function EncodedLength(padded: bool, n: nat): nat {
    n / 3 * 4 + (if n % 3 == 0 then 0 else if padded then 4 else n % 3 + 1)
  }

  lemma OneMoreGroup(padded: bool, n: nat)
    ensures EncodedLength(padded, n + 3) == 4 + EncodedLength(padded, n)
  {}

  lemma {:induction false} LengthOfEncoded(a: Alphabet, padded: bool, data: Data)
    ensures |Encode(a, padded, data)| == EncodedLength(padded, |data|)
  {
    if |data| >= 3 {
      LengthOfEncoded(a, padded, data[3..]);
      OneMoreGroup(padded, |data[3..]|);
    }
  }

  lemma LastOfSum(s: string, t: string)
    requires t != []
    ensures s + t != [] && (s + t)[|s + t| - 1] == t[|t| - 1]
  {}

  /** A padded text whose data is not a whole number of groups ends in '='. */
  lemma {:induction false} EndsInPadding(a: Alphabet, data: Data)
    requires |data| % 3 != 0
    ensures Encode(a, true, data) != [] && Encode(a, true, data)[|Encode(a, true, data)| - 1] == '='
  {
    if |data| >= 3 {
      EndsInPadding(a, data[3..]);
      LastOfSum(Group(a, data[0], data[1], data[2]), Encode(a, true, data[3..]));
    }
  }

  lemma FirstCharacter(a: Alphabet, padded: bool, data: Data)
    requires data != []
    ensures Encode(a, padded, data) != [] && Encode(a, padded, data)[0] == Digit(a, data[0] / 4)
  {}

  /** Base64url text has no dot, so a dot can separate the parts of a token. */
  lemma UrlTextHasNoDot(data: Data)
    ensures '.' !in Encode(Url, false, data)
  {
    EncodedDigits(Url, false, data);
  }
}

/** Signed decimal, as printed by %d. */
module Decimal {

  function Digits(n: nat): (s: string)
    ensures s != [] && forall c :: c in s ==> '0' <= c <= '9'
  {
    (if n < 10 then [] else Digits(n / 10)) + ['0' + (n % 10) as char]
  }

  function Print(n: int): (s: string)
    ensures s != [] && forall c :: c in s ==> c == '-' || '0' <= c <= '9'
  {
    if n < 0 then "-" + Digits(-n) else Digits(n)
  }

  lemma {:induction false} DigitsArePlain(n: nat)
    ensures Digits(n)[0] == '0' <==> n == 0
    ensures n < 10 ==> Digits(n) == ["0123456789"[n]]
  {
    if n >= 10 {
      DigitsArePlain(n / 10);
    }
  }

  /** A sign only if negative, and no leading zeros. */
  lemma PrintIsPlain(n: int)
    ensures Print(n)[0] == '-' <==> n < 0
    ensures Print(n)[0] == '0' <==> n == 0
    ensures n < 0 ==> |Print(n)| >= 2 && '1' <= Print(n)[1] <= '9'
    ensures 0 <= n < 10 ==> Print(n) == ["0123456789"[n]]
  {
    if n < 0 {
      DigitsArePlain(-n);
      SignThenDigits(Digits(-n));
    } else {
      DigitsArePlain(n);
      assert Digits(n)[0] in Digits(n);
    }
  }

  lemma SignThenDigits(digits: string)
    requires digits != [] && forall c :: c in digits ==> '0' <= c <= '9'
    ensures ("-" + digits)[0] == '-' && ("-" + digits)[1] == digits[0] && '0' <= digits[0] <= '9'
  {
    assert digits[0] in digits;
  }

  function ValueOf(s: string): int {
    if s == [] then 0 else ValueOf(s[..|s| - 1]) * 10 + (s[|s| - 1] as int - '0' as int)
  }

  function Parse(s: string): int {
    if s != [] && s[0] == '-' then -ValueOf(s[1..]) else ValueOf(s)
  }

  lemma DigitValue(d: int)
    requires 0 <= d < 10
    ensures ('0' + d as char) as int - '0' as int == d
  {}

  lemma ValueOfMore(s: string, c: char)
    ensures ValueOf(s + [c]) == ValueOf(s) * 10 + (c as int - '0' as int)
  {
    assert (s + [c])[..|s|] == s;
  }

  lemma {:induction false} DigitsValue(n: nat)
    ensures ValueOf(Digits(n)) == n
  {
    var front := if n < 10 then [] else Digits(n / 10);
    DigitValue(n % 10);
    ValueOfMore(front, '0' + (n % 10) as char);
    if n >= 10 {
      DigitsValue(n / 10);
    }
  }

  lemma ParseUnsigned(s: string)
    requires s != [] && forall c :: c in s ==> '0' <= c <= '9'
    ensures Parse(s) == ValueOf(s)
  {
    assert s[0] in s;
  }

  lemma ParseSigned(s: string)
    ensures Parse("-" + s) == -ValueOf(s)
  {
    assert ("-" + s)[1..] == s;
  }

  /** A printed number reads back as itself. */
  lemma RoundTrip(n: int)
    ensures Parse(Print(n)) == n
  {
    if n < 0 {
      DigitsValue(-n);
      ParseSigned(Digits(-n));
    } else {
      DigitsValue(n);
      ParseUnsigned(Digits(n));
    }
  }
}

/** Splitting a text at every occurrence of a one-character separator. */
module Splitting {

  function Split(s: string, sep: char): (parts: seq<string>)
    ensures parts != []
    ensures forall p :: p in parts ==> sep !in p
  {
    if s == [] then [[]]
    else
      var rest := Split(s[1..], sep);
      if s[0] == sep then [[]] + rest else [[s[0]] + rest[0]] + rest[1..]
  }

  function Join(parts: seq<string>, sep: char): string
    requires parts != []
  {
    if |parts| == 1 then parts[0] else parts[0] + [sep] + Join(parts[1..], sep)
  }

  lemma {:induction false} JoinSplit(s: string, sep: char)
    ensures Join(Split(s, sep), sep) == s
  {
    if s != [] {
      JoinSplit(s[1..], sep);
      var rest := Split(s[1..], sep);
      var parts := Split(s, sep);
      if s[0] == sep {
        assert parts[1..] == rest;
      } else if |rest| > 1 {
        assert parts[1..] == rest[1..];
      }
      assert [s[0]] + s[1..] == s;
    }
  }

  lemma {:induction false} SplitPiece(head: string, tail: string, sep: char)
    requires sep !in head
    ensures Split(head + [sep] + tail, sep) == [head] + Split(tail, sep)
    ensures Split(head, sep) == [head]
  {
    var s := head + [sep] + tail;
    if head == [] {
      assert s[1..] == tail;
    } else {
      SplitPiece(head[1..], tail, sep);
      assert s[1..] == head[1..] + [sep] + tail;
      assert [head[0]] + head[1..] == head;
    }
  }

  lemma {:induction false} SplitJoin(parts: seq<string>, sep: char)
    requires parts != [] && forall p :: p in parts ==> sep !in p
    ensures Split(Join(parts, sep), sep) == parts
  {
    if |parts| == 1 {
      SplitPiece(parts[0], [], sep);
    } else {
      SplitJoin(parts[1..], sep);
      SplitPiece(parts[0], Join(parts[1..], sep), sep);
      assert [parts[0]] + parts[1..] == parts;
    }
  }

  /** The pieces of a split are determined by what they join to and by being free of the separator. */
  lemma SplitExactly(s: string, sep: char, parts: seq<string>)
    requires parts != []
    ensures Split(s, sep) == parts <==> Join(parts, sep) == s && forall p :: p in parts ==> sep !in p
  {
    JoinSplit(s, sep);
    if forall p :: p in parts ==> sep !in p {
      SplitJoin(parts, sep);
    }
  }
}
