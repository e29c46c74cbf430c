/** The stored form of a token mapping (pii/anonymize/tokenrecord.go): six fields joined by dots. */
module TokenRecords {
  import opened Wrappers
  import opened Placeholders
  import opened Splitting
  import Vault

  type Bytes = seq<int>

  /** Unpadded base64, taken as invertible and without dots. */
  datatype Base64 = Base64(encode: Bytes -> string, decode: string -> Option<Bytes>)
  {
    ghost predicate Ideal() {
      forall b {:trigger encode(b)} :: decode(encode(b)) == Some(b) && '.' !in encode(b)
    }
  }

  /** expiresAt in nanoseconds; none is the zero time. */
  datatype TokenRecord = TokenRecord(keyVersion: string, identityEpoch: string, nonce: Bytes, cipher: Bytes, expiresAt: Option<int>)
  {
    predicate Expired(now: int) { expiresAt.Some? && now > expiresAt.value }
  }

  datatype RecordError = WrongFieldCount | UnknownSchema | BadNonce | BadCipher | BadExpiry

  const SECOND := 1_000_000_000

  const SCHEMA := "atr1"

  /** ^[a-z0-9_-]{1,16}$ */
  predicate ValidLabel(s: string) {
    1 <= |s| <= 16 && forall i :: 0 <= i < |s| ==> 'a' <= s[i] <= 'z' || IsDigit(s[i]) || s[i] == '_' || s[i] == '-'
  }

  // ---------------------------------------------------------------------------------------------
  // Decimal integers.
  // ---------------------------------------------------------------------------------------------

  const INT64 := 0x8000_0000_0000_0000

  function FormatInt(n: int): string { if n < 0 then "-" + Vault.Decimal(-n) else Vault.Decimal(n) }

  function DigitsValue(s: string): (r: Option<nat>) {
    if s == "" || !IsDigit(s[|s| - 1]) then None
    else
      var last := s[|s| - 1] as int - '0' as int;
      if |s| == 1 then Some(last)
      else match DigitsValue(s[..|s| - 1]) case None => None case Some(v) => Some(v * 10 + last)
  }

  function ParseInt(s: string): Option<int> {
    var signed := s != "" && (s[0] == '-' || s[0] == '+');
    match DigitsValue(if signed then s[1..] else s)
    case None => None
    case Some(v) =>
      var n: int := if s[0] == '-' then -(v as int) else v;
      if -INT64 <= n < INT64 then Some(n) else None
  }

  lemma {:induction false} ValueOfDecimal(n: nat)
    ensures DigitsValue(Vault.Decimal(n)) == Some(n)
  {
    assert forall d: nat :: d < 10 ==> Vault.DIGITS[d] as int - '0' as int == d;
    var s := Vault.Decimal(n);
    if n >= 10 {
      ValueOfDecimal(n / 10);
      assert s[..|s| - 1] == Vault.Decimal(n / 10);
    }
  }

  lemma ParseDigits(d: string, v: nat)
    requires DigitsValue(d) == Some(v) && d != "" && IsDigit(d[0])
    ensures v < INT64 ==> ParseInt(d) == Some(v)
    ensures v <= INT64 ==> ParseInt("-" + d) == Some(-(v as int))
  {
    assert ("-" + d)[1..] == d;
  }

  lemma ParseFormat(n: int)
    requires -INT64 <= n < INT64
    ensures ParseInt(FormatInt(n)) == Some(n) && '.' !in FormatInt(n)
  {
    var v: nat := if n < 0 then -n else n;
    var d := Vault.Decimal(v);
    ValueOfDecimal(v);
    ParseDigits(d, v);
    assert forall c :: c in d ==> IsDigit(c);
  }

  // ---------------------------------------------------------------------------------------------
  // Records.
  // ---------------------------------------------------------------------------------------------

  function Encode(b64: Base64, r: TokenRecord): string {
    Join([SCHEMA, r.keyVersion, r.identityEpoch, b64.encode(r.nonce), b64.encode(r.cipher),
          FormatInt(match r.expiresAt case None => 0 case Some(t) => t / SECOND)], '.')
  }

  function Decode(b64: Base64, raw: string): Result<TokenRecord, RecordError> {
    var parts := Split(raw, '.');
    if |parts| != 6 then Failure(WrongFieldCount)
    else if parts[0] != SCHEMA then Failure(UnknownSchema)
    else
      match b64.decode(parts[3])
      case None => Failure(BadNonce)
      case Some(nonce) =>
        match b64.decode(parts[4])
        case None => Failure(BadCipher)
        case Some(cipher) =>
          match ParseInt(parts[5])
          case None => Failure(BadExpiry)
          case Some(exp) => Success(TokenRecord(parts[1], parts[2], nonce, cipher, if exp == 0 then None else Some(exp * SECOND)))
  }

  /** What is left of an expiry once stored: whole seconds, and nothing of the first second of 1970. */
  function Stored(expiresAt: Option<int>): Option<int> {
    match expiresAt
    case None => None
    case Some(t) => if t / SECOND == 0 then None else Some(t / SECOND * SECOND)
  }

  /** A record is read back as it was written, its expiry in whole seconds. */
  lemma RecordRoundTrip(b64: Base64, r: TokenRecord)
    requires b64.Ideal() && '.' !in r.keyVersion && '.' !in r.identityEpoch
    requires r.expiresAt.Some? ==> -INT64 <= r.expiresAt.value / SECOND < INT64
    ensures Decode(b64, Encode(b64, r)) == Success(r.(expiresAt := Stored(r.expiresAt)))
  {
    var exp := match r.expiresAt case None => 0 case Some(t) => t / SECOND;
    ParseFormat(exp);
    var parts := [SCHEMA, r.keyVersion, r.identityEpoch, b64.encode(r.nonce), b64.encode(r.cipher), FormatInt(exp)];
    assert '.' !in SCHEMA;
    SplitJoin(parts, '.');
  }

  /** A stored expiry is reached no later than the intended one, and less than a second before it. */
  lemma StoredIsEarlier(t: int)
    requires t >= SECOND
    ensures Stored(Some(t)).Some? && Stored(Some(t)).value <= t < Stored(Some(t)).value + SECOND
  {
  }

  /** A label with a dot cannot be stored: the record would have too many fields. */
  lemma DottedLabel(b64: Base64, r: TokenRecord, before: string, after: string)
    requires b64.Ideal() && r.keyVersion == before + "." + after && '.' !in before && '.' !in after && '.' !in r.identityEpoch
    requires r.expiresAt.Some? ==> -INT64 <= r.expiresAt.value / SECOND < INT64
    ensures Decode(b64, Encode(b64, r)) == Failure(WrongFieldCount)
  {
    var exp := match r.expiresAt case None => 0 case Some(t) => t / SECOND;
    ParseFormat(exp);
    var tail := [r.identityEpoch, b64.encode(r.nonce), b64.encode(r.cipher), FormatInt(exp)];
    assert '.' !in SCHEMA;
    var fields := [SCHEMA, before, after] + tail;
    SplitJoin(fields, '.');
    JoinMore(SCHEMA, before, after, tail);
    assert Encode(b64, r) == Join(fields, '.') && |fields| == 7 by {
      assert [SCHEMA, before + "." + after] + tail ==
             [SCHEMA, r.keyVersion, r.identityEpoch, b64.encode(r.nonce), b64.encode(r.cipher), FormatInt(exp)];
    }
  }

  lemma JoinMore(a: string, b: string, c: string, tail: seq<string>)
    requires tail != []
    ensures Join([a, b, c] + tail, '.') == Join([a, b + "." + c] + tail, '.')
  {
    JoinCons(a, [b, c] + tail, '.');
    JoinCons(b, [c] + tail, '.');
    JoinCons(c, tail, '.');
    JoinCons(a, [b + "." + c] + tail, '.');
    JoinCons(b + "." + c, tail, '.');
    assert [a, b, c] + tail == [a] + ([b, c] + tail) && [b, c] + tail == [b] + ([c] + tail);
    assert [a, b + "." + c] + tail == [a] + ([b + "." + c] + tail);
    assert b + "." + (c + "." + Join(tail, '.')) == (b + "." + c) + "." + Join(tail, '.');
  }
}
