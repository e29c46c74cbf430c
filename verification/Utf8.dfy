/** UTF-8 as the standard library decodes it (RFC 3629, section 4): one code point at a time, a byte that begins no
    well-formed sequence counting as one replacement character. */
module Utf8 {

  type byte = x: int | 0 <= x < 256

  type Bytes = seq<byte>

  const REPLACEMENT := 0xFFFD

  /** A decoded code point and the bytes it takes. */
  datatype Rune = Rune(code: int, size: nat, valid: bool)

  predicate IsScalar(c: int) { 0 <= c < 0xD800 || 0xE000 <= c < 0x11_0000 }

  predicate IsTail(b: byte) { 0x80 <= b < 0xC0 }

  function Width(c: int): nat
    requires IsScalar(c)
  {
    if c < 0x80 then 1 else if c < 0x800 then 2 else if c < 0x1_0000 then 3 else 4
  }

  function Encode(c: int): (r: Bytes)
    requires IsScalar(c)
    ensures |r| == Width(c)
  {
    if c < 0x80 then [c]
    else if c < 0x800 then [0xC0 + c / 64, 0x80 + c % 64]
    else if c < 0x1_0000 then [0xE0 + c / 4096, 0x80 + c / 64 % 64, 0x80 + c % 64]
    else [0xF0 + c / 262144, 0x80 + c / 4096 % 64, 0x80 + c / 64 % 64, 0x80 + c % 64]
  }

  /** The second byte that may follow a leading byte. */
  predicate IsSecond(lead: byte, b: byte) {
    if lead == 0xE0 then 0xA0 <= b < 0xC0
    else if lead == 0xED then 0x80 <= b < 0xA0
    else if lead == 0xF0 then 0x90 <= b < 0xC0
    else if lead == 0xF4 then 0x80 <= b < 0x90
    else IsTail(b)
  }

  /** The six bits that a tail byte carries. */
  function Six(b: byte): int { b as int - 0x80 }

  function Join(a: int, b: int, c: int, d: int): int { a * 262144 + b * 4096 + c * 64 + d }

  /** The six-bit digits of a number. */
  lemma JoinDigits(a: int, b: int, c: int, d: int)
    requires 0 <= b < 64 && 0 <= c < 64 && 0 <= d < 64
    ensures Join(a, b, c, d) / 262144 == a && Join(a, b, c, d) / 4096 % 64 == b
    ensures Join(a, b, c, d) / 64 % 64 == c && Join(a, b, c, d) % 64 == d
  {
    var n := Join(a, b, c, d);
    assert n / 64 == a * 4096 + b * 64 + c;
    assert n / 4096 == a * 64 + b;
  }

  const BROKEN := Rune(REPLACEMENT, 1, false)

  /** The code point at position p of the text s[..hi]. */
  function Decode(s: Bytes, p: nat, hi: nat): (r: Rune)
    requires p < hi <= |s|
    ensures 1 <= r.size <= 4 && p + r.size <= hi
    ensures r.valid ==> IsScalar(r.code) && Width(r.code) == r.size
  {
    var b0: int := s[p];
    if b0 < 0x80 then Rune(b0, 1, true)
    else if 0xC2 <= b0 < 0xE0 && p + 1 < hi && IsSecond(b0, s[p + 1]) then
      Rune(Join(0, 0, b0 - 0xC0, Six(s[p + 1])), 2, true)
    else if 0xE0 <= b0 < 0xF0 && p + 2 < hi && IsSecond(b0, s[p + 1]) && IsTail(s[p + 2]) then
      Rune(Join(0, b0 - 0xE0, Six(s[p + 1]), Six(s[p + 2])), 3, true)
    else if 0xF0 <= b0 < 0xF5 && p + 3 < hi && IsSecond(b0, s[p + 1]) && IsTail(s[p + 2]) && IsTail(s[p + 3]) then
      Rune(Join(b0 - 0xF0, Six(s[p + 1]), Six(s[p + 2]), Six(s[p + 3])), 4, true)
    else BROKEN
  }

  /** A code point stands at p. */
  ghost predicate Stands(s: Bytes, p: nat, c: int) {
    IsScalar(c) && p + Width(c) <= |s| && s[p..p + Width(c)] == Encode(c)
  }

  /** Decoding undoes encoding, whatever follows. */
  lemma DecodeEncoded(s: Bytes, p: nat, hi: nat, c: int)
    requires p < hi <= |s| && Stands(s, p, c) && p + Width(c) <= hi
    ensures Decode(s, p, hi) == Rune(c, Width(c), true)
  {
    var e := Encode(c);
    BytesOf(s, p, Width(c));
    if c < 0x80 {
    } else if c < 0x800 {
      SixBits(c);
    } else if c < 0x1_0000 {
      SixBits(c);
    } else {
      SixBits(c);
    }
  }

  lemma BytesOf(s: Bytes, p: nat, w: nat)
    requires p + w <= |s|
    ensures forall i {:trigger s[p..p + w][i]} :: 0 <= i < w ==> s[p..p + w][i] == s[p + i]
  {
  }

  /** A number is its six-bit digits. */
  lemma SixBits(c: int)
    requires c >= 0
    ensures c == Join(c / 262144, c / 4096 % 64, c / 64 % 64, c % 64)
    ensures c < 0x800 ==> c == Join(0, 0, c / 64, c % 64)
    ensures c < 0x1_0000 ==> c == Join(0, c / 4096, c / 64 % 64, c % 64)
  {
    assert c / 4096 == c / 64 / 64 && c / 262144 == c / 64 / 64 / 64;
  }

  /** A code point decoded is the one that was encoded. */
  lemma DecodedStands(s: Bytes, p: nat, hi: nat)
    requires p < hi <= |s| && Decode(s, p, hi).valid
    ensures Stands(s, p, Decode(s, p, hi).code)
  {
    var r := Decode(s, p, hi);
    EncodedIs(s[p..p + r.size], s, p, hi);
  }

  /** The bytes of a decoded code point. */
  lemma EncodedIs(w: Bytes, s: Bytes, p: nat, hi: nat)
    requires p < hi <= |s| && Decode(s, p, hi).valid && w == s[p..p + Decode(s, p, hi).size]
    ensures Encode(Decode(s, p, hi).code) == w
  {
    var r := Decode(s, p, hi);
    if r.size == 2 {
      TwoBytes(s[p], s[p + 1]);
      assert w == [s[p], s[p + 1]];
    } else if r.size == 3 {
      ThreeBytes(s[p], s[p + 1], s[p + 2]);
      assert w == [s[p], s[p + 1], s[p + 2]];
    } else if r.size == 4 {
      FourBytes(s[p], s[p + 1], s[p + 2], s[p + 3]);
      assert w == [s[p], s[p + 1], s[p + 2], s[p + 3]];
    } else {
      assert w == [s[p]];
    }
  }

  lemma TwoBytes(a: byte, b: byte)
    requires 0xC2 <= a < 0xE0 && IsTail(b)
    ensures var c := Join(0, 0, a - 0xC0, Six(b)); 0x80 <= c < 0x800 && Encode(c) == [a, b]
  {
    JoinDigits(0, 0, a as int - 0xC0, Six(b));
  }

  lemma ThreeBytes(a: byte, b: byte, d: byte)
    requires 0xE0 <= a < 0xF0 && IsSecond(a, b) && IsTail(d)
    ensures var c := Join(0, a - 0xE0, Six(b), Six(d)); IsScalar(c) && 0x800 <= c < 0x1_0000 && Encode(c) == [a, b, d]
  {
    JoinDigits(0, a as int - 0xE0, Six(b), Six(d));
  }

  lemma FourBytes(a: byte, b: byte, d: byte, e: byte)
    requires 0xF0 <= a < 0xF5 && IsSecond(a, b) && IsTail(d) && IsTail(e)
    ensures var c := Join(a - 0xF0, Six(b), Six(d), Six(e)); IsScalar(c) && c >= 0x1_0000 && Encode(c) == [a, b, d, e]
  {
    JoinDigits(a as int - 0xF0, Six(b), Six(d), Six(e));
  }

  /** Whether a text from a position on is well formed. */
  predicate Valid(s: Bytes, p: nat, hi: nat)
    requires p <= hi <= |s|
    decreases hi - p
  {
    p == hi || (Decode(s, p, hi).valid && Valid(s, p + Decode(s, p, hi).size, hi))
  }

  /** A position that reading from p on comes to. */
  predicate Boundary(s: Bytes, p: nat, hi: nat, q: nat)
    requires p <= hi <= |s|
    decreases hi - p
  {
    q == p || (p < hi && Boundary(s, p + Decode(s, p, hi).size, hi, q))
  }

  lemma {:induction false} BoundaryBounds(s: Bytes, p: nat, hi: nat, q: nat)
    requires p <= hi <= |s| && Boundary(s, p, hi, q)
    ensures p <= q <= hi
    decreases hi - p
  {
    if q != p {
      BoundaryBounds(s, p + Decode(s, p, hi).size, hi, q);
    }
  }

  lemma {:induction false} EndIsBoundary(s: Bytes, p: nat, hi: nat)
    requires p <= hi <= |s|
    ensures Boundary(s, p, hi, hi)
    decreases hi - p
  {
    if p < hi {
      EndIsBoundary(s, p + Decode(s, p, hi).size, hi);
    }
  }

  /** What lies ahead of a boundary is well formed, and its boundaries are boundaries. */
  lemma {:induction false} BoundaryTail(s: Bytes, p: nat, hi: nat, q: nat, x: nat)
    requires p <= hi <= |s| && Boundary(s, p, hi, q)
    ensures p <= q <= hi
    ensures Valid(s, p, hi) ==> Valid(s, q, hi)
    ensures q <= x && Boundary(s, p, hi, x) <==> Boundary(s, q, hi, x)
    decreases hi - p
  {
    BoundaryBounds(s, p, hi, q);
    if q != p {
      BoundaryTail(s, p + Decode(s, p, hi).size, hi, q, x);
      assert x == p ==> x < q;
    }
    if Boundary(s, q, hi, x) {
      BoundaryBounds(s, q, hi, x);
    }
  }

  /** Up to a boundary a well-formed text can be read by itself. */
  lemma {:induction false} BoundaryHead(s: Bytes, p: nat, hi: nat, q: nat)
    requires p <= hi <= |s| && Boundary(s, p, hi, q) && Valid(s, p, hi)
    ensures p <= q <= hi && Valid(s, p, q)
    ensures p < q ==> Decode(s, p, q) == Decode(s, p, hi)
    ensures forall x: nat {:trigger Boundary(s, p, q, x)} {:trigger Boundary(s, p, hi, x)} :: Boundary(s, p, q, x) <==> Boundary(s, p, hi, x) && x <= q
    decreases hi - p
  {
    BoundaryBounds(s, p, hi, q);
    if p < q {
      var r := Decode(s, p, hi);
      BoundaryHead(s, p + r.size, hi, q);
      DecodedStands(s, p, hi);
      DecodeEncoded(s, p, q, r.code);
    } else {
      forall x: nat | Boundary(s, p, hi, x) && x <= q ensures x == p {
        BoundaryBounds(s, p, hi, x);
      }
    }
  }

  /** In a well-formed text a position is a boundary exactly if no tail byte stands there. */
  lemma {:induction false} BoundaryIsStart(s: Bytes, p: nat, hi: nat, q: nat)
    requires p <= q < hi <= |s| && Valid(s, p, hi)
    ensures Boundary(s, p, hi, q) <==> !IsTail(s[q])
    decreases hi - p
  {
    var r := Decode(s, p, hi);
    if q >= p + r.size {
      BoundaryIsStart(s, p + r.size, hi, q);
    } else if q > p && Boundary(s, p + r.size, hi, q) {
      BoundaryBounds(s, p + r.size, hi, q);
    }
  }

  // ---------------------------------------------------------------------------------------------
  // Reading backwards.
  // ---------------------------------------------------------------------------------------------

  /** The nearest position from p down to lim where no tail byte stands, or one before lim. */
  function Back(s: Bytes, p: int, lim: nat): (r: int)
    requires lim - 1 <= p < |s|
    ensures lim - 1 <= r <= p
    decreases p
  {
    if p < lim || !IsTail(s[p]) then p else Back(s, p - 1, lim)
  }

  /** The last code point of s[..hi]. */
  function DecodeLast(s: Bytes, hi: nat): (r: Rune)
    requires 0 < hi <= |s|
    ensures 1 <= r.size <= hi
  {
    if s[hi - 1] < 0x80 then Rune(s[hi - 1], 1, true)
    else
      var b := Back(s, hi - 2, if hi < 4 then 0 else hi - 4);
      var start := if b < 0 then 0 else b;
      var r := Decode(s, start, hi);
      if start + r.size == hi then r else BROKEN
  }

  lemma {:induction false} BackFinds(s: Bytes, p: int, lim: nat, q: nat)
    requires lim <= q <= p < |s| && !IsTail(s[q]) && forall i :: q < i <= p ==> IsTail(s[i])
    ensures Back(s, p, lim) == q
    decreases p
  {
    if p > q {
      BackFinds(s, p - 1, lim, q);
    }
  }

  /** The boundary before a boundary. */
  lemma {:induction false} PreviousBoundary(s: Bytes, p: nat, hi: nat, b: nat) returns (q: nat)
    requires p < b && p <= hi <= |s| && Boundary(s, p, hi, b)
    ensures p <= q < b <= hi && Boundary(s, p, hi, q) && q + Decode(s, q, hi).size == b
    decreases hi - p
  {
    var next := p + Decode(s, p, hi).size;
    BoundaryBounds(s, p, hi, b);
    if next == b {
      q := p;
    } else {
      BoundaryBounds(s, next, hi, b);
      q := PreviousBoundary(s, next, hi, b);
    }
  }

  /** From a boundary of a well-formed text, reading backwards is reading the code point before it. */
  lemma DecodeLastIs(s: Bytes, b: nat)
    requires Valid(s, 0, |s|) && Boundary(s, 0, |s|, b) && 0 < b
    ensures b <= |s| && var r := DecodeLast(s, b);
            r.valid && Boundary(s, 0, |s|, b - r.size) && Decode(s, b - r.size, |s|) == r && Decode(s, b - r.size, b) == r
  {
    var q := PreviousBoundary(s, 0, |s|, b);
    var r := Decode(s, q, |s|);
    BoundaryTail(s, 0, |s|, q, q);
    BoundaryIsStart(s, 0, |s|, q);
    DecodedStands(s, q, |s|);
    DecodeEncoded(s, q, b, r.code);
    TailsFollow(s, q, |s|);
    LastIs(s, q, b, r);
  }

  lemma LastIs(s: Bytes, q: nat, b: nat, r: Rune)
    requires q < b <= |s| && !IsTail(s[q]) && Decode(s, q, b) == r && b == q + r.size
    requires (r.size == 1 <==> s[q] < 0x80) && forall i :: q < i < b ==> IsTail(s[i])
    ensures DecodeLast(s, b) == r
  {
    if r.size > 1 {
      BackFinds(s, b - 2, if b < 4 then 0 else b - 4, q);
    }
  }

  lemma TailsFollow(s: Bytes, q: nat, hi: nat)
    requires q < hi <= |s| && Decode(s, q, hi).valid
    ensures var r := Decode(s, q, hi); (r.size == 1 <==> s[q] < 0x80) && forall i :: q < i < q + r.size ==> IsTail(s[i])
  {
  }
}
