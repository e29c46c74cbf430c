/** Check-digit arithmetic (pii/detect/validators.go and validators_eu.go) on strings of any length. */
module CheckDigits {
  import opened Sequences

  predicate IsDigit(c: char) { '0' <= c <= '9' }

  predicate IsUpper(c: char) { 'A' <= c <= 'Z' }

  predicate AllDigits(s: string) { forall i :: 0 <= i < |s| ==> IsDigit(s[i]) }

  function Value(c: char): (v: int)
    requires IsDigit(c)
    ensures 0 <= v < 10
  {
    c as int - '0' as int
  }

  /** The string with one character replaced. */
  function With(s: string, k: nat, c: char): string
    requires k < |s|
  {
    s[k := c]
  }

  function Swapped(s: string, k: nat): string
    requires k + 1 < |s|
  {
    s[k := s[k + 1]][k + 1 := s[k]]
  }

  // ---------------------------------------------------------------------------------------------
  // Luhn (ISO/IEC 7812-1, Annex B).
  // ---------------------------------------------------------------------------------------------

  /** What a digit contributes at a distance from the right end. */
  function Weighted(pos: nat, v: int): int { if pos % 2 == 0 then v else if 2 * v > 9 then 2 * v - 9 else 2 * v }

  /** The contributions of the digits from position i on. */
  function LuhnSum(s: string, i: nat): int
    requires i <= |s| && AllDigits(s)
    decreases |s| - i
  {
    if i == |s| then 0 else Weighted(|s| - 1 - i, Value(s[i])) + LuhnSum(s, i + 1)
  }

  ghost predicate IsLuhn(s: string) { |s| >= 2 && AllDigits(s) && LuhnSum(s, 0) % 10 == 0 }

  method LuhnValid(digits: string) returns (valid: bool)
    ensures valid == IsLuhn(digits)
  {
    if |digits| < 2 {
      return false;
    }
    var sum, i, pos: nat := 0, |digits| - 1, 0;
    while i >= 0
      invariant -1 <= i < |digits| && pos == |digits| - 1 - i
      invariant forall k :: i < k < |digits| ==> IsDigit(digits[k])
      invariant AllDigits(digits) ==> sum == LuhnSum(digits, i + 1)
    {
      if !IsDigit(digits[i]) {
        return false;
      }
      var v := Value(digits[i]);
      if pos % 2 == 1 {
        v := v * 2;
        if v > 9 {
          v := v - 9;
        }
      }
      sum := sum + v;
      i, pos := i - 1, pos + 1;
    }
    return sum % 10 == 0;
  }

  lemma {:induction false} LuhnChange(s: string, t: string, i: nat, k: nat)
    requires AllDigits(s) && AllDigits(t) && |s| == |t| && i <= |s| && k < |s| && forall j :: 0 <= j < |s| && j != k ==> s[j] == t[j]
    ensures LuhnSum(t, i) - LuhnSum(s, i) ==
            if i <= k then Weighted(|s| - 1 - k, Value(t[k])) - Weighted(|s| - 1 - k, Value(s[k])) else 0
    decreases |s| - i
  {
    if i < |s| {
      LuhnChange(s, t, i + 1, k);
    }
  }

  /** Every change of a single digit is detected. */
  lemma LuhnDetectsChange(s: string, k: nat, c: char)
    requires IsLuhn(s) && k < |s| && IsDigit(c) && c != s[k]
    ensures !IsLuhn(With(s, k, c))
  {
    LuhnChange(s, With(s, k, c), 0, k);
    WeightedInjective(|s| - 1 - k, Value(s[k]), Value(c));
    Shifts(LuhnSum(s, 0), Weighted(|s| - 1 - k, Value(c)) - Weighted(|s| - 1 - k, Value(s[k])));
  }

  lemma WeightedInjective(pos: nat, a: int, b: int)
    requires 0 <= a < 10 && 0 <= b < 10 && a != b
    ensures -9 <= Weighted(pos, b) - Weighted(pos, a) <= 9 && Weighted(pos, b) != Weighted(pos, a)
  {
  }

  lemma Shifts(sum: int, d: int)
    requires sum % 10 == 0 && -18 <= d <= 18
    ensures (sum + d) % 10 == 0 <==> d == 0 || d == 10 || d == -10
  {
  }

  /** A swap of two neighbours goes unnoticed if and only if they are equal, or 0 and 9. */
  lemma LuhnSwaps(s: string, k: nat)
    requires IsLuhn(s) && k + 1 < |s|
    ensures IsLuhn(Swapped(s, k)) <==> s[k] == s[k + 1] || {s[k], s[k + 1]} == {'0', '9'}
  {
    var d := SwapDifference(s, k);
    Shifts(LuhnSum(s, 0), d);
    PairOf(s[k], s[k + 1]);
  }

  /** A swap changes the sum by the difference in doubling gain, one way or the other. */
  lemma SwapDifference(s: string, k: nat) returns (d: int)
    requires AllDigits(s) && k + 1 < |s|
    ensures d == LuhnSum(Swapped(s, k), 0) - LuhnSum(s, 0) && -18 <= d <= 18
    ensures d == 0 || d == 10 || d == -10 <==> s[k] == s[k + 1] || (s[k] == '0' && s[k + 1] == '9') || (s[k] == '9' && s[k + 1] == '0')
  {
    var t, u := s[k := s[k + 1]], Swapped(s, k);
    LuhnChange(s, t, 0, k);
    LuhnChange(t, u, 0, k + 1);
    d := LuhnSum(u, 0) - LuhnSum(s, 0);
    SwapGain(|s| - 1 - k, s[k], s[k + 1], d);
  }

  lemma SwapGain(pos: nat, x: char, y: char, d: int)
    requires pos > 0 && IsDigit(x) && IsDigit(y)
    requires d == Weighted(pos, Value(y)) - Weighted(pos, Value(x)) + Weighted(pos - 1, Value(x)) - Weighted(pos - 1, Value(y))
    ensures -18 <= d <= 18
    ensures d == 0 || d == 10 || d == -10 <==> x == y || (x == '0' && y == '9') || (x == '9' && y == '0')
  {
    Parity(pos, Value(x), Value(y));
    SwapDigits(Value(x), Value(y));
  }

  lemma Parity(pos: nat, a: int, b: int)
    requires pos > 0
    ensures var d := Weighted(pos, b) - Weighted(pos, a) + Weighted(pos - 1, a) - Weighted(pos - 1, b);
            d == (Weighted(1, b) - b) - (Weighted(1, a) - a) || d == (Weighted(1, a) - a) - (Weighted(1, b) - b)
  {
  }

  lemma PairOf(x: char, y: char)
    ensures {x, y} == {'0', '9'} <==> (x == '0' && y == '9') || (x == '9' && y == '0')
  {
    if {x, y} == {'0', '9'} {
      assert x in {'0', '9'} && y in {'0', '9'} && '0' in {x, y} && '9' in {x, y};
    }
  }

  /** Doubling moves every digit by a different amount, but 0 and 9 by the same. */
  lemma SwapDigits(a: int, b: int)
    requires 0 <= a < 10 && 0 <= b < 10
    ensures var d := (Weighted(1, b) - b) - (Weighted(1, a) - a);
            -18 <= d <= 18 && (d == 0 || d == 10 || d == -10 <==> a == b || (a == 0 && b == 9) || (a == 9 && b == 0))
  {
  }

  // ---------------------------------------------------------------------------------------------
  // IBAN (ISO 13616; ISO/IEC 7064 MOD 97-10).
  // ---------------------------------------------------------------------------------------------

  predicate IsAlnum(c: char) { IsDigit(c) || IsUpper(c) }

  ghost predicate AllAlnum(s: string) { forall i :: 0 <= i < |s| ==> IsAlnum(s[i]) }

  const DIGITS := "0123456789"

  /** 10 for A to 35 for Z. */
  function Worth(c: char): (n: int)
    requires IsAlnum(c)
    ensures 0 <= n <= 35 && (IsDigit(c) <==> n < 10)
  {
    if IsDigit(c) then Value(c) else c as int - 'A' as int + 10
  }

  /** The letters go up one by one from 10 for A to 35 for Z. */
  lemma WorthRises(c: char, d: char)
    requires 'A' <= c <= d <= 'Z'
    ensures Worth(d) - Worth(c) == d as int - c as int && Worth('A') == 10 && Worth('Z') == 35
  {
  }

  /** A letter is written as two digits. */
  function Written(c: char): (d: string)
    requires IsAlnum(c)
    ensures AllDigits(d) && |d| == if IsDigit(c) then 1 else 2
  {
    if IsDigit(c) then [c] else [DIGITS[Worth(c) / 10], DIGITS[Worth(c) % 10]]
  }

  ghost function Expand(s: string): (d: string)
    requires AllAlnum(s)
    ensures AllDigits(d)
  {
    if s == "" then "" else Expand(s[..|s| - 1]) + Written(s[|s| - 1])
  }

  /** The integer that a string of digits writes out. */
  function Number(d: string): (n: nat)
    requires AllDigits(d)
  {
    if d == "" then 0 else Number(d[..|d| - 1]) * 10 + Value(d[|d| - 1])
  }

  lemma NumberAppend(d: string, c: char)
    requires AllDigits(d) && IsDigit(c)
    ensures Number(d + [c]) == Number(d) * 10 + Value(c)
  {
    assert (d + [c])[..|d|] == d;
  }

  /** A number with a character's digits written behind it. */
  function Shifted(n: int, c: char): int
    requires IsAlnum(c)
  {
    if IsDigit(c) then n * 10 + Worth(c) else n * 100 + Worth(c)
  }

  lemma NumberWritten(d: string, c: char)
    requires AllDigits(d) && IsAlnum(c)
    ensures Number(d + Written(c)) == Shifted(Number(d), c)
  {
    if IsDigit(c) {
      NumberAppend(d, c);
    } else {
      var n := Worth(c);
      var x, y := DIGITS[n / 10], DIGITS[n % 10];
      assert forall i: nat :: i < 10 ==> Value(DIGITS[i]) == i;
      NumberAppend(d, x);
      NumberAppend(d + [x], y);
      assert d + [x, y] == d + [x] + [y];
    }
  }

  lemma ExpandLast(head: string, c: char, s: string)
    requires AllAlnum(head) && IsAlnum(c) && s == head + [c]
    ensures AllAlnum(s) && Expand(s) == Expand(head) + Written(c)
  {
    assert s[..|head|] == head && s[|head|] == c;
  }

  /** The integer that a string stands for. */
  ghost function Num(s: string): nat
    requires AllAlnum(s)
  {
    Number(Expand(s))
  }

  /** A letter advances it by two digits. */
  lemma NumLast(s: string, head: string, c: char)
    requires AllAlnum(head) && IsAlnum(c) && s == head + [c]
    ensures AllAlnum(s) && Num(s) == Shifted(Num(head), c)
  {
    ExpandLast(head, c, s);
    NumberWritten(Expand(head), c);
  }

  lemma Multiple(a: int, q: int)
    ensures (a + q * 97) % 97 == a % 97
  {
  }

  /** The remainder may be taken at every step. */
  lemma FoldStep(n: int, k: int, v: int)
    ensures (n % 97 * k + v) % 97 == (n * k + v) % 97
  {
    var q, r := n / 97, n % 97;
    assert n * k == (q * k) * 97 + r * k by {
      assert n == q * 97 + r;
      assert (q * 97 + r) * k == (q * k) * 97 + r * k;
    }
    Multiple(r * k + v, q * k);
  }

  ghost function Rem(s: string): int
    requires AllAlnum(s)
  {
    Num(s) % 97
  }

  /** The remainder with one more character. */
  function Advanced(remainder: int, c: char): int
    requires IsAlnum(c)
  {
    if IsDigit(c) then (remainder * 10 + Worth(c)) % 97 else (remainder * 100 + Worth(c)) % 97
  }

  lemma RemLast(s: string, head: string, c: char)
    requires AllAlnum(head) && IsAlnum(c) && s == head + [c]
    ensures AllAlnum(s) && Rem(s) == Advanced(Rem(head), c)
  {
    NumLast(s, head, c);
    FoldStep(Num(head), 10, Worth(c));
    FoldStep(Num(head), 100, Worth(c));
  }

  /** The remainder accumulated character by character is that of the integer. */
  method Remainder(s: string) returns (ok: bool, remainder: int)
    ensures ok <==> AllAlnum(s)
    ensures ok ==> remainder == Num(s) % 97
  {
    remainder := 0;
    assert s[..0] == "" && Rem("") == 0;
    for i := 0 to |s|
      invariant AllAlnum(s[..i]) && remainder == Rem(s[..i])
    {
      if !IsAlnum(s[i]) {
        return false, 0;
      }
      RemLast(s[..i + 1], s[..i], s[i]);
      remainder := Advanced(remainder, s[i]);
    }
    assert s[..|s|] == s;
    ok := true;
  }

  /** The country's length, two letters and two digits in front, and a remainder of one with these moved to the end. */
  ghost predicate IsIban(v: string, lengths: map<string, nat>) {
    && 15 <= |v| <= 34 && v[..2] in lengths && lengths[v[..2]] == |v|
    && IsUpper(v[0]) && IsUpper(v[1]) && IsDigit(v[2]) && IsDigit(v[3])
    && AllAlnum(v[4..] + v[..4])
    && Num(v[4..] + v[..4]) % 97 == 1
  }

  /** On a value already stripped of separators and in upper case. */
  method IbanValid(v: string, lengths: map<string, nat>) returns (valid: bool)
    ensures valid == IsIban(v, lengths)
  {
    if |v| < 15 || |v| > 34 || v[..2] !in lengths || lengths[v[..2]] != |v| {
      return false;
    }
    for i := 0 to 2
      invariant forall j :: 0 <= j < i ==> IsUpper(v[j])
      invariant forall j :: 2 <= j < i + 2 ==> IsDigit(v[j])
    {
      if !IsUpper(v[i]) || !IsDigit(v[i + 2]) {
        return false;
      }
    }
    var rearranged := v[4..] + v[..4];
    var ok, remainder := Remainder(rearranged);
    valid := ok && remainder == 1;
  }

  /** 97 is prime: a number that it does not divide keeps that when a digit is written behind it. */
  lemma TimesTen(n: int)
    ensures (n * 10) % 97 == 0 <==> n % 97 == 0
  {
    FoldStep(n, 10, 0);
  }

  /** Two numbers differ modulo 97. */
  predicate Differ(a: int, b: int) { (b - a) % 97 != 0 }

  lemma LastDigit(a: int, v: int, w: int)
    requires 0 <= v < 10 && 0 <= w < 10 && v != w
    ensures Differ(a * 10 + v, a * 10 + w)
  {
    assert (a * 10 + w) - (a * 10 + v) == w - v;
  }

  lemma LaterDigits(a: int, b: int, v: int)
    requires Differ(a, b)
    ensures Differ(a * 10 + v, b * 10 + v) && Differ(a * 100 + v, b * 100 + v)
  {
    TimesTen(b - a);
    TimesTen((b - a) * 10);
    assert (b * 10 + v) - (a * 10 + v) == (b - a) * 10;
    assert (b * 100 + v) - (a * 100 + v) == (b - a) * 10 * 10;
  }

  lemma LastDiffers(n: int, c: char, d: char)
    requires IsDigit(c) && IsDigit(d) && c != d
    ensures Differ(Shifted(n, c), Shifted(n, d))
  {
    LastDigit(n, Worth(c), Worth(d));
  }

  lemma LaterDiffers(a: int, b: int, c: char)
    requires IsAlnum(c) && Differ(a, b)
    ensures Differ(Shifted(a, c), Shifted(b, c))
  {
    LaterDigits(a, b, Worth(c));
  }

  /** Replacing one digit moves the remainder, wherever it stands. */
  lemma {:induction false} DigitMoves(s: string, k: nat, c: char)
    requires AllAlnum(s) && k < |s| && IsDigit(s[k]) && IsDigit(c) && c != s[k]
    ensures AllAlnum(With(s, k, c)) && Differ(Num(s), Num(With(s, k, c)))
    decreases |s|
  {
    var n := |s| - 1;
    var head, last := s[..n], s[n];
    NumLast(s, head, last);
    if k == n {
      NumLast(With(s, k, c), head, c);
      LastDiffers(Num(head), last, c);
    } else {
      DigitMoves(head, k, c);
      LaterDigitMoves(s, With(s, k, c), head, With(head, k, c), last);
    }
  }

  lemma LaterDigitMoves(s: string, t: string, head: string, other: string, last: char)
    requires AllAlnum(head) && AllAlnum(other) && IsAlnum(last) && s == head + [last] && t == other + [last]
    requires Differ(Num(head), Num(other))
    ensures AllAlnum(t) && AllAlnum(s) && Differ(Num(s), Num(t))
  {
    NumLast(s, head, last);
    NumLast(t, other, last);
    LaterDiffers(Num(head), Num(other), last);
  }

  lemma SameRemainder(a: int, b: int)
    ensures a % 97 == b % 97 <==> !Differ(a, b)
  {
    var q := (b - a) / 97;
    if !Differ(a, b) {
      assert b == a + q * 97;
      Multiple(a, q);
    }
  }

  /** So a change of a single digit is detected in every IBAN. */
  lemma IbanDetectsChange(v: string, lengths: map<string, nat>, k: nat, c: char)
    requires IsIban(v, lengths) && k < |v| && IsDigit(v[k]) && IsDigit(c) && c != v[k]
    ensures !IsIban(With(v, k, c), lengths)
  {
    var r, w := v[4..] + v[..4], With(v, k, c);
    var j := if k < 4 then |v| - 4 + k else k - 4;
    assert r[j] == v[k];
    assert w[4..] + w[..4] == With(r, j, c);
    DigitMoves(r, j, c);
    SameRemainder(Num(r), Num(With(r, j, c)));
  }

  // ---------------------------------------------------------------------------------------------
  // The repetition rule of the German tax number.
  // ---------------------------------------------------------------------------------------------

  function Occurs(s: string, v: int): nat
    requires AllDigits(s)
  {
    if s == "" then 0 else Occurs(s[..|s| - 1], v) + if Value(s[|s| - 1]) == v then 1 else 0
  }

  /** A digit three times in a row. */
  ghost predicate Run(s: string, v: int)
    requires AllDigits(s)
  {
    exists i :: 0 <= i < |s| - 2 && RunAt(s, v, i)
  }

  predicate RunAt(s: string, v: int, i: nat)
    requires AllDigits(s)
  {
    i + 2 < |s| && Value(s[i]) == v && Value(s[i + 1]) == v && Value(s[i + 2]) == v
  }

  ghost predicate TripleAt(s: string, i: nat, c: char) { i + 3 <= |s| && s[i..i + 3] == [c, c, c] }

  /** That is: the digit stands there three times side by side. */
  lemma RunIs(s: string, v: nat, c: char)
    requires AllDigits(s) && v < 10 && c == DIGITS[v]
    ensures Run(s, v) <==> exists i: nat :: TripleAt(s, i, c)
  {
    DigitIs(v);
    if Run(s, v) {
      var i :| 0 <= i < |s| - 2 && RunAt(s, v, i);
      SameDigits(s, i, v, c);
      assert s[i..i + 3] == [c, c, c];
      assert TripleAt(s, i, c);
    }
    if i: nat :| TripleAt(s, i, c) {
      assert s[i..i + 3][0] == s[i] && s[i..i + 3][1] == s[i + 1] && s[i..i + 3][2] == s[i + 2];
      assert RunAt(s, v, i);
    }
  }

  lemma DigitIs(v: nat)
    requires v < 10
    ensures IsDigit(DIGITS[v]) && Value(DIGITS[v]) == v
  {
  }

  lemma SameDigits(s: string, i: nat, v: nat, c: char)
    requires AllDigits(s) && RunAt(s, v, i) && IsDigit(c) && Value(c) == v
    ensures s[i] == c && s[i + 1] == c && s[i + 2] == c
  {
  }

  /** The count is the multiplicity. */
  lemma {:induction false} OccursIs(s: string, v: nat)
    requires AllDigits(s) && v < 10
    ensures Occurs(s, v) == multiset(s)[DIGITS[v]]
  {
    if s != "" {
      var rest, c := s[..|s| - 1], s[|s| - 1];
      OccursIs(rest, v);
      DigitIs(v);
      assert s == rest + [c];
      assert c == DIGITS[v] <==> Value(c) == v;
    }
  }

  predicate IsRepeated(s: string, d: int)
    requires AllDigits(s)
  {
    2 <= Occurs(s, d) <= 3
  }

  /** One digit occurs twice, or three times but not in a row, and every other at most once. */
  ghost predicate HasStructure(s: string)
    requires AllDigits(s)
  {
    exists d: nat {:trigger IsRepeated(s, d)} :: d < 10 && IsRepeated(s, d) && !(Occurs(s, d) == 3 && Run(s, d))
      && forall e: nat {:trigger Occurs(s, e)} :: e < 10 && e != d ==> Occurs(s, e) <= 1
  }

  /** The repeated ones among the first n digits. */
  ghost function RepeatedOf(s: string, n: nat): set<nat>
    requires AllDigits(s)
  {
    set d: nat {:trigger IsRepeated(s, d)} | d < n && IsRepeated(s, d)
  }

  lemma RepeatedNext(s: string, n: nat)
    requires AllDigits(s)
    ensures RepeatedOf(s, n + 1) == RepeatedOf(s, n) + (if IsRepeated(s, n) then {n} else {})
    ensures |RepeatedOf(s, n + 1)| == |RepeatedOf(s, n)| + if IsRepeated(s, n) then 1 else 0
  {
  }

  lemma OneRepeated(s: string)
    requires AllDigits(s) && (forall e: nat {:trigger Occurs(s, e)} :: e < 10 ==> Occurs(s, e) <= 3 && !(Occurs(s, e) == 3 && Run(s, e)))
    ensures |RepeatedOf(s, 10)| == 1 <==> HasStructure(s)
  {
    var r := RepeatedOf(s, 10);
    if |r| == 1 {
      var d :| d in r;
      assert r == {d} by {
        assert |r - {d}| == 0;
      }
      forall e: nat | e < 10 && e != d ensures Occurs(s, e) <= 1 {
        assert e !in r && !IsRepeated(s, e);
      }
      assert IsRepeated(s, d);
    }
    if HasStructure(s) {
      var d: nat :| d < 10 && IsRepeated(s, d) && forall e: nat {:trigger Occurs(s, e)} :: e < 10 && e != d ==> Occurs(s, e) <= 1;
      assert r == {d};
    }
  }

  method HasRun(s: string, v: int) returns (found: bool)
    requires AllDigits(s)
    ensures found == Run(s, v)
  {
    for i := 0 to |s|
      invariant forall j :: 0 <= j < i ==> !RunAt(s, v, j)
    {
      if RunAt(s, v, i) {
        return true;
      }
    }
    return false;
  }

  method Count(s: string) returns (counts: seq<nat>)
    requires AllDigits(s)
    ensures |counts| == 10 && forall d :: 0 <= d < 10 ==> counts[d] == Occurs(s, d)
  {
    counts := seq(10, _ => 0);
    for i := 0 to |s|
      invariant |counts| == 10 && forall d :: 0 <= d < 10 ==> counts[d] == Occurs(s[..i], d)
    {
      assert s[..i + 1][..i] == s[..i];
      counts := counts[Value(s[i]) := counts[Value(s[i])] + 1];
    }
    assert s[..|s|] == s;
  }

  method GermanTaxIdStructureValid(s: string) returns (valid: bool)
    requires AllDigits(s)
    ensures valid == HasStructure(s)
  {
    var counts := Count(s);
    var repeated, triples := 0, 0;
    assert RepeatedOf(s, 0) == {};
    for d := 0 to 10
      invariant repeated == |RepeatedOf(s, d)| && 0 <= triples <= repeated
      invariant forall e: nat {:trigger Occurs(s, e)} :: e < d ==> Occurs(s, e) <= 3 && !(Occurs(s, e) == 3 && Run(s, e))
    {
      RepeatedNext(s, d);
      assert counts[d] == Occurs(s, d);
      if counts[d] == 2 {
        repeated := repeated + 1;
      } else if counts[d] == 3 {
        repeated, triples := repeated + 1, triples + 1;
        var run := HasRun(s, d);
        if run {
          return false;
        }
      } else if counts[d] > 3 {
        return false;
      }
    }
    OneRepeated(s);
    valid := repeated == 1 && triples <= 1;
  }

  // ---------------------------------------------------------------------------------------------
  // MOD 11,10 (ISO/IEC 7064).
  // ---------------------------------------------------------------------------------------------

  /** One step of the recurrence. */
  function Step(product: int, v: int): int {
    var sum := (v + product) % 10;
    2 * (if sum == 0 then 10 else sum) % 11
  }

  function Product(s: string): (p: int)
    requires AllDigits(s)
    ensures 1 <= p <= 10
  {
    if s == "" then 10 else Step(Product(s[..|s| - 1]), Value(s[|s| - 1]))
  }

  function CheckOf(product: int): int { if 11 - product == 10 then 0 else 11 - product }

  method GermanTaxIdCheckDigit(s: string) returns (check: char)
    requires AllDigits(s)
    ensures IsDigit(check) && Value(check) == CheckOf(Product(s))
  {
    var product := 10;
    for i := 0 to |s|
      invariant product == Product(s[..i])
    {
      assert s[..i + 1][..i] == s[..i];
      var sum := (Value(s[i]) + product) % 10;
      if sum == 0 {
        sum := 10;
      }
      product := 2 * sum % 11;
    }
    assert s[..|s|] == s;
    var c := 11 - product;
    if c == 10 {
      c := 0;
    }
    check := ('0' as int + c) as char;
  }

  /** With its check digit a number is congruent to 1, as the standard demands. */
  lemma CheckIsStandard(s: string)
    requires AllDigits(s)
    ensures (Product(s) + CheckOf(Product(s))) % 10 == 1 && 0 <= CheckOf(Product(s)) <= 9
  {
  }

  const NUMBER := "8609574271"

  /** The first ten digits of 86095742719 give its last one. */
  lemma KnownNumber()
    ensures CheckOf(Product(NUMBER)) == 9
  {
    assert NUMBER[..0] == "" && NUMBER[..10] == NUMBER;
    assert NUMBER[..1][..0] == NUMBER[..0] && NUMBER[..1][0] == '8' && Product(NUMBER[..1]) == Step(10, 8) == 5;
    assert NUMBER[..2][..1] == NUMBER[..1] && NUMBER[..2][1] == '6' && Product(NUMBER[..2]) == Step(5, 6) == 2;
    assert NUMBER[..3][..2] == NUMBER[..2] && NUMBER[..3][2] == '0' && Product(NUMBER[..3]) == Step(2, 0) == 4;
    assert NUMBER[..4][..3] == NUMBER[..3] && NUMBER[..4][3] == '9' && Product(NUMBER[..4]) == Step(4, 9) == 6;
    assert NUMBER[..5][..4] == NUMBER[..4] && NUMBER[..5][4] == '5' && Product(NUMBER[..5]) == Step(6, 5) == 2;
    assert NUMBER[..6][..5] == NUMBER[..5] && NUMBER[..6][5] == '7' && Product(NUMBER[..6]) == Step(2, 7) == 7;
    assert NUMBER[..7][..6] == NUMBER[..6] && NUMBER[..7][6] == '4' && Product(NUMBER[..7]) == Step(7, 4) == 2;
    assert NUMBER[..8][..7] == NUMBER[..7] && NUMBER[..8][7] == '2' && Product(NUMBER[..8]) == Step(2, 2) == 8;
    assert NUMBER[..9][..8] == NUMBER[..8] && NUMBER[..9][8] == '7' && Product(NUMBER[..9]) == Step(8, 7) == 10;
    assert NUMBER[..10][..9] == NUMBER[..9] && NUMBER[..10][9] == '1' && Product(NUMBER[..10]) == Step(10, 1) == 2;
  }

  /** Each step tells both the digit and what came before it apart. */
  lemma StepInjective(p: int, q: int, v: int, w: int)
    requires 1 <= p <= 10 && 1 <= q <= 10 && 0 <= v < 10 && 0 <= w < 10
    ensures p != q ==> Step(p, v) != Step(q, v)
    ensures v != w ==> Step(p, v) != Step(p, w)
  {
    StepIs(p, v);
    StepIs(q, v);
    StepIs(p, w);
  }

  lemma StepIs(p: int, v: int)
    requires 1 <= p <= 10 && 0 <= v < 10
    ensures var sum := if v + p <= 10 then v + p else v + p - 10;
            1 <= sum <= 10 && Step(p, v) == if sum <= 5 then 2 * sum else 2 * sum - 11
  {
    var sum := if v + p <= 10 then v + p else v + p - 10;
    assert (v + p) % 10 == if sum == 10 then 0 else sum;
  }

  lemma {:induction false} ProductMoves(s: string, k: nat, c: char)
    requires AllDigits(s) && k < |s| && IsDigit(c) && c != s[k]
    ensures Product(With(s, k, c)) != Product(s)
    decreases |s|
  {
    var n := |s| - 1;
    var t := With(s, k, c);
    if k == n {
      assert t[..n] == s[..n];
      StepInjective(Product(s[..n]), Product(s[..n]), Value(s[n]), Value(c));
    } else {
      assert t[..n] == With(s[..n], k, c);
      ProductMoves(s[..n], k, c);
      StepInjective(Product(s[..n]), Product(t[..n]), Value(s[n]), Value(s[n]));
    }
  }

  /** After any change of a single digit the check digit is another one. */
  lemma CheckDigitMoves(s: string, k: nat, c: char)
    requires AllDigits(s) && k < |s| && IsDigit(c) && c != s[k]
    ensures CheckOf(Product(With(s, k, c))) != CheckOf(Product(s))
  {
    ProductMoves(s, k, c);
  }
}
