/** Bytes, options and decimal numerals shared by every module. */
module Base {

  datatype Option<+T> = None | Some(value: T)

  type byte = x: int | 0 <= x < 256 witness 0

  type Bytes = seq<byte>

  const CR: byte := 13
  const LF: byte := 10
  const DOLLAR: byte := 36
  const ASTERISK: byte := 42
  const MINUS: byte := 45
  const ZERO: byte := 48
  const CRLF: Bytes := [CR, LF]

  const TWO31: int := 0x8000_0000
  const TWO32: int := 0x1_0000_0000

  /** `$-1\r\n` */
  const NIL: Bytes := [36, 45, 49, 13, 10]
  /** `+OK\r\n` */
  const OK: Bytes := [43, 79, 75, 13, 10]

  predicate IsDigit(b: byte) { 48 <= b <= 57 }

  predicate AllDigits(d: Bytes) { forall i :: 0 <= i < |d| ==> IsDigit(d[i]) }

  predicate NulFree(s: Bytes) { forall i :: 0 <= i < |s| ==> s[i] != 0 }

  /** The C string that starts at `s`: everything before the first NUL. */
  function CStr(s: Bytes): (r: Bytes)
    ensures NulFree(r) && |r| <= |s| && r == s[..|r|]
    ensures |r| < |s| ==> s[|r|] == 0
    ensures NulFree(s) ==> r == s
  {
    if s == [] || s[0] == 0 then [] else [s[0]] + CStr(s[1..])
  }

  /** The canonical decimal numeral of `n`, as `%d` prints it. */
  function Dec(n: nat): (d: Bytes)
    ensures |d| > 0 && AllDigits(d)
    ensures |d| > 1 ==> d[0] != ZERO
    ensures n > 0 ==> d[0] != ZERO
  {
    if n < 10 then [ZERO + n] else Dec(n / 10) + [ZERO + n % 10]
  }

  /** The value a digit string denotes. */
  function DecVal(d: Bytes): (n: nat)
    requires AllDigits(d)
  {
    if d == [] then 0 else 10 * DecVal(d[..|d| - 1]) + (d[|d| - 1] - ZERO)
  }

  function Zeros(k: nat): (d: Bytes)
    ensures |d| == k && forall i :: 0 <= i < k ==> d[i] == ZERO
  {
    seq(k, _ => ZERO)
  }

  lemma {:induction false} DecValDec(n: nat)
    ensures DecVal(Dec(n)) == n
  {
    if n < 10 {
      assert Dec(n)[..0] == [];
    } else {
      DecValDec(n / 10);
      assert Dec(n)[..|Dec(n)| - 1] == Dec(n / 10);
    }
  }

  /** A digit string is its value's canonical numeral behind some zeros. */
  lemma {:induction false} DigitsAreDec(d: Bytes) returns (k: nat)
    requires AllDigits(d) && |d| > 0
    ensures d == Zeros(k) + Dec(DecVal(d))
  {
    var front, last := d[..|d| - 1], d[|d| - 1] - ZERO;
    assert d == front + [ZERO + last];
    if front == [] || DecVal(front) == 0 {
      AllZeros(front);
      k := |front|;
      assert DecVal(d) == last;
      assert front == Zeros(k);
    } else {
      k := DigitsAreDec(front);
      var v := DecVal(front);
      assert DecVal(d) == 10 * v + last && DecVal(d) / 10 == v && DecVal(d) % 10 == last;
      assert d == Zeros(k) + (Dec(v) + [ZERO + last]);
    }
  }

  lemma {:induction false} AllZeros(d: Bytes)
    requires AllDigits(d)
    ensures DecVal(d) == 0 ==> forall i :: 0 <= i < |d| ==> d[i] == ZERO
  {
    if d != [] && DecVal(d) == 0 {
      AllZeros(d[..|d| - 1]);
      assert forall i :: 0 <= i < |d| - 1 ==> d[i] == d[..|d| - 1][i];
    }
  }

  lemma {:induction false} DecLength(n: nat, digits: nat)
    requires digits > 0 && n < Pow10(digits)
    ensures |Dec(n)| <= digits
  {
    if n >= 10 {
      assert digits > 1;
      DecLength(n / 10, digits - 1);
    }
  }

  function Pow10(k: nat): (p: nat) ensures p > 0 { if k == 0 then 1 else 10 * Pow10(k - 1) }

  // ---- lists as sets ----------------------------------------------------------------------

  predicate Distinct<T(==)>(s: seq<T>) { forall i, j :: 0 <= i < j < |s| ==> s[i] != s[j] }

  function Elems<T(==)>(s: seq<T>): set<T> { set x | x in s }
}
