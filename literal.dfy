/** Text-level helpers of the evaluator: ASCII character classes, String.trim,
    String.indexOf, base-N literals as BigInteger(String, radix) reads them, and
    looksLikeFunction (Main.java:314-317). */
module Literals {
  import opened Results
  import opened Arith

  // ---------------------------------------------------------------------------
  // Character classes (ASCII subset of Character.isLetter and friends).

  predicate IsLetter(c: char)
  {
    'a' <= c <= 'z' || 'A' <= c <= 'Z'
  }

  predicate IsDecimal(c: char)
  {
    '0' <= c <= '9'
  }

  predicate IsLetterOrDigit(c: char)
  {
    IsLetter(c) || IsDecimal(c)
  }

  /** Characters an identifier may continue with. */
  predicate IsIdentChar(c: char)
  {
    IsLetterOrDigit(c) || c == '_'
  }

  /** Character.isWhitespace on ASCII: space, tab, LF, VT, FF, CR and the four
      separators FS, GS, RS, US. */
  predicate IsWhitespace(c: char)
  {
    c == ' ' || 9 <= c as int <= 13 || 28 <= c as int <= 31
  }

  /** Character.toUpperCase on ASCII letters. */
  function UpperChar(c: char): (r: char)
    ensures IsLetter(c) <==> IsLetter(r)
    ensures 'a' <= c <= 'z' ==> r as int == c as int - 32
    ensures !('a' <= c <= 'z') ==> r == c
  {
    if 'a' <= c <= 'z' then (c as int - 32) as char else c
  }

  /** toUpperCase(Locale.ROOT) on an identifier: each lower-case letter becomes
      its capital, every other character is kept, and letters, identifier characters and
      the rest stay what they were. */
  function Upper(t: string): (r: string)
    ensures |r| == |t|
    ensures forall i :: 0 <= i < |t| ==> !('a' <= r[i] <= 'z')
    ensures forall i :: 0 <= i < |t| && 'a' <= t[i] <= 'z' ==> r[i] as int == t[i] as int - 32
    ensures forall i :: 0 <= i < |t| && !('a' <= t[i] <= 'z') ==> r[i] == t[i]
    ensures forall i :: 0 <= i < |t| ==> (IsLetter(t[i]) <==> IsLetter(r[i]))
    ensures forall i :: 0 <= i < |t| ==> (IsIdentChar(t[i]) <==> IsIdentChar(r[i]))
  {
    seq(|t|, i requires 0 <= i < |t| => UpperChar(t[i]))
  }

  // ---------------------------------------------------------------------------
  // String.trim: drops every leading and trailing character <= ' '.

  function TrimStart(v: string, i: nat): (r: nat)
    requires i <= |v|
    ensures i <= r <= |v|
    ensures forall q :: i <= q < r ==> v[q] <= ' '
    ensures r < |v| ==> v[r] > ' '
    decreases |v| - i
  {
    if i < |v| && v[i] <= ' ' then TrimStart(v, i + 1) else i
  }

  function TrimEnd(v: string, lo: nat, j: nat): (r: nat)
    requires lo <= j <= |v|
    ensures lo <= r <= j
    ensures forall q :: r <= q < j ==> v[q] <= ' '
    ensures r > lo ==> v[r - 1] > ' '
    decreases j
  {
    if j > lo && v[j - 1] <= ' ' then TrimEnd(v, lo, j - 1) else j
  }

  /** The trimmed text is a slice of v, only characters <= ' ' were cut, and
      it neither starts nor ends with one. */
  function Trim(v: string): (r: string)
    ensures exists i, j :: 0 <= i <= j <= |v| && r == v[i..j]
                           && (forall q :: 0 <= q < i ==> v[q] <= ' ')
                           && (forall q :: j <= q < |v| ==> v[q] <= ' ')
    ensures |r| > 0 ==> r[0] > ' ' && r[|r| - 1] > ' '
  {
    var i := TrimStart(v, 0);
    var j := TrimEnd(v, i, |v|);
    assert forall q :: j <= q < |v| ==> v[q] <= ' ';
    v[i..j]
  }

  /** Text that neither starts nor ends with a character <= ' ' is unchanged. */
  lemma TrimKeeps(v: string)
    requires |v| > 0 ==> v[0] > ' ' && v[|v| - 1] > ' '
    ensures Trim(v) == v
  {
    if |v| > 0 {
      assert TrimStart(v, 0) == 0;
      assert TrimEnd(v, 0, |v|) == |v|;
    }
  }

  lemma TrimIdempotent(v: string)
    ensures Trim(Trim(v)) == Trim(v)
  {
    TrimKeeps(Trim(v));
  }

  // ---------------------------------------------------------------------------
  // String.indexOf(char) and looksLikeFunction.

  /** The first index of c in v, or -1 when there is none. */
  function IndexOf(v: string, c: char): (r: int)
    ensures -1 <= r < |v|
    ensures r == -1 <==> c !in v
    ensures r >= 0 ==> v[r] == c && c !in v[..r]
  {
    if |v| == 0 then -1
    else if v[0] == c then 0
    else
      var r := IndexOf(v[1..], c);
      assert v == [v[0]] + v[1..];
      if r < 0 then -1
      else
        assert v[..r + 1] == [v[0]] + v[1..][..r];
        r + 1
  }

  /** looksLikeFunction (Main.java:314-317): the value starts with a letter,
      contains a '(' and ends with ')'. A letter cannot be '(', so "the first
      '(' is at an index above 0" is the same as "there is a '('". */
  function LooksLikeFunction(v: string): (r: bool)
    ensures r <==> |v| > 0 && IsLetter(v[0]) && '(' in v && v[|v| - 1] == ')'
  {
    var p := IndexOf(v, '(');
    p > 0 && IsLetter(v[0]) && |v| > 0 && v[|v| - 1] == ')'
  }

  // ---------------------------------------------------------------------------
  // Base-N literals: new BigInteger(lit, radix).

  /** Character.digit(c, 36): the digit value of c, or -1. */
  function DigitValue(c: char): (r: int)
    ensures -1 <= r < 36
    ensures r >= 0 <==> IsLetterOrDigit(c)
  {
    if '0' <= c <= '9' then c as int - '0' as int
    else if 'a' <= c <= 'z' then c as int - 'a' as int + 10
    else if 'A' <= c <= 'Z' then c as int - 'A' as int + 10
    else -1
  }

  /** Every character of t is a digit below base. */
  predicate DigitsIn(t: string, base: int)
  {
    forall i :: 0 <= i < |t| ==> 0 <= DigitValue(t[i]) < base
  }

  /** The value of the numeral t in base, most significant digit first. */
  function Numeral(t: string, base: int): int
  {
    if |t| == 0 then 0 else Numeral(t[..|t| - 1], base) * base + DigitValue(t[|t| - 1])
  }

  /** One more digit keeps a numeral below the next power. */
  lemma AppendDigit(n: int, d: int, base: int, bound: int)
    requires 0 <= n < bound && 0 <= d < base
    ensures 0 <= n * base + d < base * bound
  {
    NextMultiple(n, base);
    MulMono(n + 1, bound, base);
  }

  lemma NextMultiple(n: int, base: int)
    requires n >= 0 && base > 0
    ensures 0 <= n * base && (n + 1) * base == n * base + base
  {
  }

  lemma MulMono(a: int, b: int, c: int)
    requires a <= b && c > 0
    ensures a * c <= c * b
  {
    assert c * b - a * c == (b - a) * c;
  }

  lemma {:induction false} NumeralBound(t: string, base: int)
    requires base >= 2 && DigitsIn(t, base)
    ensures 0 <= Numeral(t, base) < Pow(base, |t|)
  {
    if |t| > 0 {
      var t' := t[..|t| - 1];
      assert DigitsIn(t', base);
      NumeralBound(t', base);
      var n, d := Numeral(t', base), DigitValue(t[|t| - 1]);
      assert Numeral(t, base) == n * base + d;
      assert Pow(base, |t|) == base * Pow(base, |t'|);
      AppendDigit(n, d, base, Pow(base, |t'|));
    }
  }

  /** BigInteger(lit, base) on a sign-free token. */
  function ParseLiteral(t: string, base: int): Result<int>
  {
    if 2 <= base <= 36 && |t| > 0 && DigitsIn(t, base) then Success(Numeral(t, base))
    else Failure(Parse(BadNumber))
  }

  /** A radix outside [2, 36], an empty token or a character that is not a
      digit below base all fail; a value read has at most |t| digits. */
  lemma ParseLiteralMeaning(t: string, base: int)
    ensures ParseLiteral(t, base).Success? <==> 2 <= base <= 36 && |t| > 0 && DigitsIn(t, base)
    ensures ParseLiteral(t, base).Failure? ==> ParseLiteral(t, base).error == Parse(BadNumber)
    ensures ParseLiteral(t, base).Success? ==> 0 <= ParseLiteral(t, base).value < Pow(base, |t|)
  {
    if ParseLiteral(t, base).Success? {
      NumeralBound(t, base);
    }
  }

  /** The digit character for d (lower-case letters above 9). */
  function DigitChar(d: int): (c: char)
    requires 0 <= d < 36
    ensures DigitValue(c) == d
  {
    if d < 10 then ('0' as int + d) as char else ('a' as int + d - 10) as char
  }

  /** The quotient and remainder that Show splits v into. */
  lemma DivideByBase(v: int, base: int)
    requires base >= 2 && v >= base
    ensures 0 <= v / base < v && 0 <= v % base < base
    ensures v == (v / base) * base + v % base
  {
    var q := v / base;
    assert v == base * q + v % base;
    assert q * base == q * (base - 2) + 2 * q;
  }

  /** v written in base, without leading zeros: BigInteger.toString(radix). */
  function Show(v: nat, base: int): (r: string)
    requires 2 <= base <= 36
    ensures |r| > 0 && DigitsIn(r, base)
    decreases v
  {
    if v < base then [DigitChar(v)]
    else
      DivideByBase(v, base);
      Show(v / base, base) + [DigitChar(v % base)]
  }

  /** Reading a number written in base gives the number back. */
  lemma ShowRoundTrip(v: nat, base: int)
    requires 2 <= base <= 36
    ensures ParseLiteral(Show(v, base), base) == Success(v)
  {
    NumeralOfShow(v, base);
  }

  lemma {:induction false} NumeralOfShow(v: nat, base: int)
    requires 2 <= base <= 36
    ensures Numeral(Show(v, base), base) == v
    decreases v
  {
    var t := Show(v, base);
    if v < base {
      assert t[..0] == [];
    } else {
      DivideByBase(v, base);
      NumeralOfShow(v / base, base);
      assert t[..|t| - 1] == Show(v / base, base);
    }
  }
}
