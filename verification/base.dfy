/** Small value types and string helpers shared by the rest of the model:
    an Option type, bytes, flattening a sequence of pieces, and decimal
    rendering/parsing of numbers as JavaScript's `${n}` and `Number(s)` do
    for non-negative integers. */
module Base {

  datatype Option<T> = None | Some(value: T)

  /** One octet of a file or an HTTP body. */
  type Byte = b: int | 0 <= b < 256

  function Min(a: int, b: int): int { if a <= b then a else b }
  function Max(a: int, b: int): int { if a >= b then a else b }

  /** `parts.join('')` for strings, concatenation of enqueued pieces for bytes. */
  function Flatten<T>(parts: seq<seq<T>>): (r: seq<T>)
  {
    if parts == [] then [] else parts[0] + Flatten(parts[1..])
  }

  lemma {:induction false} FlattenAppend<T>(a: seq<seq<T>>, b: seq<seq<T>>)
    ensures Flatten(a + b) == Flatten(a) + Flatten(b)
  {
    if a == [] {
      assert a + b == b;
    } else {
      assert (a + b)[1..] == a[1..] + b;
      FlattenAppend(a[1..], b);
    }
  }

  lemma AppendAssoc<T>(a: seq<T>, x: T, b: seq<T>)
    ensures a + ([x] + b) == (a + [x]) + b
  {
  }

  lemma ConcatAssoc<T>(a: seq<T>, b: seq<T>, c: seq<T>)
    ensures (a + b) + c == a + (b + c)
  {
  }

  lemma SnocAssoc<T>(a: seq<T>, b: seq<T>, x: T)
    ensures (a + b) + [x] == a + (b + [x])
  {
  }

  lemma SliceIndex<T>(s: seq<T>, a: nat, b: nat, i: nat)
    requires a <= i < b <= |s|
    ensures s[a..b][i - a] == s[i]
  {
  }

  lemma SuffixPrefix<T>(s: seq<T>, i: nat, n: nat)
    requires i + n <= |s|
    ensures s[i..][..n] == s[i..i + n]
  {
  }

  lemma FlattenSingle<T>(x: seq<T>)
    ensures Flatten([x]) == x
  {
    assert [x][1..] == [];
  }

  predicate IsDigit(c: char) { '0' <= c <= '9' }

  predicate AllDigits(s: string) { forall i :: 0 <= i < |s| ==> IsDigit(s[i]) }

  function DigitChar(d: nat): (c: char)
    requires d < 10
    ensures IsDigit(c)
  {
    ['0', '1', '2', '3', '4', '5', '6', '7', '8', '9'][d]
  }

  function DigitValue(c: char): (d: nat)
    requires IsDigit(c)
    ensures d < 10 && DigitChar(d) == c
  {
    (c as int) - ('0' as int)
  }

  /** Decimal rendering of a non-negative integer, without leading zeros. */
  function DecimalString(n: nat): string
  {
    if n < 10 then [DigitChar(n)] else DecimalString(n / 10) + [DigitChar(n % 10)]
  }

  /** The rendering is a non-empty string of digits without a leading zero. */
  lemma {:induction false} DecimalStringDigits(n: nat)
    ensures var r := DecimalString(n);
      && 1 <= |r| && AllDigits(r)
      && (|r| > 1 ==> r[0] != '0')
  {
    if n >= 10 {
      DecimalStringDigits(n / 10);
    }
  }

  /** The value of a string of decimal digits (leading zeros allowed, as in `Number("007")`). */
  function ParseDecimal(s: string): (n: nat)
    requires AllDigits(s)
  {
    if s == [] then 0 else 10 * ParseDecimal(s[..|s| - 1]) + DigitValue(s[|s| - 1])
  }

  lemma DigitRoundTrip(d: nat)
    requires d < 10
    ensures DigitValue(DigitChar(d)) == d
  {
  }

  /** Parsing undoes rendering. */
  lemma {:induction false} ParseDecimalString(n: nat)
    ensures AllDigits(DecimalString(n)) && ParseDecimal(DecimalString(n)) == n
  {
    DecimalStringDigits(n);
    var r := DecimalString(n);
    if n < 10 {
      DigitRoundTrip(n);
      assert r[..0] == [];
    } else {
      var q, d := n / 10, n % 10;
      assert r == DecimalString(q) + [DigitChar(d)];
      assert r[..|r| - 1] == DecimalString(q);
      assert r[|r| - 1] == DigitChar(d);
      DigitRoundTrip(d);
      ParseDecimalString(q);
      assert n == 10 * q + d;
    }
  }

  lemma DecimalStringInjective(m: nat, n: nat)
    requires DecimalString(m) == DecimalString(n)
    ensures m == n
  {
    ParseDecimalString(m);
    ParseDecimalString(n);
  }

  /** `${i}` for an integer: a minus sign before the digits of a negative number. */
  function IntToString(i: int): string
  {
    if i < 0 then "-" + DecimalString(-i) else DecimalString(i)
  }

  lemma IntToStringNat(n: nat)
    ensures IntToString(n) == DecimalString(n)
  {
  }
}
