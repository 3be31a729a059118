/**
 * The coordinate key that identifies a cell: the renderer builds it as
 * `${y}-${x}` and the toggle recovers the numbers with
 * `split("-").map(Number)`.
 */
module CoordKey {
  import opened Wrappers

  /** A cell position as the renderer enumerates it: row y, column x. */
  datatype Coord = Coord(y: nat, x: nat)

  predicate IsDigit(c: char) {
    '0' <= c <= '9'
  }

  predicate AllDigits(s: string) {
    forall i :: 0 <= i < |s| ==> IsDigit(s[i])
  }

  function DigitChar(d: nat): (c: char)
    requires d < 10
    ensures IsDigit(c)
  {
    ('0' as int + d) as char
  }

  function DigitValue(c: char): (d: nat)
    requires IsDigit(c)
    ensures d < 10
  {
    c as int - '0' as int
  }

  // ---------------------------------------------------------------------
  // Encoding: template-literal interpolation of a non-negative integer
  // ---------------------------------------------------------------------

  /** The decimal rendering of n: at least one digit and no leading zero. */
  function NatToDecimal(n: nat): (s: string)
    ensures |s| >= 1 && AllDigits(s)
    ensures |s| > 1 ==> s[0] != '0'
  {
    if n < 10 then [DigitChar(n)] else NatToDecimal(n / 10) + [DigitChar(n % 10)]
  }

  /**
   * The key of cell (y, x): the digits of y, one dash right after them,
   * and nothing but digits elsewhere.
   */
  function EncodeKey(c: Coord): (key: string)
    ensures var k := |NatToDecimal(c.y)|;
      k < |key| && key[k] == '-' && forall i :: 0 <= i < |key| && i != k ==> IsDigit(key[i])
  {
    NatToDecimal(c.y) + "-" + NatToDecimal(c.x)
  }

  // ---------------------------------------------------------------------
  // Decoding: split on '-' and convert each part with Number
  // ---------------------------------------------------------------------

  /** Joins non-empty list of parts with the separator between consecutive parts. */
  function Join(parts: seq<string>, sep: char): string
    requires |parts| >= 1
  {
    if |parts| == 1 then parts[0] else parts[0] + [sep] + Join(parts[1..], sep)
  }

  /**
   * String split on a single-character separator: always at least one
   * part, no part holds the separator, and joining the parts back gives
   * the original string.
   */
  function Split(s: string, sep: char): (parts: seq<string>)
    ensures |parts| >= 1
    ensures forall k :: 0 <= k < |parts| ==> sep !in parts[k]
    ensures Join(parts, sep) == s
    decreases |s|
  {
    if sep !in s then [s]
    else
      var i := FirstIndex(s, sep);
      assert s == s[..i] + [sep] + s[i + 1..];
      [s[..i]] + Split(s[i + 1..], sep)
  }

  /** The position of the first separator in s. */
  function FirstIndex(s: string, sep: char): (i: nat)
    requires sep in s
    ensures i < |s| && s[i] == sep && sep !in s[..i]
  {
    if s[0] == sep then 0
    else
      var j := FirstIndex(s[1..], sep);
      assert s[..j + 1] == [s[0]] + s[1..][..j];
      j + 1
  }

  /** The value of a string of decimal digits; the empty string is 0, as for Number(""). */
  function DecimalValue(s: string): nat
    requires AllDigits(s)
  {
    if s == [] then 0 else DecimalValue(s[..|s| - 1]) * 10 + DigitValue(s[|s| - 1])
  }

  /**
   * Number applied to a part of a key: a string of decimal digits gives
   * its value; anything else is reported as None, the model of NaN.
   */
  function ParseNumber(s: string): Option<nat> {
    if AllDigits(s) then Some(DecimalValue(s)) else None
  }

  /**
   * `const [y, x] = coord.split("-").map(Number)`: the first two parts
   * give y and x. A missing second part (undefined) or a part that is not
   * a number (NaN) gives None; parts after the second are ignored.
   */
  function DecodeKey(key: string): (r: Option<Coord>)
    ensures '-' !in key ==> r.None?
  {
    var parts := Split(key, '-');
    if |parts| < 2 then None
    else
      match (ParseNumber(parts[0]), ParseNumber(parts[1]))
      case (Some(y), Some(x)) => Some(Coord(y, x))
      case _ => None
  }

  // ---------------------------------------------------------------------
  // Round trip
  // ---------------------------------------------------------------------

  /** Reading back the decimal rendering of n gives n. */
  lemma {:induction false} DecimalRoundTrip(n: nat)
    ensures DecimalValue(NatToDecimal(n)) == n
  {
    var s := NatToDecimal(n);
    if n >= 10 {
      DecimalRoundTrip(n / 10);
      assert s[..|s| - 1] == NatToDecimal(n / 10);
    }
  }

  /** Any position holding the first separator is the one FirstIndex finds. */
  lemma FirstIndexIs(s: string, sep: char, i: nat)
    requires i < |s| && s[i] == sep && sep !in s[..i]
    ensures sep in s && FirstIndex(s, sep) == i
  {
    assert s[i] in s;
  }

  /** Splitting cuts at the first separator: the part before it, then the split of the rest. */
  lemma SplitAt(s: string, sep: char, i: nat)
    requires i < |s| && s[i] == sep && sep !in s[..i]
    ensures Split(s, sep) == [s[..i]] + Split(s[i + 1..], sep)
  {
    FirstIndexIs(s, sep, i);
  }

  /** Two parts without separators, joined by one separator, split back into those two parts. */
  lemma SplitTwo(a: string, sep: char, b: string)
    requires sep !in a && sep !in b
    ensures Split(a + [sep] + b, sep) == [a, b]
  {
    var s := a + [sep] + b;
    assert s[..|a|] == a && s[|a| + 1..] == b;
    SplitAt(s, sep, |a|);
  }

  /** Appending a further separated part to a string leaves the first part of its split unchanged. */
  lemma SplitFirstPart(t: string, sep: char, rest: string)
    ensures Split(t + [sep] + rest, sep)[0] == Split(t, sep)[0]
  {
    var s := t + [sep] + rest;
    if sep !in t {
      assert s[..|t|] == t;
      SplitAt(s, sep, |t|);
    } else {
      var j := FirstIndex(t, sep);
      assert s[..j] == t[..j];
      SplitAt(s, sep, j);
    }
  }

  /** The digits of a rendered number never contain '-'. */
  lemma DecimalHasNoDash(n: nat)
    ensures '-' !in NatToDecimal(n)
  {
  }

  /** Decoding the key of (y, x) gives back y and x. */
  lemma KeyRoundTrip(c: Coord)
    ensures DecodeKey(EncodeKey(c)) == Some(c)
  {
    var ys, xs := NatToDecimal(c.y), NatToDecimal(c.x);
    DecimalHasNoDash(c.y);
    DecimalHasNoDash(c.x);
    SplitTwo(ys, '-', xs);
    assert EncodeKey(c) == ys + ['-'] + xs;
    assert Split(EncodeKey(c), '-') == [ys, xs];
    DecimalRoundTrip(c.y);
    DecimalRoundTrip(c.x);
  }

  /**
   * Destructuring takes the first two numbers only: once a key has a dash,
   * appending a further `-` part does not change what it decodes to.
   */
  lemma DecodeIgnoresExtraParts(key: string, rest: string)
    requires '-' in key
    ensures DecodeKey(key + "-" + rest) == DecodeKey(key)
  {
    var i := FirstIndex(key, '-');
    var t := key[i + 1..];
    var s := key + "-" + rest;
    assert s[..i] == key[..i] && s[i] == '-' && s[i + 1..] == t + "-" + rest;
    SplitAt(s, '-', i);
    SplitFirstPart(t, '-', rest);
  }

  /**
   * A key of exactly two parts decodes to the numbers of both parts when
   * both are digit strings, and to nothing (NaN) otherwise.
   */
  lemma DecodeKeyParts(a: string, b: string)
    requires '-' !in a && '-' !in b
    ensures DecodeKey(a + "-" + b) ==
              if AllDigits(a) && AllDigits(b) then Some(Coord(DecimalValue(a), DecimalValue(b))) else None
  {
    SplitTwo(a, '-', b);
    assert a + "-" + b == a + ['-'] + b;
  }

  /** Distinct cells get distinct keys. */
  lemma KeyInjective(c1: Coord, c2: Coord)
    requires EncodeKey(c1) == EncodeKey(c2)
    ensures c1 == c2
  {
    KeyRoundTrip(c1);
    KeyRoundTrip(c2);
  }

  // ---------------------------------------------------------------------
  // Leading zeros
  // ---------------------------------------------------------------------

  function Zeros(k: nat): (s: string)
    ensures |s| == k && forall i :: 0 <= i < k ==> s[i] == '0'
  {
    seq(k, _ => '0')
  }

  /** A string of zeros reads as 0. */
  lemma {:induction false} ZerosValue(k: nat)
    ensures AllDigits(Zeros(k)) && DecimalValue(Zeros(k)) == 0
  {
    if k > 0 {
      assert Zeros(k)[..k - 1] == Zeros(k - 1);
      ZerosValue(k - 1);
    }
  }

  /** Leading zeros do not change the value of a digit string. */
  lemma {:induction false} ZerosPrefixValue(k: nat, t: string)
    requires AllDigits(t)
    ensures AllDigits(Zeros(k) + t) && DecimalValue(Zeros(k) + t) == DecimalValue(t)
  {
    var s := Zeros(k) + t;
    if t == [] {
      assert s == Zeros(k);
      ZerosValue(k);
    } else {
      assert s[..|s| - 1] == Zeros(k) + t[..|t| - 1];
      ZerosPrefixValue(k, t[..|t| - 1]);
    }
  }

  /** A digit string without a leading zero is the decimal rendering of its own value. */
  lemma {:induction false} CanonicalDigits(t: string)
    requires AllDigits(t) && t != [] && t[0] != '0'
    ensures NatToDecimal(DecimalValue(t)) == t
  {
    var c := t[|t| - 1];
    assert DigitChar(DigitValue(c)) == c;
    if |t| > 1 {
      var t' := t[..|t| - 1];
      CanonicalDigits(t');
      var v' := DecimalValue(t');
      assert v' != 0 by {
        assert NatToDecimal(0) == ['0'];
      }
      var v := DecimalValue(t);
      assert v / 10 == v' && v % 10 == DigitValue(c);
      assert t == t' + [c];
    }
  }

  /** Any non-empty digit string is some zeros followed by the decimal rendering of its value. */
  lemma {:induction false} LeadingZerosForm(s: string)
    requires AllDigits(s) && s != []
    ensures var d := NatToDecimal(DecimalValue(s)); |d| <= |s| && s == Zeros(|s| - |d|) + d
  {
    if s[0] != '0' {
      CanonicalDigits(s);
      assert s == Zeros(0) + s;
    } else if |s| == 1 {
      assert s == Zeros(0) + NatToDecimal(0);
    } else {
      var t := s[1..];
      var d := NatToDecimal(DecimalValue(s));
      assert DecimalValue(s) == DecimalValue(t) by {
        assert s == Zeros(1) + t;
        ZerosPrefixValue(1, t);
      }
      assert |d| <= |t| && t == Zeros(|t| - |d|) + d by {
        LeadingZerosForm(t);
      }
      assert s == [s[0]] + t;
      assert [s[0]] + Zeros(|t| - |d|) == Zeros(|s| - |d|);
    }
  }

  /**
   * What Number gives for a part of a key: the empty part gives 0, and a
   * non-empty part gives n exactly when it is zero or more '0's followed
   * by the decimal rendering of n.
   */
  lemma NumberOfPart(s: string, n: nat)
    ensures s == [] ==> ParseNumber(s) == Some(0)
    ensures s != [] ==> (ParseNumber(s) == Some(n) <==>
              |NatToDecimal(n)| <= |s| && s == Zeros(|s| - |NatToDecimal(n)|) + NatToDecimal(n))
  {
    var d := NatToDecimal(n);
    if s != [] {
      if ParseNumber(s) == Some(n) {
        LeadingZerosForm(s);
      }
      if |d| <= |s| && s == Zeros(|s| - |d|) + d {
        ZerosPrefixValue(|s| - |d|, d);
        DecimalRoundTrip(n);
      }
    }
  }
}
