/** Segment identifiers `f"seg_{n:04d}"`: the prefix "seg_" and the 1-based
    position of the segment in decimal, zero-padded to at least four digits. */
module SegmentIds {
  import opened Order

  predicate IsDigit(c: char) {
    '0' <= c <= '9'
  }

  predicate AllDigits(s: string) {
    forall i :: 0 <= i < |s| ==> IsDigit(s[i])
  }

  function DigitChar(d: nat): (c: char)
    requires d < 10
    ensures IsDigit(c) && c as int - '0' as int == d
  {
    ('0' as int + d) as char
  }

  function DigitValue(c: char): (d: nat)
    requires IsDigit(c)
    ensures d < 10 && DigitChar(d) == c
  {
    c as int - '0' as int
  }

  /** The value of a string of decimal digits (leading zeros allowed). */
  function ValueOf(s: string): nat
    requires AllDigits(s)
  {
    if s == [] then 0 else 10 * ValueOf(s[..|s| - 1]) + DigitValue(s[|s| - 1])
  }

  /** Python's `str(n)` for a natural number. */
  function Decimal(n: nat): string {
    if n < 10 then [DigitChar(n)] else Decimal(n / 10) + [DigitChar(n % 10)]
  }

  /** The decimal form is a non-empty digit string, with no leading zero
      except for 0 itself, that reads back as `n`; below 10000 it has at
      most four digits. */
  lemma {:induction false} DecimalFacts(n: nat)
    ensures AllDigits(Decimal(n)) && |Decimal(n)| >= 1
    ensures ValueOf(Decimal(n)) == n
    ensures Decimal(n)[0] == '0' ==> n == 0
    ensures n < 10 ==> |Decimal(n)| == 1
    ensures n < 100 ==> |Decimal(n)| <= 2
    ensures n < 1000 ==> |Decimal(n)| <= 3
    ensures n < 10000 ==> |Decimal(n)| <= 4
  {
    if n >= 10 {
      DecimalFacts(n / 10);
      var r := Decimal(n);
      assert r[..|r| - 1] == Decimal(n / 10);
    }
  }

  /** `k` zero characters. */
  function Zeros(k: nat): (r: string)
    ensures |r| == k && AllDigits(r)
    ensures forall i :: 0 <= i < k ==> r[i] == '0'
  {
    seq(k, i => '0')
  }

  /** Leading zeros do not change the value of a digit string. */
  lemma {:induction false} ValueOfZeros(k: nat, s: string)
    requires AllDigits(s)
    ensures AllDigits(Zeros(k) + s) && ValueOf(Zeros(k) + s) == ValueOf(s)
    decreases |s|
  {
    var z := Zeros(k) + s;
    assert AllDigits(z) by {
      forall i | 0 <= i < |z| ensures IsDigit(z[i]) {
        if i >= k {
          assert z[i] == s[i - k];
        }
      }
    }
    if s == [] {
      assert z == Zeros(k);
      ZerosValue(k);
    } else {
      ValueOfZeros(k, s[..|s| - 1]);
      assert z[..|z| - 1] == Zeros(k) + s[..|s| - 1];
    }
  }

  /** A run of zeros is worth nothing. */
  lemma {:induction false} ZerosValue(k: nat)
    ensures ValueOf(Zeros(k)) == 0
  {
    if k > 0 {
      ZerosValue(k - 1);
      assert Zeros(k)[..k - 1] == Zeros(k - 1);
    }
  }

  /** Python's `f"{n:04d}"`: the decimal form of `n`, with zeros in front to
      make at least four characters. */
  function Pad4(n: nat): string {
    var d := Decimal(n);
    if |d| >= 4 then d else Zeros(4 - |d|) + d
  }

  /** The padded form is a digit string of at least four characters, exactly
      four below 10000, that reads back as `n`; a form longer than four has
      no leading zero, so from 10000 on it is the plain decimal form. */
  lemma Pad4Facts(n: nat)
    ensures AllDigits(Pad4(n)) && ValueOf(Pad4(n)) == n
    ensures |Pad4(n)| >= 4
    ensures n < 10000 ==> |Pad4(n)| == 4
    ensures |Pad4(n)| > 4 ==> Pad4(n)[0] != '0'
  {
    var d := Decimal(n);
    DecimalFacts(n);
    if |d| < 4 {
      ValueOfZeros(4 - |d|, d);
    }
  }

  const Prefix: string := "seg_"

  /** The identifier of the segment at 1-based position `n`. */
  function SegmentId(n: nat): string {
    Prefix + Pad4(n)
  }

  /** An identifier is "seg_" followed by at least four digits that read
      back as the position. */
  lemma SegmentIdParts(n: nat)
    ensures |SegmentId(n)| >= |Prefix| + 4 && SegmentId(n)[..|Prefix|] == Prefix
    ensures AllDigits(SegmentId(n)[|Prefix|..]) && ValueOf(SegmentId(n)[|Prefix|..]) == n
  {
    Pad4Facts(n);
    assert SegmentId(n)[|Prefix|..] == Pad4(n);
  }

  /** Distinct positions get distinct identifiers. */
  lemma SegmentIdInjective(i: nat, j: nat)
    requires i != j
    ensures SegmentId(i) != SegmentId(j)
  {
    SegmentIdParts(i);
    SegmentIdParts(j);
  }

  /** For digit strings of equal length, lexicographic order is the order of
      their values. */
  lemma {:induction false} LexMatchesValue(a: string, b: string)
    requires AllDigits(a) && AllDigits(b) && |a| == |b|
    ensures LexLess(a, b) <==> ValueOf(a) < ValueOf(b)
    decreases |a|
  {
    if a != [] {
      var a', b' := a[..|a| - 1], b[..|b| - 1];
      var x, y := a[|a| - 1], b[|b| - 1];
      assert a == a' + [x] && b == b' + [y];
      LexMatchesValue(a', b');
      LexMatchesValue(b', a');
      LexAppend(a', b', x, y);
      LexTotal(a', b');
    }
  }

  /** Extending two strings of equal length by one character each: the
      order is decided by the prefixes unless they are equal. */
  lemma {:induction false} LexAppend(a: string, b: string, x: char, y: char)
    requires |a| == |b|
    ensures LexLess(a + [x], b + [y]) <==> LexLess(a, b) || (a == b && x < y)
    decreases |a|
  {
    if a != [] {
      LexAppend(a[1..], b[1..], x, y);
      assert (a + [x])[1..] == a[1..] + [x];
      assert (b + [y])[1..] == b[1..] + [y];
      if a[0] == b[0] && a[1..] == b[1..] {
        assert a == [a[0]] + a[1..] && b == [b[0]] + b[1..];
      }
    } else {
      assert [x][1..] == [] && [y][1..] == [];
    }
  }

  /** A common prefix does not change the lexicographic order. */
  lemma {:induction false} LexCommonPrefix(p: string, a: string, b: string)
    ensures LexLess(p + a, p + b) <==> LexLess(a, b)
    decreases |p|
  {
    if p != [] {
      LexCommonPrefix(p[1..], a, b);
      assert (p + a)[1..] == p[1..] + a;
      assert (p + b)[1..] == p[1..] + b;
    } else {
      assert p + a == a && p + b == b;
    }
  }

  /** Up to 9999 segments, identifiers sort in segment order: the string
      order of the ids agrees with the order of the positions. */
  lemma SegmentIdsSortInOrder(i: nat, j: nat)
    requires i < 10000 && j < 10000
    ensures LexLess(SegmentId(i), SegmentId(j)) <==> i < j
  {
    Pad4Facts(i);
    Pad4Facts(j);
    LexCommonPrefix(Prefix, Pad4(i), Pad4(j));
    LexMatchesValue(Pad4(i), Pad4(j));
  }

  /** From the ten-thousandth segment on the padding no longer lines the ids
      up: "seg_10000" sorts before "seg_9999". */
  lemma SegmentIdsSortBreaksAt10000()
    ensures LexLess(SegmentId(10000), SegmentId(9999))
  {
    assert Decimal(1) == "1";
    assert Decimal(10) == "10";
    assert Decimal(100) == "100";
    assert Decimal(1000) == "1000";
    assert Decimal(10000) == "10000";
    assert Pad4(10000) == "10000";
    assert Decimal(9) == "9";
    assert Decimal(99) == "99";
    assert Decimal(999) == "999";
    assert Decimal(9999) == "9999";
    assert Pad4(9999) == "9999";
    LexCommonPrefix(Prefix, "10000", "9999");
  }
}
