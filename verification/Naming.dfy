/** Fixed-width serial numbers of migration files (src/naming.ts:97-136, 161-163). */
module Naming {
  import opened Names

  predicate IsDigit(c: char) {
    '0' <= c <= '9'
  }

  predicate AllDigits(s: string) {
    forall k :: 0 <= k < |s| ==> IsDigit(s[k])
  }

  function DigitValue(c: char): (d: nat)
    requires IsDigit(c)
    ensures d < 10
  {
    c as int - '0' as int
  }

  function DigitChar(d: nat): (c: char)
    requires d < 10
    ensures IsDigit(c) && DigitValue(c) == d
  {
    ('0' as int + d) as char
  }

  function Pow10(n: nat): (p: nat)
    ensures p >= 1
  {
    if n == 0 then 1 else 10 * Pow10(n - 1)
  }

  /** parseInt on a string of digits. */
  function Value(s: string): nat
    requires AllDigits(s)
  {
    if s == "" then 0 else DigitValue(s[0]) * Pow10(|s| - 1) + Value(s[1..])
  }

  /** String(n). */
  function Decimal(n: nat): (s: string)
    ensures s != "" && AllDigits(s)
  {
    if n < 10 then [DigitChar(n)] else Decimal(n / 10) + [DigitChar(n % 10)]
  }

  function PadStart(s: string, width: nat): string
    decreases width - |s|
  {
    if |s| >= width then s else PadStart("0" + s, width)
  }

  /** A timestamp that the file-name pattern accepts in serial mode (src/naming.ts:33-36): exactly width digits. */
  predicate IsSerial(s: string, width: nat) {
    |s| == width && AllDigits(s)
  }

  lemma Scale(d: nat, e: nat, p: nat, v: nat, w: nat)
    requires d < e && v < p
    ensures d * p + v < e * p + w
  {
    assert (d + 1) * p <= e * p;
  }

  lemma {:induction false} ValueBound(s: string)
    requires AllDigits(s)
    ensures Value(s) < Pow10(|s|)
  {
    if s != "" {
      ValueBound(s[1..]);
      Scale(DigitValue(s[0]), 10, Pow10(|s| - 1), Value(s[1..]), 0);
    }
  }

  /** On digit strings of one length the string order is the numeric order. */
  lemma {:induction false} OrderIsNumeric(a: string, b: string)
    requires AllDigits(a) && AllDigits(b) && |a| == |b|
    ensures Less(a, b) <==> Value(a) < Value(b)
  {
    if a != "" {
      var p := Pow10(|a| - 1);
      ValueBound(a[1..]);
      ValueBound(b[1..]);
      OrderIsNumeric(a[1..], b[1..]);
      if a[0] < b[0] {
        Scale(DigitValue(a[0]), DigitValue(b[0]), p, Value(a[1..]), Value(b[1..]));
      } else if b[0] < a[0] {
        Scale(DigitValue(b[0]), DigitValue(a[0]), p, Value(b[1..]), Value(a[1..]));
      }
    }
  }

  lemma {:induction false} ValueAppend(s: string, c: char)
    requires AllDigits(s) && IsDigit(c)
    ensures AllDigits(s + [c]) && Value(s + [c]) == 10 * Value(s) + DigitValue(c)
  {
    if s == "" {
      assert s + [c] == [c] && [c][1..] == "";
    } else {
      ValueAppend(s[1..], c);
      assert (s + [c])[1..] == s[1..] + [c];
      var d, p := DigitValue(s[0]), Pow10(|s| - 1);
      assert d * (10 * p) == 10 * (d * p);
    }
  }

  lemma {:induction false} DecimalValue(n: nat)
    ensures Value(Decimal(n)) == n
  {
    if n < 10 {
      ValueAppend("", DigitChar(n));
      assert "" + [DigitChar(n)] == [DigitChar(n)];
    } else {
      DecimalValue(n / 10);
      ValueAppend(Decimal(n / 10), DigitChar(n % 10));
    }
  }

  lemma {:induction false} DecimalLength(n: nat, width: nat)
    requires width >= 1
    ensures |Decimal(n)| <= width <==> n < Pow10(width)
    decreases n
  {
    assert Pow10(width) == 10 * Pow10(width - 1);
    if n >= 10 {
      if width == 1 {
        assert Pow10(1) == 10 * Pow10(0);
      } else {
        DecimalLength(n / 10, width - 1);
        assert n < 10 * Pow10(width - 1) <==> n / 10 < Pow10(width - 1);
      }
    }
  }

  lemma ValueOfPadded(s: string)
    requires AllDigits(s)
    ensures AllDigits("0" + s) && Value("0" + s) == Value(s)
  {
    assert ("0" + s)[1..] == s && ("0" + s)[0] == '0';
    assert 0 * Pow10(|s|) == 0;
  }

  lemma {:induction false} PadKeepsValue(s: string, width: nat)
    requires AllDigits(s)
    ensures AllDigits(PadStart(s, width)) && Value(PadStart(s, width)) == Value(s)
    ensures |PadStart(s, width)| == if |s| >= width then |s| else width
    decreases width - |s|
  {
    if |s| < width {
      ValueOfPadded(s);
      PadKeepsValue("0" + s, width);
    }
  }

  ghost predicate AllSerial(existing: seq<string>, width: nat) {
    forall k :: 0 <= k < |existing| ==> IsSerial(existing[k], width)
  }

  /** The largest existing number, 0 when there is none. */
  ghost predicate IsMax(existing: seq<string>, width: nat, m: nat)
    requires AllSerial(existing, width)
  {
    && (forall k :: 0 <= k < |existing| ==> Value(existing[k]) <= m)
    && (m == 0 || exists k :: 0 <= k < |existing| && Value(existing[k]) == m)
  }

  ghost predicate SortsAfterAll(existing: seq<string>, next: string) {
    forall k :: 0 <= k < |existing| ==> Less(existing[k], next)
  }

  /** The largest number of the given width is written with nines only. */
  lemma {:induction false} StartsWithNine(s: string)
    requires s != "" && AllDigits(s) && Value(s) + 1 == Pow10(|s|)
    ensures s[0] == '9'
  {
    ValueBound(s[1..]);
    var d, p := DigitValue(s[0]), Pow10(|s| - 1);
    if d < 9 { Scale(d, 9, p, Value(s[1..]), 0); }
  }

  lemma {:induction false} OverflowStartsWithOne(width: nat)
    ensures Decimal(Pow10(width))[0] == '1'
  {
    if width > 0 {
      OverflowStartsWithOne(width - 1);
      assert Pow10(width) / 10 == Pow10(width - 1) && Pow10(width) >= 10;
    } else {
      assert Decimal(1) == [DigitChar(1)];
    }
  }

  lemma FitsFollows(s: string, width: nat, next: string)
    requires IsSerial(s, width) && IsSerial(next, width) && Value(s) < Value(next)
    ensures Less(s, next)
  {
    OrderIsNumeric(s, next);
  }

  /** One digit more than the width sorts before the largest serial of that width. */
  lemma OverflowPrecedes(s: string, width: nat)
    requires width >= 1 && IsSerial(s, width) && Value(s) + 1 == Pow10(width)
    ensures Less(Decimal(Pow10(width)), s)
  {
    StartsWithNine(s);
    OverflowStartsWithOne(width);
  }

  /** The new serial follows every existing one exactly when it still fits the width. */
  lemma FollowsExactlyIfFits(existing: seq<string>, width: nat, m: nat, next: string)
    requires width >= 1 && AllSerial(existing, width)
    requires IsMax(existing, width, m) && next == PadStart(Decimal(m + 1), width)
    ensures AllDigits(next) && Value(next) == m + 1
    ensures IsSerial(next, width) <==> m + 1 < Pow10(width)
    ensures SortsAfterAll(existing, next) <==> m + 1 < Pow10(width)
  {
    DecimalValue(m + 1);
    DecimalLength(m + 1, width);
    PadKeepsValue(Decimal(m + 1), width);
    if m + 1 < Pow10(width) {
      forall k | 0 <= k < |existing| ensures Less(existing[k], next) { FitsFollows(existing[k], width, next); }
    } else {
      assert Pow10(width) == 10 * Pow10(width - 1);
      var k :| 0 <= k < |existing| && Value(existing[k]) == m;
      ValueBound(existing[k]);
      OverflowPrecedes(existing[k], width);
      LessIsAsymmetric(next, existing[k]);
    }
  }

  /**
   * The next serial parses back to the largest existing number plus one. It has the fixed width,
   * so that the scan finds the new file, and sorts after every existing serial, exactly while that
   * number is below ten to the width.
   */
  method NextSerialNumber(width: nat, existing: seq<string>) returns (next: string, ghost m: nat)
    requires width >= 1 && AllSerial(existing, width)
    ensures IsMax(existing, width, m)
    ensures AllDigits(next) && Value(next) == m + 1
    ensures IsSerial(next, width) <==> m + 1 < Pow10(width)
    ensures SortsAfterAll(existing, next) <==> m + 1 < Pow10(width)
  {
    var maxNum := 0;
    for i := 0 to |existing|
      invariant AllSerial(existing[..i], width) && IsMax(existing[..i], width, maxNum)
    {
      assert existing[..i + 1] == existing[..i] + [existing[i]];
      assert IsSerial(existing[i], width);
      var num := Value(existing[i]);
      if num > maxNum { maxNum := num; }
    }
    assert existing[..|existing|] == existing;
    next := PadStart(Decimal(maxNum + 1), width);
    m := maxNum;
    FollowsExactlyIfFits(existing, width, maxNum, next);
  }
}
