/** The two key orders in standard terms: bytes for Rust, and for JavaScript array indices by
    number and then the other keys by UTF-16 code unit, though the model holds UTF-8.  Nothing here
    is used by the canonicalisation itself. */
module KeyOrders {
  import opened Texts
  import opened Json

  // ---------------------------------------------------------------------------------------
  // The first difference
  // ---------------------------------------------------------------------------------------

  lemma {:induction false} LexAt(o: KeyOrder, a: string, b: string, k: nat)
    requires k <= |a| && k <= |b| && a[..k] == b[..k] && (k < |a| && k < |b| ==> a[k] != b[k])
    requires k < |a| || k < |b|
    ensures LexLess(o, a, b) <==> k < |b| && (k == |a| || Rank(o, a[k]) < Rank(o, b[k]))
  {
    if k > 0 {
      assert a[0] == a[..k][0] == b[..k][0] == b[0];
      assert a[1..][..k - 1] == a[..k][1..] && b[1..][..k - 1] == b[..k][1..];
      LexAt(o, a[1..], b[1..], k - 1);
    }
  }

  lemma {:induction false} Difference(a: string, b: string) returns (k: nat)
    requires a != b
    ensures k <= |a| && k <= |b| && a[..k] == b[..k] && (k < |a| || k < |b|) && (k < |a| && k < |b| ==> a[k] != b[k])
  {
    if a == [] || b == [] || a[0] != b[0] { return 0; }
    assert a == [a[0]] + a[1..] && b == [b[0]] + b[1..];
    k := Difference(a[1..], b[1..]);
    k := k + 1;
    assert a[..k] == [a[0]] + a[1..][..k - 1] && b[..k] == [b[0]] + b[1..][..k - 1];
  }

  /** The first byte in which they differ decides; a proper prefix comes first. */
  ghost predicate DiffersAt(a: string, b: string, k: nat) {
    k <= |a| && k < |b| && a[..k] == b[..k] && (k == |a| || a[k] < b[k])
  }

  lemma ByteOrderExact(a: string, b: string)
    ensures Less(ByteOrder, a, b) <==> exists k :: DiffersAt(a, b, k)
  {
    forall k | DiffersAt(a, b, k) ensures Less(ByteOrder, a, b) { LexAt(ByteOrder, a, b, k); }
    if a != b {
      var k := Difference(a, b);
      LexAt(ByteOrder, a, b, k);
      if Less(ByteOrder, a, b) { assert DiffersAt(a, b, k); }
    } else {
      LexTotal(ByteOrder, a, b);
    }
  }

  // ---------------------------------------------------------------------------------------
  // Array indices
  // ---------------------------------------------------------------------------------------

  predicate Shorter(a: string, b: string) { |a| < |b| || (|a| == |b| && LexLess(ByteOrder, a, b)) }

  lemma {:induction false} LexSnoc(a: string, x: char, b: string, y: char)
    requires |a| == |b|
    ensures LexLess(ByteOrder, a + [x], b + [y]) <==> LexLess(ByteOrder, a, b) || (a == b && x < y)
  {
    if a != b {
      var k := Difference(a, b);
      LexAt(ByteOrder, a, b, k);
      assert (a + [x])[..k] == a[..k] && (b + [y])[..k] == b[..k];
      LexAt(ByteOrder, a + [x], b + [y], k);
    } else {
      LexTotal(ByteOrder, a, b);
      if x != y { LexAt(ByteOrder, a + [x], b + [y], |a|); } else { LexTotal(ByteOrder, a + [x], b + [y]); }
    }
  }

  lemma ShorterSnoc(a: string, x: char, b: string, y: char)
    ensures Shorter(a + [x], b + [y]) <==> Shorter(a, b) || (a == b && x < y)
  {
    if |a| == |b| { LexSnoc(a, x, b, y); }
  }

  lemma Digits(m: nat, n: nat)
    ensures m < n <==> m / 10 < n / 10 || (m / 10 == n / 10 && Digit(m % 10) < Digit(n % 10))
  {
  }

  lemma DecimalSnoc(n: nat)
    ensures |Decimal(n)| >= 1 && (n >= 10 ==> Decimal(n) == Decimal(n / 10) + [Digit(n % 10)] && |Decimal(n)| >= 2)
  {
    if n >= 10 { assert |Decimal(n / 10)| >= 1; }
  }

  /** Numerals compare by length and then digit by digit as the numbers do. */
  lemma {:induction false} DecimalOrder(m: nat, n: nat)
    ensures Shorter(Decimal(m), Decimal(n)) <==> m < n
  {
    DecimalSnoc(m);
    DecimalSnoc(n);
    if m < 10 && n < 10 {
      LexSnoc([], Digit(m), [], Digit(n));
      assert [] + [Digit(m)] == [Digit(m)] && [] + [Digit(n)] == [Digit(n)];
    } else if m >= 10 && n >= 10 {
      DecimalOrder(m / 10, n / 10);
      DecimalIntInjective(m / 10, n / 10);
      ShorterSnoc(Decimal(m / 10), Digit(m % 10), Decimal(n / 10), Digit(n % 10));
      Digits(m, n);
    }
  }

  lemma DecimalOfSnoc(w: nat, c: char)
    requires w > 0 && IsDigit(c)
    ensures Decimal(10 * w + (c as int - '0' as int)) == Decimal(w) + [c]
  {
    var d := c as int - '0' as int;
    var v := 10 * w + d;
    assert v / 10 == w && v % 10 == d && Digit(d) == c;
  }

  lemma {:induction false} DecimalOfDigits(k: string)
    requires k != [] && AllDigits(k) && (k[0] != '0' || |k| == 1)
    ensures Decimal(DigitsValue(k)) == k && (k[0] != '0' ==> DigitsValue(k) > 0)
  {
    var init, last := k[..|k| - 1], k[|k| - 1];
    assert k == init + [last] && IsDigit(last);
    ValueSnoc(init, last);
    if |k| > 1 {
      DecimalOfDigits(init);
      DecimalOfSnoc(DigitsValue(init), last);
    } else {
      OneDigit(last);
    }
  }

  lemma OneDigit(c: char)
    requires IsDigit(c)
    ensures DigitsValue([]) == 0 && Decimal(c as int - '0' as int) == [c]
  {
  }

  lemma LastIndex()
    ensures Decimal(4294967294) == "4294967294"
  {
    assert Decimal(4) == "4" && Decimal(42) == "42" && Decimal(429) == "429";
    assert Decimal(4294) == "4294";
    assert Decimal(42949) == "42949";
    assert Decimal(429496) == "429496";
    assert Decimal(4294967) == "4294967";
    assert Decimal(42949672) == "42949672";
    assert Decimal(429496729) == "429496729";
  }

  lemma DecimalCanonical(n: nat)
    ensures var k := Decimal(n); k != [] && AllDigits(k) && (k[0] != '0' || |k| == 1)
  {
    DecimalRoundTrip(n);
    LeadingDigit(n);
  }

  lemma {:induction false} LeadingDigit(n: nat)
    ensures Decimal(n) != [] && (n > 0 ==> Decimal(n)[0] != '0') && (n < 10 ==> |Decimal(n)| == 1)
  {
    if n >= 10 { LeadingDigit(n / 10); }
  }

  ghost predicate IsIndex(k: string) { exists n: nat :: n < 4294967295 && k == Decimal(n) }

  /** The keys that JavaScript enumerates first are the numerals below 2^32 - 1. */
  lemma IndexLikeExact(k: string)
    ensures IndexLike(k) <==> IsIndex(k)
  {
    LastIndex();
    if k != [] && AllDigits(k) && (k[0] != '0' || |k| == 1) {
      DecimalOfDigits(k);
      IndexOf(DigitsValue(k));
    }
    forall n: nat | k == Decimal(n) ensures k != [] && AllDigits(k) && (k[0] != '0' || |k| == 1) && DigitsValue(k) == n {
      DecimalCanonical(n);
      DecimalRoundTrip(n);
    }
  }

  lemma IndexOf(n: nat)
    ensures IndexLike(Decimal(n)) <==> n < 4294967295
  {
    LastIndex();
    DecimalCanonical(n);
    DecimalOrder(4294967294, n);
    DecimalOrder(n, 4294967294);
    var k := Decimal(n);
    assert forall i | 0 <= i < |k| :: IsDigit(k[i]);
  }

  /** Index keys come first, by number. */
  lemma IndexOrder(m: nat, n: nat)
    requires m < 4294967295 && n < 4294967295
    ensures Less(JsOrder, Decimal(m), Decimal(n)) <==> m < n
  {
    IndexOf(m);
    IndexOf(n);
    DecimalOrder(m, n);
  }

  // ---------------------------------------------------------------------------------------
  // UTF-16 code units
  // ---------------------------------------------------------------------------------------

  predicate Scalar(c: nat) { c < 0xD800 || 0xE000 <= c < 0x11_0000 }

  predicate Scalars(s: seq<nat>) { forall i | 0 <= i < |s| :: Scalar(s[i]) }

  /** The UTF-8 bytes of a Unicode scalar value. */
  function Bytes(c: nat): string
    requires Scalar(c)
  {
    if c < 0x80 then [c as char]
    else if c < 0x800 then [(0xC0 + c / 64) as char, (0x80 + c % 64) as char]
    else if c < 0x1_0000 then [(0xE0 + c / 4096) as char, (0x80 + c / 64 % 64) as char, (0x80 + c % 64) as char]
    else [(0xF0 + c / 262144) as char, (0x80 + c / 4096 % 64) as char, (0x80 + c / 64 % 64) as char, (0x80 + c % 64) as char]
  }

  /** And its UTF-16 code units. */
  function Units(c: nat): seq<nat>
    requires Scalar(c)
  {
    if c < 0x1_0000 then [c] else [0xD800 + (c - 0x1_0000) / 1024, 0xDC00 + (c - 0x1_0000) % 1024]
  }

  function Utf8(s: seq<nat>): string
    requires Scalars(s)
  {
    if s == [] then [] else Bytes(s[0]) + Utf8(s[1..])
  }

  function Utf16(s: seq<nat>): seq<nat>
    requires Scalars(s)
  {
    if s == [] then [] else Units(s[0]) + Utf16(s[1..])
  }

  /** The order of JavaScript strings: code unit by code unit. */
  predicate UnitsBefore(a: seq<nat>, b: seq<nat>) {
    b != [] && (a == [] || a[0] < b[0] || (a[0] == b[0] && UnitsBefore(a[1..], b[1..])))
  }

  /** Both encodings order single characters alike: U+E000..U+FFFF come last. */
  function Place(c: nat): nat { if 0xE000 <= c < 0x1_0000 then c + 0x20_0000 else c }

  lemma TwoBytes(c: nat, d: nat)
    ensures c < d <==> c / 64 < d / 64 || (c / 64 == d / 64 && c % 64 < d % 64)
    ensures c == d <==> c / 64 == d / 64 && c % 64 == d % 64
  {
  }

  /** Where the encodings of two characters of the same length first differ, and how. */
  ghost predicate SplitAt(a: string, b: string, k: nat, less: bool) {
    && k < |a| && k < |b| && a[..k] == b[..k] && a[k] != b[k]
    && (Rank(JsOrder, a[k]) < Rank(JsOrder, b[k]) <==> less)
  }

  lemma ShortDiffer(c: nat, d: nat) returns (k: nat)
    requires c < 0x800 && d < 0x800 && c != d
    ensures SplitAt(Bytes(c), Bytes(d), k, c < d)
  {
    TwoBytes(c, d);
    k := if |Bytes(c)| == |Bytes(d)| == 2 && c / 64 == d / 64 then 1 else 0;
  }

  lemma ThreeDiffer(c: nat, d: nat) returns (k: nat)
    requires Scalar(c) && Scalar(d) && 0x800 <= c < 0x1_0000 && 0x800 <= d < 0x1_0000 && c != d
    ensures SplitAt(Bytes(c), Bytes(d), k, Place(c) < Place(d))
  {
    TwoBytes(c, d);
    TwoBytes(c / 64, d / 64);
    assert c / 64 / 64 == c / 4096 && d / 64 / 64 == d / 4096;
    k := if c / 4096 != d / 4096 then 0 else if c / 64 != d / 64 then 1 else 2;
  }

  lemma FourDiffer(c: nat, d: nat) returns (k: nat)
    requires 0x1_0000 <= c < 0x11_0000 && 0x1_0000 <= d < 0x11_0000 && c != d
    ensures SplitAt(Bytes(c), Bytes(d), k, c < d)
  {
    TwoBytes(c, d);
    TwoBytes(c / 64, d / 64);
    TwoBytes(c / 4096, d / 4096);
    assert c / 64 / 64 == c / 4096 && d / 64 / 64 == d / 4096;
    assert c / 4096 / 64 == c / 262144 && d / 4096 / 64 == d / 262144;
    k := if c / 262144 != d / 262144 then 0 else if c / 4096 != d / 4096 then 1 else if c / 64 != d / 64 then 2 else 3;
  }

  lemma LengthsDiffer(c: nat, d: nat)
    requires Scalar(c) && Scalar(d) && |Bytes(c)| != |Bytes(d)|
    ensures SplitAt(Bytes(c), Bytes(d), 0, Place(c) < Place(d))
  {
  }

  lemma BytesDiffer(c: nat, d: nat) returns (k: nat)
    requires Scalar(c) && Scalar(d) && c != d
    ensures SplitAt(Bytes(c), Bytes(d), k, Place(c) < Place(d))
  {
    if |Bytes(c)| != |Bytes(d)| {
      k := 0;
      LengthsDiffer(c, d);
    } else if c < 0x800 {
      k := ShortDiffer(c, d);
    } else if c < 0x1_0000 {
      k := ThreeDiffer(c, d);
    } else {
      k := FourDiffer(c, d);
    }
  }

  lemma {:induction false} SamePrefix(o: KeyOrder, p: string, a: string, b: string)
    ensures LexLess(o, p + a, p + b) <==> LexLess(o, a, b)
  {
    if p == [] {
      assert p + a == a && p + b == b;
    } else {
      assert (p + a)[1..] == p[1..] + a && (p + b)[1..] == p[1..] + b;
      SamePrefix(o, p[1..], a, b);
    }
  }

  lemma BytesDecide(c: nat, x: string, d: nat, y: string)
    requires Scalar(c) && Scalar(d) && c != d
    ensures LexLess(JsOrder, Bytes(c) + x, Bytes(d) + y) <==> Place(c) < Place(d)
  {
    var k := BytesDiffer(c, d);
    var a, b := Bytes(c) + x, Bytes(d) + y;
    assert a[..k] == Bytes(c)[..k] && b[..k] == Bytes(d)[..k] && a[k] == Bytes(c)[k] && b[k] == Bytes(d)[k];
    LexAt(JsOrder, a, b, k);
  }

  lemma UnitsDecide(c: nat, x: seq<nat>, d: nat, y: seq<nat>)
    requires Scalar(c) && Scalar(d) && c != d
    ensures UnitsBefore(Units(c) + x, Units(d) + y) <==> Place(c) < Place(d)
  {
    var a, b := Units(c) + x, Units(d) + y;
    if c >= 0x1_0000 && d >= 0x1_0000 {
      assert a[1..][0] == Units(c)[1] && b[1..][0] == Units(d)[1];
    }
  }

  lemma SameUnits(c: nat, x: seq<nat>, y: seq<nat>)
    requires Scalar(c)
    ensures UnitsBefore(Units(c) + x, Units(c) + y) <==> UnitsBefore(x, y)
  {
    var a, b := Units(c) + x, Units(c) + y;
    if c < 0x1_0000 {
      assert a[1..] == x && b[1..] == y;
    } else {
      assert a[1..][1..] == x && b[1..][1..] == y && a[1..][0] == b[1..][0];
    }
  }

  /** Comparing UTF-8 bytes with the two lead bytes moved is comparing UTF-16 code units. */
  lemma {:induction false} CodeUnitOrder(s: seq<nat>, t: seq<nat>)
    requires Scalars(s) && Scalars(t)
    ensures LexLess(JsOrder, Utf8(s), Utf8(t)) <==> UnitsBefore(Utf16(s), Utf16(t))
  {
    if s != [] && t != [] {
      if s[0] == t[0] {
        CodeUnitOrder(s[1..], t[1..]);
        SamePrefix(JsOrder, Bytes(s[0]), Utf8(s[1..]), Utf8(t[1..]));
        SameUnits(s[0], Utf16(s[1..]), Utf16(t[1..]));
      } else {
        BytesDecide(s[0], Utf8(s[1..]), t[0], Utf8(t[1..]));
        UnitsDecide(s[0], Utf16(s[1..]), t[0], Utf16(t[1..]));
      }
    }
  }

  /** JavaScript's enumeration order after a sort: indices by number, then by code unit. */
  lemma JsOrderExact(s: seq<nat>, t: seq<nat>)
    requires Scalars(s) && Scalars(t)
    ensures !IsIndex(Utf8(s)) && !IsIndex(Utf8(t)) ==>
              (Less(JsOrder, Utf8(s), Utf8(t)) <==> UnitsBefore(Utf16(s), Utf16(t)))
    ensures IsIndex(Utf8(s)) && !IsIndex(Utf8(t)) ==> Less(JsOrder, Utf8(s), Utf8(t)) && !Less(JsOrder, Utf8(t), Utf8(s))
    ensures forall m: nat, n: nat | m < 4294967295 && n < 4294967295 :: Less(JsOrder, Decimal(m), Decimal(n)) <==> m < n
  {
    IndexLikeExact(Utf8(s));
    IndexLikeExact(Utf8(t));
    CodeUnitOrder(s, t);
    forall m: nat, n: nat | m < 4294967295 && n < 4294967295 ensures Less(JsOrder, Decimal(m), Decimal(n)) <==> m < n {
      IndexOrder(m, n);
    }
  }
}
