/** The two-octet float of the bus: a mantissa of eleven bits and a sign, and an
    exponent of four bits. Values are counted in hundredths. */
module KnxFloat {

  function Pow2(k: nat): (p: nat)
    ensures p >= 1
  {
    if k == 0 then 1 else 2 * Pow2(k - 1)
  }

  /** How often a magnitude is halved before it is at most `limit`. */
  function Exponent(a: nat, limit: nat): nat {
    if a <= limit then 0 else 1 + Exponent(a / 2, limit)
  }

  function Mantissa(a: nat, limit: nat): nat {
    if a <= limit then a else Mantissa(a / 2, limit)
  }

  /** The greatest mantissa magnitude: negative ones reach one further. */
  function Limit(v: int): nat {
    if v < 0 then 2048 else 2047
  }

  function Abs(v: int): nat {
    if v < 0 then -v else v
  }

  function ExponentOf(v: int): nat {
    Exponent(Abs(v), Limit(v))
  }

  function SignedMantissa(v: int): int {
    if v < 0 then 0 - Mantissa(-v, 2048) else Mantissa(v, 2047)
  }

  function Rounded(v: int): int {
    SignedMantissa(v) * Pow2(ExponentOf(v))
  }

  ghost predicate Represents(w: int, m: int, e: nat) {
    -2048 <= m <= 2047 && w == m * Pow2(e)
  }

  /** Values with a mantissa in range, for some exponent. */
  ghost predicate Representable(w: int) {
    exists m, e :: Represents(w, m, e)
  }

  // -------------------------------------------------------------- rounding

  /** The magnitude that is left after halving and scaling back. */
  function Left(a: nat, limit: nat): nat {
    if a <= limit then a else 2 * Left(a / 2, limit)
  }

  lemma {:induction false} LeftIsProduct(a: nat, limit: nat)
    ensures Left(a, limit) == Mantissa(a, limit) * Pow2(Exponent(a, limit))
  {
    if a > limit {
      LeftIsProduct(a / 2, limit);
      Doubled(Mantissa(a, limit), Exponent(a / 2, limit));
    }
  }

  lemma Doubled(m: int, e: nat)
    ensures m * Pow2(e + 1) == 2 * (m * Pow2(e))
  {}

  lemma {:induction false} Halved(a: nat, limit: nat)
    requires limit >= 1
    ensures Mantissa(a, limit) <= limit && (a > limit ==> 2 * Mantissa(a, limit) >= limit)
    ensures Left(a, limit) <= a < Left(a, limit) + Pow2(Exponent(a, limit))
    ensures Left(a, limit) == 0 <==> a == 0
  {
    if a > limit {
      Halved(a / 2, limit);
    }
  }

  /** No multiple of a power of two with a mantissa in range lies between the
      magnitude that is left and the magnitude. */
  lemma {:induction false} LeftIsLargest(a: nat, limit: nat, m: nat, e: nat)
    requires 2047 <= limit <= 2048 && m <= limit && m * Pow2(e) <= a
    ensures m * Pow2(e) <= Left(a, limit)
  {
    if a > limit {
      if e == 0 {
        LeftIsLargest(a / 2, limit, 1024, 0);
      } else {
        Doubled(m, e - 1);
        LeftIsLargest(a / 2, limit, m, e - 1);
      }
    }
  }

  lemma RoundedMagnitude(v: int)
    ensures Rounded(v) == if v < 0 then 0 - Left(-v, 2048) else Left(v, 2047)
  {
    LeftIsProduct(Abs(v), Limit(v));
    if v < 0 {
      Negated(Mantissa(-v, 2048), Pow2(Exponent(-v, 2048)));
    }
  }

  lemma Negated(m: int, p: int)
    ensures (0 - m) * p == 0 - m * p
  {}

  /** Rounding cuts toward zero to the nearest representable value, and loses less
      than one unit of the exponent. */
  lemma RoundsTowardZero(v: int)
    ensures Representable(Rounded(v))
    ensures if v < 0 then v <= Rounded(v) <= 0 else 0 <= Rounded(v) <= v
    ensures Rounded(v) == 0 <==> v == 0
    ensures Abs(v - Rounded(v)) < Pow2(ExponentOf(v))
    ensures forall w :: Representable(w) && 0 <= w <= v ==> w <= Rounded(v)
    ensures forall w :: Representable(w) && v <= w <= 0 ==> Rounded(v) <= w
  {
    Halved(Abs(v), Limit(v));
    RoundedMagnitude(v);
    assert Represents(Rounded(v), SignedMantissa(v), ExponentOf(v));
    forall w | Representable(w) && 0 <= w <= v ensures w <= Rounded(v) {
      var m, e :| Represents(w, m, e);
      NoSmaller(v, w, m, e);
    }
    forall w | Representable(w) && v <= w <= 0 ensures Rounded(v) <= w {
      var m, e :| Represents(w, m, e);
      NoSmaller(v, w, m, e);
    }
  }

  lemma NoSmaller(v: int, w: int, m: int, e: nat)
    requires Represents(w, m, e)
    ensures 0 <= w <= v ==> w <= Rounded(v)
    ensures v <= w <= 0 ==> Rounded(v) <= w
  {
    RoundedMagnitude(v);
    ProductSign(m, Pow2(e));
    if 0 < w <= v {
      LeftIsLargest(v, 2047, m, e);
    }
    if v <= w < 0 {
      Negated(m, Pow2(e));
      LeftIsLargest(-v, 2048, 0 - m, e);
    }
    Halved(Abs(v), Limit(v));
  }

  lemma ProductSign(m: int, p: int)
    requires p > 0
    ensures (m * p > 0 <==> m > 0) && (m * p < 0 <==> m < 0)
  {}

  /** The rounded values are the representable ones. */
  lemma RepresentableIff(v: int)
    ensures Representable(v) <==> Rounded(v) == v
  {
    RoundsTowardZero(v);
  }

  lemma RoundedTwice(v: int)
    ensures Rounded(Rounded(v)) == Rounded(v)
  {
    RoundsTowardZero(v);
    RepresentableIff(Rounded(v));
  }

  lemma RoundedMonotone(v: int, w: int)
    requires v <= w
    ensures Rounded(v) <= Rounded(w)
  {
    RoundsTowardZero(v);
    RoundsTowardZero(w);
  }

  // ------------------------------------------------------------------ wire

  /** The third octet of a message: three mantissa bits, the exponent, the sign. */
  function HighOctet(m: int, ex: nat, negative: bool): (b: int)
    ensures 0 <= b < 256
  {
    (m / 256) % 8 + (ex % 16) * 8 + if negative then 128 else 0
  }

  function LowOctet(m: int): (b: int)
    ensures 0 <= b < 256
  {
    m % 256
  }

  /** The value two octets stand for. */
  function Decoded(high: int, low: int): int
    requires 0 <= high < 256 && 0 <= low < 256
  {
    var d := high * 256 + low;
    var m := if d / 32768 == 1 then d % 2048 - 2048 else d % 2048;
    m * Pow2((d / 2048) % 16)
  }

  function Sent(v: int): (r: (int, int))
    ensures 0 <= r.0 < 256 && 0 <= r.1 < 256
  {
    (HighOctet(SignedMantissa(v), ExponentOf(v), v < 0), LowOctet(SignedMantissa(v)))
  }

  /** Two octets carry mantissa, sign and the exponent modulo 16. */
  lemma OctetsCarry(m: int, ex: nat)
    requires -2048 <= m <= 2047
    ensures Decoded(HighOctet(m, ex, m < 0), LowOctet(m)) == m * Pow2(ex % 16)
  {
    OctetsAre(m, ex);
    DecodedAt(HighOctet(m, ex, m < 0), LowOctet(m), if m < 0 then 1 else 0, ex % 16, if m < 0 then m + 2048 else m);
    hide Decoded, HighOctet, LowOctet, Pow2;
  }

  lemma DecodedAt(high: int, low: int, s: nat, e: nat, m: nat)
    requires 0 <= high < 256 && 0 <= low < 256 && s <= 1 && e < 16 && m < 2048
    requires high * 256 + low == s * 32768 + e * 2048 + m
    ensures Decoded(high, low) == (if s == 1 then m - 2048 else m) * Pow2(e)
  {
    hide Pow2;
    FieldsApart(s, e, m);
  }

  lemma OctetsAre(m: int, ex: nat)
    requires -2048 <= m <= 2047
    ensures var s := if m < 0 then 1 else 0;
            HighOctet(m, ex, m < 0) * 256 + LowOctet(m) == s * 32768 + ex % 16 * 2048 + (m + 2048 * s)
  {
    MantissaBits(m);
  }

  lemma MantissaBits(m: int)
    requires -2048 <= m <= 2047
    ensures (m / 256) % 8 * 256 + m % 256 == if m < 0 then m + 2048 else m
  {
    var k := m / 256;
    assert -8 <= k < 8 && k % 8 == if k < 0 then k + 8 else k;
  }

  lemma FieldsApart(s: nat, e: nat, m: nat)
    requires s <= 1 && e < 16 && m < 2048
    ensures var d := s * 32768 + e * 2048 + m;
            d / 32768 == s && d % 2048 == m && (d / 2048) % 16 == e
  {
    var d := s * 32768 + e * 2048 + m;
    assert d / 2048 == s * 16 + e;
  }

  lemma {:induction false} ExponentBound(a: nat, limit: nat, k: nat)
    ensures Exponent(a, limit) <= k <==> a < (limit + 1) * Pow2(k)
    decreases k
  {
    var p := Pow2(k);
    assert (limit + 1) * p >= limit + 1;
    if k > 0 && a > limit {
      ExponentBound(a / 2, limit, k - 1);
      var q := Pow2(k - 1);
      assert (limit + 1) * (2 * q) == 2 * ((limit + 1) * q);
    }
  }

  lemma {:induction false} Pow2Grows(j: nat, k: nat)
    requires j < k
    ensures Pow2(j) < Pow2(k)
    decreases k
  {
    if j < k - 1 {
      Pow2Grows(j, k - 1);
    }
  }

  lemma MantissaLeft(v: int)
    requires ExponentOf(v) > 0
    ensures SignedMantissa(v) != 0
  {
    Halved(Abs(v), Limit(v));
  }

  lemma SignKept(v: int)
    ensures SignedMantissa(v) < 0 <==> v < 0
    ensures -2048 <= SignedMantissa(v) <= 2047
  {
    Halved(Abs(v), Limit(v));
  }

  /** The exponent fits its four bits for these values and no others. */
  lemma ExponentFitsIff(v: int)
    ensures ExponentOf(v) <= 15 <==> -67141631 <= v <= 67108863
  {
    ExponentBound(Abs(v), Limit(v), 15);
    assert Pow2(15) == 32768;
  }

  lemma SentDecoded(v: int)
    ensures Decoded(Sent(v).0, Sent(v).1) == SignedMantissa(v) * Pow2(ExponentOf(v) % 16)
  {
    hide Decoded, HighOctet, LowOctet, SignedMantissa, ExponentOf, Pow2;
    SignKept(v);
    OctetsCarry(SignedMantissa(v), ExponentOf(v));
  }

  /** The octets sent for a value stand for the rounded value, exactly when the
      exponent fits. */
  lemma SentIsRoundedIff(v: int)
    ensures Decoded(Sent(v).0, Sent(v).1) == Rounded(v) <==> -67141631 <= v <= 67108863
  {
    var m, ex := SignedMantissa(v), ExponentOf(v);
    ExponentFitsIff(v);
    SentDecoded(v);
    hide Sent, Decoded;
    if ex > 15 {
      MantissaLeft(v);
      Pow2Grows(ex % 16, ex);
    }
    hide SignedMantissa, ExponentOf, Pow2;
    DifferentProducts(m, Pow2(ex % 16), Pow2(ex));
  }

  lemma DifferentProducts(m: int, p: int, q: int)
    ensures m * p == m * q <==> m == 0 || p == q
  {
    if m != 0 && p != q {
      assert m * p - m * q == m * (p - q);
    }
  }

  // ------------------------------------------------- configured precision

  /** Integer division that truncates toward zero. */
  function TruncDiv(a: int, b: int): int
    requires b != 0
  {
    if (a < 0) == (b < 0) then Abs(a) / Abs(b) else -(Abs(a) / Abs(b))
  }

  /** The multiple of a precision that a value is set to. */
  function Snapped(v: int, precision: int): int
    requires precision != 0
  {
    TruncDiv(2 * v + (if v >= 0 then precision else -precision), 2 * precision) * precision
  }

  /** What an object with this precision stores; 0 stands for none. */
  function Stored(v: int, precision: int): int {
    if precision == 0 then Rounded(v) else Snapped(v, precision)
  }

  ghost predicate Multiple(v: int, precision: int) {
    exists k :: v == k * precision
  }

  /** How many units of a precision a value is set to. */
  function Units(v: int, precision: int): int
    requires precision > 0
  {
    var q := (2 * Abs(v) + precision) / (2 * precision);
    if v >= 0 then q else -q
  }

  lemma SnappedUnits(v: int, precision: int)
    requires precision > 0
    ensures Snapped(v, precision) == Units(v, precision) * precision
  {
    var a := 2 * v + if v >= 0 then precision else -precision;
    assert Abs(a) == 2 * Abs(v) + precision;
    assert Abs(2 * precision) == 2 * precision;
  }

  /** A positive precision rounds to the nearest multiple, halves away from zero. */
  lemma SnappedIsNearest(v: int, precision: int, k: int)
    requires precision > 0
    ensures Multiple(Snapped(v, precision), precision)
    ensures Snapped(v, precision) == k * precision <==>
            if v >= 0 then -precision <= 2 * v - 2 * (k * precision) < precision
            else -precision < 2 * v - 2 * (k * precision) <= precision
  {
    SnappedUnits(v, precision);
    var j := if v >= 0 then k else -k;
    QuotientIff(2 * Abs(v) + precision, 2 * precision, j);
    assert j * (2 * precision) == 2 * (j * precision);
    Negated(k, precision);
    SameMultiple(Units(v, precision), k, precision);
  }

  /** A negative precision, which nothing refuses, cuts one unit more toward zero. */
  lemma NegativePrecision(v: int, precision: int)
    requires precision < 0
    ensures var w, q := Snapped(v, precision), -precision;
            && (v >= 0 ==> w >= 0) && (v <= 0 ==> w <= 0)
            && if 2 * Abs(v) < q then w == 0 else 2 * Abs(w) + q <= 2 * Abs(v) < 2 * Abs(w) + 3 * q
  {
    var q, m := -precision, NegativeUnits(v, -precision);
    TruncNegative(v, precision);
    UnitsOf(m, q);
    if 2 * Abs(v) >= q {
      QuotientIff(2 * Abs(v) - q, 2 * q, m);
      TwiceProduct(m, q);
    }
    hide TruncDiv, NegativeUnits;
  }

  function NegativeUnits(v: int, q: int): int
    requires q > 0
  {
    if 2 * Abs(v) < q then 0 else Quotient(2 * Abs(v) - q, 2 * q)
  }

  function Quotient(a: nat, b: nat): (n: nat)
    requires b > 0
    ensures n == a / b
  {
    var n := a / b;
    assert n * b + a % b == a && 0 <= a % b < b;
    n
  }

  lemma TruncNegative(v: int, precision: int)
    requires precision < 0
    ensures var m := NegativeUnits(v, -precision);
            TruncDiv(2 * v + (if v >= 0 then precision else -precision), 2 * precision) == if v >= 0 then 0 - m else m
  {
    var a := 2 * v + if v >= 0 then precision else -precision;
    assert Abs(2 * precision) == 2 * -precision;
    if 2 * Abs(v) < -precision {
      SmallQuotient(Abs(a), 2 * -precision);
    } else {
      assert Abs(a) == 2 * Abs(v) - -precision;
    }
  }

  lemma SmallQuotient(a: nat, b: nat)
    requires a < b
    ensures a / b == 0
  {
  }

  lemma TwiceProduct(m: int, q: int)
    ensures m * (2 * q) == 2 * (m * q)
  {
  }

  lemma UnitsOf(k: int, q: int)
    requires k >= 0 && q >= 0
    ensures k * q >= 0 && (0 - k) * (0 - q) == k * q && k * (0 - q) == 0 - k * q
  {
  }

  lemma QuotientIff(a: nat, d: nat, k: int)
    requires d > 0
    ensures a / d == k <==> k * d <= a < k * d + d
  {
    var q := a / d;
    assert q * d <= a < q * d + d;
    if q < k {
      TimesMonotone(q + 1, k, d);
    } else if k < q {
      TimesMonotone(k + 1, q, d);
    }
  }

  lemma TimesMonotone(j: int, k: int, d: int)
    requires j <= k && d >= 0
    ensures j * d <= k * d
    ensures j * d == (j - 1) * d + d
  {
    assert (k - j) * d >= 0;
  }

  lemma SameMultiple(j: int, k: int, p: int)
    requires p > 0
    ensures j * p == k * p <==> j == k
  {
    if j != k {
      assert j * p - k * p == (j - k) * p;
    }
  }

  /** An object that receives back what it sent for its own value sees no change:
      always when it stores rounded values, and with a precision exactly when half
      a unit of it covers what the bus format loses. */
  lemma EchoUnchangedIff(v: int, precision: int)
    requires precision >= 0 && -67141631 <= v <= 67108863
    requires if precision == 0 then Representable(v) else Multiple(v, precision)
    ensures Stored(Decoded(Sent(v).0, Sent(v).1), precision) == v
            <==> precision == 0 || 2 * Abs(v - Rounded(v)) <= precision
  {
    SentIsRoundedIff(v);
    RepresentableIff(v);
    if precision > 0 {
      var k :| v == k * precision;
      RoundsTowardZero(v);
      SnappedBack(v, Rounded(v), precision, k);
    }
  }

  lemma SnappedBack(v: int, w: int, precision: int, k: int)
    requires precision > 0 && v == k * precision
    requires w < 0 <==> v < 0
    requires if v < 0 then v <= w else w <= v
    ensures Snapped(w, precision) == v <==> 2 * Abs(v - w) <= precision
  {
    SnappedIsNearest(w, precision, k);
    hide Snapped, Multiple;
  }

  // ---------------------------------------------------------- value object

  method RoundToKnxPrecision(value: int) returns (rounded: int)
    ensures rounded == Rounded(value)
  {
    var ex, m := 0, value;
    if m < 0 {
      m := -m;
      while m > 2048
        invariant m >= 0 && ex >= 0
        invariant Mantissa(m, 2048) == Mantissa(-value, 2048)
        invariant ex + Exponent(m, 2048) == Exponent(-value, 2048)
      {
        m := m / 2;
        ex := ex + 1;
      }
      m := -m;
    } else {
      while m > 2047
        invariant m >= 0 && ex >= 0
        invariant Mantissa(m, 2047) == Mantissa(value, 2047)
        invariant ex + Exponent(m, 2047) == Exponent(value, 2047)
      {
        m := m / 2;
        ex := ex + 1;
      }
    }
    rounded := m * Pow2(ex);
  }

  class ValueObject {
    /** The value, and the precision it is stored with (0 for none). */
    var value: int
    var precision: int
    var forceUpdate: bool

    /** Stores a value; tells whether it differs from the one before. */
    method SetValue(value: int) returns (changed: bool)
      modifies this`value
      ensures this.value == Stored(value, precision)
      ensures changed <==> this.value != old(this.value)
    {
      var v;
      if precision != 0 {
        var div := TruncDiv(2 * value + (if value >= 0 then precision else -precision), 2 * precision);
        v := div * precision;
      } else {
        v := RoundToKnxPrecision(value);
      }
      changed := this.value != v;
      this.value := v;
    }

    /** A message from the bus; `updated` tells whether listeners are told. */
    method DoWrite(buf: seq<int>) returns (updated: bool)
      requires forall i | 0 <= i < |buf| :: 0 <= buf[i] < 256
      modifies this`value
      ensures |buf| < 4 ==> value == old(value) && !updated
      ensures |buf| >= 4 ==> value == Stored(Decoded(buf[2], buf[3]), precision)
                             && (updated <==> value != old(value) || forceUpdate)
    {
      if |buf| < 4 {
        return false;
      }
      var d := buf[2] * 256 + buf[3];
      var m := d % 2048;
      if d / 32768 == 1 {
        m := m - 2048;
      }
      var ex := (d / 2048) % 16;
      var changed := SetValue(m * Pow2(ex));
      updated := changed || forceUpdate;
    }

    /** The message for the value. */
    method DoSend(isWrite: bool) returns (buf: seq<int>)
      ensures buf == [0, if isWrite then 0x80 else 0x40, Sent(value).0, Sent(value).1]
    {
      var high;
      var ex, m := 0, value;
      if m < 0 {
        m := -m;
        while m > 2048
          invariant m >= 0 && ex >= 0
          invariant Mantissa(m, 2048) == Mantissa(-value, 2048)
          invariant ex + Exponent(m, 2048) == Exponent(-value, 2048)
        {
          m := m / 2;
          ex := ex + 1;
        }
        m := -m;
        high := (m / 256) % 8 + (ex % 16) * 8 + 128;
      } else {
        while m > 2047
          invariant m >= 0 && ex >= 0
          invariant Mantissa(m, 2047) == Mantissa(value, 2047)
          invariant ex + Exponent(m, 2047) == Exponent(value, 2047)
        {
          m := m / 2;
          ex := ex + 1;
        }
        high := (m / 256) % 8 + (ex % 16) * 8;
      }
      buf := [0, if isWrite then 0x80 else 0x40, high, m % 256];
    }
  }
}
