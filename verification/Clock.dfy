/**
 Instants as the store writes them: UTC time rendered by Go's RFC3339Nano layout and
 compared as text by the database. The calendar is modelled as ordered fields with a
 successor second; counting days in closed form is the reference that it is proved against.
 */
module Clock {
  // ---------------------------------------------------------------- text order

  /** Byte order of text columns. */
  predicate Less(a: string, b: string) {
    |b| > 0 && (|a| == 0 || a[0] < b[0] || (a[0] == b[0] && Less(a[1..], b[1..])))
  }

  lemma {:induction false} LessIrreflexive(a: string)
    ensures !Less(a, a)
  {
    if |a| > 0 { LessIrreflexive(a[1..]); }
  }

  lemma {:induction false} LessTransitive(a: string, b: string, c: string)
    requires Less(a, b) && Less(b, c)
    ensures Less(a, c)
  {
    if |a| > 0 && a[0] == b[0] == c[0] { LessTransitive(a[1..], b[1..], c[1..]); }
  }

  lemma {:induction false} LessTotal(a: string, b: string)
    ensures a == b || Less(a, b) || Less(b, a)
  {
    if |a| > 0 && |b| > 0 && a[0] == b[0] {
      LessTotal(a[1..], b[1..]);
      assert a == [a[0]] + a[1..] && b == [b[0]] + b[1..];
    }
  }

  /** With equal-length heads the heads decide, and the tails break a tie. */
  lemma {:induction false} LessAfterHeads(a: string, b: string, x: string, y: string)
    requires |a| == |b|
    ensures Less(a + x, b + y) <==> Less(a, b) || (a == b && Less(x, y))
  {
    if |a| == 0 {
      assert a + x == x && b + y == y;
    } else {
      assert (a + x)[1..] == a[1..] + x && (b + y)[1..] == b[1..] + y;
      LessAfterHeads(a[1..], b[1..], x, y);
      assert a == [a[0]] + a[1..] && b == [b[0]] + b[1..];
    }
  }

  // ------------------------------------------------------------ decimal fields

  function Digit(d: nat): char
    requires d < 10
  {
    ('0' as int + d) as char
  }

  function Pow10(w: nat): nat {
    if w == 0 then 1 else 10 * Pow10(w - 1)
  }

  /** n in exactly w decimal digits, zero-padded on the left. */
  function Pad(n: nat, w: nat): (s: string)
    ensures |s| == w
  {
    if w == 0 then "" else Pad(n / 10, w - 1) + [Digit(n % 10)]
  }

  lemma {:induction false} PadOrder(m: nat, n: nat, w: nat)
    requires m < Pow10(w) && n < Pow10(w)
    ensures Less(Pad(m, w), Pad(n, w)) <==> m < n
    ensures Pad(m, w) == Pad(n, w) <==> m == n
  {
    if w > 0 {
      PadOrder(m / 10, n / 10, w - 1);
      LessAfterHeads(Pad(m / 10, w - 1), Pad(n / 10, w - 1), [Digit(m % 10)], [Digit(n % 10)]);
      assert Pad(m, w)[..w - 1] == Pad(m / 10, w - 1) && Pad(n, w)[..w - 1] == Pad(n / 10, w - 1);
      assert Pad(m, w)[w - 1] == Digit(m % 10) && Pad(n, w)[w - 1] == Digit(n % 10);
    }
  }

  lemma {:induction false} PadDigits(n: nat, w: nat)
    ensures Digits(Pad(n, w))
  {
    if w > 0 { PadDigits(n / 10, w - 1); }
  }

  /** A fixed-width field, its separator, and the text that follows. */
  function Field(n: nat, w: nat, separator: string, rest: string): string {
    Pad(n, w) + (separator + rest)
  }

  lemma FieldOrder(m: nat, n: nat, w: nat, separator: string, x: string, y: string)
    requires m < Pow10(w) && n < Pow10(w)
    ensures Less(Field(m, w, separator, x), Field(n, w, separator, y)) <==> m < n || (m == n && Less(x, y))
  {
    PadOrder(m, n, w);
    LessAfterHeads(Pad(m, w), Pad(n, w), separator + x, separator + y);
    LessAfterHeads(separator, separator, x, y);
    LessIrreflexive(separator);
  }

  // ------------------------------------------------------------------ calendar

  datatype Instant = Instant(
    year: nat, month: nat, day: nat, hour: nat, minute: nat, second: nat, nano: nat)
  {
    predicate Valid() {
      && 1 <= month <= 12
      && 1 <= day <= DaysIn(year, month)
      && hour < 24 && minute < 60 && second < 60
      && nano < 1_000_000_000
    }

    /** The years for which RFC 3339 gives the year exactly four digits. */
    predicate FourDigitYear() {
      year <= 9999
    }
  }

  type Time = t: Instant | t.Valid() witness Instant(1, 1, 1, 0, 0, 0, 0)

  predicate Leap(year: nat) {
    year % 4 == 0 && (year % 100 != 0 || year % 400 == 0)
  }

  function DaysIn(year: nat, month: nat): (d: nat)
    ensures 28 <= d <= 31
  {
    if month == 2 then if Leap(year) then 29 else 28
    else if month in {4, 6, 9, 11} then 30
    else 31
  }

  predicate SameSecond(a: Time, b: Time) {
    a.(nano := 0) == b.(nano := 0)
  }

  /** a lies in an earlier whole second than b. */
  predicate SecondBefore(a: Time, b: Time) {
    || a.year < b.year
    || (a.year == b.year && (
      || a.month < b.month
      || (a.month == b.month && (
        || a.day < b.day
        || (a.day == b.day && (
          || a.hour < b.hour
          || (a.hour == b.hour && (
            || a.minute < b.minute
            || (a.minute == b.minute && a.second < b.second)))))))))
  }

  /** Real time order, as time.Time.Before decides it. */
  predicate Before(a: Time, b: Time) {
    SecondBefore(a, b) || (SameSecond(a, b) && a.nano < b.nano)
  }

  /** The same nanosecond one second later. */
  function NextSecond(t: Time): (r: Time)
    ensures SecondBefore(t, r) && r.nano == t.nano
  {
    if t.second < 59 then t.(second := t.second + 1)
    else if t.minute < 59 then t.(minute := t.minute + 1, second := 0)
    else if t.hour < 23 then t.(hour := t.hour + 1, minute := 0, second := 0)
    else if t.day < DaysIn(t.year, t.month) then t.(day := t.day + 1, hour := 0, minute := 0, second := 0)
    else if t.month < 12 then t.(month := t.month + 1, day := 1, hour := 0, minute := 0, second := 0)
    else t.(year := t.year + 1, month := 1, day := 1, hour := 0, minute := 0, second := 0)
  }

  /** t.Add(n * time.Second). */
  function Plus(t: Time, n: nat): Time {
    if n == 0 then t else NextSecond(Plus(t, n - 1))
  }

  lemma {:induction false} PlusIsLater(t: Time, n: nat)
    ensures Plus(t, n).nano == t.nano
    ensures if n == 0 then Plus(t, n) == t else SecondBefore(t, Plus(t, n))
  {
    if n > 0 { PlusIsLater(t, n - 1); }
  }

  // ------------------------------------------------------------- RFC3339Nano

  predicate AllZero(s: string) {
    forall i :: 0 <= i < |s| ==> s[i] == '0'
  }

  predicate Digits(s: string) {
    forall i :: 0 <= i < |s| ==> '0' <= s[i] <= '9'
  }

  function TrimZeros(s: string): string {
    if |s| > 0 && s[|s| - 1] == '0' then TrimZeros(s[..|s| - 1]) else s
  }

  /** The significant fraction digits: empty for a whole second, never ending in zero. */
  function FractionDigits(t: Time): string {
    TrimZeros(Pad(t.nano, 9))
  }

  /** The text after the seconds: nothing or a dotted fraction, then the UTC mark. */
  function Suffix(digits: string): string {
    (if digits == "" then "" else "." + digits) + "Z"
  }

  /** t.Format(time.RFC3339Nano) for a UTC time. */
  function Text(t: Time): string {
    Field(t.year, 4, "-", Field(t.month, 2, "-", Field(t.day, 2, "T",
      Field(t.hour, 2, ":", Field(t.minute, 2, ":", Field(t.second, 2, "",
        Suffix(FractionDigits(t))))))))
  }

  lemma {:induction false} TrimZerosSplits(s: string) returns (zeros: string)
    ensures s == TrimZeros(s) + zeros && AllZero(zeros)
    ensures TrimZeros(s) != "" ==> TrimZeros(s)[|TrimZeros(s)| - 1] != '0'
  {
    if |s| > 0 && s[|s| - 1] == '0' {
      var shorter := TrimZerosSplits(s[..|s| - 1]);
      zeros := shorter + ['0'];
      assert s == s[..|s| - 1] + ['0'];
    } else {
      zeros := "";
    }
  }

  lemma {:induction false} ZerosAreLess(zeros: string, q: string, rest: string)
    requires AllZero(zeros) && Digits(q) && q != "" && q[|q| - 1] != '0'
    requires |zeros| == |q| + |rest|
    ensures Less(zeros, q + rest)
  {
    assert (q + rest)[0] == q[0];
    if q[0] == '0' {
      assert (q + rest)[1..] == q[1..] + rest;
      ZerosAreLess(zeros[1..], q[1..], rest);
    }
  }

  /** Trimmed digit strings closed by 'Z' sort like the padded numbers, unless one is a prefix of the other. */
  lemma {:induction false} TrimmedOrder(p: string, q: string, zp: string, zq: string)
    requires Digits(p) && Digits(q) && AllZero(zp) && AllZero(zq)
    requires p != "" ==> p[|p| - 1] != '0'
    requires q != "" ==> q[|q| - 1] != '0'
    requires |p| + |zp| == |q| + |zq|
    ensures p < q ==> Less(p + zp, q + zq) && Less(q + "Z", p + "Z")
    ensures !(p < q) && !(q < p) ==> (Less(p + zp, q + zq) <==> Less(p + "Z", q + "Z"))
    decreases |p| + |q|
  {
    if p == "" && q == "" {
      assert zp == zq;
      assert p + zp == q + zq;
      LessIrreflexive(p + zp);
      LessIrreflexive("Z");
    } else if p == "" {
      ZerosAreLess(zp, q, zq);
      assert p + zp == zp;
      assert (q + "Z")[0] == q[0];
    } else if q == "" {
      assert q < p;
    } else {
      assert (p + zp)[1..] == p[1..] + zp && (q + zq)[1..] == q[1..] + zq;
      assert (p + "Z")[1..] == p[1..] + "Z" && (q + "Z")[1..] == q[1..] + "Z";
      if p[0] == q[0] {
        TrimmedOrder(p[1..], q[1..], zp, zq);
        assert p == [p[0]] + p[1..] && q == [q[0]] + q[1..];
        assert p < q <==> p[1..] < q[1..];
        assert q < p <==> q[1..] < p[1..];
      }
    }
  }

  /** The two instants share a second and one trimmed fraction is a proper prefix of the other. */
  predicate FractionClash(a: Time, b: Time) {
    SameSecond(a, b) && (FractionDigits(a) < FractionDigits(b) || FractionDigits(b) < FractionDigits(a))
  }

  /** The digits that trimming leaves, and the zeros it drops. */
  lemma TrimmedDigits(m: nat, w: nat) returns (zeros: string)
    ensures
      var p := TrimZeros(Pad(m, w));
      Pad(m, w) == p + zeros && AllZero(zeros) && Digits(p) && (p != "" ==> p[|p| - 1] != '0')
  {
    var s := Pad(m, w);
    zeros := TrimZerosSplits(s);
    PadDigits(m, w);
    var p := TrimZeros(s);
    forall i | 0 <= i < |p| ensures '0' <= p[i] <= '9' {
      assert p[i] == s[i];
    }
  }

  lemma TrimmedPadOrder(m: nat, n: nat, w: nat)
    requires m < Pow10(w) && n < Pow10(w)
    ensures
      var p, q := TrimZeros(Pad(m, w)), TrimZeros(Pad(n, w));
      && (p < q ==> m < n && Less(q + "Z", p + "Z"))
      && (!(p < q) && !(q < p) ==> (Less(p + "Z", q + "Z") <==> m < n))
  {
    var zp := TrimmedDigits(m, w);
    var zq := TrimmedDigits(n, w);
    PadOrder(m, n, w);
    TrimmedOrder(TrimZeros(Pad(m, w)), TrimZeros(Pad(n, w)), zp, zq);
  }

  lemma SuffixOrder(p: string, q: string)
    ensures p != "" && q != "" ==> (Less(Suffix(p), Suffix(q)) <==> Less(p + "Z", q + "Z"))
    ensures p == "" && q != "" ==> Less(Suffix(q), Suffix(p)) && !Less(Suffix(p), Suffix(q))
    ensures p == "" && q == "" ==> !Less(Suffix(p), Suffix(q))
  {
    if p != "" && q != "" {
      assert Suffix(p) == "." + (p + "Z") && Suffix(q) == "." + (q + "Z");
      LessAfterHeads(".", ".", p + "Z", q + "Z");
      LessIrreflexive(".");
    } else if p == "" && q != "" {
      assert Suffix(q)[0] == '.' && Suffix(p)[0] == 'Z';
    } else if p == "" {
      LessIrreflexive("Z");
    }
  }

  lemma FractionOrder(a: Time, b: Time)
    ensures
      var p, q := FractionDigits(a), FractionDigits(b);
      && (p < q ==> a.nano < b.nano && Less(Suffix(q), Suffix(p)) && !Less(Suffix(p), Suffix(q)))
      && (!(p < q) && !(q < p) ==> (Less(Suffix(p), Suffix(q)) <==> a.nano < b.nano))
  {
    var p, q := FractionDigits(a), FractionDigits(b);
    assert Pow10(9) == 1_000_000_000;
    TrimmedPadOrder(a.nano, b.nano, 9);
    SuffixOrder(p, q);
    SuffixOrder(q, p);
    if p == q {
      LessIrreflexive(p + "Z");
      LessIrreflexive(Suffix(p));
    }
    if p < q {
      if Less(Suffix(p), Suffix(q)) {
        LessTransitive(Suffix(p), Suffix(q), Suffix(p));
        LessIrreflexive(Suffix(p));
      }
    }
  }

  /** Text order of two rendered times, field by field. */
  lemma TextFields(a: Time, b: Time)
    requires a.FourDigitYear() && b.FourDigitYear()
    ensures
      var x, y := Suffix(FractionDigits(a)), Suffix(FractionDigits(b));
      Less(Text(a), Text(b)) <==> SecondBefore(a, b) || (SameSecond(a, b) && Less(x, y))
  {
    var x, y := Suffix(FractionDigits(a)), Suffix(FractionDigits(b));
    assert Pow10(4) == 10_000 && Pow10(2) == 100;
    var sx, sy := Field(a.second, 2, "", x), Field(b.second, 2, "", y);
    FieldOrder(a.second, b.second, 2, "", x, y);
    var mx, my := Field(a.minute, 2, ":", sx), Field(b.minute, 2, ":", sy);
    FieldOrder(a.minute, b.minute, 2, ":", sx, sy);
    var hx, hy := Field(a.hour, 2, ":", mx), Field(b.hour, 2, ":", my);
    FieldOrder(a.hour, b.hour, 2, ":", mx, my);
    var dx, dy := Field(a.day, 2, "T", hx), Field(b.day, 2, "T", hy);
    FieldOrder(a.day, b.day, 2, "T", hx, hy);
    var ox, oy := Field(a.month, 2, "-", dx), Field(b.month, 2, "-", dy);
    FieldOrder(a.month, b.month, 2, "-", dx, dy);
    FieldOrder(a.year, b.year, 4, "-", ox, oy);
  }

  /** Comparing the stored text agrees with time order exactly when the fractions do not clash. */
  lemma TextOrderIsTimeOrder(a: Time, b: Time)
    requires a.FourDigitYear() && b.FourDigitYear()
    ensures (Less(Text(a), Text(b)) <==> Before(a, b)) <==> !FractionClash(a, b)
    ensures FractionClash(a, b) ==> (Less(Text(a), Text(b)) <==> Before(b, a))
  {
    TextFields(a, b);
    FractionOrder(a, b);
    FractionOrder(b, a);
  }

  /** Times in different seconds are never misordered. */
  lemma TextOrderAcrossSeconds(a: Time, b: Time)
    requires a.FourDigitYear() && b.FourDigitYear() && SecondBefore(a, b)
    ensures Less(Text(a), Text(b)) && !Less(Text(b), Text(a))
  {
    TextOrderIsTimeOrder(a, b);
    TextOrderIsTimeOrder(b, a);
  }

  /** What reads as past is at most the rest of the current second away. */
  lemma TextPastIsNearlyPast(t: Time, now: Time)
    requires t.FourDigitYear() && now.FourDigitYear() && Less(Text(t), Text(now))
    ensures Before(t, Plus(now, 1))
  {
    if SecondBefore(now, t) {
      TextOrderAcrossSeconds(now, t);
    }
    assert Plus(now, 1) == NextSecond(Plus(now, 0));
  }

  /** The family the text order gets wrong: a whole second reads as later than any fraction of it. */
  lemma WholeSecondSortsAfterItsFractions(whole: Time, later: Time)
    requires whole.FourDigitYear() && later.FourDigitYear()
    requires SameSecond(whole, later) && whole.nano == 0 < later.nano
    ensures Before(whole, later) && Less(Text(later), Text(whole))
  {
    TrimZerosOfZero(9);
    var zeros := TrimZerosSplits(Pad(later.nano, 9));
    if FractionDigits(later) == "" {
      PadAllZero(9);
      assert Pow10(9) == 1_000_000_000;
      PadOrder(later.nano, 0, 9);
      assert false;
    }
    TextOrderIsTimeOrder(later, whole);
  }

  lemma {:induction false} PadAllZero(w: nat)
    ensures AllZero(Pad(0, w))
  {
    if w > 0 { PadAllZero(w - 1); }
  }

  lemma {:induction false} TrimZerosOfZero(w: nat)
    ensures TrimZeros(Pad(0, w)) == ""
  {
    if w > 0 {
      assert Pad(0, w)[..w - 1] == Pad(0, w - 1);
      TrimZerosOfZero(w - 1);
    }
  }
}
