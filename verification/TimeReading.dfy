/** Reading stored times back: the layout that Clock writes, parsed field by field. */
module TimeReading {
  import opened Basics
  import opened Clock

  /** The number that decimal digits denote. */
  function Number(s: string): nat
    requires Digits(s)
  {
    if s == "" then 0 else 10 * Number(s[..|s| - 1]) + (s[|s| - 1] as int - '0' as int)
  }

  lemma {:induction false} NumberOfPad(n: nat, w: nat)
    requires n < Pow10(w)
    ensures Digits(Pad(n, w)) && Number(Pad(n, w)) == n
  {
    PadDigits(n, w);
    if w > 0 {
      NumberOfPad(n / 10, w - 1);
      assert Pad(n, w)[..w - 1] == Pad(n / 10, w - 1);
    }
  }

  /** w digits and a separator, and the text behind them. */
  function ReadField(s: string, w: nat, separator: string): Option<(nat, string)> {
    if |s| >= w + |separator| && Digits(s[..w]) && s[w..w + |separator|] == separator
    then Some((Number(s[..w]), s[w + |separator|..]))
    else None
  }

  lemma ReadsField(n: nat, w: nat, separator: string, rest: string)
    requires n < Pow10(w)
    ensures ReadField(Field(n, w, separator, rest), w, separator) == Some((n, rest))
  {
    var s := Field(n, w, separator, rest);
    NumberOfPad(n, w);
    assert s[..w] == Pad(n, w) && s[w..w + |separator|] == separator && s[w + |separator|..] == rest;
  }

  function Zeros(n: nat): (s: string)
    ensures |s| == n && AllZero(s)
  {
    if n == 0 then "" else "0" + Zeros(n - 1)
  }

  /** The nanoseconds of what follows the seconds: "Z", or a dot, one to nine digits, and "Z". */
  function ReadSuffix(s: string): Option<nat> {
    if s == "Z" then Some(0)
    else if 3 <= |s| <= 11 && s[0] == '.' && s[|s| - 1] == 'Z' && Digits(s[1..|s| - 1])
    then Some(Number(s[1..|s| - 1] + Zeros(11 - |s|)))
    else None
  }

  lemma SameZeros(a: string, b: string)
    requires AllZero(a) && AllZero(b) && |a| == |b|
    ensures a == b
  {
  }

  /** Padding the trimmed digits with zeros again gives the nanoseconds. */
  lemma PaddedAgain(n: nat)
    requires n < 1_000_000_000
    ensures
      var p := TrimZeros(Pad(n, 9));
      Digits(p) && |p| <= 9 && Pad(n, 9) == p + Zeros(9 - |p|) && (p == "" ==> n == 0)
  {
    var p := TrimZeros(Pad(n, 9));
    var zeros := TrimmedDigits(n, 9);
    SameZeros(zeros, Zeros(9 - |p|));
    if p == "" {
      PadAllZero(9);
      SameZeros(Pad(n, 9), Pad(0, 9));
      assert Pow10(9) == 1_000_000_000;
      PadOrder(n, 0, 9);
    }
  }

  lemma ReadsFraction(p: string)
    requires Digits(p) && 1 <= |p| <= 9
    ensures Digits(p + Zeros(9 - |p|)) && ReadSuffix(Suffix(p)) == Some(Number(p + Zeros(9 - |p|)))
  {
    var s := Suffix(p);
    Framed(p);
    assert s == "." + p + "Z" && s != "Z";
    AppendedDigits(p, Zeros(9 - |p|));
  }

  lemma AppendedDigits(p: string, zeros: string)
    requires Digits(p) && AllZero(zeros)
    ensures Digits(p + zeros)
  {
  }

  lemma Framed(p: string)
    ensures
      var s := "." + p + "Z";
      |s| == |p| + 2 && s[0] == '.' && s[|s| - 1] == 'Z' && s[1..|s| - 1] == p
  {
  }

  lemma ReadsDigitsOf(n: nat)
    requires n < 1_000_000_000
    ensures ReadSuffix(Suffix(TrimZeros(Pad(n, 9)))) == Some(n)
  {
    var p := TrimZeros(Pad(n, 9));
    PaddedAgain(n);
    NumberOfNine(n);
    ReadsTrimmed(p, n, Pad(n, 9));
  }

  lemma ReadsTrimmed(p: string, n: nat, digits: string)
    requires Digits(p) && |p| <= 9 && digits == p + Zeros(9 - |p|) && (p == "" ==> n == 0)
    requires Digits(digits) && Number(digits) == n
    ensures ReadSuffix(Suffix(p)) == Some(n)
  {
    if p != "" { ReadsFraction(p); }
  }

  lemma NumberOfNine(n: nat)
    requires n < 1_000_000_000
    ensures Digits(Pad(n, 9)) && Number(Pad(n, 9)) == n
  {
    assert Pow10(9) == 1_000_000_000;
    NumberOfPad(n, 9);
  }

  lemma ReadsSuffix(t: Time)
    ensures ReadSuffix(Suffix(FractionDigits(t))) == Some(t.nano)
  {
    ReadsDigitsOf(t.nano);
  }

  /** A time in RFC 3339 with a UTC mark, in exactly the layout that Text writes. */
  function Read(s: string): Option<Instant> {
    var year := ReadField(s, 4, "-");
    if year.None? then None
    else
      var month := ReadField(year.value.1, 2, "-");
      if month.None? then None
      else
        var day := ReadField(month.value.1, 2, "T");
        if day.None? then None
        else
          var hour := ReadField(day.value.1, 2, ":");
          if hour.None? then None
          else
            var minute := ReadField(hour.value.1, 2, ":");
            if minute.None? then None
            else
              var second := ReadField(minute.value.1, 2, "");
              if second.None? then None
              else
                var nano := ReadSuffix(second.value.1);
                if nano.None? then None
                else
                  Some(Instant(year.value.0, month.value.0, day.value.0,
                               hour.value.0, minute.value.0, second.value.0, nano.value))
  }

  /** What was written reads back as the same instant, nanoseconds included. */
  lemma ReadsBack(t: Time)
    requires t.FourDigitYear()
    ensures Read(Text(t)) == Some(t)
  {
    assert Pow10(4) == 10_000 && Pow10(2) == 100;
    var seconds := Field(t.second, 2, "", Suffix(FractionDigits(t)));
    var minutes := Field(t.minute, 2, ":", seconds);
    var hours := Field(t.hour, 2, ":", minutes);
    var days := Field(t.day, 2, "T", hours);
    var months := Field(t.month, 2, "-", days);
    ReadsField(t.year, 4, "-", months);
    ReadsField(t.month, 2, "-", days);
    ReadsField(t.day, 2, "T", hours);
    ReadsField(t.hour, 2, ":", minutes);
    ReadsField(t.minute, 2, ":", seconds);
    ReadsField(t.second, 2, "", Suffix(FractionDigits(t)));
    ReadsSuffix(t);
  }
}
