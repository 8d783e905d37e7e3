/** The titles the webhook gives to tasks, and the prefix by which it finds them again. */
module IssueTitles {
  import opened Clock
  import TimeReading

  /** A natural number in decimal, without leading zeros. */
  function Written(n: nat): (s: string)
    ensures |s| >= 1
  {
    (if n >= 10 then Written(n / 10) else "") + [Digit(n % 10)]
  }

  /** %d of an int. */
  function Decimal(n: int): string {
    if n < 0 then "-" + Written(-n) else Written(n)
  }

  function IssueTitle(n: int, title: string): string {
    "Issue #" + (Decimal(n) + (": " + title))
  }

  function IssuePrefix(n: int): string {
    "Issue #" + (Decimal(n) + ":")
  }

  function PullRequestTitle(n: int, title: string): string {
    "PR #" + (Decimal(n) + (": " + title))
  }

  predicate HasPrefix(s: string, prefix: string) {
    prefix <= s
  }

  // -------------------------------------------------------------------- decimals

  lemma {:induction false} WrittenDigits(n: nat)
    ensures Digits(Written(n))
  {
    if n >= 10 { WrittenDigits(n / 10); }
  }

  lemma DigitReadsBack(d: nat)
    requires d < 10
    ensures '0' <= Digit(d) <= '9' && Digit(d) as int - '0' as int == d
    ensures Digit(d) == '0' <==> d == 0
  {
  }

  lemma OneMoreDigit(front: string, d: nat)
    requires Digits(front) && d < 10
    ensures Digits(front + [Digit(d)])
    ensures TimeReading.Number(front + [Digit(d)]) == 10 * TimeReading.Number(front) + d
  {
    DigitReadsBack(d);
    var s := front + [Digit(d)];
    assert s[..|s| - 1] == front;
  }

  lemma WrittenSplits(n: nat)
    ensures Written(n) == (if n >= 10 then Written(n / 10) else "") + [Digit(n % 10)]
  {
  }

  /** What is written reads back as the number. */
  lemma {:induction false} WrittenReadsBack(n: nat)
    ensures Digits(Written(n)) && TimeReading.Number(Written(n)) == n
  {
    var front := if n >= 10 then Written(n / 10) else "";
    if n >= 10 { WrittenReadsBack(n / 10); }
    assert Digits(front) && TimeReading.Number(front) == n / 10;
    OneMoreDigit(front, n % 10);
    WrittenSplits(n);
  }

  /** Only zero begins with a zero. */
  lemma {:induction false} NoLeadingZero(n: nat)
    ensures Written(n)[0] == '0' <==> n == 0
  {
    WrittenSplits(n);
    DigitReadsBack(n % 10);
    if n >= 10 { NoLeadingZero(n / 10); }
  }

  lemma {:induction false} WrittenInjective(m: nat, n: nat)
    requires Written(m) == Written(n)
    ensures m == n
  {
    var s := Written(m);
    assert s[|s| - 1] == Digit(m % 10) && s[|s| - 1] == Digit(n % 10);
    assert s[..|s| - 1] == (if m >= 10 then Written(m / 10) else "");
    assert s[..|s| - 1] == (if n >= 10 then Written(n / 10) else "");
    if m >= 10 && n >= 10 { WrittenInjective(m / 10, n / 10); }
  }

  lemma SignShows(n: int)
    ensures Decimal(n) != "" && (Decimal(n)[0] == '-' <==> n < 0)
  {
    WrittenDigits(if n < 0 then -n else n);
  }

  lemma DecimalInjective(m: int, n: int)
    requires Decimal(m) == Decimal(n)
    ensures m == n
  {
    SignShows(m);
    SignShows(n);
    if m < 0 {
      assert Decimal(m)[1..] == Written(-m) && Decimal(n)[1..] == Written(-n);
      WrittenInjective(-m, -n);
    } else {
      WrittenInjective(m, n);
    }
  }

  lemma NoColon(n: int)
    ensures ':' !in Decimal(n)
  {
    WrittenDigits(if n < 0 then -n else n);
  }

  /** The text before the first separator. */
  function UpTo(s: string, separator: char): string {
    if s == "" || s[0] == separator then "" else [s[0]] + UpTo(s[1..], separator)
  }

  lemma {:induction false} UpToOfField(field: string, separator: char, rest: string)
    requires separator !in field
    ensures UpTo(field + ([separator] + rest), separator) == field
  {
    var s := field + ([separator] + rest);
    if field != "" {
      assert s[1..] == field[1..] + ([separator] + rest);
      UpToOfField(field[1..], separator, rest);
    }
  }

  /** Two fields ended by the same separator, one text starting with the other: the fields are equal. */
  lemma SameField(a: string, b: string, separator: char, rest: string)
    requires separator !in a && separator !in b
    requires a + [separator] <= b + ([separator] + rest)
    ensures a == b
  {
    var long := b + ([separator] + rest);
    var after := long[|a| + 1..];
    assert long == (a + [separator]) + after == a + ([separator] + after);
    UpToOfField(a, separator, after);
    UpToOfField(b, separator, rest);
  }

  lemma SameHead(head: string, a: string, b: string)
    ensures head + a <= head + b <==> a <= b
  {
    assert (head + a)[|head|..] == a && (head + b)[|head|..] == b;
    if head + a <= head + b {
      assert forall i :: 0 <= i < |a| ==> a[i] == (head + a)[|head| + i] && b[i] == (head + b)[|head| + i];
    }
  }

  /** The title built for issue n starts with the prefix built for m exactly when m is n. */
  lemma TitleMatchesItsIssue(n: int, m: int, title: string)
    ensures HasPrefix(IssueTitle(n, title), IssuePrefix(m)) <==> m == n
  {
    var a, b := Decimal(m), Decimal(n);
    SameHead("Issue #", a + ":", b + (": " + title));
    assert ": " + title == ":" + (" " + title);
    if a + ":" <= b + (": " + title) {
      NoColon(m);
      NoColon(n);
      SameField(a, b, ':', " " + title);
      DecimalInjective(m, n);
    }
    if m == n { SameHead(a, ":", ": " + title); }
  }

  /** A task made from a pull request is never taken for an issue. */
  lemma PullRequestIsNoIssue(n: int, m: int, title: string)
    ensures !HasPrefix(PullRequestTitle(n, title), IssuePrefix(m))
  {
    assert PullRequestTitle(n, title)[0] == 'P' && IssuePrefix(m)[0] == 'I';
  }
}
