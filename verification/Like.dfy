/** SQL LIKE with its default escape, and when the patterns the store builds mean what they look like. */
module Like {

  /** s LIKE p: '%' matches any run of characters, '_' any one, and a backslash quotes the next. */
  predicate Matches(s: string, p: string)
    decreases |s| + |p|
  {
    if p == "" then s == ""
    else if p[0] == '%' then Matches(s, p[1..]) || (s != "" && Matches(s[1..], p))
    else if p[0] == '_' then s != "" && Matches(s[1..], p[1..])
    else if p[0] == '\\' then |p| >= 2 && s != "" && s[0] == p[1] && Matches(s[1..], p[2..])
    else s != "" && s[0] == p[0] && Matches(s[1..], p[1..])
  }

  predicate Special(c: char) {
    c == '%' || c == '_' || c == '\\'
  }

  /** Text with none of the three characters LIKE gives a meaning to. */
  predicate Plain(p: string) {
    forall i :: 0 <= i < |p| ==> !Special(p[i])
  }

  predicate StartsWith(s: string, p: string) {
    |p| <= |s| && s[..|p|] == p
  }

  predicate Contains(s: string, p: string) {
    exists i :: 0 <= i <= |s| && StartsWith(s[i..], p)
  }

  /** Text with a backslash before every character that LIKE gives a meaning to. */
  function Quote(p: string): string {
    if p == "" then "" else (if Special(p[0]) then ['\\', p[0]] else [p[0]]) + Quote(p[1..])
  }

  /** Quoted text matches itself and nothing else. */
  lemma {:induction false} QuotedMatchesItself(s: string, p: string)
    ensures Matches(s, Quote(p)) <==> s == p
  {
    if p != "" {
      var q := Quote(p);
      if Special(p[0]) { assert q[2..] == Quote(p[1..]); } else { assert q[1..] == Quote(p[1..]); }
      if s != "" {
        QuotedMatchesItself(s[1..], p[1..]);
        assert s == [s[0]] + s[1..] && p == [p[0]] + p[1..];
      }
    }
  }

  function Underscores(n: nat): string {
    if n == 0 then "" else "_" + Underscores(n - 1)
  }

  /** Underscores count characters. */
  lemma {:induction false} UnderscoresMeasure(s: string, n: nat)
    ensures Matches(s, Underscores(n)) <==> |s| == n
  {
    if n > 0 && s != "" {
      assert Underscores(n)[1..] == Underscores(n - 1);
      UnderscoresMeasure(s[1..], n - 1);
    }
  }

  lemma {:induction false} PercentMatchesAll(s: string)
    ensures Matches(s, "%")
  {
    if s != "" { PercentMatchesAll(s[1..]); }
    assert "%"[1..] == "";
  }

  lemma StartsWithStep(s: string, p: string)
    requires p != ""
    ensures StartsWith(s, p) <==> s != "" && s[0] == p[0] && StartsWith(s[1..], p[1..])
  {
    assert p == [p[0]] + p[1..];
    if s != "" && |p| <= |s| {
      assert s[..|p|] == [s[0]] + s[1..][..|p| - 1];
    }
  }

  /** For plain text the pattern prefix% is exactly starts-with. */
  lemma {:induction false} PlainPrefixIsStartsWith(s: string, p: string)
    requires Plain(p)
    ensures Matches(s, p + "%") <==> StartsWith(s, p)
  {
    if p == "" {
      assert p + "%" == "%";
      PercentMatchesAll(s);
    } else {
      assert (p + "%")[0] == p[0] && (p + "%")[1..] == p[1..] + "%";
      StartsWithStep(s, p);
      if s != "" { PlainPrefixIsStartsWith(s[1..], p[1..]); }
    }
  }

  /** Without a backslash, prefix% never misses a string that starts with the prefix. */
  lemma {:induction false} UnescapedPrefixMatchesStarts(s: string, p: string)
    requires '\\' !in p && StartsWith(s, p)
    ensures Matches(s, p + "%")
  {
    if p == "" {
      assert p + "%" == "%";
      PercentMatchesAll(s);
    } else {
      assert (p + "%")[0] == p[0] && (p + "%")[1..] == p[1..] + "%";
      StartsWithStep(s, p);
      UnescapedPrefixMatchesStarts(s[1..], p[1..]);
      if p[0] == '%' {
        assert Matches(s[1..], p[1..] + "%");
        SkipOneIsEnough(s, p + "%");
      }
    }
  }

  /** A leading '%' may swallow one character. */
  lemma SkipOneIsEnough(s: string, p: string)
    requires p != "" && p[0] == '%' && s != "" && Matches(s[1..], p[1..])
    ensures Matches(s, p)
  {
    assert Matches(s[1..], p);
  }

  /** A string that p% matches by reading p as quietly as possible: '%' as nothing, '_' as an x. */
  function Decoy(p: string): (d: string)
    ensures |d| <= |p|
    ensures d == p ==> Plain(p)
    decreases |p|
  {
    if p == "" then ""
    else if p[0] == '%' then Decoy(p[1..])
    else if p[0] == '_' then "x" + Decoy(p[1..])
    else if p[0] == '\\' then if |p| >= 2 then [p[1]] + Decoy(p[2..]) else "%"
    else
      var rest := Decoy(p[1..]);
      assert [p[0]] + rest == p ==> rest == p[1..] by { assert ([p[0]] + rest)[1..] == rest; }
      [p[0]] + rest
  }

  lemma {:induction false} DecoyMatches(p: string)
    ensures Matches(Decoy(p), p + "%")
    decreases |p|
  {
    var pattern := p + "%";
    if p == "" {
      assert pattern == "%";
      PercentMatchesAll("");
    } else if p[0] == '\\' && |p| == 1 {
      assert pattern[2..] == "" && pattern[1] == '%' && Decoy(p)[1..] == "";
      assert Matches("", "");
    } else if p[0] == '\\' {
      assert pattern[1] == p[1] && pattern[2..] == p[2..] + "%";
      DecoyMatches(p[2..]);
      assert Decoy(p)[1..] == Decoy(p[2..]);
    } else {
      assert pattern[0] == p[0] && pattern[1..] == p[1..] + "%";
      DecoyMatches(p[1..]);
      if p[0] != '%' { assert Decoy(p)[1..] == Decoy(p[1..]); }
    }
  }

  /** prefix% means starts-with on every string if and only if the prefix is plain. */
  lemma PrefixPatternIsExactIffPlain(p: string)
    ensures Plain(p) <==> forall s: string :: Matches(s, p + "%") <==> StartsWith(s, p)
  {
    if Plain(p) {
      forall s: string ensures Matches(s, p + "%") <==> StartsWith(s, p) { PlainPrefixIsStartsWith(s, p); }
    } else {
      DecoyMatches(p);
      assert !StartsWith(Decoy(p), p);
    }
  }

  /** %pattern matches exactly when some suffix matches pattern. */
  lemma {:induction false} LeadingPercentIsSomeSuffix(s: string, p: string)
    ensures Matches(s, "%" + p) <==> exists i :: 0 <= i <= |s| && Matches(s[i..], p)
  {
    var pattern := "%" + p;
    assert pattern[1..] == p && s[0..] == s;
    if s != "" {
      LeadingPercentIsSomeSuffix(s[1..], p);
      forall i | 0 <= i <= |s| && Matches(s[i..], p) ensures Matches(s, pattern) {
        if i > 0 { assert s[1..][i - 1..] == s[i..]; }
      }
      forall i | 0 <= i <= |s[1..]| && Matches(s[1..][i..], p)
        ensures exists k :: 0 <= k <= |s| && Matches(s[k..], p)
      {
        assert s[1..][i..] == s[i + 1..];
      }
    }
  }

  lemma PlainInfixIsContains(s: string, p: string)
    requires Plain(p)
    ensures Matches(s, "%" + p + "%") <==> Contains(s, p)
  {
    assert "%" + p + "%" == "%" + (p + "%");
    LeadingPercentIsSomeSuffix(s, p + "%");
    forall i | 0 <= i <= |s| ensures Matches(s[i..], p + "%") <==> StartsWith(s[i..], p) {
      PlainPrefixIsStartsWith(s[i..], p);
    }
  }

  /** %path% means substring on every string if and only if the path is plain. */
  lemma InfixPatternIsExactIffPlain(p: string)
    ensures Plain(p) <==> forall s: string :: Matches(s, "%" + p + "%") <==> Contains(s, p)
  {
    if Plain(p) {
      forall s: string ensures Matches(s, "%" + p + "%") <==> Contains(s, p) { PlainInfixIsContains(s, p); }
    } else {
      var d := Decoy(p);
      DecoyMatches(p);
      assert d[0..] == d;
      LeadingPercentIsSomeSuffix(d, p + "%");
      assert "%" + p + "%" == "%" + (p + "%");
      assert Matches(d, "%" + p + "%");
      forall i | 0 <= i <= |d| ensures !StartsWith(d[i..], p) {
        if i == 0 { assert d[..|d|] == d; }
      }
      assert !Contains(d, p);
    }
  }
}
