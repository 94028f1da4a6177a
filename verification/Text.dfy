// C strings, as sequences of characters without their terminating NUL.

module Text {
  function Lower(c: char): char {
    if 'A' <= c <= 'Z' then c + 32 as char else c
  }

  // strcasecmp in the C locale
  predicate CaseEq(a: string, b: string) {
    |a| == |b| && forall i :: 0 <= i < |a| ==> Lower(a[i]) == Lower(b[i])
  }

  predicate CasePrefix(p: string, s: string) {
    |p| <= |s| && CaseEq(p, s[..|p|])
  }

  // header_line_named: a header line with this name.
  predicate Named(line: string, name: string) {
    |line| > |name| && line[|name|] == ':' && CasePrefix(name, line)
  }

  // strchr: the first position of `c`, or the length.
  function IndexOf(s: string, c: char): (n: nat)
    ensures n <= |s|
    ensures n < |s| ==> s[n] == c
    ensures forall i :: 0 <= i < n ==> s[i] != c
  {
    if s == "" || s[0] == c then 0 else 1 + IndexOf(s[1..], c)
  }

  lemma {:induction false} IndexOfIs(a: string, rest: string, c: char)
    requires forall i :: 0 <= i < |a| ==> a[i] != c
    requires rest != "" ==> rest[0] == c
    ensures IndexOf(a + rest, c) == |a|
    ensures (a + rest)[..|a|] == a && (a + rest)[|a|..] == rest
  {
    var s := a + rest;
    assert forall i :: 0 <= i < |a| ==> s[i] == a[i];
    if rest != "" {
      assert s[|a|] == rest[0];
    }
  }

  // strcspn: the first position of a character in `cs`, or the length.
  function IndexOfAny(s: string, cs: set<char>): (n: nat)
    ensures n <= |s|
    ensures n < |s| ==> s[n] in cs
    ensures forall i :: 0 <= i < n ==> s[i] !in cs
  {
    if s == [] || s[0] in cs then 0 else 1 + IndexOfAny(s[1..], cs)
  }

  lemma {:induction false} IndexOfAnyIs(a: string, rest: string, cs: set<char>)
    requires forall i :: 0 <= i < |a| ==> a[i] !in cs
    requires rest != "" ==> rest[0] in cs
    ensures IndexOfAny(a + rest, cs) == |a|
    ensures (a + rest)[..|a|] == a && (a + rest)[|a|..] == rest
  {
    var s := a + rest;
    assert forall i :: 0 <= i < |a| ==> s[i] == a[i];
    if rest != "" {
      assert s[|a|] == rest[0];
    }
  }

  lemma {:induction false} AfterLastIs(a: string, c: char, rest: string)
    requires forall i :: 0 <= i < |rest| ==> rest[i] != c
    ensures AfterLast(a + [c] + rest, c) == |a| + 1
    ensures (a + [c] + rest)[..|a|] == a && (a + [c] + rest)[|a| + 1..] == rest
  {
    var s := a + [c] + rest;
    assert s[|a|] == c;
    assert forall i :: |a| < i < |s| ==> s[i] == rest[i - |a| - 1];
  }

  // strrchr: the position after the last `c`, or 0.
  function AfterLast(s: string, c: char): (n: nat)
    ensures n <= |s|
    ensures n > 0 ==> s[n - 1] == c
    ensures forall i :: n <= i < |s| ==> s[i] != c
  {
    if s == [] then 0
    else if s[|s| - 1] == c then |s|
    else AfterLast(s[..|s| - 1], c)
  }

  predicate CrlfAt(s: string, i: nat) {
    i + 1 < |s| && s[i] == '\r' && s[i + 1] == '\n'
  }

  // strstr for CRLF: its first position, or the length.
  function FirstCrlf(s: string): (n: nat)
    ensures n <= |s|
    ensures n < |s| ==> CrlfAt(s, n)
    ensures forall i :: 0 <= i < n ==> !CrlfAt(s, i)
  {
    if |s| < 2 then |s|
    else if CrlfAt(s, 0) then 0
    else
      var n := FirstCrlf(s[1..]);
      assert forall i :: 0 < i < |s| ==> CrlfAt(s, i) == CrlfAt(s[1..], i - 1);
      n + 1
  }

  // A line, as FirstCrlf delimits it.
  ghost predicate IsLine(s: string) {
    forall i :: 0 <= i < |s| ==> !CrlfAt(s, i)
  }

  lemma {:induction false} FirstCrlfIs(s: string, rest: string)
    requires IsLine(s)
    ensures FirstCrlf(s + "\r\n" + rest) == |s|
  {
    var t := s + "\r\n" + rest;
    assert CrlfAt(t, |s|);
    forall i | 0 <= i < |s|
      ensures !CrlfAt(t, i)
    {
      assert !CrlfAt(s, i);
    }
  }

  predicate Visible(s: string) {
    forall i :: 0 <= i < |s| ==> 33 <= s[i] as int <= 126
  }

  predicate IsDigit(c: char) { '0' <= c <= '9' }

  predicate Digits(s: string) {
    forall i :: 0 <= i < |s| ==> IsDigit(s[i])
  }

  function DigitsValue(s: string): nat
    requires Digits(s)
  {
    if s == "" then 0 else DigitsValue(s[..|s| - 1]) * 10 + (s[|s| - 1] as int - '0' as int)
  }

  lemma {:induction false} DecimalReadsBack(n: nat)
    ensures Digits(Decimal(n)) && DigitsValue(Decimal(n)) == n
  {
    var d := Decimal(n);
    if n < 10 {
      assert d[..|d| - 1] == "";
    } else {
      DecimalReadsBack(n / 10);
      assert d[..|d| - 1] == Decimal(n / 10);
    }
  }

  lemma {:induction false} PrefixValue(s: string, n: nat)
    requires Digits(s) && n <= |s|
    ensures Digits(s[..n]) && DigitsValue(s[..n]) <= DigitsValue(s)
  {
    if n == |s| {
      assert s[..n] == s;
    } else {
      var t := s[..|s| - 1];
      PrefixValue(t, n);
      assert t[..n] == s[..n];
    }
  }

  // The decimal digits of a number.
  function Decimal(n: nat): (s: string)
    ensures s != "" && forall i :: 0 <= i < |s| ==> '0' <= s[i] <= '9'
  {
    var digit := [('0' as int + n % 10) as char];
    if n < 10 then digit else Decimal(n / 10) + digit
  }

  // %d
  function Signed(n: int): (s: string)
    ensures s != "" && forall i :: 0 <= i < |s| ==> '0' <= s[i] <= '9' || s[i] == '-'
  {
    if n < 0 then "-" + Decimal(-n) else Decimal(n)
  }

  lemma {:induction false} DecimalLength(n: nat)
    requires n < 100000
    ensures |Decimal(n)| <= 5
  {
    assert |Decimal(n / 10000)| == 1;
    assert |Decimal(n / 1000)| <= 2;
    assert |Decimal(n / 100)| <= 3;
    assert |Decimal(n / 10)| <= 4;
  }
}
