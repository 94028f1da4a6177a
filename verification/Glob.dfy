// The glob matcher of old/lib/curl_fnmatch.c, against declarative matching.
//
// A string is a sequence of characters without its terminating NUL. `At` reads it
// with the terminator; it requires an index that is not beyond it, so that every
// read below is shown to stay inside the string.

module Glob {
  import opened Options
  import Text

  type uchar = c: char | c as int < 256 witness 'a'

  ghost predicate CString(s: seq<uchar>) {
    forall i :: 0 <= i < |s| ==> s[i] != '\0'
  }

  function At(s: seq<uchar>, i: nat): (c: uchar)
    requires i <= |s|
    ensures i < |s| ==> c == s[i]
  {
    if i < |s| then s[i] else '\0'
  }

  predicate IsUpper(c: uchar) { 'A' <= c <= 'Z' }
  predicate IsLower(c: uchar) { 'a' <= c <= 'z' }
  predicate IsAlpha(c: uchar) { IsLower(c) || IsUpper(c) }
  predicate IsAlnum(c: uchar) { Text.IsDigit(c) || IsAlpha(c) }
  predicate IsXdigit(c: uchar) { Text.IsDigit(c) || 'a' <= c <= 'f' || 'A' <= c <= 'F' }
  predicate IsPrint(c: uchar) { ' ' <= c <= '~' }
  predicate IsGraph(c: uchar) { ' ' < c <= '~' }
  predicate IsBlank(c: uchar) { c == ' ' || c == '\t' }

  datatype CharClass = Other | DigitClass | UpperClass | LowerClass

  function ClassOf(c: uchar): CharClass {
    if IsUpper(c) then UpperClass else if IsLower(c) then LowerClass else if Text.IsDigit(c) then DigitClass else Other
  }

  datatype Keyword = Alnum | Digit | Xdigit | Alpha | Print | Blank | Lower | Graph | Space | Upper

  function Name(k: Keyword): seq<uchar> {
    match k
    case Alnum => "alnum"
    case Digit => "digit"
    case Xdigit => "xdigit"
    case Alpha => "alpha"
    case Print => "print"
    case Blank => "blank"
    case Lower => "lower"
    case Graph => "graph"
    case Space => "space"
    case Upper => "upper"
  }

  // A parsed bracket expression.
  datatype Bracket = Bracket(chars: set<uchar>, keywords: set<Keyword>, negate: bool)

  // Membership, by the chain of tests in `loop`: a listed character, else the first
  // keyword of the chain that was given, and no other; `space` means a blank.
  predicate Contains(b: Bracket, c: uchar) {
    var found :=
      if c in b.chars then true
      else if Alnum in b.keywords then IsAlnum(c)
      else if Alpha in b.keywords then IsAlpha(c)
      else if Digit in b.keywords then Text.IsDigit(c)
      else if Xdigit in b.keywords then IsXdigit(c)
      else if Print in b.keywords then IsPrint(c)
      else if Space in b.keywords then IsBlank(c)
      else if Upper in b.keywords then IsUpper(c)
      else if Lower in b.keywords then IsLower(c)
      else if Blank in b.keywords then IsBlank(c)
      else if Graph in b.keywords then IsGraph(c)
      else false;
    found != b.negate
  }

  // The end of a range that starts at `i`, if there is one: an alphanumeric
  // character, a dash, and a character of the same class that is not smaller,
  // possibly after a backslash.
  function RangeEnd(p: seq<uchar>, i: nat): (e: Option<nat>)
    requires i < |p| && CString(p)
    ensures e.Some? ==> i + 2 <= e.value < |p|
  {
    if IsAlnum(p[i]) && At(p, i + 1) == '-' then
      var k := if At(p, i + 2) == '\\' then i + 3 else i + 2;
      if At(p, k) >= p[i] && ClassOf(At(p, k)) == ClassOf(p[i]) then Some(k) else None
    else None
  }

  // The characters of the range or single character at `i`.
  function RangeChars(p: seq<uchar>, i: nat): set<uchar>
    requires i < |p| && CString(p)
  {
    match RangeEnd(p, i)
    case None => {p[i]}
    case Some(k) => set c: uchar | p[i] <= c <= p[k] && ClassOf(c) == ClassOf(p[i])
  }

  // The name of `k`, followed by ":]", stands at `i`.
  ghost predicate KeywordAt(p: seq<uchar>, i: nat, k: Keyword)
    requires i <= |p|
  {
    var n := i + |Name(k)|;
    n + 2 <= |p| && p[i..n] == Name(k) && p[n] == ':' && p[n + 1] == ']'
  }

  ghost predicate HasKeyword(p: seq<uchar>, i: nat)
    requires i <= |p|
  {
    exists k :: KeywordAt(p, i, k)
  }

  lemma {:induction false} NameShape(k: Keyword)
    ensures 5 <= |Name(k)| <= 6 && forall j :: 0 <= j < |Name(k)| ==> IsLower(Name(k)[j])
  {
  }

  // A keyword ends with the lower-case letters that start at `i`.
  lemma {:induction false} KeywordLength(p: seq<uchar>, i: nat, n: nat, k: Keyword)
    requires i + n <= |p| && (forall j :: i <= j < i + n ==> IsLower(p[j])) && KeywordAt(p, i, k)
    ensures n <= |Name(k)| <= 6
    ensures IsLower(p[i + n]) || n == |Name(k)|
  {
    NameShape(k);
    var m := |Name(k)|;
    if n < m {
      assert p[i..i + m][n] == Name(k)[n];
    }
  }

  lemma {:induction false} KeywordUnique(p: seq<uchar>, i: nat, k: Keyword, l: Keyword)
    requires i <= |p| && KeywordAt(p, i, k) && KeywordAt(p, i, l)
    ensures k == l
  {
    NameShape(l);
    forall j | i <= j < i + |Name(l)|
      ensures IsLower(p[j])
    {
      assert p[j] == p[i..i + |Name(l)|][j - i];
    }
    KeywordLength(p, i, |Name(l)|, k);
    assert Name(k) == Name(l);
    assert Name(k)[0] == Name(l)[0] && Name(k)[1] == Name(l)[1] && Name(k)[4] == Name(l)[4];
  }

  datatype State = Default | RightBr | RightBrLeftBr

  function AddChars(b: Bracket, cs: set<uchar>): Bracket {
    b.(chars := b.chars + cs)
  }

  function RangeNext(p: seq<uchar>, i: nat): (n: nat)
    requires i < |p| && CString(p)
    ensures i < n <= |p|
  {
    match RangeEnd(p, i)
    case None => i + 1
    case Some(k) => k + 1
  }

  datatype Round =
    | Stop(end: Option<nat>)   // the closing bracket, or a syntax error
    | Go(next: nat, state: State, found: bool, b: Bracket)

  // One round of setcharset at position `i`.
  ghost function OneRound(p: seq<uchar>, i: nat, state: State, found: bool, b: Bracket): (r: Round)
    requires i <= |p| && CString(p)
    ensures r.Go? ==> i < r.next <= |p|
    ensures r.Stop? && r.end.Some? ==> i == r.end.value < |p| && p[i] == ']'
  {
    if i == |p| then Stop(None)
    else
      var c := p[i];
      if c == ']' && (found || !state.Default?) then Stop(Some(i))
      else if state.RightBr? && c == '[' then Go(i + 1, RightBrLeftBr, true, AddChars(b, {c}))
      else if state.RightBr? && !IsPrint(c) then Stop(None)
      else if !state.Default? then Go(i + 1, Default, true, AddChars(b, {c}))
      else if c == ']' then Go(i + 1, RightBr, true, AddChars(b, {c}))
      else if c == '[' && At(p, i + 1) == ':' && HasKeyword(p, i + 2) then
        var k :| KeywordAt(p, i + 2, k);
        Go(i + 4 + |Name(k)|, Default, true, b.(keywords := b.keywords + {k}))
      else if (c == '^' || c == '!') && !found && !b.negate then
        Go(i + 1, Default, false, b.(negate := true))
      else if c == '[' || c == '^' || c == '!' || (c == '\\' && i + 1 == |p|) then
        Go(i + 1, Default, true, AddChars(b, {c}))
      else
        var at := if c == '\\' then i + 1 else i;
        Go(RangeNext(p, at), Default, true, AddChars(b, RangeChars(p, at)))
  }

  // What setcharset reads from position `i` on, and the position of the closing
  // bracket; None is a syntax error.
  ghost function BracketFrom(p: seq<uchar>, i: nat, state: State, found: bool, b: Bracket): (r: Option<(Bracket, nat)>)
    requires i <= |p| && CString(p)
    ensures r.Some? ==> i <= r.value.1 < |p| && p[r.value.1] == ']'
    decreases |p| - i
  {
    match OneRound(p, i, state, found, b)
    case Stop(None) => None
    case Stop(Some(end)) => Some((b, end))
    case Go(next, state', found', b') => BracketFrom(p, next, state', found', b')
  }

  method FindKeyword(keyword: seq<uchar>) returns (ok: bool, k: Keyword)
    ensures ok ==> keyword == Name(k)
    ensures !ok ==> forall l :: keyword != Name(l)
  {
    ok, k := true, Alnum;
    if keyword == "digit" { k := Digit; }
    else if keyword == "alnum" { k := Alnum; }
    else if keyword == "alpha" { k := Alpha; }
    else if keyword == "xdigit" { k := Xdigit; }
    else if keyword == "print" { k := Print; }
    else if keyword == "graph" { k := Graph; }
    else if keyword == "space" { k := Space; }
    else if keyword == "blank" { k := Blank; }
    else if keyword == "upper" { k := Upper; }
    else if keyword == "lower" { k := Lower; }
    else { ok := false; }
  }

  // parsekeyword
  method ParseKeyword(p: seq<uchar>, i: nat) returns (ok: bool, k: Keyword, next: nat)
    requires i <= |p| && CString(p)
    ensures ok <==> HasKeyword(p, i)
    ensures ok ==> KeywordAt(p, i, k) && next == i + |Name(k)| + 2
  {
    ok, k, next := false, Alnum, i;
    var keyword: seq<uchar> := [];
    var colon, found := false, false;
    while !found
      invariant i <= next <= |p| && next - i <= 10
      invariant next == i + |keyword| + (if found then 2 else if colon then 1 else 0)
      invariant keyword == p[i..i + |keyword|]
      invariant forall j :: i <= j < i + |keyword| ==> IsLower(p[j])
      invariant colon ==> p[i + |keyword|] == ':'
      invariant found ==> colon && p[i + |keyword| + 1] == ']'
      decreases 10 - (next - i), !found
    {
      var c := At(p, next);
      if next - i >= 10 || (if colon then c != ']' else !IsLower(c) && c != ':') {
        NoKeyword(p, i, |keyword|);
        return;
      }
      if colon {
        found := true;
      } else if c == ':' {
        colon := true;
      } else {
        keyword := keyword + [c];
      }
      next := next + 1;
    }
    ok, k := FindKeyword(keyword);
    OnlyKeyword(p, i, |keyword|);
    assert ok ==> KeywordAt(p, i, k);
  }

  lemma {:induction false} OnlyKeyword(p: seq<uchar>, i: nat, n: nat)
    requires i + n < |p| && (forall j :: i <= j < i + n ==> IsLower(p[j])) && p[i + n] == ':'
    ensures forall k :: KeywordAt(p, i, k) ==> Name(k) == p[i..i + n]
  {
    forall k | KeywordAt(p, i, k)
      ensures Name(k) == p[i..i + n]
    {
      KeywordLength(p, i, n, k);
    }
  }

  // The letters that start at `i` are too many, or not followed by ":]".
  lemma {:induction false} NoKeyword(p: seq<uchar>, i: nat, n: nat)
    requires i + n <= |p| && forall j :: i <= j < i + n ==> IsLower(p[j])
    requires n > 6 || i + n == |p| || !IsLower(p[i + n])
    requires n > 6 || i + n == |p| || p[i + n] != ':' || i + n + 1 == |p| || p[i + n + 1] != ']'
    ensures !HasKeyword(p, i)
  {
    forall k | KeywordAt(p, i, k)
      ensures false
    {
      KeywordLength(p, i, n, k);
    }
  }

  // The slot of a keyword in the charset array.
  function Slot(k: Keyword): (n: nat)
    ensures 257 <= n < 267
  {
    match k
    case Alnum => 257
    case Digit => 258
    case Xdigit => 259
    case Alpha => 260
    case Print => 261
    case Blank => 262
    case Lower => 263
    case Graph => 264
    case Space => 265
    case Upper => 266
  }

  // The charset array describes the bracket expression `b`.
  ghost predicate Shows(a: seq<bool>, b: Bracket) {
    && |a| == 271
    && (forall c: uchar :: a[c as int] <==> c in b.chars)
    && (a[256] <==> b.negate)
    && (forall k: Keyword :: a[Slot(k)] <==> k in b.keywords)
  }

  // setcharorrange
  method SetCharOrRange(p: seq<uchar>, i: nat, charset: array<bool>, ghost b: Bracket) returns (next: nat)
    requires i < |p| && CString(p) && Shows(charset[..], b)
    modifies charset
    ensures Shows(charset[..], AddChars(b, RangeChars(p, i))) && next == RangeNext(p, i)
  {
    var c := p[i];
    next := i + 1;
    charset[c as int] := true;
    if IsAlnum(c) && At(p, i + 1) == '-' {
      var cc := ClassOf(c);
      var q := i + 2;
      var endrange := At(p, q);
      if endrange == '\\' {
        q := q + 1;
        endrange := At(p, q);
      }
      if endrange >= c && ClassOf(endrange) == cc {
        ghost var before := charset[..];
        var n := c as int;
        while n != endrange as int
          invariant c as int <= n <= endrange as int
          invariant forall d :: 0 <= d < 256 ==>
                      (charset[d] <==> before[d] || (c as int <= d <= n && ClassOf(d as char) == cc))
          invariant forall d :: 256 <= d < 271 ==> charset[d] == before[d]
          decreases endrange as int - n
        {
          n := n + 1;
          if ClassOf(n as char) == cc {
            charset[n] := true;
          }
        }
        next := q + 1;
        assert RangeEnd(p, i) == Some(q) && At(p, q) == endrange;
      }
    }
  }

  const NO_CHARS: Bracket := Bracket({}, {}, false)

  // One round of setcharset in its default state, unless it ends the expression.
  method DefaultStep(p: seq<uchar>, i: nat, found: bool, charset: array<bool>, ghost b: Bracket)
      returns (next: nat, state: State, found': bool, ghost b': Bracket)
    requires i < |p| && CString(p) && Shows(charset[..], b) && !(p[i] == ']' && found)
    modifies charset
    ensures Shows(charset[..], b') && OneRound(p, i, Default, found, b) == Go(next, state, found', b')
  {
    var c := p[i];
    state, found' := Default, true;
    if c == ']' {
      state := RightBr;
      next, b' := AddOne(c, i, charset, b);
    } else if c == '[' {
      var keyword, k := false, Alnum;
      if At(p, i + 1) == ':' {
        keyword, k, next := ParseKeyword(p, i + 2);
      }
      if keyword {
        OnlyOne(p, i + 2, k);
        b' := AddKeyword(k, charset, b);
      } else {
        next, b' := AddOne(c, i, charset, b);
      }
    } else if c == '^' || c == '!' {
      if !found && !charset[256] {
        next, found' := i + 1, false;
        b' := Negate(charset, b);
      } else {
        next, b' := AddOne(c, i, charset, b);
      }
    } else if c == '\\' {
      if At(p, i + 1) != '\0' {
        b' := AddChars(b, RangeChars(p, i + 1));
        next := SetCharOrRange(p, i + 1, charset, b);
      } else {
        next, b' := AddOne(c, i, charset, b);
      }
    } else {
      b' := AddChars(b, RangeChars(p, i));
      next := SetCharOrRange(p, i, charset, b);
    }
  }

  // setcharset, from the position after the opening bracket.
  method SetCharset(p: seq<uchar>, start: nat, charset: array<bool>) returns (ok: bool, i: nat, ghost b: Bracket)
    requires start <= |p| && CString(p) && charset.Length == 271
    modifies charset
    ensures ok <==> BracketFrom(p, start, Default, false, NO_CHARS).Some?
    ensures ok ==> BracketFrom(p, start, Default, false, NO_CHARS) == Some((b, i)) && Shows(charset[..], b)
  {
    forall n | 0 <= n < charset.Length {
      charset[n] := false;
    }
    var state, found := Default, false;
    i, b := start, NO_CHARS;
    ghost var whole := BracketFrom(p, start, Default, false, NO_CHARS);
    while true
      invariant i <= |p| && Shows(charset[..], b)
      invariant BracketFrom(p, i, state, found, b) == whole
      invariant !state.Default? ==> found
      decreases |p| - i
    {
      var c := At(p, i);
      if c == '\0' {
        return false, i, b;
      }
      if c == ']' && (found || !state.Default?) {
        return true, i, b;
      }
      if state.Default? {
        i, state, found, b := DefaultStep(p, i, found, charset, b);
      } else if state.RightBr? && c != '[' && !IsPrint(c) {
        return false, i, b;
      } else {
        state := if state.RightBr? && c == '[' then RightBrLeftBr else Default;
        i, b := AddOne(c, i, charset, b);
      }
    }
  }

  method AddOne(c: uchar, i: nat, charset: array<bool>, ghost b: Bracket) returns (next: nat, ghost b': Bracket)
    requires Shows(charset[..], b)
    modifies charset
    ensures next == i + 1 && b' == AddChars(b, {c}) && Shows(charset[..], b')
  {
    charset[c as int] := true;
    next, b' := i + 1, AddChars(b, {c});
  }

  method AddKeyword(k: Keyword, charset: array<bool>, ghost b: Bracket) returns (ghost b': Bracket)
    requires Shows(charset[..], b)
    modifies charset
    ensures b' == b.(keywords := b.keywords + {k}) && Shows(charset[..], b')
  {
    charset[Slot(k)] := true;
    b' := b.(keywords := b.keywords + {k});
  }

  method Negate(charset: array<bool>, ghost b: Bracket) returns (ghost b': Bracket)
    requires Shows(charset[..], b)
    modifies charset
    ensures b' == b.(negate := true) && Shows(charset[..], b')
  {
    charset[256] := true;
    b' := b.(negate := true);
  }

  lemma {:induction false} OnlyOne(p: seq<uchar>, i: nat, k: Keyword)
    requires i <= |p| && KeywordAt(p, i, k)
    ensures forall l :: KeywordAt(p, i, l) ==> l == k
  {
    forall l | KeywordAt(p, i, l)
      ensures l == k
    {
      KeywordUnique(p, i, k, l);
    }
  }

  // A pattern, read as a sequence of tokens.
  datatype Token = Star | AnyOne | Literal(c: uchar) | OneOf(b: Bracket) | SyntaxError

  ghost function TokenAt(p: seq<uchar>, i: nat): (r: (Token, nat))
    requires i < |p| && CString(p)
    ensures i < r.1 <= |p|
    ensures r.0.Literal? ==> r.0.c != '\0'
  {
    if p[i] == '*' then (Star, i + 1)
    else if p[i] == '?' then (AnyOne, i + 1)
    else if p[i] == '\\' && i + 1 < |p| then (Literal(p[i + 1]), i + 2)
    else if p[i] == '[' then
      match BracketFrom(p, i + 1, Default, false, NO_CHARS)
      case None => (SyntaxError, |p|)
      case Some(r) => (OneOf(r.0), r.1 + 1)
    else (Literal(p[i]), i + 1)
  }

  ghost function Tokens(p: seq<uchar>, i: nat): seq<Token>
    requires i <= |p| && CString(p)
    decreases |p| - i
  {
    if i == |p| then [] else [TokenAt(p, i).0] + Tokens(p, TokenAt(p, i).1)
  }

  predicate Accepts(t: Token, c: uchar) {
    match t
    case Star => false
    case AnyOne => true
    case Literal(d) => c == d
    case OneOf(b) => Contains(b, c)
    case SyntaxError => false
  }

  // Declarative matching: a star stands for any characters, every other token for one.
  ghost predicate Matches(ts: seq<Token>, s: seq<uchar>)
    decreases |ts|
  {
    if ts == [] then s == []
    else if ts[0].Star? then exists k :: 0 <= k <= |s| && Matches(ts[1..], s[k..])
    else s != [] && Accepts(ts[0], s[0]) && Matches(ts[1..], s[1..])
  }

  // The star groups of a pattern: a star with the stars and question marks after it.
  ghost function Groups(ts: seq<Token>, inGroup: bool): nat {
    if ts == [] then 0
    else match ts[0]
      case Star => (if inGroup then 0 else 1) + Groups(ts[1..], true)
      case AnyOne => Groups(ts[1..], inGroup)
      case _ => Groups(ts[1..], false)
  }

  // What `loop` decides for the pattern from `i` and the string `s`.
  ghost predicate Verdict(p: seq<uchar>, i: nat, s: seq<uchar>, budget: nat)
    requires i <= |p| && CString(p)
  {
    Matches(Tokens(p, i), s) && Groups(Tokens(p, i), false) <= budget
  }

  // The same within a star group: any number of characters may be skipped first.
  ghost predicate GroupVerdict(p: seq<uchar>, i: nat, s: seq<uchar>, budget: nat)
    requires i <= |p| && CString(p)
  {
    Matches([Star] + Tokens(p, i), s) && Groups(Tokens(p, i), true) <= budget
  }

  lemma {:induction false} StarMatches(ts: seq<Token>, s: seq<uchar>)
    ensures Matches([Star] + ts, s) <==> exists k :: 0 <= k <= |s| && Matches(ts, s[k..])
  {
    assert ([Star] + ts)[1..] == ts;
  }

  lemma {:induction false} TokensStep(p: seq<uchar>, i: nat)
    requires i < |p| && CString(p)
    ensures Tokens(p, i) != [] && Tokens(p, i)[0] == TokenAt(p, i).0
    ensures Tokens(p, i)[1..] == Tokens(p, TokenAt(p, i).1)
  {
  }

  // A token that stands for one character.
  lemma {:induction false} OneStep(p: seq<uchar>, i: nat, s: seq<uchar>, budget: nat)
    requires i < |p| && CString(p) && !TokenAt(p, i).0.Star?
    ensures Verdict(p, i, s, budget) <==>
            s != [] && Accepts(TokenAt(p, i).0, s[0]) && Verdict(p, TokenAt(p, i).1, s[1..], budget)
  {
    TokensStep(p, i);
  }

  // A star opens a group, which takes one unit of the budget.
  lemma {:induction false} StarStep(p: seq<uchar>, i: nat, s: seq<uchar>, budget: nat)
    requires i < |p| && CString(p) && TokenAt(p, i).0.Star?
    ensures Verdict(p, i, s, budget) <==> budget > 0 && GroupVerdict(p, i + 1, s, budget - 1)
  {
    TokensStep(p, i);
    assert Tokens(p, i) == [Star] + Tokens(p, i + 1);
  }

  // Within a group, another star changes nothing.
  lemma {:induction false} GroupStar(p: seq<uchar>, i: nat, s: seq<uchar>, budget: nat)
    requires i < |p| && CString(p) && TokenAt(p, i).0.Star?
    ensures GroupVerdict(p, i, s, budget) <==> GroupVerdict(p, i + 1, s, budget)
  {
    TokensStep(p, i);
    var ts := Tokens(p, i + 1);
    assert Tokens(p, i) == [Star] + ts;
    StarMatches([Star] + ts, s);
    StarMatches(ts, s);
    if k :| 0 <= k <= |s| && Matches([Star] + ts, s[k..]) {
      StarMatches(ts, s[k..]);
      var l :| 0 <= l <= |s[k..]| && Matches(ts, s[k..][l..]);
      assert s[k..][l..] == s[k + l..];
    }
    if Matches([Star] + ts, s) {
      assert s[0..] == s;
    }
  }

  // Skipping any number of characters and one is skipping one and any number.
  lemma {:induction false} StarAny(ts: seq<Token>, us: seq<Token>, s: seq<uchar>)
    requires us == [AnyOne] + ts
    ensures Matches([Star] + us, s) <==> s != [] && Matches([Star] + ts, s[1..])
  {
    assert us[1..] == ts;
    StarMatches(us, s);
    if k :| 0 <= k <= |s| && Matches(us, s[k..]) {
      assert s[k..][1..] == s[1..][k..];
      StarMatches(ts, s[1..]);
    }
    if s != [] {
      StarMatches(ts, s[1..]);
      if k :| 0 <= k <= |s[1..]| && Matches(ts, s[1..][k..]) {
        assert s[1..][k..] == s[k..][1..];
        assert Matches(us, s[k..]);
      }
    }
  }

  // Within a group, a question mark skips one character.
  lemma {:induction false} GroupAny(p: seq<uchar>, i: nat, s: seq<uchar>, budget: nat)
    requires i < |p| && CString(p) && TokenAt(p, i).0.AnyOne?
    ensures GroupVerdict(p, i, s, budget) <==> s != [] && GroupVerdict(p, i + 1, s[1..], budget)
  {
    TokensStep(p, i);
    var ts, us := Tokens(p, i + 1), Tokens(p, i);
    assert us == [AnyOne] + ts;
    assert Groups(us, true) == Groups(ts, true) by {
      assert us[1..] == ts;
    }
    StarAny(ts, us, s);
  }

  // After the group, the rest has to match at one of the positions before the end.
  lemma {:induction false} GroupRest(p: seq<uchar>, i: nat, s: seq<uchar>, budget: nat)
    requires i < |p| && CString(p) && !TokenAt(p, i).0.Star? && !TokenAt(p, i).0.AnyOne?
    ensures GroupVerdict(p, i, s, budget) <==> exists k :: 0 <= k < |s| && Verdict(p, i, s[k..], budget)
  {
    TokensStep(p, i);
    StarMatches(Tokens(p, i), s);
  }

  lemma {:induction false} GroupEnd(p: seq<uchar>, s: seq<uchar>, budget: nat)
    requires CString(p)
    ensures GroupVerdict(p, |p|, s, budget)
  {
    StarMatches([], s);
    assert s[|s|..] == [];
  }

  // The chain of tests on the charset array.
  method TestChar(charset: array<bool>, c: uchar, ghost b: Bracket) returns (found: bool)
    requires Shows(charset[..], b)
    ensures found == Contains(b, c)
  {
    found := false;
    if charset[c as int] { found := true; }
    else if charset[Slot(Alnum)] { found := IsAlnum(c); }
    else if charset[Slot(Alpha)] { found := IsAlpha(c); }
    else if charset[Slot(Digit)] { found := Text.IsDigit(c); }
    else if charset[Slot(Xdigit)] { found := IsXdigit(c); }
    else if charset[Slot(Print)] { found := IsPrint(c); }
    else if charset[Slot(Space)] { found := IsBlank(c); }
    else if charset[Slot(Upper)] { found := IsUpper(c); }
    else if charset[Slot(Lower)] { found := IsLower(c); }
    else if charset[Slot(Blank)] { found := IsBlank(c); }
    else if charset[Slot(Graph)] { found := IsGraph(c); }
    if charset[256] {
      found := !found;
    }
  }

  // The regrouping of consecutive stars and question marks, after the first star.
  // Either it decides, or it stops at a token of another kind.
  method SkipGroup(p: seq<uchar>, start: nat, s: seq<uchar>, from: nat, ghost budget: nat)
      returns (decided: bool, verdict: bool, i: nat, j: nat)
    requires start <= |p| && CString(p) && from <= |s| && CString(s)
    ensures decided ==> verdict == GroupVerdict(p, start, s[from..], budget)
    ensures !decided ==> start <= i < |p| && !TokenAt(p, i).0.Star? && !TokenAt(p, i).0.AnyOne? && j <= |s|
    ensures !decided ==> (GroupVerdict(p, i, s[j..], budget) <==> GroupVerdict(p, start, s[from..], budget))
  {
    i, j := start, from;
    while true
      invariant start <= i <= |p| && j <= |s|
      invariant GroupVerdict(p, i, s[j..], budget) <==> GroupVerdict(p, start, s[from..], budget)
      decreases |p| - i
    {
      if At(p, i) == '\0' {
        GroupEnd(p, s[j..], budget);
        return true, true, i, j;
      }
      if p[i] == '?' {
        GroupAny(p, i, s[j..], budget);
        if At(s, j) == '\0' {
          return true, false, i, j;
        }
        assert s[j..][1..] == s[j + 1..];
        j := j + 1;
      } else if p[i] != '*' {
        return false, false, i, j;
      } else {
        GroupStar(p, i, s[j..], budget);
      }
      i := i + 1;
    }
  }

  // One token that stands for one character: whether it accepts the next one, and
  // where the pattern goes on.
  method OneToken(p: seq<uchar>, i: nat, s: seq<uchar>, j: nat, charset: array<bool>) returns (ok: bool, next: nat)
    requires i < |p| && CString(p) && j <= |s| && CString(s) && charset.Length == 271 && p[i] != '*'
    modifies charset
    ensures ok <==> j < |s| && Accepts(TokenAt(p, i).0, s[j])
    ensures ok ==> next == TokenAt(p, i).1
  {
    next := i + 1;
    var c := At(s, j);
    if p[i] == '?' {
      ok := c != '\0';
    } else if p[i] == '\\' {
      var k := if At(p, i + 1) != '\0' then i + 1 else i;
      ok, next := c == p[k], k + 1;
    } else if p[i] == '[' {
      var end;
      ghost var b;
      ok, end, b := SetCharset(p, i + 1, charset);
      next := end + 1;
      if ok && c != '\0' {
        ok := TestChar(charset, c, b);
      } else {
        ok := false;
      }
    } else {
      ok := c == p[i];
    }
  }

  // loop: exactly the declarative verdict, as long as the budget of star groups lasts.
  method Loop(p: seq<uchar>, start: nat, s: seq<uchar>, from: nat, maxstars: nat) returns (matches: bool)
    requires start <= |p| && CString(p) && from <= |s| && CString(s)
    ensures matches <==> Verdict(p, start, s[from..], maxstars)
    decreases maxstars, 0
  {
    var i: nat, j: nat := start, from;
    var charset := new bool[271](_ => false);
    while i < |p| && p[i] != '*'
      invariant start <= i <= |p| && j <= |s|
      invariant Verdict(p, i, s[j..], maxstars) <==> Verdict(p, start, s[from..], maxstars)
    {
      OneStep(p, i, s[j..], maxstars);
      var ok, next := OneToken(p, i, s, j, charset);
      if !ok {
        return false;
      }
      assert s[j..][1..] == s[j + 1..];
      i, j := next, j + 1;
    }
    if i == |p| {
      return j == |s|;
    }
    StarStep(p, i, s[j..], maxstars);
    if maxstars == 0 {
      return false;
    }
    var decided, verdict;
    decided, verdict, i, j := SkipGroup(p, i + 1, s, j, maxstars - 1);
    if decided {
      return verdict;
    }
    matches := TryFrom(p, i, s, j, maxstars - 1);
  }

  // Skip characters of the string until the rest of the pattern matches.
  method TryFrom(p: seq<uchar>, i: nat, s: seq<uchar>, from: nat, maxstars: nat) returns (matches: bool)
    requires i < |p| && CString(p) && from <= |s| && CString(s)
    requires !TokenAt(p, i).0.Star? && !TokenAt(p, i).0.AnyOne?
    ensures matches <==> GroupVerdict(p, i, s[from..], maxstars)
    decreases maxstars, 1
  {
    GroupRest(p, i, s[from..], maxstars);
    var j := from;
    while j < |s|
      invariant from <= j <= |s|
      invariant forall k :: 0 <= k < j - from ==> !Verdict(p, i, s[from..][k..], maxstars)
    {
      assert s[from..][j - from..] == s[j..];
      matches := Loop(p, i, s, j, maxstars);
      if matches {
        return;
      }
      j := j + 1;
    }
    matches := false;
  }

  datatype Answer = Match | NoMatch | Fail

  // Curl_fnmatch answers Match exactly if the string matches declaratively and the
  // pattern has at most two star groups.
  method Fnmatch(pattern: Option<seq<uchar>>, string_: Option<seq<uchar>>) returns (answer: Answer)
    requires pattern.Some? ==> CString(pattern.value)
    requires string_.Some? ==> CString(string_.value)
    ensures answer == Fail <==> pattern.None? || string_.None?
    ensures pattern.Some? && string_.Some? ==>
              (answer == Match <==>
               Matches(Tokens(pattern.value, 0), string_.value) && Groups(Tokens(pattern.value, 0), false) <= 2)
  {
    if pattern.None? || string_.None? {
      return Fail;
    }
    var p, s := pattern.value, string_.value;
    var matches := Loop(p, 0, s, 0, 2);
    assert s[0..] == s;
    answer := if matches then Match else NoMatch;
  }

  // A pattern with three groups may match declaratively; it is refused all the same.
  lemma {:induction false} ThirdGroupIsRefused()
    ensures CString("*a*a*") && Matches(Tokens("*a*a*", 0), "aa") && Groups(Tokens("*a*a*", 0), false) == 3
  {
    var p: seq<uchar> := "*a*a*";
    var a, none: seq<Token> := [Literal('a')], [];
    assert Tokens(p, 5) == none;
    TokensStep(p, 4);
    TokensStep(p, 3);
    TokensStep(p, 2);
    TokensStep(p, 1);
    TokensStep(p, 0);
    ThreeStars(Tokens(p, 0));
  }

  lemma {:induction false} ThreeStars(ts: seq<Token>)
    requires |ts| == 5 && ts[0].Star? && ts[1] == Literal('a') && ts[2].Star? && ts[3] == Literal('a') && ts[4].Star?
    ensures Matches(ts, "aa") && Groups(ts, false) == 3
  {
    var s: seq<uchar> := "aa";
    assert s[2..] == [] && s[0..] == s && s[1..][0..] == s[1..] && s[1..][1..] == s[2..] && s[2..][0..] == s[2..];
    assert ts[4..][1..] == ts[5..] && ts[3..][1..] == ts[4..] && ts[2..][1..] == ts[3..] && ts[1..][1..] == ts[2..];
    assert Matches(ts[5..], s[2..]);
    assert Matches(ts[4..], s[2..]);
    assert Matches(ts[3..], s[1..]);
    assert Matches(ts[2..], s[1..]);
    assert Matches(ts[1..], s);
    assert Groups(ts[4..], false) == 1;
    assert Groups(ts[3..], true) == 1;
    assert Groups(ts[2..], false) == 2;
    assert Groups(ts[1..], true) == 2;
  }

  // ---------- What bracket expressions mean ----------

  // The class that a keyword names, in the C locale.
  predicate ClassHas(k: Keyword, c: uchar) {
    match k
    case Alnum => IsAlnum(c)
    case Alpha => IsAlpha(c)
    case Digit => Text.IsDigit(c)
    case Xdigit => IsXdigit(c)
    case Print => IsPrint(c)
    case Space => IsBlank(c) || 10 <= c as int <= 13
    case Upper => IsUpper(c)
    case Lower => IsLower(c)
    case Blank => IsBlank(c)
    case Graph => IsGraph(c)
  }

  // What the chain tests for a keyword.
  predicate Tested(k: Keyword, c: uchar) {
    if k.Space? then IsBlank(c) else ClassHas(k, c)
  }

  lemma {:induction false} NoKeywords(ks: set<Keyword>)
    requires Alnum !in ks && Alpha !in ks && Digit !in ks && Xdigit !in ks && Print !in ks
    requires Space !in ks && Upper !in ks && Lower !in ks && Blank !in ks && Graph !in ks
    ensures ks == {}
  {
    forall k: Keyword
      ensures k !in ks
    {
      match k
      case Alnum => case Alpha => case Digit => case Xdigit => case Print =>
      case Space => case Upper => case Lower => case Blank => case Graph =>
    }
  }

  // The keyword that the chain consults.
  function FirstOf(ks: set<Keyword>): (k: Option<Keyword>)
    ensures if ks == {} then k.None? else k.Some? && k.value in ks
  {
    if Alnum in ks then Some(Alnum)
    else if Alpha in ks then Some(Alpha)
    else if Digit in ks then Some(Digit)
    else if Xdigit in ks then Some(Xdigit)
    else if Print in ks then Some(Print)
    else if Space in ks then Some(Space)
    else if Upper in ks then Some(Upper)
    else if Lower in ks then Some(Lower)
    else if Blank in ks then Some(Blank)
    else if Graph in ks then Some(Graph)
    else
      NoKeywords(ks);
      None
  }

  // The union of the listed characters and the classes, or what is outside it.
  predicate Means(b: Bracket, c: uchar) {
    (c in b.chars || exists k :: k in b.keywords && ClassHas(k, c)) != b.negate
  }

  // A character that is not listed and belongs to a class, but not by the one test made.
  predicate Overlooked(b: Bracket, c: uchar) {
    && c !in b.chars
    && (exists k :: k in b.keywords && ClassHas(k, c))
    && !Tested(FirstOf(b.keywords).value, c)
  }

  // The chain is right about a character exactly if it does not overlook it.
  lemma {:induction false} ContainsMeans(b: Bracket, c: uchar)
    ensures (Contains(b, c) <==> Means(b, c)) <==> !Overlooked(b, c)
  {
    var f := FirstOf(b.keywords);
    assert Contains(b, c) == ((c in b.chars || (f.Some? && Tested(f.value, c))) != b.negate);
    if f.Some? && Tested(f.value, c) {
      assert f.value in b.keywords && ClassHas(f.value, c);
    }
  }

  // The classes that lie within what is tested for a keyword.
  predicate Covers(f: Keyword, k: Keyword) {
    match f
    case Alnum => k in {Alnum, Alpha, Digit, Xdigit, Upper, Lower}
    case Alpha => k in {Alpha, Upper, Lower}
    case Digit => k == Digit
    case Xdigit => k in {Xdigit, Digit}
    case Print => k in {Print, Graph, Alnum, Alpha, Digit, Xdigit, Upper, Lower}
    case Space => k == Blank
    case Upper => k == Upper
    case Lower => k == Lower
    case Blank => k == Blank
    case Graph => k in {Graph, Alnum, Alpha, Digit, Xdigit, Upper, Lower}
  }

  // A character of a class that is not covered.
  lemma {:induction false} Uncovered(f: Keyword, k: Keyword) returns (c: uchar)
    requires !Covers(f, k)
    ensures ClassHas(k, c) && !Tested(f, c)
  {
    c := '\n';
    var tries: seq<uchar> := ['\n', '\t', ' ', '!', '0', 'A', 'G', 'a', 'g'];
    assert tries[0] == '\n' && tries[1] == '\t' && tries[2] == ' ' && tries[3] == '!' && tries[4] == '0';
    assert tries[5] == 'A' && tries[6] == 'G' && tries[7] == 'a' && tries[8] == 'g';
    var i :| 0 <= i < |tries| && ClassHas(k, tries[i]) && !Tested(f, tries[i]);
    c := tries[i];
  }

  // With classes only, a bracket expression means its union exactly if the first of
  // the chain covers them all.
  lemma {:induction false} ClassesMeanUnion(b: Bracket)
    requires b.chars == {}
    ensures (forall c: uchar :: Contains(b, c) <==> Means(b, c)) <==>
            forall k :: k in b.keywords ==> Covers(FirstOf(b.keywords).value, k)
  {
    if forall k :: k in b.keywords ==> Covers(FirstOf(b.keywords).value, k) {
      forall c: uchar
        ensures Contains(b, c) <==> Means(b, c)
      {
        ContainsMeans(b, c);
        if k :| k in b.keywords && ClassHas(k, c) {
          CoveredIsTested(FirstOf(b.keywords).value, k, c);
        }
      }
    }
    if k :| k in b.keywords && !Covers(FirstOf(b.keywords).value, k) {
      var c := Uncovered(FirstOf(b.keywords).value, k);
      ContainsMeans(b, c);
    }
  }

  lemma {:induction false} CoveredIsTested(f: Keyword, k: Keyword, c: uchar)
    requires Covers(f, k) && ClassHas(k, c)
    ensures Tested(f, c)
  {
  }

  // A test of a character against a token other than a star.
  type Test = (Token, uchar) -> bool

  predicate Meant(t: Token, c: uchar) {
    if t.OneOf? then Means(t.b, c) else Accepts(t, c)
  }

  ghost predicate MatchesBy(ts: seq<Token>, s: seq<uchar>, fits: Test)
    decreases |ts|
  {
    if ts == [] then s == []
    else if ts[0].Star? then exists k :: 0 <= k <= |s| && MatchesBy(ts[1..], s[k..], fits)
    else s != [] && fits(ts[0], s[0]) && MatchesBy(ts[1..], s[1..], fits)
  }

  lemma {:induction false} MatchesAreByAccepts(ts: seq<Token>, s: seq<uchar>)
    ensures Matches(ts, s) <==> MatchesBy(ts, s, Accepts)
    decreases |ts|
  {
    if ts != [] && ts[0].Star? {
      forall k | 0 <= k <= |s|
        ensures Matches(ts[1..], s[k..]) <==> MatchesBy(ts[1..], s[k..], Accepts)
      {
        MatchesAreByAccepts(ts[1..], s[k..]);
      }
    } else if ts != [] && s != [] {
      MatchesAreByAccepts(ts[1..], s[1..]);
    }
  }

  // Matching with the brackets as they are meant.
  ghost predicate MatchesAsMeant(ts: seq<Token>, s: seq<uchar>) {
    MatchesBy(ts, s, Meant)
  }

  // Two tests that agree on the characters of a string match it alike.
  lemma {:induction false} SameTest(ts: seq<Token>, s: seq<uchar>, f: Test, g: Test)
    requires forall i, j :: 0 <= i < |ts| && 0 <= j < |s| ==> f(ts[i], s[j]) == g(ts[i], s[j])
    ensures MatchesBy(ts, s, f) <==> MatchesBy(ts, s, g)
    decreases |ts|
  {
    if ts != [] {
      var rest := ts[1..];
      assert forall i :: 0 <= i < |rest| ==> rest[i] == ts[i + 1];
      if ts[0].Star? {
        forall k | 0 <= k <= |s|
          ensures MatchesBy(rest, s[k..], f) <==> MatchesBy(rest, s[k..], g)
        {
          assert forall j :: 0 <= j < |s[k..]| ==> s[k..][j] == s[k + j];
          SameTest(rest, s[k..], f, g);
        }
      } else if s != [] {
        assert forall j :: 0 <= j < |s[1..]| ==> s[1..][j] == s[j + 1];
        SameTest(rest, s[1..], f, g);
      }
    }
  }

  ghost predicate NoneOverlooked(ts: seq<Token>, s: seq<uchar>) {
    forall i, j :: 0 <= i < |ts| && 0 <= j < |s| && ts[i].OneOf? ==> !Overlooked(ts[i].b, s[j])
  }

  // A pattern means what its brackets mean on the strings in which none overlooks a character.
  lemma {:induction false} MatchesMeans(ts: seq<Token>, s: seq<uchar>)
    requires NoneOverlooked(ts, s)
    ensures Matches(ts, s) <==> MatchesAsMeant(ts, s)
  {
    forall i, j | 0 <= i < |ts| && 0 <= j < |s|
      ensures Accepts(ts[i], s[j]) == Meant(ts[i], s[j])
    {
      if ts[i].OneOf? {
        ContainsMeans(ts[i].b, s[j]);
      }
    }
    SameTest(ts, s, Accepts, Meant);
    MatchesAreByAccepts(ts, s);
  }

  // The number of tokens that stand for one character, and of those before a token.
  ghost function Singles(ts: seq<Token>): nat {
    if ts == [] then 0 else (if ts[0].Star? then 0 else 1) + Singles(ts[1..])
  }

  ghost function Place(ts: seq<Token>, i: nat): nat
    requires i <= |ts|
  {
    if i == 0 then 0 else (if ts[0].Star? then 0 else 1) + Place(ts[1..], i - 1)
  }

  // Matching with no characters for the stars.
  ghost predicate Aligned(ts: seq<Token>, s: seq<uchar>, fits: Test) {
    if ts == [] then s == []
    else if ts[0].Star? then Aligned(ts[1..], s, fits)
    else s != [] && fits(ts[0], s[0]) && Aligned(ts[1..], s[1..], fits)
  }

  lemma {:induction false} LongEnough(ts: seq<Token>, s: seq<uchar>, fits: Test)
    requires MatchesBy(ts, s, fits)
    ensures |s| >= Singles(ts)
    decreases |ts|
  {
    if ts != [] && ts[0].Star? {
      var k :| 0 <= k <= |s| && MatchesBy(ts[1..], s[k..], fits);
      LongEnough(ts[1..], s[k..], fits);
    } else if ts != [] {
      LongEnough(ts[1..], s[1..], fits);
    }
  }

  // A string with a character for every token other than a star leaves none for the stars.
  lemma {:induction false} Aligns(ts: seq<Token>, s: seq<uchar>, fits: Test)
    requires |s| == Singles(ts)
    ensures MatchesBy(ts, s, fits) <==> Aligned(ts, s, fits)
    decreases |ts|
  {
    if ts != [] && ts[0].Star? {
      Aligns(ts[1..], s, fits);
      assert s[0..] == s;
      if k :| 0 <= k <= |s| && MatchesBy(ts[1..], s[k..], fits) {
        LongEnough(ts[1..], s[k..], fits);
      }
    } else if ts != [] && s != [] {
      Aligns(ts[1..], s[1..], fits);
    }
  }

  lemma {:induction false} AlignedAt(ts: seq<Token>, s: seq<uchar>, fits: Test, i: nat)
    requires Aligned(ts, s, fits) && i < |ts| && !ts[i].Star?
    ensures Place(ts, i) < |s| && fits(ts[i], s[Place(ts, i)])
  {
    if i > 0 && ts[0].Star? {
      AlignedAt(ts[1..], s, fits, i - 1);
    } else if i > 0 {
      AlignedAt(ts[1..], s[1..], fits, i - 1);
    }
  }

  ghost function SomeChar(p: uchar -> bool): (c: uchar)
    requires exists c: uchar :: p(c)
    ensures p(c)
  {
    var c: uchar :| p(c);
    c
  }

  ghost function Meets(t: Token, fits: Test): uchar -> bool {
    (c: uchar) => c != '\0' && fits(t, c)
  }

  // No character meets the token.
  ghost predicate Unmet(t: Token, fits: Test) {
    !t.Star? && forall c: uchar :: !Meets(t, fits)(c)
  }

  ghost predicate Hopeless(ts: seq<Token>, fits: Test) {
    exists i :: 0 <= i < |ts| && Unmet(ts[i], fits)
  }

  lemma {:induction false} HopelessTail(ts: seq<Token>, fits: Test)
    requires ts != []
    ensures Hopeless(ts, fits) <==>
            Hopeless(ts[1..], fits) || Unmet(ts[0], fits)
  {
    if i :| 0 <= i < |ts| && Unmet(ts[i], fits) {
      if i > 0 {
        assert ts[1..][i - 1] == ts[i];
      }
    }
    if i :| 0 <= i < |ts[1..]| && Unmet(ts[1..][i], fits) {
      assert ts[i + 1] == ts[1..][i];
    }
  }

  lemma {:induction false} NeverMatches(ts: seq<Token>, s: seq<uchar>, fits: Test)
    requires Hopeless(ts, fits) && CString(s)
    ensures !MatchesBy(ts, s, fits)
    decreases |ts|
  {
    if ts != [] {
      HopelessTail(ts, fits);
      if ts[0].Star? {
        forall k | 0 <= k <= |s|
          ensures !MatchesBy(ts[1..], s[k..], fits)
        {
          NeverMatches(ts[1..], s[k..], fits);
        }
      } else if s != [] && fits(ts[0], s[0]) {
        assert Meets(ts[0], fits)(s[0]);
        NeverMatches(ts[1..], s[1..], fits);
      }
    }
  }

  // A string for a pattern that can be met, with a given character for token `i`.
  lemma {:induction false} Tailored(ts: seq<Token>, fits: Test, i: int, c: uchar) returns (s: seq<uchar>)
    requires !Hopeless(ts, fits)
    requires 0 <= i < |ts| ==> !ts[i].Star? && c != '\0' && fits(ts[i], c)
    ensures CString(s) && |s| == Singles(ts) && Aligned(ts, s, fits)
    ensures 0 <= i < |ts| ==> Place(ts, i) < |s| && s[Place(ts, i)] == c
  {
    if ts == [] {
      return [];
    }
    HopelessTail(ts, fits);
    var rest := Tailored(ts[1..], fits, i - 1, c);
    if ts[0].Star? {
      return rest;
    }
    var d := SomeChar(Meets(ts[0], fits));
    s := [if i == 0 then c else d] + rest;
    assert s[1..] == rest;
  }

  // A test that is met by all the strings that another is met by is met where that one is.
  lemma {:induction false} Follows(ts: seq<Token>, f: Test, g: Test, i: int, c: uchar)
    requires !Hopeless(ts, f) && forall s :: CString(s) && MatchesBy(ts, s, f) ==> MatchesBy(ts, s, g)
    ensures !Hopeless(ts, g)
    ensures 0 <= i < |ts| && !ts[i].Star? && c != '\0' && f(ts[i], c) ==> g(ts[i], c)
  {
    var met := 0 <= i < |ts| && !ts[i].Star? && c != '\0' && f(ts[i], c);
    var s := Tailored(ts, f, if met then i else -1, c);
    Aligns(ts, s, f);
    Aligns(ts, s, g);
    if Hopeless(ts, g) {
      NeverMatches(ts, s, g);
    }
    if met {
      AlignedAt(ts, s, g, i);
    }
  }

  ghost function Misses(t: Token): uchar -> bool {
    (c: uchar) => t.OneOf? && Overlooked(t.b, c)
  }

  ghost predicate NoneOverlooks(ts: seq<Token>) {
    forall i :: 0 <= i < |ts| ==> forall c: uchar :: !Misses(ts[i])(c)
  }

  // A pattern means what its brackets mean on every string exactly if none of them
  // overlooks a character, or if it can match nothing either way.
  lemma {:induction false} PatternMeans(ts: seq<Token>)
    ensures (forall s :: CString(s) ==> (Matches(ts, s) <==> MatchesAsMeant(ts, s))) <==>
            NoneOverlooks(ts) || (Hopeless(ts, Accepts) && Hopeless(ts, Meant))
  {
    forall s
      ensures Matches(ts, s) <==> MatchesBy(ts, s, Accepts)
    {
      MatchesAreByAccepts(ts, s);
    }
    if NoneOverlooks(ts) || (Hopeless(ts, Accepts) && Hopeless(ts, Meant)) {
      forall s | CString(s)
        ensures Matches(ts, s) <==> MatchesAsMeant(ts, s)
      {
        if NoneOverlooks(ts) {
          assert forall i, j :: 0 <= i < |ts| && 0 <= j < |s| ==> !Misses(ts[i])(s[j]);
          MatchesMeans(ts, s);
        } else {
          NeverMatches(ts, s, Accepts);
          NeverMatches(ts, s, Meant);
        }
      }
    } else if forall s :: CString(s) ==> (Matches(ts, s) <==> MatchesAsMeant(ts, s)) {
      var i :| 0 <= i < |ts| && exists c: uchar :: Misses(ts[i])(c);
      var c := SomeChar(Misses(ts[i]));
      ContainsMeans(ts[i].b, c);
      if !Hopeless(ts, Accepts) {
        Follows(ts, Accepts, Meant, i, c);
      }
      if !Hopeless(ts, Meant) {
        Follows(ts, Meant, Accepts, i, c);
      }
    }
  }

  // ---------- Bracket expressions, written and read ----------

  datatype Item = One(c: uchar) | Span(a: uchar, z: uchar) | Class(k: Keyword)

  predicate ItemOk(x: Item) {
    match x
    case One(c) => c != '\0'
    case Span(a, z) => IsAlnum(a) && ClassOf(a) == ClassOf(z) && a <= z
    case Class(_) => true
  }

  // An item as it is written, with every character behind a backslash.
  function ItemText(x: Item): (t: seq<uchar>)
    ensures |t| > 1 && t[0] != '-' && t[0] != ']'
  {
    match x
    case One(c) => ['\\', c]
    case Span(a, z) => ['\\', a, '-', '\\', z]
    case Class(k) => ['[', ':'] + Name(k) + [':', ']']
  }

  function With(b: Bracket, x: Item): Bracket {
    match x
    case One(c) => AddChars(b, {c})
    case Span(a, z) => AddChars(b, set c: uchar | a <= c <= z && ClassOf(c) == ClassOf(a))
    case Class(k) => b.(keywords := b.keywords + {k})
  }

  function ItemsText(xs: seq<Item>): seq<uchar> {
    if xs == [] then [] else ItemText(xs[0]) + ItemsText(xs[1..])
  }

  function WithAll(b: Bracket, xs: seq<Item>): Bracket
    decreases |xs|
  {
    if xs == [] then b else WithAll(With(b, xs[0]), xs[1..])
  }

  ghost predicate Stands(p: seq<uchar>, i: nat, t: seq<uchar>) {
    i + |t| <= |p| && p[i..i + |t|] == t
  }

  lemma {:induction false} StandsAt(p: seq<uchar>, i: nat, t: seq<uchar>)
    requires Stands(p, i, t)
    ensures forall j {:trigger t[j]} :: 0 <= j < |t| ==> p[i + j] == t[j]
  {
    forall j {:trigger t[j]} | 0 <= j < |t|
      ensures p[i + j] == t[j]
    {
      assert p[i..i + |t|][j] == t[j];
    }
  }

  lemma {:induction false} StandsParts(p: seq<uchar>, i: nat, t: seq<uchar>, u: seq<uchar>)
    requires Stands(p, i, t + u)
    ensures Stands(p, i, t) && Stands(p, i + |t|, u)
  {
    var whole := p[i..i + |t + u|];
    assert whole[..|t|] == t && whole[|t|..] == u;
    assert p[i..i + |t|] == whole[..|t|];
    assert p[i + |t|..i + |t| + |u|] == whole[|t|..];
  }

  lemma {:induction false} NameIsIn(p: seq<uchar>, i: nat, opening: seq<uchar>, name: seq<uchar>, closing: seq<uchar>)
    requires Stands(p, i, opening + name + closing) && |opening| == |closing| == 2
    ensures var n := i + 2 + |name|;
            && n + 2 <= |p| && p[i + 2..n] == name && p[i] == opening[0] && p[i + 1] == opening[1]
            && p[n] == closing[0] && p[n + 1] == closing[1]
  {
    StandsParts(p, i, opening + name, closing);
    StandsParts(p, i, opening, name);
    StandsAt(p, i, opening);
    StandsAt(p, i + 2 + |name|, closing);
  }

  lemma {:induction false} ClassIsRead(p: seq<uchar>, i: nat, k: Keyword, found: bool, b: Bracket)
    requires CString(p) && Stands(p, i, ItemText(Class(k)))
    ensures OneRound(p, i, Default, found, b) == Go(i + |ItemText(Class(k))|, Default, true, With(b, Class(k)))
  {
    NameIsIn(p, i, ['[', ':'], Name(k), [':', ']']);
    KeywordIsRead(p, i, k, found, b);
  }

  lemma {:induction false} KeywordIsRead(p: seq<uchar>, i: nat, k: Keyword, found: bool, b: Bracket)
    requires i + 4 + |Name(k)| <= |p| && CString(p) && p[i] == '[' && p[i + 1] == ':' && KeywordAt(p, i + 2, k)
    ensures OneRound(p, i, Default, found, b) == Go(i + 4 + |Name(k)|, Default, true, b.(keywords := b.keywords + {k}))
  {
    OnlyOne(p, i + 2, k);
    assert HasKeyword(p, i + 2);
  }

  lemma {:induction false} ItemIsRead(p: seq<uchar>, i: nat, x: Item, found: bool, b: Bracket)
    requires CString(p) && ItemOk(x) && Stands(p, i, ItemText(x))
    requires i + |ItemText(x)| < |p| && p[i + |ItemText(x)|] != '-'
    ensures OneRound(p, i, Default, found, b) == Go(i + |ItemText(x)|, Default, true, With(b, x))
  {
    var t := ItemText(x);
    StandsAt(p, i, t);
    match x
    case Class(k) => ClassIsRead(p, i, k, found, b);
    case One(c) =>
      assert t[0] == '\\' && t[1] == c;
    case Span(a, z) =>
      assert t[0] == '\\' && t[1] == a && t[2] == '-' && t[3] == '\\' && t[4] == z;
      assert RangeEnd(p, i + 1) == Some(i + 4);
  }

  // The first of some items, with what follows it, which is no dash.
  lemma {:induction false} ItemsParts(p: seq<uchar>, i: nat, xs: seq<Item>, end: nat) returns (next: nat)
    requires xs != [] && Stands(p, i, ItemsText(xs)) && end == i + |ItemsText(xs)| < |p| && p[end] == ']'
    ensures Stands(p, i, ItemText(xs[0])) && next == i + |ItemText(xs[0])| < |p| && p[next] != '-'
    ensures Stands(p, next, ItemsText(xs[1..])) && end == next + |ItemsText(xs[1..])|
  {
    var t, u := ItemText(xs[0]), ItemsText(xs[1..]);
    next := i + |t|;
    assert ItemsText(xs) == t + u;
    StandsParts(p, i, t, u);
    if xs[1..] != [] {
      var v := ItemText(xs[1..][0]);
      StandsParts(p, next, v, ItemsText(xs[1..][1..]));
      StandsAt(p, next, v);
      assert v[0] != '-';
    }
  }

  lemma {:induction false} GoesOn(p: seq<uchar>, i: nat, found: bool, b: Bracket, next: nat, found': bool, b': Bracket)
    requires i <= |p| && CString(p) && OneRound(p, i, Default, found, b) == Go(next, Default, found', b')
    ensures BracketFrom(p, i, Default, found, b) == BracketFrom(p, next, Default, found', b')
  {
  }

  lemma {:induction false} EndRound(p: seq<uchar>, i: nat, b: Bracket)
    requires i < |p| && CString(p) && p[i] == ']'
    ensures BracketFrom(p, i, Default, true, b) == Some((b, i))
  {
  }

  lemma {:induction false} OneItemIsRead(p: seq<uchar>, i: nat, x: Item, found: bool, b: Bracket, next: nat, b': Bracket)
    requires CString(p) && ItemOk(x) && Stands(p, i, ItemText(x))
    requires next == i + |ItemText(x)| < |p| && p[next] != '-' && b' == With(b, x)
    ensures BracketFrom(p, i, Default, found, b) == BracketFrom(p, next, Default, true, b')
  {
    assert OneRound(p, i, Default, found, b) == Go(next, Default, true, b') by {
      ItemIsRead(p, i, x, found, b);
    }
    GoesOn(p, i, found, b, next, true, b');
  }

  // Items are read as what they list, up to the closing bracket.
  lemma {:induction false} ItemsAreRead(p: seq<uchar>, i: nat, xs: seq<Item>, found: bool, b: Bracket, end: nat)
    requires CString(p) && Stands(p, i, ItemsText(xs)) && (found || xs != [])
    requires forall k :: 0 <= k < |xs| ==> ItemOk(xs[k])
    requires end == i + |ItemsText(xs)| < |p| && p[end] == ']'
    ensures BracketFrom(p, i, Default, found, b) == Some((WithAll(b, xs), end))
    decreases |xs|
  {
    if xs == [] {
      EndRound(p, i, b);
    } else {
      var next := ItemsParts(p, i, xs, end);
      var b' := With(b, xs[0]);
      OneItemIsRead(p, i, xs[0], found, b, next, b');
      ItemsAreRead(p, next, xs[1..], true, b', end);
    }
  }

  lemma {:induction false} NegationIsRead(p: seq<uchar>, b: Bracket)
    requires |p| > 1 && CString(p) && p[1] == '^' && b == Bracket({}, {}, true)
    ensures BracketFrom(p, 1, Default, false, NO_CHARS) == BracketFrom(p, 2, Default, false, b)
  {
    GoesOn(p, 1, false, NO_CHARS, 2, false, b);
  }

  // A bracket expression, from its opening to its closing bracket.
  function Written(xs: seq<Item>, negate: bool): seq<uchar> {
    ['['] + (if negate then ['^'] else []) + ItemsText(xs) + [']']
  }

  lemma {:induction false} WrittenParts(p: seq<uchar>, xs: seq<Item>, negate: bool) returns (start: nat)
    requires p == Written(xs, negate)
    ensures start == (if negate then 2 else 1) && Stands(p, start, ItemsText(xs))
    ensures |p| == start + |ItemsText(xs)| + 1 && p[0] == '[' && p[|p| - 1] == ']' && (negate ==> p[1] == '^')
  {
    var opening: seq<uchar> := if negate then ['[', '^'] else ['['];
    start := |opening|;
    Around(p, opening, ItemsText(xs), [']']);
  }

  lemma {:induction false} Around(p: seq<uchar>, opening: seq<uchar>, t: seq<uchar>, closing: seq<uchar>)
    requires p == opening + t + closing
    ensures Stands(p, |opening|, t)
    ensures forall j :: 0 <= j < |opening| ==> p[j] == opening[j]
    ensures forall j :: 0 <= j < |closing| ==> p[|opening| + |t| + j] == closing[j]
  {
  }

  lemma {:induction false} BodyIsRead(p: seq<uchar>, start: nat, b: Bracket, r: (Bracket, nat))
    requires CString(p) && start <= |p| && start == (if b.negate then 2 else 1) && b == Bracket({}, {}, b.negate)
    requires b.negate ==> |p| > 1 && p[1] == '^'
    requires BracketFrom(p, start, Default, false, b) == Some(r)
    ensures |p| > 1 && BracketFrom(p, 1, Default, false, NO_CHARS) == Some(r)
  {
    if b.negate {
      NegationIsRead(p, b);
    }
  }

  // What is written is a pattern of one bracket, which is what was written.
  lemma {:induction false} WrittenIsRead(p: seq<uchar>, xs: seq<Item>, negate: bool)
    requires xs != [] && forall k :: 0 <= k < |xs| ==> ItemOk(xs[k])
    requires CString(p) && p == Written(xs, negate)
    ensures Tokens(p, 0) == [OneOf(WithAll(Bracket({}, {}, negate), xs))]
  {
    var start := WrittenParts(p, xs, negate);
    var b := Bracket({}, {}, negate);
    var whole, end := WithAll(b, xs), |p| - 1;
    ItemsAreRead(p, start, xs, false, b, end);
    BodyIsRead(p, start, b, (whole, end));
    OneBracket(p, whole);
  }

  // A pattern that is one bracket expression.
  lemma {:induction false} OneBracket(p: seq<uchar>, b: Bracket)
    requires |p| > 1 && CString(p) && p[0] == '[' && BracketFrom(p, 1, Default, false, NO_CHARS) == Some((b, |p| - 1))
    ensures Tokens(p, 0) == [OneOf(b)]
  {
    assert TokenAt(p, 0) == (OneOf(b), |p|);
    assert |Tokens(p, |p|)| == 0;
  }

  // ---------- Which brackets can be read ----------

  predicate NulFree(b: Bracket) { '\0' !in b.chars }

  predicate Proper(b: Bracket) { NulFree(b) && (b.chars != {} || b.keywords != {}) }

  lemma {:induction false} AddIsProper(b: Bracket, cs: set<uchar>, c: uchar)
    requires NulFree(b) && c in cs && '\0' !in cs
    ensures Proper(AddChars(b, cs))
  {
  }

  lemma {:induction false} RangeIsProper(p: seq<uchar>, i: nat, b: Bracket)
    requires i < |p| && CString(p) && NulFree(b)
    ensures Proper(AddChars(b, RangeChars(p, i)))
  {
    AddIsProper(b, RangeChars(p, i), p[i]);
  }

  lemma {:induction false} RoundIsProper(p: seq<uchar>, i: nat, state: State, found: bool, b: Bracket)
    requires i <= |p| && CString(p) && NulFree(b) && (found || !state.Default? ==> Proper(b))
    ensures match OneRound(p, i, state, found, b)
            case Stop(None) => true
            case Stop(Some(_)) => Proper(b)
            case Go(_, state', found', b') => NulFree(b') && (found' || !state'.Default? ==> Proper(b'))
  {
    if i < |p| {
      AddIsProper(b, {p[i]}, p[i]);
      RangeIsProper(p, i, b);
      if i + 1 < |p| {
        RangeIsProper(p, i + 1, b);
      }
      forall k: Keyword
        ensures Proper(b.(keywords := b.keywords + {k}))
      {
        assert k in b.keywords + {k};
      }
    }
  }

  lemma {:induction false} ReadIsProper(p: seq<uchar>, i: nat, state: State, found: bool, b: Bracket)
    requires i <= |p| && CString(p) && NulFree(b) && (found || !state.Default? ==> Proper(b))
    ensures BracketFrom(p, i, state, found, b).Some? ==> Proper(BracketFrom(p, i, state, found, b).value.0)
    decreases |p| - i
  {
    RoundIsProper(p, i, state, found, b);
    match OneRound(p, i, state, found, b)
    case Stop(_) =>
    case Go(next, state', found', b') => ReadIsProper(p, next, state', found', b');
  }

  ghost function IsIn(cs: set<uchar>): uchar -> bool {
    (c: uchar) => c in cs
  }

  lemma {:induction false} SomeOf(cs: set<uchar>) returns (c: uchar)
    requires cs != {}
    ensures c in cs
  {
    assert exists c: uchar :: c in cs && IsIn(cs)(c);
    c := SomeChar(IsIn(cs));
  }

  // Items for given characters and keywords.
  lemma {:induction false} Itemized(cs: set<uchar>, ks: set<Keyword>, b: Bracket) returns (xs: seq<Item>)
    requires '\0' !in cs
    ensures forall k :: 0 <= k < |xs| ==> ItemOk(xs[k])
    ensures WithAll(b, xs) == Bracket(b.chars + cs, b.keywords + ks, b.negate)
    ensures xs == [] ==> cs == {} && ks == {}
    decreases cs, ks
  {
    if cs != {} {
      var c := SomeOf(cs);
      var rest := Itemized(cs - {c}, ks, With(b, One(c)));
      xs := [One(c)] + rest;
      assert xs[1..] == rest && b.chars + {c} + (cs - {c}) == b.chars + cs;
    } else if ks != {} {
      var k :| k in ks;
      var rest := Itemized(cs, ks - {k}, With(b, Class(k)));
      xs := [Class(k)] + rest;
      assert xs[1..] == rest && b.keywords + {k} + (ks - {k}) == b.keywords + ks;
    } else {
      xs := [];
      assert b.chars + cs == b.chars && b.keywords + ks == b.keywords;
    }
  }

  lemma {:induction false} ItemsAreC(xs: seq<Item>)
    requires forall k :: 0 <= k < |xs| ==> ItemOk(xs[k])
    ensures CString(ItemsText(xs))
  {
    if xs != [] {
      if xs[0].Class? {
        NameShape(xs[0].k);
      }
      assert CString(ItemText(xs[0]));
      ItemsAreC(xs[1..]);
    }
  }

  // A bracket expression is read from some pattern exactly if it lists or names
  // something, and no NUL.
  lemma {:induction false} ReadableMeans(b: Bracket)
    ensures (exists p :: CString(p) && p != [] && Tokens(p, 0) == [OneOf(b)]) <==> Proper(b)
  {
    if p :| CString(p) && p != [] && Tokens(p, 0) == [OneOf(b)] {
      assert Tokens(p, 0)[0] == TokenAt(p, 0).0;
      ReadIsProper(p, 1, Default, false, NO_CHARS);
    }
    if Proper(b) {
      var xs := Itemized(b.chars, b.keywords, Bracket({}, {}, b.negate));
      var p := Written(xs, b.negate);
      ItemsAreC(xs);
      assert {} + b.chars == b.chars && {} + b.keywords == b.keywords;
      WrittenIsRead(p, xs, b.negate);
    }
  }

  lemma {:induction false} SpaceText()
    ensures Written([Class(Space)], false) == "[[:space:]]" && CString("[[:space:]]")
  {
    var xs := [Class(Space)];
    assert xs[1..] == [] && ItemsText(xs[1..]) == [];
    assert ItemText(xs[0]) == "[:space:]";
    assert ItemsText(xs) == "[:space:]";
  }

  // [[:space:]] does not match a newline.
  lemma {:induction false} NewlineIsOverlooked()
    ensures CString("[[:space:]]") && Tokens("[[:space:]]", 0) == [OneOf(Bracket({}, {Space}, false))]
    ensures Overlooked(Bracket({}, {Space}, false), '\n')
  {
    SpaceText();
    TwoClasses([Space], "[[:space:]]");
    assert Space in {Space} && ClassHas(Space, '\n');
  }

  // A pattern of one or two classes.
  lemma {:induction false} TwoClasses(ks: seq<Keyword>, p: seq<uchar>)
    requires 0 < |ks| <= 2 && CString(p)
    requires p == Written(if |ks| == 1 then [Class(ks[0])] else [Class(ks[0]), Class(ks[1])], false)
    ensures Tokens(p, 0) == [OneOf(Bracket({}, if |ks| == 1 then {ks[0]} else {ks[0], ks[1]}, false))]
  {
    var b := Bracket({}, {}, false);
    var xs := if |ks| == 1 then [Class(ks[0])] else [Class(ks[0]), Class(ks[1])];
    WrittenIsRead(p, xs, false);
    if |ks| == 1 {
      assert xs[1..] == [] && {} + {ks[0]} == {ks[0]};
    } else {
      var ys := xs[1..];
      assert ys == [Class(ks[1])] && ys[1..] == [];
      var b' := With(b, xs[0]);
      assert WithAll(b, xs) == WithAll(b', ys) == With(b', ys[0]);
      assert {} + {ks[0]} + {ks[1]} == {ks[0], ks[1]};
    }
  }

  lemma {:induction false} DigitSpaceText()
    ensures Written([Class(Digit), Class(Space)], false) == "[[:digit:][:space:]]" && CString("[[:digit:][:space:]]")
  {
    var xs, ys := [Class(Digit), Class(Space)], [Class(Space)];
    assert xs[1..] == ys && ys[1..] == [];
    assert ItemText(ys[0]) == "[:space:]" && ItemText(xs[0]) == "[:digit:]";
    assert ItemsText(ys) == "[:space:]";
    assert ItemsText(xs) == "[:digit:][:space:]";
  }

  // [[:digit:][:space:]] does not match a blank.
  lemma {:induction false} BlankIsOverlooked()
    ensures CString("[[:digit:][:space:]]")
    ensures Tokens("[[:digit:][:space:]]", 0) == [OneOf(Bracket({}, {Digit, Space}, false))]
    ensures Overlooked(Bracket({}, {Digit, Space}, false), ' ')
  {
    DigitSpaceText();
    TwoClasses([Digit, Space], "[[:digit:][:space:]]");
    assert Space in {Digit, Space} && ClassHas(Space, ' ');
  }
}
