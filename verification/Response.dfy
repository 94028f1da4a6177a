// The response reader of native/transport.c: the head is read out of a stream that
// arrives in pieces, then the rest is copied to the output. A stream is known with
// the lengths of its pieces; a read may fail at any time.

module Response {
  import opened Options
  import opened Text

  const READ_SIZE: nat := 16384
  const MAX_HEADER: nat := 65536
  const MAX_CAPTURE: nat := 8388608
  const LLONG_MAX: nat := 9223372036854775807

  datatype ResponseHead = ResponseHead(
    status: int,
    location: Option<string>,
    contentLength: int,
    contentType: string,
    contentEncoding: string,
    invalidFraming: bool)

  // ---------- Where a head ends ----------

  predicate EndAt(s: string, i: nat) {
    i + 3 < |s| && s[i] == '\r' && s[i + 1] == '\n' && s[i + 2] == '\r' && s[i + 3] == '\n'
  }

  ghost predicate EndsFirstAt(s: string, i: nat) {
    EndAt(s, i) && forall j :: 0 <= j < i ==> !EndAt(s, j)
  }

  // The bytes of a head and those after it; None while the head is not complete.
  ghost predicate SplitsInto(s: string, head: string, body: string) {
    s == head + body && |head| >= 4 && EndsFirstAt(s, |head| - 4)
  }

  ghost predicate Incomplete(s: string) {
    forall i: nat :: !EndAt(s, i)
  }

  // find_header_end: the position after the first empty line.
  method FindHeaderEnd(bytes: string) returns (end: Option<nat>)
    ensures end.None? <==> Incomplete(bytes)
    ensures end.Some? ==> 4 <= end.value <= |bytes| && SplitsInto(bytes, bytes[..end.value], bytes[end.value..])
  {
    var index := 0;
    while index + 3 < |bytes|
      invariant forall j: nat :: j < index ==> !EndAt(bytes, j)
    {
      if EndAt(bytes, index) {
        assert bytes[..index + 4] + bytes[index + 4..] == bytes;
        return Some(index + 4);
      }
      index := index + 1;
    }
    end := None;
  }

  // What is found does not depend on how much of the stream has arrived.
  lemma {:induction false} SplitIsStable(s: string, more: string, head: string, body: string)
    requires SplitsInto(s, head, body)
    ensures SplitsInto(s + more, head, body + more)
  {
    var t, n := s + more, |head| - 4;
    assert t == head + (body + more);
    forall j: nat | j <= n
      ensures EndAt(t, j) == EndAt(s, j)
    {
    }
  }

  lemma {:induction false} SplitIsUnique(s: string, head: string, body: string, head': string, body': string)
    requires SplitsInto(s, head, body) && SplitsInto(s, head', body')
    ensures head == head' && body == body'
  {
    assert EndAt(s, |head| - 4) && EndAt(s, |head'| - 4);
    assert s[..|head|] == head && s[..|head'|] == head';
    assert s[|head|..] == body && s[|head'|..] == body';
  }

  // A head that the last piece completes ends in that piece, so what follows it
  // is shorter than the piece.
  lemma {:induction false} PrefixFits(before: string, piece: string, head: string, body: string)
    requires Incomplete(before) && SplitsInto(before + piece, head, body)
    ensures |before| < |head| && |body| < |piece|
  {
    assert |head| <= |before| ==> EndAt(before, |head| - 4);
  }

  // ---------- The fields of a head ----------

  function CText(s: string): string {
    s[..IndexOf(s, '\0')]
  }

  // The first line, without its newline.
  function StatusLine(h: string): string {
    h[..IndexOf(h, '\n')]
  }

  // parse_status
  function Status(h: string): (r: int)
    ensures -1 <= r <= 999
  {
    var line := StatusLine(h);
    if |line| < 13 || !("HTTP/1." <= line) || (line[7] != '0' && line[7] != '1') || line[8] != ' ' then -1
    else if !Digits(line[9..12]) || (line[12] != ' ' && line[12] != '\r') then -1
    else (line[9] as int - 48) * 100 + (line[10] as int - 48) * 10 + (line[11] as int - 48)
  }

  lemma {:induction false} StatusReadsBack(minor: char, n: nat, rest: string)
    requires (minor == '0' || minor == '1') && 100 <= n <= 999
    requires |rest| >= 2 && (rest[0] == ' ' || rest[0] == '\r') && rest[1] == '\n'
    ensures Status("HTTP/1." + [minor] + " " + Decimal(n) + rest) == n
  {
    var p, d := "HTTP/1." + [minor] + " ", Decimal(n);
    var h := p + d + rest;
    ThreeDigits(n);
    var line := p + d + rest[..1];
    assert h == line + rest[1..];
    assert forall i :: 0 <= i < |line| ==> line[i] != '\n';
    IndexOfIs(line, rest[1..], '\n');
    assert line[9..12] == d && line[..7] == "HTTP/1.";
  }

  lemma {:induction false} ThreeDigits(n: nat)
    requires 100 <= n <= 999
    ensures |Decimal(n)| == 3 && Digits(Decimal(n))
    ensures n == (Decimal(n)[0] as int - 48) * 100 + (Decimal(n)[1] as int - 48) * 10 + (Decimal(n)[2] as int - 48)
  {
    var a, b := n / 10, n / 100;
    assert a / 10 == b;
    assert Decimal(b) == [(48 + b) as char];
    assert Decimal(a) == Decimal(b) + [(48 + a % 10) as char];
    assert Decimal(n) == Decimal(a) + [(48 + n % 10) as char];
  }

  // The lines of `s`, with an unterminated last one.
  function Lines(s: string): seq<string>
    decreases |s|
  {
    if s == "" then []
    else
      var n := IndexOf(s, '\n');
      if n == |s| then [s] else [s[..n]] + Lines(s[n + 1..])
  }

  // The terminated lines of `s`.
  function Terminated(s: string): seq<string>
    decreases |s|
  {
    var n := IndexOf(s, '\n');
    if n == |s| then [] else [s[..n]] + Terminated(s[n + 1..])
  }

  function WithoutCr(line: string): string {
    if line != "" && line[|line| - 1] == '\r' then line[..|line| - 1] else line
  }

  // What follows the colon in the first line named so, before any empty line.
  function FirstNamed(lines: seq<string>, name: string): Option<string> {
    if lines == [] || WithoutCr(lines[0]) == "" then None
    else if Named(WithoutCr(lines[0]), name) then Some(WithoutCr(lines[0])[|name| + 1..])
    else FirstNamed(lines[1..], name)
  }

  function Blanks(s: string): (n: nat)
    ensures n <= |s|
    ensures n < |s| ==> s[n] != ' ' && s[n] != '\t'
    ensures forall i :: 0 <= i < n ==> s[i] == ' ' || s[i] == '\t'
  {
    if s != "" && (s[0] == ' ' || s[0] == '\t') then 1 + Blanks(s[1..]) else 0
  }

  function TrimEnd(s: string): (t: string)
    ensures t <= s
    ensures t != "" ==> t[|t| - 1] != ' ' && t[|t| - 1] != '\t'
    ensures forall i :: |t| <= i < |s| ==> s[i] == ' ' || s[i] == '\t'
  {
    if s != "" && (s[|s| - 1] == ' ' || s[|s| - 1] == '\t') then TrimEnd(s[..|s| - 1]) else s
  }

  function Trimmed(s: string): string {
    TrimEnd(s[Blanks(s)..])
  }

  // The lines after the first.
  function FieldLines(h: string): seq<string> {
    var n := IndexOf(h, '\n');
    if n == |h| then [] else Lines(h[n + 1..])
  }

  // The value of a header, if it is there, not empty, and fits with its NUL.
  function Value(h: string, name: string, capacity: nat): Option<string> {
    match FirstNamed(FieldLines(h), name)
    case None => None
    case Some(v) => if 0 < |Trimmed(v)| < capacity then Some(Trimmed(v)) else None
  }

  method Trim(s: string) returns (t: string)
    ensures t == Trimmed(s)
  {
    var value := 0;
    while value < |s| && (s[value] == ' ' || s[value] == '\t')
      invariant 0 <= value <= Blanks(s)
      invariant forall i :: 0 <= i < value ==> s[i] == ' ' || s[i] == '\t'
    {
      value := value + 1;
    }
    t := s[value..];
    while t != "" && (t[|t| - 1] == ' ' || t[|t| - 1] == '\t')
      invariant TrimEnd(t) == TrimEnd(s[value..])
      decreases |t|
    {
      t := t[..|t| - 1];
    }
  }

  // copy_header_value
  method CopyHeaderValue(h: string, wanted: string, capacity: nat) returns (value: Option<string>)
    requires ':' !in wanted
    ensures value == Value(h, wanted, capacity)
  {
    var first := IndexOf(h, '\n');
    if first == |h| {
      return None;
    }
    var found := FindField(h[first + 1..], wanted);
    if found.None? {
      return None;
    }
    var v := Trim(found.value);
    value := if v == "" || |v| >= capacity then None else Some(v);
  }

  // The loop of copy_header_value, over the lines after the first.
  method FindField(s: string, wanted: string) returns (found: Option<string>)
    requires ':' !in wanted
    ensures found == FirstNamed(Lines(s), wanted)
  {
    var cursor := s;
    while cursor != ""
      invariant FirstNamed(Lines(cursor), wanted) == FirstNamed(Lines(s), wanted)
      decreases |cursor|
    {
      FirstStep(cursor, wanted);
      var line, rest := NextLine(cursor);
      if line == "" {
        return None;
      }
      var matches := IsField(line, wanted);
      if matches {
        return Some(line[|wanted| + 1..]);
      }
      cursor := rest;
    }
    found := None;
  }

  // The first line of `s` and what follows it.
  method NextLine(s: string) returns (line: string, rest: string)
    requires s != ""
    ensures line == WithoutCr(s[..IndexOf(s, '\n')]) && rest == AfterLine(s) && |rest| < |s|
  {
    var n := IndexOf(s, '\n');
    line, rest := WithoutCr(s[..n]), AfterLine(s);
  }

  function AfterLine(s: string): string {
    var n := IndexOf(s, '\n');
    if n < |s| then s[n + 1..] else ""
  }

  lemma {:induction false} LinesStep(s: string)
    requires s != ""
    ensures Lines(s) == [s[..IndexOf(s, '\n')]] + Lines(AfterLine(s))
  {
    var n := IndexOf(s, '\n');
    if n == |s| {
      assert s[..n] == s && [s] + [] == [s];
    }
  }

  lemma {:induction false} FirstStep(s: string, name: string)
    requires s != ""
    ensures var line := WithoutCr(s[..IndexOf(s, '\n')]);
            FirstNamed(Lines(s), name) ==
              if line == "" then None
              else if Named(line, name) then Some(line[|name| + 1..])
              else FirstNamed(Lines(AfterLine(s)), name)
  {
    LinesStep(s);
    assert ([s[..IndexOf(s, '\n')]] + Lines(AfterLine(s)))[1..] == Lines(AfterLine(s));
  }

  // The comparison of the text before the first colon.
  method IsField(line: string, wanted: string) returns (matches: bool)
    requires ':' !in wanted
    ensures matches <==> Named(line, wanted)
  {
    var colon := IndexOf(line, ':');
    ColonIsFirst(line, wanted);
    matches := colon < |line| && colon == |wanted| && CasePrefix(wanted, line);
  }

  // A name has no colon, so the colon after it is the first.
  lemma {:induction false} ColonIsFirst(line: string, name: string)
    requires ':' !in name
    ensures var colon := IndexOf(line, ':');
            Named(line, name) <==> colon < |line| && colon == |name| && CasePrefix(name, line)
  {
    if Named(line, name) {
      forall i | 0 <= i < |name|
        ensures line[i] != ':'
      {
        assert line[..|name|][i] == line[i] && Lower(name[i]) == Lower(line[i]);
      }
    }
  }

  // The number of lines named so.
  function Count(lines: seq<string>, name: string): nat {
    if lines == [] then 0 else (if Named(lines[0], name) then 1 else 0) + Count(lines[1..], name)
  }

  function FieldCount(h: string, name: string): nat {
    var n := IndexOf(h, '\n');
    if n == |h| then 0 else Count(Terminated(h[n + 1..]), name)
  }

  // header_count
  method HeaderCount(h: string, name: string) returns (count: nat)
    ensures count == FieldCount(h, name)
  {
    var first := IndexOf(h, '\n');
    if first == |h| {
      return 0;
    }
    count := CountFields(h[first + 1..], name);
  }

  // The loop of header_count, over the lines after the first.
  method CountFields(s: string, name: string) returns (count: nat)
    ensures count == Count(Terminated(s), name)
  {
    count := 0;
    var cursor := s;
    while cursor != ""
      invariant count + Count(Terminated(cursor), name) == Count(Terminated(s), name)
      decreases |cursor|
    {
      CountStep(cursor, name);
      var n := IndexOf(cursor, '\n');
      if n == |cursor| {
        return;
      }
      count := count + if Named(cursor[..n], name) then 1 else 0;
      cursor := cursor[n + 1..];
    }
  }

  lemma {:induction false} CountStep(s: string, name: string)
    ensures var n := IndexOf(s, '\n');
            Count(Terminated(s), name) ==
              if n == |s| then 0
              else (if Named(s[..n], name) then 1 else 0) + Count(Terminated(s[n + 1..]), name)
  {
    var n := IndexOf(s, '\n');
    if n < |s| {
      var line, rest := s[..n], Terminated(s[n + 1..]);
      assert Terminated(s) == [line] + rest;
      CountCons(line, rest, name);
    } else {
      assert Terminated(s) == [];
    }
  }

  lemma {:induction false} CountCons(line: string, rest: seq<string>, name: string)
    ensures Count([line] + rest, name) == (if Named(line, name) then 1 else 0) + Count(rest, name)
  {
    assert ([line] + rest)[1..] == rest;
  }

  // The number that the text of a Content-Length declares, or -1.
  function DeclaredLength(text: string): int {
    if text != "" && Digits(text) && DigitsValue(text) <= LLONG_MAX then DigitsValue(text) else -1
  }

  // parse_content_length
  method ParseContentLength(text: string) returns (value: int)
    ensures value == DeclaredLength(text)
  {
    if text == "" {
      return -1;
    }
    value := 0;
    var cursor := 0;
    while cursor < |text|
      invariant 0 <= cursor <= |text| && Digits(text[..cursor])
      invariant value == DigitsValue(text[..cursor]) <= LLONG_MAX
    {
      if !IsDigit(text[cursor]) {
        return -1;
      }
      var digit := text[cursor] as int - '0' as int;
      assert text[..cursor + 1][..cursor] == text[..cursor];
      if value > (LLONG_MAX - digit) / 10 {
        if Digits(text) {
          PrefixValue(text, cursor + 1);
        }
        return -1;
      }
      value := value * 10 + digit;
      cursor := cursor + 1;
    }
    assert text[..cursor] == text;
  }

  lemma {:induction false} LengthReadsBack(n: nat)
    requires n <= LLONG_MAX
    ensures DeclaredLength(Decimal(n)) == n
  {
    DecimalReadsBack(n);
  }

  // ---------- The whole head ----------

  function LengthOf(h: string): int {
    match Value(h, "Content-Length", 32)
    case None => -1
    case Some(text) => DeclaredLength(CText(text))
  }

  // What a head means.
  function ParseHead(h: string): ResponseHead {
    ResponseHead(
      Status(h),
      match Value(h, "Location", 4096) case None => None case Some(v) => Some(CText(v)),
      LengthOf(h),
      match Value(h, "Content-Type", 256) case None => "" case Some(v) => CText(v),
      if FieldCount(h, "Content-Encoding") > 1
         || (FieldCount(h, "Content-Encoding") == 1 && Value(h, "Content-Encoding", 64).None?) then "unsupported"
      else match Value(h, "Content-Encoding", 64) case None => "identity" case Some(v) => CText(v),
      FieldCount(h, "Content-Length") > 1
      || (FieldCount(h, "Content-Length") == 1 && LengthOf(h) < 0)
      || FieldCount(h, "Transfer-Encoding") != 0)
  }

  method ReadFraming(h: string) returns (contentLength: int, invalid: bool)
    ensures contentLength == LengthOf(h) && invalid == ParseHead(h).invalidFraming
  {
    contentLength := -1;
    var lengthText := CopyHeaderValue(h, "Content-Length", 32);
    if lengthText.Some? {
      contentLength := ParseContentLength(CText(lengthText.value));
    }
    var lengths := HeaderCount(h, "Content-Length");
    var transfers := HeaderCount(h, "Transfer-Encoding");
    invalid := lengths > 1 || (lengths == 1 && contentLength < 0) || transfers != 0;
  }

  method ReadEncoding(h: string) returns (contentEncoding: string)
    ensures contentEncoding == ParseHead(h).contentEncoding
  {
    var encoding := CopyHeaderValue(h, "Content-Encoding", 64);
    var encodings := HeaderCount(h, "Content-Encoding");
    contentEncoding := match encoding case None => "identity" case Some(v) => CText(v);
    if encodings > 1 || (encodings == 1 && encoding.None?) {
      contentEncoding := "unsupported";
    }
  }

  // The part of read_response_head that parses; None for a bad status.
  method ReadFields(h: string) returns (head: Option<ResponseHead>)
    ensures head == if 100 <= Status(h) <= 599 then Some(ParseHead(h)) else None
  {
    var status := Status(h);
    if status < 100 || status > 599 {
      return None;
    }
    var location := CopyHeaderValue(h, "Location", 4096);
    var contentLength, invalidFraming := ReadFraming(h);
    var contentType := CopyHeaderValue(h, "Content-Type", 256);
    var contentEncoding := ReadEncoding(h);
    head := Some(ResponseHead(
      status,
      match location case None => None case Some(v) => Some(CText(v)),
      contentLength,
      match contentType case None => "" case Some(v) => CText(v),
      contentEncoding,
      invalidFraming));
  }

  // The first line named so, whatever the case, with no empty line before it.
  ghost predicate IsFirst(lines: seq<string>, name: string, k: nat) {
    && k < |lines| && Named(WithoutCr(lines[k]), name)
    && forall i :: 0 <= i < k ==> WithoutCr(lines[i]) != "" && !Named(WithoutCr(lines[i]), name)
  }

  lemma {:induction false} FirstNamedMeans(lines: seq<string>, name: string) returns (k: nat)
    ensures FirstNamed(lines, name).Some? <==> IsFirst(lines, name, k)
    ensures FirstNamed(lines, name).Some? ==> FirstNamed(lines, name).value == WithoutCr(lines[k])[|name| + 1..]
    ensures FirstNamed(lines, name).None? ==> forall j: nat :: !IsFirst(lines, name, j)
  {
    k := 0;
    if lines != [] && WithoutCr(lines[0]) != "" && !Named(WithoutCr(lines[0]), name) {
      var rest := lines[1..];
      k := FirstNamedMeans(rest, name);
      forall j: nat
        ensures IsFirst(lines, name, j) <==> j > 0 && IsFirst(rest, name, j - 1)
      {
        FirstShifts(lines, name, j);
      }
      k := k + 1;
    }
  }

  lemma {:induction false} FirstShifts(lines: seq<string>, name: string, j: nat)
    requires lines != [] && WithoutCr(lines[0]) != "" && !Named(WithoutCr(lines[0]), name)
    ensures IsFirst(lines, name, j) <==> j > 0 && IsFirst(lines[1..], name, j - 1)
  {
    var rest := lines[1..];
    if j > 0 && IsFirst(rest, name, j - 1) {
      assert forall i :: 1 <= i < |lines| ==> lines[i] == rest[i - 1];
    }
    if IsFirst(lines, name, j) {
      assert forall i :: 0 <= i < |rest| ==> rest[i] == lines[i + 1];
    }
  }

  lemma {:induction false} CountPositive(lines: seq<string>, name: string, k: nat)
    requires k < |lines| && Named(lines[k], name)
    ensures Count(lines, name) >= 1
  {
    if k > 0 {
      CountPositive(lines[1..], name, k - 1);
    }
  }

  // What follows the first line of a text that ends with a newline does so too.
  lemma {:induction false} RestEnds(s: string)
    requires s != "" && s[|s| - 1] == '\n'
    ensures var n := IndexOf(s, '\n');
            n < |s| && (s[n + 1..] == "" || s[n + 1..][|s[n + 1..]| - 1] == '\n')
  {
    var n := IndexOf(s, '\n');
    assert n < |s|;
    assert n + 1 < |s| ==> s[n + 1..][|s| - n - 2] == s[|s| - 1];
  }

  lemma {:induction false} AllTerminated(s: string)
    requires s == "" || s[|s| - 1] == '\n'
    ensures Lines(s) == Terminated(s)
    decreases |s|
  {
    if s != "" {
      RestEnds(s);
      AllTerminated(s[IndexOf(s, '\n') + 1..]);
    }
  }

  lemma {:induction false} NamedWithCr(line: string, name: string)
    requires Named(WithoutCr(line), name)
    ensures Named(line, name)
  {
    var t := WithoutCr(line);
    assert t[..|name|] == line[..|name|];
  }

  // The search and the count agree: a value found is that of a counted line.
  lemma {:induction false} FoundInLines(lines: seq<string>, name: string)
    requires FirstNamed(lines, name).Some?
    ensures Count(lines, name) >= 1
  {
    var k := FirstNamedMeans(lines, name);
    NamedWithCr(lines[k], name);
    CountPositive(lines, name, k);
  }

  lemma {:induction false} TailTerminated(h: string, n: nat)
    requires n <= |h| && h != "" && h[|h| - 1] == '\n'
    ensures Lines(h[n..]) == Terminated(h[n..])
  {
    var t := h[n..];
    assert t != "" ==> t[|t| - 1] == h[|h| - 1];
    AllTerminated(t);
  }

  // In a head that ends with a newline, what is found is counted.
  lemma {:induction false} FoundIsCounted(h: string, name: string)
    requires h != "" && h[|h| - 1] == '\n' && FirstNamed(FieldLines(h), name).Some?
    ensures FieldCount(h, name) >= 1
  {
    FoundInLines(FieldLines(h), name);
    TailTerminated(h, IndexOf(h, '\n') + 1);
  }

  // With valid framing, a length is declared exactly when there is one
  // Content-Length line, and there is no Transfer-Encoding.
  lemma {:induction false} FramingIsExact(s: string, h: string, body: string)
    requires SplitsInto(s, h, body)
    ensures !ParseHead(h).invalidFraming <==>
            && FieldCount(h, "Transfer-Encoding") == 0
            && FieldCount(h, "Content-Length") == (if ParseHead(h).contentLength >= 0 then 1 else 0)
  {
    assert EndAt(s, |h| - 4) && h[|h| - 1] == s[|h| - 1];
    if LengthOf(h) >= 0 {
      FoundIsCounted(h, "Content-Length");
    }
  }

  // ---------- Pieces ----------

  function Total(pieces: seq<nat>): nat {
    if pieces == [] then 0 else pieces[0] + Total(pieces[1..])
  }

  // Lengths of the pieces that a stream of `n` bytes can arrive in.
  predicate Cut(pieces: seq<nat>, n: nat) {
    (forall i :: 0 <= i < |pieces| ==> 1 <= pieces[i] <= READ_SIZE) && Total(pieces) == n
  }

  // Where the head of a stream ends, if it does.
  ghost predicate EndsAt(s: string, end: Option<nat>) {
    match end
    case None => Incomplete(s)
    case Some(n) => 4 <= n <= |s| && SplitsInto(s, s[..n], s[n..])
  }

  lemma {:induction false} SomeEnd(s: string, k: nat) returns (end: Option<nat>)
    requires forall j: nat :: j < k ==> !EndAt(s, j)
    ensures EndsAt(s, end)
    decreases |s| - k
  {
    if k + 3 >= |s| {
      end := None;
    } else if EndAt(s, k) {
      assert s[..k + 4] + s[k + 4..] == s;
      end := Some(k + 4);
    } else {
      end := SomeEnd(s, k + 1);
    }
  }

  // A part of a stream holds the head exactly if it reaches its end.
  lemma {:induction false} PartEnds(s: string, part: string, end: Option<nat>)
    requires EndsAt(s, end) && part <= s
    ensures Incomplete(part) <==> end.None? || |part| < end.value
  {
    forall i: nat
      ensures EndAt(part, i) ==> EndAt(s, i)
    {
    }
    if end.Some? && |part| >= end.value {
      assert EndAt(s, end.value - 4) && EndAt(part, end.value - 4);
    }
  }

  datatype Fate = Whole | Oversize | Truncated

  // What becomes of a head that ends at `end`, with `got` bytes read and the pieces to come.
  function FateOf(end: Option<nat>, got: nat, pieces: seq<nat>): Fate
    decreases |pieces|
  {
    if got >= MAX_HEADER then Oversize
    else if pieces == [] then Truncated
    else if got + pieces[0] > MAX_HEADER then Oversize
    else if end.Some? && end.value <= got + pieces[0] then Whole
    else FateOf(end, got + pieces[0], pieces[1..])
  }

  // The end is beyond `got` bytes of `n`.
  ghost predicate Ahead(end: Option<nat>, got: nat, n: nat) {
    got <= n && (end.Some? ==> got < end.value <= n)
  }

  ghost predicate CanOverflow(end: Option<nat>, n: nat) {
    || (n > MAX_HEADER && (end.None? || end.value > MAX_HEADER - READ_SIZE + 1))
    || (n == MAX_HEADER && end.None?)
  }

  lemma {:induction false} OversizeMeans(end: Option<nat>, got: nat, pieces: seq<nat>, n: nat)
    requires Ahead(end, got, n) && got <= MAX_HEADER && Cut(pieces, n - got) && FateOf(end, got, pieces).Oversize?
    ensures CanOverflow(end, n)
    decreases |pieces|
  {
    if got < MAX_HEADER && got + pieces[0] <= MAX_HEADER {
      assert forall i :: 0 <= i < |pieces[1..]| ==> pieces[1..][i] == pieces[i + 1];
      OversizeMeans(end, got + pieces[0], pieces[1..], n);
    }
  }

  // A head that the limit does not hold is refused in whatever pieces it comes.
  lemma {:induction false} AlwaysOversize(end: Option<nat>, got: nat, pieces: seq<nat>, n: nat)
    requires Ahead(end, got, n) && Cut(pieces, n - got)
    requires if end.Some? then end.value > MAX_HEADER else n >= MAX_HEADER
    ensures FateOf(end, got, pieces).Oversize?
    decreases |pieces|
  {
    if got < MAX_HEADER && got + pieces[0] <= MAX_HEADER {
      assert forall i :: 0 <= i < |pieces[1..]| ==> pieces[1..][i] == pieces[i + 1];
      AlwaysOversize(end, got + pieces[0], pieces[1..], n);
    }
  }

  lemma {:induction false} ConsCut(p: nat, pieces: seq<nat>, n: nat)
    requires Cut(pieces, n) && 1 <= p <= READ_SIZE
    ensures Cut([p] + pieces, n + p) && ([p] + pieces)[1..] == pieces
  {
    assert forall i :: 1 <= i <= |pieces| ==> ([p] + pieces)[i] == pieces[i - 1];
  }

  // Pieces of one byte.
  function Ones(n: nat): (pieces: seq<nat>)
    ensures Cut(pieces, n)
  {
    if n == 0 then [] else
      ConsCut(1, Ones(n - 1), n - 1);
      [1] + Ones(n - 1)
  }

  lemma {:induction false} OnesAreWhole(end: nat, got: nat, n: nat)
    requires got < end <= n && end <= MAX_HEADER
    ensures FateOf(Some(end), got, Ones(n - got)).Whole?
    decreases n - got
  {
    var pieces := Ones(n - got);
    assert pieces[0] == 1 && pieces[1..] == Ones(n - got - 1);
    if got + 1 < end {
      OnesAreWhole(end, got + 1, n);
    }
  }

  // One byte, then full pieces.
  lemma {:induction false} Overshoots(end: Option<nat>, n: nat) returns (pieces: seq<nat>)
    requires n > MAX_HEADER && (end.Some? ==> end.value > MAX_HEADER - READ_SIZE + 1)
    ensures Cut(pieces, n) && FateOf(end, 0, pieces).Oversize?
  {
    var p5, m := Ones(n - MAX_HEADER - 1), n - MAX_HEADER - 1;
    var p4: seq<nat> := [READ_SIZE] + p5;
    var p3 := [READ_SIZE] + p4;
    var p2 := [READ_SIZE] + p3;
    var p1 := [READ_SIZE] + p2;
    pieces := [1] + p1;
    ConsCut(READ_SIZE, p5, m);
    ConsCut(READ_SIZE, p4, m + READ_SIZE);
    ConsCut(READ_SIZE, p3, m + 2 * READ_SIZE);
    ConsCut(READ_SIZE, p2, m + 3 * READ_SIZE);
    ConsCut(1, p1, m + 4 * READ_SIZE);
    assert FateOf(end, 3 * READ_SIZE + 1, p4).Oversize?;
    assert FateOf(end, 2 * READ_SIZE + 1, p3).Oversize?;
    assert FateOf(end, READ_SIZE + 1, p2).Oversize?;
    assert FateOf(end, 1, p1).Oversize?;
  }

  // Some way to cut a stream has its head refused for its size exactly if the stream
  // is longer than 64 KiB and the head does not end within the first 49153 bytes, or
  // if there are just 64 KiB without an end.
  lemma {:induction false} RefusedBySome(end: Option<nat>, n: nat)
    requires Ahead(end, 0, n)
    ensures (exists pieces :: Cut(pieces, n) && FateOf(end, 0, pieces).Oversize?) <==> CanOverflow(end, n)
  {
    if CanOverflow(end, n) {
      if n > MAX_HEADER {
        var pieces := Overshoots(end, n);
      } else {
        AlwaysOversize(end, 0, Ones(n), n);
      }
    }
    if pieces :| Cut(pieces, n) && FateOf(end, 0, pieces).Oversize? {
      OversizeMeans(end, 0, pieces, n);
    }
  }

  // Every way does exactly if the limit comes before the end.
  lemma {:induction false} RefusedByAll(end: Option<nat>, n: nat)
    requires Ahead(end, 0, n)
    ensures (forall pieces :: Cut(pieces, n) ==> FateOf(end, 0, pieces).Oversize?) <==>
            if end.Some? then end.value > MAX_HEADER else n >= MAX_HEADER
  {
    if (if end.Some? then end.value > MAX_HEADER else n >= MAX_HEADER) {
      forall pieces | Cut(pieces, n)
        ensures FateOf(end, 0, pieces).Oversize?
      {
        AlwaysOversize(end, 0, pieces, n);
      }
    } else if end.Some? {
      OnesAreWhole(end.value, 0, n);
      assert Cut(Ones(n), n) && !FateOf(end, 0, Ones(n)).Oversize?;
    } else {
      assert Cut(Ones(n), n);
      if FateOf(end, 0, Ones(n)).Oversize? {
        OversizeMeans(end, 0, Ones(n), n);
        assert false;
      }
    }
  }

  // So whether a head is refused depends on the pieces exactly if it ends after 49153
  // and within 65536 bytes of a stream that is longer than that.
  lemma {:induction false} PiecesMatter(end: Option<nat>, n: nat)
    requires Ahead(end, 0, n)
    ensures (exists p, q :: Cut(p, n) && Cut(q, n) && FateOf(end, 0, p).Oversize? && !FateOf(end, 0, q).Oversize?) <==>
            n > MAX_HEADER && end.Some? && MAX_HEADER - READ_SIZE + 1 < end.value <= MAX_HEADER
  {
    RefusedBySome(end, n);
    RefusedByAll(end, n);
    if n > MAX_HEADER && end.Some? && MAX_HEADER - READ_SIZE + 1 < end.value <= MAX_HEADER {
      var pieces := Overshoots(end, n);
      OnesAreWhole(end.value, 0, n);
      assert Cut(pieces, n) && Cut(Ones(n), n);
    }
  }

  // ---------- Connections ----------

  class Connection {
    var rest: string       // what the peer will still send before it closes
    var pieces: seq<nat>   // in pieces of these lengths
    var failureCode: int
    ghost var broken: bool // a read has failed

    ghost predicate Valid()
      reads this
    {
      Cut(pieces, |rest|)
    }

    constructor (stream: string, pieces: seq<nat>)
      requires Cut(pieces, |stream|)
      ensures Valid() && rest == stream && this.pieces == pieces && !broken
    {
      rest, this.pieces, failureCode, broken := stream, pieces, 0, false;
    }

    // read_some, into a buffer of READ_SIZE bytes
    method ReadSome() returns (amount: int, bytes: string)
      requires Valid()
      modifies this
      ensures Valid() && bytes + rest == old(rest)
      ensures if amount < 0 then
                amount == -1 && bytes == "" && pieces == old(pieces) && broken && (failureCode == 7 || failureCode == 11)
              else
                && failureCode == old(failureCode) && broken == old(broken) && amount == |bytes|
                && if old(pieces) == [] then bytes == "" && pieces == [] else amount == old(pieces)[0] && pieces == old(pieces)[1..]
    {
      var fails, timeout: bool := *, *;
      if fails {
        broken := true;
        failureCode := if timeout then 11 else 7;
        return -1, "";
      }
      if rest == "" {
        return 0, "";
      }
      amount := pieces[0];
      bytes, rest, pieces := rest[..amount], rest[amount..], pieces[1..];
    }
  }

  datatype HeadError = ReadFailed | Ended | TooLarge | BadStatus

  datatype HeadResult = Success(head: ResponseHead, prefix: string) | Failed(error: HeadError)

  // The answer for the head `h`.
  ghost predicate HeadOf(h: string, r: HeadResult) {
    match r
    case Success(head, _) => head == ParseHead(h) && 100 <= head.status <= 599
    case Failed(e) => e == BadStatus && !(100 <= Status(h) <= 599)
  }

  // The answer of read_response_head when no read fails.
  ghost predicate Reads(stream: string, fate: Fate, end: Option<nat>, r: HeadResult) {
    match fate
    case Truncated => r == Failed(Ended)
    case Oversize => r == Failed(TooLarge)
    case Whole => end.Some? && end.value <= |stream| && HeadOf(stream[..end.value], r)
  }

  // The head, if it is complete with the bytes `piece`.
  method TryHead(ghost stream: string, before: string, piece: string, ghost rest: string, ghost end: Option<nat>)
      returns (done: bool, r: HeadResult)
    requires EndsAt(stream, end) && (before + piece) + rest == stream && Incomplete(before) && |piece| <= READ_SIZE
    ensures done <==> end.Some? && end.value <= |before| + |piece|
    ensures !done ==> Incomplete(before + piece)
    ensures done ==> HeadOf(stream[..end.value], r)
    ensures done && r.Success? ==> |r.prefix| < READ_SIZE && r.prefix + rest == stream[end.value..]
  {
    var headers := before + piece;
    assert stream[..|headers|] == headers;
    PartEnds(stream, headers, end);
    var found := FindHeaderEnd(headers);
    if found.None? {
      return false, Failed(Ended);
    }
    var prefix := headers[found.value..];
    EndIsFound(stream, headers, rest, found.value, end);
    PrefixFits(before, piece, headers[..found.value], prefix);
    var head := ReadFields(headers[..found.value]);
    if head.None? {
      return true, Failed(BadStatus);
    }
    if |prefix| > READ_SIZE {
      assert false;
    }
    return true, Success(head.value, prefix);
  }

  // One turn of the loop of read_response_head; it ends, or `read` has the next piece too.
  method ReadPiece(c: Connection, headers: string, ghost stream: string, ghost end: Option<nat>)
      returns (done: bool, r: HeadResult, read: string)
    requires c.Valid() && EndsAt(stream, end) && headers + c.rest == stream && Incomplete(headers) && |headers| < MAX_HEADER
    modifies c
    ensures c.Valid() && read + c.rest == stream
    ensures done && r != Failed(ReadFailed) ==> Reads(stream, FateOf(end, |headers|, old(c.pieces)), end, r)
    ensures done && r.Success? ==> end.Some? && r.prefix + c.rest == stream[end.value..] && |r.prefix| < READ_SIZE
    ensures !done ==>
              && FateOf(end, |headers|, old(c.pieces)) == FateOf(end, |read|, c.pieces)
              && Incomplete(read) && |read| <= MAX_HEADER && |c.rest| < |old(c.rest)|
    ensures c.broken == (old(c.broken) || (done && r == Failed(ReadFailed)))
    ensures if done && r == Failed(ReadFailed) then c.failureCode == 7 || c.failureCode == 11 else c.failureCode == old(c.failureCode)
  {
    var amount, buffer := c.ReadSome();
    PiecesJoin(headers, buffer, c.rest, stream);
    read := headers + buffer;
    if amount <= 0 {
      done, r := true, Failed(if amount == 0 then Ended else ReadFailed);
    } else if |read| > MAX_HEADER {
      done, r := true, Failed(TooLarge);
    } else {
      done, r := TryHead(stream, headers, buffer, c.rest, end);
    }
  }

  // read_response_head. Unless a read fails, the answer is what the stream and its
  // pieces say; on success, exactly the bytes after the head are left.
  method ReadResponseHead(c: Connection) returns (r: HeadResult, ghost end: Option<nat>)
    requires c.Valid()
    modifies c
    ensures c.Valid() && EndsAt(old(c.rest), end)
    ensures r != Failed(ReadFailed) ==> Reads(old(c.rest), FateOf(end, 0, old(c.pieces)), end, r)
    ensures r.Success? ==> end.Some? && r.prefix + c.rest == old(c.rest)[end.value..] && |r.prefix| < READ_SIZE
    ensures c.broken == (old(c.broken) || r == Failed(ReadFailed))
    ensures if r == Failed(ReadFailed) then c.failureCode == 7 || c.failureCode == 11 else c.failureCode == 13
  {
    c.failureCode := 13;
    ghost var stream := c.rest;
    end := SomeEnd(stream, 0);
    ghost var fate := FateOf(end, 0, c.pieces);
    var headers := "";
    while |headers| < MAX_HEADER
      invariant c.Valid() && headers + c.rest == stream && |headers| <= MAX_HEADER
      invariant Incomplete(headers) && c.failureCode == 13 && c.broken == old(c.broken)
      invariant FateOf(end, |headers|, c.pieces) == fate
      decreases |c.rest|
    {
      var done;
      done, r, headers := ReadPiece(c, headers, stream, end);
      if done {
        return;
      }
    }
    r := Failed(TooLarge);
  }

  // What is found in the bytes that have arrived is where the head of the stream ends.
  lemma {:induction false} EndIsFound(stream: string, headers: string, rest: string, n: nat, end: Option<nat>)
    requires stream == headers + rest && EndsAt(stream, end)
    requires n <= |headers| && SplitsInto(headers, headers[..n], headers[n..])
    ensures end == Some(n) && stream[..n] == headers[..n] && stream[n..] == headers[n..] + rest
  {
    SplitIsStable(headers, rest, headers[..n], headers[n..]);
    assert EndAt(stream, n - 4);
    SplitIsUnique(stream, headers[..n], headers[n..] + rest, stream[..end.value], stream[end.value..]);
  }

  lemma {:induction false} PiecesJoin(a: string, b: string, c: string, s: string)
    requires a + (b + c) == s
    ensures (a + b) + c == s && a + b <= s
  {
    assert s[..|a + b|] == a + b;
  }

  // Where the body goes.
  class Output {
    var written: string
    ghost var failed: bool // an operation on the file, or on that of the metadata, has failed

    constructor ()
      ensures written == "" && !failed
    {
      written, failed := "", false;
    }

    // Opening, flushing or closing the file, or writing the metadata.
    method Touch() returns (ok: bool)
      modifies this`failed
      ensures failed == (old(failed) || !ok)
    {
      ok := *;
      failed := failed || !ok;
    }

    // write_output: on failure, a part may have been written.
    method Write(bytes: string) returns (ok: bool)
      modifies this
      ensures old(written) <= written <= old(written) + bytes
      ensures ok ==> written == old(written) + bytes
      ensures failed == (old(failed) || !ok)
    {
      ok := *;
      var n: int := *;
      written := written + if ok || !(0 <= n <= |bytes|) then bytes else bytes[..n];
      failed := failed || !ok;
    }
  }

  datatype CopyResult = Complete | OverLimit | Broken

  // copy_remaining_body; with `capture`, at most 8 MiB.
  method CopyRemainingBody(c: Connection, output: Output, capture: bool, prefix: string)
      returns (r: CopyResult, received: nat)
    requires output.written == "" && c.Valid()
    modifies c, output
    ensures output.written <= prefix + old(c.rest)
    ensures r.Complete? ==> output.written == prefix + old(c.rest) && received == |output.written| && c.rest == ""
    ensures r.Complete? && capture ==> received <= MAX_CAPTURE
    ensures r.OverLimit? ==> capture && |prefix + old(c.rest)| > MAX_CAPTURE && c.failureCode == 12
    ensures r.Broken? ==> c.failureCode == 7 || c.failureCode == 11 || c.failureCode == old(c.failureCode)
    ensures (c.broken || output.failed) == (old(c.broken) || old(output.failed) || r.Broken?)
  {
    received := 0;
    ghost var all := prefix + c.rest;
    if capture && |prefix| > MAX_CAPTURE {
      c.failureCode := 12;
      return OverLimit, 0;
    }
    if prefix != "" {
      var ok := output.Write(prefix);
      if !ok {
        return Broken, 0;
      }
    }
    received := |prefix|;
    while true
      invariant c.Valid() && output.written + c.rest == all && received == |output.written|
      invariant capture ==> received <= MAX_CAPTURE
      invariant c.failureCode == old(c.failureCode)
      invariant c.broken == old(c.broken) && output.failed == old(output.failed)
      decreases |c.rest|
    {
      ghost var w := output.written;
      var amount, buffer := c.ReadSome();
      assert all == w + buffer + c.rest;
      if amount == 0 {
        var flushed := output.Touch();
        return if flushed then Complete else Broken, received;
      }
      if capture && amount > 0 && amount > MAX_CAPTURE - received {
        c.failureCode := 12;
        return OverLimit, received;
      }
      if amount < 0 {
        return Broken, received;
      }
      var ok := output.Write(buffer);
      if !ok {
        return Broken, received;
      }
      received := received + amount;
    }
  }

  // The exit code of a response that arrives and is stored without a failure: a
  // captured body of `n` bytes has to be framed, of a size, complete and a success.
  function Verdict(head: ResponseHead, capture: bool, n: nat): int {
    if !capture then 0
    else if head.invalidFraming then 13
    else if head.contentLength > MAX_CAPTURE || n > MAX_CAPTURE then 12
    else if head.contentLength >= 0 && head.contentLength != n then 9
    else if head.status < 200 || head.status >= 300 then 10
    else 0
  }

  // The end of send_request, once a response is not followed. `capture` tells
  // whether the body goes to a file of its own.
  method Deliver(c: Connection, output: Output, capture: bool, head: ResponseHead, prefix: string) returns (code: int)
    requires output.written == "" && !c.broken && !output.failed && c.Valid()
    modifies c, output
    ensures output.written <= prefix + old(c.rest)
    ensures code == 0 || code == 9 || code == 10 ==> output.written == prefix + old(c.rest)
    ensures !c.broken && !output.failed ==> code == Verdict(head, capture, |prefix + old(c.rest)|)
    ensures c.broken || output.failed ==> code == 7 || (capture && code >= 11)
    ensures capture && (head.invalidFraming || head.contentLength > MAX_CAPTURE) ==> code == if head.invalidFraming then 13 else 12
  {
    if capture {
      if head.invalidFraming {
        return 13;
      }
      if head.contentLength > MAX_CAPTURE {
        return 12;
      }
      var created := output.Touch();
      if !created {
        return 7;
      }
    }
    var copied, received := CopyRemainingBody(c, output, capture, prefix);
    var failure := c.failureCode;
    var ok := copied.Complete?;
    if capture {
      var closed := output.Touch();
      ok := ok && closed;
    }
    var metadata := output.Touch();
    if !ok || !metadata {
      code := if capture && !ok && failure >= 11 then failure else 7;
      return;
    }
    if capture && head.contentLength >= 0 && head.contentLength != received {
      return 9;
    }
    if capture && (head.status < 200 || head.status >= 300) {
      return 10;
    }
    code := 0;
  }

  // What code 0 means for a captured response.
  lemma {:induction false} ZeroMeans(head: ResponseHead, n: nat)
    ensures Verdict(head, true, n) == 0 <==>
            && !head.invalidFraming && n <= MAX_CAPTURE && 200 <= head.status < 300
            && (head.contentLength >= 0 ==> head.contentLength == n)
  {
  }

  // Two deliveries of one stream, in whatever pieces: the heads and bodies agree.
  ghost predicate Delivered(stream: string, head: ResponseHead, body: string) {
    exists h :: SplitsInto(stream, h, body) && head == ParseHead(h)
  }

  lemma {:induction false} PiecesDoNotMatter(stream: string, a: ResponseHead, x: string, b: ResponseHead, y: string)
    ensures Delivered(stream, a, x) && Delivered(stream, b, y) ==> a == b && x == y
  {
    if Delivered(stream, a, x) && Delivered(stream, b, y) {
      var h :| SplitsInto(stream, h, x) && a == ParseHead(h);
      var g :| SplitsInto(stream, g, y) && b == ParseHead(g);
      SplitIsUnique(stream, h, x, g, y);
    }
  }

  // A response that is not followed, from the connection to the exit code.
  method Receive(c: Connection, output: Output, capture: bool) returns (code: int, ghost end: Option<nat>)
    requires output.written == "" && !c.broken && !output.failed && c.Valid()
    modifies c, output
    ensures EndsAt(old(c.rest), end)
    ensures code == 0 ==> !c.broken && !output.failed && end.Some? && output.written == old(c.rest)[end.value..]
    ensures code == 0 ==> Delivered(old(c.rest), ParseHead(old(c.rest)[..end.value]), output.written)
    ensures !c.broken && !output.failed ==>
              code ==
                if FateOf(end, 0, old(c.pieces)).Whole? && end.Some? && 100 <= Status(old(c.rest)[..end.value]) <= 599 then
                  Verdict(ParseHead(old(c.rest)[..end.value]), capture, |old(c.rest)| - end.value)
                else if capture then 13 else 7
  {
    var r;
    r, end := ReadResponseHead(c);
    if r.Failed? {
      code := if c.failureCode >= 11 && !capture then 7 else c.failureCode;
      return;
    }
    code := Deliver(c, output, capture, r.head, r.prefix);
  }
}
