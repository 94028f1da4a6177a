// Reference resolution as section 5.2 of RFC 3986 has it, and when resolve_location
// of native/transport.c agrees with it.
//
// Both read an authority as parse_authority does, and keep no fragment.

module References {
  import opened Options
  import opened Text
  import opened Redirect

  // ---------- Dot segments ----------

  // The output without its last segment and the slash before it.
  function WithoutLast(output: string): string {
    var n := AfterLast(output, '/');
    if n == 0 then "" else output[..n - 1]
  }

  // The length of the first segment, with a slash before it.
  function SegmentLength(input: string): (n: nat)
    requires input != ""
    ensures 0 < n <= |input| || (n == 0 && input[0] == '/')
    ensures n > 0 && (n < |input| ==> input[n] == '/') && forall i :: 0 < i < n ==> input[i] != '/'
  {
    1 + IndexOf(input[1..], '/')
  }

  // One step of the loop of section 5.2.4 of RFC 3986.
  datatype DotStep =
    | Skip(n: nat)   // drop characters of the input
    | Up(n: nat)     // and the last segment of the output
    | Move(n: nat)   // move characters to the output
    | Last(up: bool) // only a slash is left of the input
    | Drop           // nothing is

  function NextStep(input: string): (s: DotStep)
    requires input != ""
    ensures s.Skip? || s.Up? || s.Move? ==> 0 < s.n <= |input|
  {
    if "../" <= input then Skip(3)
    else if "./" <= input || "/./" <= input then Skip(2)
    else if input == "/." then Last(false)
    else if "/../" <= input then Up(3)
    else if input == "/.." then Last(true)
    else if input == "." || input == ".." then Drop
    else Move(SegmentLength(input))
  }

  // remove_dot_segments
  function RemoveDots(input: string, output: string): string
    decreases |input|
  {
    if input == "" then output
    else match NextStep(input)
      case Skip(n) => RemoveDots(input[n..], output)
      case Up(n) => RemoveDots(input[n..], WithoutLast(output))
      case Move(n) => RemoveDots(input[n..], output + input[..n])
      case Last(up) => (if up then WithoutLast(output) else output) + "/"
      case Drop => output
  }

  predicate IsDots(rest: string) {
    rest == "." || rest == ".." || "./" <= rest || "../" <= rest
  }

  predicate DotsAt(path: string, i: nat)
    requires i < |path|
  {
    path[i] == '/' && IsDots(path[i + 1..])
  }

  // Some segment of a path is a dot or two.
  predicate HasDots(path: string)
    decreases |path|
  {
    path != "" && (DotsAt(path, 0) || HasDots(path[SegmentLength(path)..]))
  }

  lemma {:induction false} DotsShift(path: string, n: nat, i: nat)
    requires n <= i < |path|
    ensures DotsAt(path, i) <==> DotsAt(path[n..], i - n)
  {
    assert path[n..][i - n + 1..] == path[i + 1..];
  }

  lemma {:induction false} DotsAreFound(path: string, i: nat)
    requires i < |path| && DotsAt(path, i)
    ensures HasDots(path)
    decreases |path|
  {
    if i > 0 {
      var n := SegmentLength(path);
      DotsShift(path, n, i);
      DotsAreFound(path[n..], i - n);
    }
  }

  lemma {:induction false} FoundDots(path: string) returns (i: nat)
    requires HasDots(path)
    ensures i < |path| && DotsAt(path, i)
    decreases |path|
  {
    i := 0;
    if !DotsAt(path, 0) {
      var n := SegmentLength(path);
      var k := FoundDots(path[n..]);
      DotsShift(path, n, n + k);
      i := n + k;
    }
  }

  lemma {:induction false} HasDotsMeans(path: string)
    ensures HasDots(path) <==> exists i {:trigger DotsAt(path, i)} :: 0 <= i < |path| && DotsAt(path, i)
  {
    if HasDots(path) {
      var i := FoundDots(path);
    }
    if i :| 0 <= i < |path| && DotsAt(path, i) {
      DotsAreFound(path, i);
    }
  }

  lemma {:induction false} SlashPrefix(p: string, rest: string)
    ensures "/" + p <= "/" + rest <==> p <= rest
    ensures "/" + p == "/" + rest <==> p == rest
  {
    if "/" + p <= "/" + rest {
      assert p == ("/" + p)[1..] && rest == ("/" + rest)[1..];
      assert forall i :: 0 <= i < |p| ==> p[i] == ("/" + p)[i + 1] == ("/" + rest)[i + 1] == rest[i];
    }
  }

  lemma {:induction false} Shapes(input: string)
    requires input != "" && input[0] == '/'
    ensures !("../" <= input) && !("./" <= input) && input != "." && input != ".."
    ensures "/./" <= input <==> "./" <= input[1..]
    ensures "/../" <= input <==> "../" <= input[1..]
    ensures input == "/." <==> input[1..] == "."
    ensures input == "/.." <==> input[1..] == ".."
  {
    var rest := input[1..];
    assert input == "/" + rest;
    assert "/./" == "/" + "./" && "/../" == "/" + "../" && "/." == "/" + "." && "/.." == "/" + "..";
    SlashPrefix("./", rest);
    SlashPrefix("../", rest);
    SlashPrefix(".", rest);
    SlashPrefix("..", rest);
    assert "../"[0] == '.' && "./"[0] == '.' && "."[0] == '.' && ".."[0] == '.';
  }

  // From a slash on, a step either meets dots, or moves a segment that is none.
  lemma {:induction false} StepMeans(input: string)
    requires input != "" && input[0] == '/'
    ensures match NextStep(input)
            case Skip(n) => n == 2 && DotsAt(input, 0) && input[n..] != "" && input[n..][0] == '/'
            case Up(n) => n == 3 && DotsAt(input, 0) && input[n..] != "" && input[n..][0] == '/'
            case Move(n) => n == SegmentLength(input) && !DotsAt(input, 0) && (input[n..] == "" || input[n..][0] == '/')
            case Last(_) => DotsAt(input, 0) && |input| >= 2
            case Drop => false
  {
    Shapes(input);
    assert "/./" <= input ==> input[2] == "/./"[2];
    assert "/../" <= input ==> input[3] == "/../"[3];
  }

  // `result` is what removing makes of the input after the output.
  predicate Removed(input: string, output: string, result: string) {
    if HasDots(input) then |result| < |output| + |input| else result == output + input
  }

  lemma {:induction false} UseMove(input: string, output: string, n: nat)
    requires input != "" && input[0] == '/' && NextStep(input) == Move(n) && n <= |input|
    requires Removed(input[n..], output + input[..n], RemoveDots(input[n..], output + input[..n]))
    ensures Removed(input, output, RemoveDots(input, output))
  {
    StepMeans(input);
    MoveStep(input, output, n);
    Carried(input, output, n, RemoveDots(input, output));
  }

  lemma {:induction false} MoveStep(input: string, output: string, n: nat)
    requires input != "" && n <= |input| && NextStep(input) == Move(n)
    ensures RemoveDots(input, output) == RemoveDots(input[n..], output + input[..n])
  {
  }

  lemma {:induction false} Carried(input: string, output: string, n: nat, result: string)
    requires input != "" && n == SegmentLength(input) && !DotsAt(input, 0)
    requires Removed(input[n..], output + input[..n], result)
    ensures Removed(input, output, result)
  {
    assert HasDots(input) == HasDots(input[n..]);
    assert (output + input[..n]) + input[n..] == output + input;
  }

  lemma {:induction false} UseSkip(input: string, output: string, n: nat)
    requires input != "" && input[0] == '/' && 0 < n <= |input| && NextStep(input) == Skip(n)
    requires Removed(input[n..], output, RemoveDots(input[n..], output))
    ensures Removed(input, output, RemoveDots(input, output))
  {
    StepMeans(input);
  }

  lemma {:induction false} UseUp(input: string, output: string, n: nat)
    requires input != "" && input[0] == '/' && 0 < n <= |input| && NextStep(input) == Up(n)
    requires Removed(input[n..], WithoutLast(output), RemoveDots(input[n..], WithoutLast(output)))
    ensures Removed(input, output, RemoveDots(input, output))
  {
    StepMeans(input);
  }

  // Removing leaves a path without dot segments as it is, and makes any other shorter.
  lemma {:induction false} RemoveDotsMeans(input: string, output: string)
    requires input == "" || input[0] == '/'
    ensures Removed(input, output, RemoveDots(input, output))
    decreases |input|
  {
    if input == "" {
      assert output + input == output;
    } else {
      StepMeans(input);
      match NextStep(input)
      case Skip(n) =>
        RemoveDotsMeans(input[n..], output);
        UseSkip(input, output, n);
      case Up(n) =>
        RemoveDotsMeans(input[n..], WithoutLast(output));
        UseUp(input, output, n);
      case Move(n) =>
        RemoveDotsMeans(input[n..], output + input[..n]);
        UseMove(input, output, n);
      case Last(_) =>
      case Drop =>
    }
  }

  // ---------- Resolution ----------

  function PathOf(target: string): string {
    target[..IndexOf(target, '?')]
  }

  function QueryOf(target: string): string {
    target[IndexOf(target, '?')..]
  }

  // A path and query as a target; an empty path is a slash.
  function Normal(tail: string): string {
    (if PathOf(tail) == "" then "/" else RemoveDots(PathOf(tail), "")) + QueryOf(tail)
  }

  // A scheme, as the expression of appendix B of RFC 3986 finds it.
  predicate HasScheme(ref: string) {
    var n := IndexOfAny(ref, {':', '/', '?'});
    0 < n < |ref| && ref[n] == ':'
  }

  // The part of an absolute reference after its scheme and the two slashes.
  function AfterSlashes(ref: string): string
    requires IsAbsolute(ref)
  {
    if CasePrefix("http://", ref) then ref[7..] else if CasePrefix("https://", ref) then ref[8..] else ref[2..]
  }

  predicate SchemeIsTls(ref: string, base: Endpoint)
    requires IsAbsolute(ref)
  {
    if CasePrefix("http://", ref) then false else if CasePrefix("https://", ref) then true else base.tls
  }

  function AuthorityOf(ref: string, base: Endpoint): Option<(string, int)>
    requires IsAbsolute(ref)
  {
    var rest := AfterSlashes(ref);
    ParseAuthority(rest[..IndexOfAny(rest, {'/', '?'})], if SchemeIsTls(ref, base) then 443 else 80)
  }

  // What follows the authority.
  function Tail(ref: string): string
    requires IsAbsolute(ref)
  {
    var rest := AfterSlashes(ref);
    rest[IndexOfAny(rest, {'/', '?'})..]
  }

  // The base path up to its last slash.
  function Directory(base: Endpoint): string {
    PathOf(base.target)[..AfterLast(PathOf(base.target), '/')]
  }

  // Sections 5.2.2 and 5.2.3 of RFC 3986; None is a reference that is no http or https one.
  function RfcResolve(base: Endpoint, raw: string): Option<Endpoint> {
    var ref := DropFragment(raw);
    if ref == "" then Some(base)
    else if IsAbsolute(ref) then
      match AuthorityOf(ref, base)
      case None => None
      case Some((host, port)) => Some(Endpoint(SchemeIsTls(ref, base), host, port, Normal(Tail(ref))))
    else if HasScheme(ref) then None
    else if ref[0] == '?' then Some(base.(target := PathOf(base.target) + ref))
    else if ref[0] == '/' then Some(base.(target := Normal(ref)))
    else Some(base.(target := RemoveDots(Directory(base) + PathOf(ref), "") + QueryOf(ref)))
  }

  // The references that resolve_location accepts.
  predicate IsAccepted(base: Endpoint, raw: string) {
    && Visible(raw) && |raw| < MAX_LOCATION
    && var ref := DropFragment(raw);
       && ref != ""
       && if IsAbsolute(ref) then AuthorityOf(ref, base).Some?
          else if ref[0] == '/' then true
          else if ref[0] == '?' then |PathOf(base.target)| + |ref| < MAX_TARGET
          else |Directory(base)| + |ref| < MAX_TARGET
  }

  // No dot segment has to be removed, and a scheme is http or https.
  predicate Conforms(base: Endpoint, raw: string)
    requires IsAccepted(base, raw)
  {
    var ref := DropFragment(raw);
    if IsAbsolute(ref) then !HasDots(PathOf(Tail(ref)))
    else if ref[0] == '/' then !HasDots(PathOf(ref))
    else if ref[0] == '?' then true
    else !HasScheme(ref) && !HasDots(Directory(base) + PathOf(ref))
  }

  // No endpoint is meant: an authority that cannot be read, or another scheme.
  predicate Foreign(base: Endpoint, raw: string) {
    var ref := DropFragment(raw);
    ref != "" && if IsAbsolute(ref) then AuthorityOf(ref, base).None? else HasScheme(ref)
  }

  lemma {:induction false} Parts(target: string)
    ensures PathOf(target) + QueryOf(target) == target
  {
  }

  lemma {:induction false} SameTail(a: string, b: string, tail: string)
    ensures a + tail == b + tail <==> a == b
  {
    if a + tail == b + tail {
      assert a == (a + tail)[..|a|] && b == (b + tail)[..|b|];
    }
  }

  // A path is its own normal form exactly without dot segments.
  lemma {:induction false} NormalMeans(tail: string)
    requires tail == "" || tail[0] == '/' || tail[0] == '?'
    ensures Normal(tail) == TargetOf(tail) <==> !HasDots(PathOf(tail))
  {
    var path, query := PathOf(tail), QueryOf(tail);
    Parts(tail);
    if path == "" {
      assert TargetOf(tail) == "/" + query;
    } else {
      assert tail[0] == path[0];
      RemoveDotsMeans(path, "");
      SameTail(RemoveDots(path, ""), path, query);
      assert "" + path == path;
    }
  }

  lemma {:induction false} AbsoluteAgrees(base: Endpoint, ref: string)
    requires IsAbsolute(ref) && |ref| < MAX_LOCATION
    ensures ParseAbsolute(ref, base.tls) ==
              match AuthorityOf(ref, base)
              case None => None
              case Some((host, port)) => Some(Endpoint(SchemeIsTls(ref, base), host, port, TargetOf(Tail(ref))))
  {
    assert ParseAbsolute(ref, base.tls) == ParseRest(AfterSlashes(ref), SchemeIsTls(ref, base));
    RestAgrees(AfterSlashes(ref), SchemeIsTls(ref, base));
  }

  lemma {:induction false} RestAgrees(rest: string, tls: bool)
    requires |rest| < MAX_LOCATION
    ensures var n := IndexOfAny(rest, {'/', '?'});
            ParseRest(rest, tls) ==
              match ParseAuthority(rest[..n], if tls then 443 else 80)
              case None => None
              case Some((host, port)) => Some(Endpoint(tls, host, port, TargetOf(rest[n..])))
  {
    var n := IndexOfAny(rest, {'/', '?'});
    assert |TargetOf(rest[n..])| < MAX_TARGET && TargetOf(rest[n..]) != "";
  }

  lemma {:induction false} RelativeAgrees(base: Endpoint, ref: string)
    requires ValidEndpoint(base) && ref != "" && ref[0] != '/' && ref[0] != '?'
    ensures Merge(base.target, ref).Some? <==> |Directory(base)| + |ref| < MAX_TARGET
    ensures Merge(base.target, ref).Some? ==> Merge(base.target, ref).value == (Directory(base) + PathOf(ref)) + QueryOf(ref)
  {
    var path := PathOf(base.target);
    assert path[0] == '/';
    Parts(ref);
    assert (Directory(base) + PathOf(ref)) + QueryOf(ref) == Directory(base) + (PathOf(ref) + QueryOf(ref));
  }

  // The target of a relative reference has to be normal.
  lemma {:induction false} RelativeNormal(base: Endpoint, ref: string)
    requires ValidEndpoint(base)
    ensures var path := Directory(base) + PathOf(ref);
            RemoveDots(path, "") + QueryOf(ref) == path + QueryOf(ref) <==> !HasDots(path)
  {
    var path := Directory(base) + PathOf(ref);
    assert PathOf(base.target)[0] == '/' && Directory(base)[0] == '/' && path[0] == '/';
    RemoveDotsMeans(path, "");
    SameTail(RemoveDots(path, ""), path, QueryOf(ref));
    assert "" + path == path;
  }

  // resolve_location accepts exactly these references.
  lemma {:induction false} AcceptedMeans(base: Endpoint, request: string, raw: string)
    requires ValidEndpoint(base) && RequestTarget(request) == Some(base.target)
    ensures Resolve(base, request, raw).Some? <==> IsAccepted(base, raw)
  {
    if Visible(raw) && |raw| < MAX_LOCATION && DropFragment(raw) != "" {
      var ref := DropFragment(raw);
      if IsAbsolute(ref) {
        AbsoluteAgrees(base, ref);
      } else if ref[0] != '/' && ref[0] != '?' {
        RelativeAgrees(base, ref);
        Parts(ref);
      }
    }
  }

  lemma {:induction false} AcceptedAgrees(base: Endpoint, request: string, raw: string)
    requires ValidEndpoint(base) && RequestTarget(request) == Some(base.target) && IsAccepted(base, raw)
    ensures Resolve(base, request, raw) == RfcResolve(base, raw) <==> Conforms(base, raw)
  {
    var ref := DropFragment(raw);
    if IsAbsolute(ref) {
      AbsoluteAgrees(base, ref);
      var n := IndexOfAny(AfterSlashes(ref), {'/', '?'});
      assert n < |AfterSlashes(ref)| ==> Tail(ref)[0] == AfterSlashes(ref)[n];
      NormalMeans(Tail(ref));
    } else if ref[0] == '/' {
      NormalMeans(ref);
    } else if ref[0] == '?' {
      assert !HasScheme(ref);
    } else {
      RelativeAgrees(base, ref);
      RelativeNormal(base, ref);
      Parts(ref);
    }
  }

  // resolve_location gives what the RFC gives exactly if it accepts the reference and
  // there is no dot segment to remove and no other scheme, or if it refuses one that
  // means no endpoint.
  lemma {:induction false} ResolveIsRfc(base: Endpoint, request: string, raw: string)
    requires ValidEndpoint(base) && RequestTarget(request) == Some(base.target)
    ensures Resolve(base, request, raw) == RfcResolve(base, raw) <==>
            if IsAccepted(base, raw) then Conforms(base, raw) else Foreign(base, raw)
  {
    AcceptedMeans(base, request, raw);
    if IsAccepted(base, raw) {
      AcceptedAgrees(base, request, raw);
    }
  }

  lemma {:induction false} SomeDots()
    ensures RemoveDots("/a/..", "") == "/"
  {
    var p := "/a/..";
    assert p[2..] == "/.." && p[..2] == "/a" && SegmentLength(p) == 2;
    assert "" + "/a" == "/a" && AfterLast("/a", '/') == 1 && WithoutLast("/a") == "";
    var q := "/..";
    assert |q| == 3 && q[0] == '/' && q[1] == '.' && q[2] == '.';
    assert NextStep(q) == Last(true);
    assert p[1] == 'a' && NextStep(p) == Move(2);
  }

  lemma {:induction false} SomeText()
    ensures DropFragment("/a/..") == "/a/.." && DropFragment("ftp://h") == "ftp://h" && DropFragment("#x") == ""
    ensures PathOf("/a/..") == "/a/.." && QueryOf("/a/..") == "" && PathOf("ftp://h") == "ftp://h" && QueryOf("ftp://h") == ""
  {
    var s, t := "/a/..", "ftp://h";
    assert |DropFragment(s)| == |s| && |DropFragment(t)| == |t|;
    assert IndexOf(s, '?') == |s| && IndexOf(t, '?') == |t|;
  }

  lemma {:induction false} SomeScheme()
    ensures HasScheme("ftp://h") && !IsAbsolute("ftp://h") && Visible("ftp://h") && "ftp://h"[0] == 'f'
    ensures PathOf("/p") == "/p" && AfterLast("/p", '/') == 1 && "/p"[..1] == "/"
  {
    var t, p := "ftp://h", "/p";
    assert t[0] == 'f' && t[1] == 't' && t[2] == 'p' && t[3] == ':';
    assert IndexOfAny(t, {':', '/', '?'}) == 3;
    assert Lower(t[..7][0]) == 'f' && Lower("http://"[0]) == 'h';
    assert IndexOf(p, '?') == 2;
  }

  lemma {:induction false} RootedIsKept(base: Endpoint, request: string, ref: string)
    requires Visible(ref) && |ref| < MAX_LOCATION && DropFragment(ref) == ref
    requires ref != "" && ref[0] == '/' && !IsAbsolute(ref)
    ensures Resolve(base, request, ref) == Some(base.(target := ref))
    ensures RfcResolve(base, ref) == Some(base.(target := Normal(ref)))
  {
  }

  lemma {:induction false} SomeRooted()
    ensures Visible("/a/..") && !IsAbsolute("/a/..") && "/a/.."[0] == '/' && |"/a/.."| == 5
  {
    assert "/a/.."[1] == 'a';
  }

  // The three ways to differ: a dot segment, another scheme, and a fragment alone.
  lemma {:induction false} DotsAreKept(base: Endpoint, request: string)
    ensures Resolve(base, request, "/a/..") == Some(base.(target := "/a/.."))
    ensures RfcResolve(base, "/a/..") == Some(base.(target := "/"))
  {
    SomeDots();
    SomeText();
    SomeRooted();
    RootedIsKept(base, request, "/a/..");
    assert "/" + "" == "/";
  }

  lemma {:induction false} RelativeIsMerged(base: Endpoint, request: string, ref: string)
    requires ValidEndpoint(base) && RequestTarget(request) == Some(base.target)
    requires Visible(ref) && |ref| < MAX_LOCATION && DropFragment(ref) == ref
    requires ref != "" && ref[0] != '/' && ref[0] != '?' && !IsAbsolute(ref) && |Directory(base)| + |ref| < MAX_TARGET
    ensures Resolve(base, request, ref) == Some(base.(target := (Directory(base) + PathOf(ref)) + QueryOf(ref)))
  {
    RelativeAgrees(base, ref);
  }

  lemma {:induction false} SchemeIsForeign(base: Endpoint, ref: string)
    requires DropFragment(ref) == ref && ref != "" && !IsAbsolute(ref) && HasScheme(ref)
    ensures RfcResolve(base, ref) == None
  {
  }

  lemma {:induction false} SchemeIsMerged(base: Endpoint, request: string)
    requires ValidEndpoint(base) && RequestTarget(request) == Some(base.target) && base.target == "/p"
    ensures Resolve(base, request, "ftp://h") == Some(base.(target := "/ftp://h"))
    ensures RfcResolve(base, "ftp://h") == None
  {
    var t := "ftp://h";
    SomeText();
    SomeScheme();
    RelativeIsMerged(base, request, t);
    SchemeIsForeign(base, t);
    assert ("/" + t) + "" == "/ftp://h";
  }

  lemma {:induction false} FragmentIsRefused(base: Endpoint, request: string)
    ensures Resolve(base, request, "#x") == None && RfcResolve(base, "#x") == Some(base)
  {
    SomeText();
  }
}
