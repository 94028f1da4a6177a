// The UTF-8 validator of native/transport.c and the UTF-16 to UTF-8 conversion
// of android/jni_transport.c, against the encodings of section 3 of RFC 3629 and
// section 2 of RFC 2781.
//
// The shifts, masks and disjoint bit-wise ors of the C code are written as the
// divisions, remainders and sums they compute.

module Unicode {
  import opened Bytes

  type Scalar = x: int | 0 <= x < 0xD800 || 0xE000 <= x <= 0x10FFFF

  newtype unit = x: int | 0 <= x < 0x1_0000

  // Section 3 of RFC 3629.
  function Utf8(s: Scalar): (b: seq<byte>)
    ensures 1 <= |b| <= 4
  {
    if s <= 0x7F then [s as byte]
    else if s <= 0x7FF then [(0xC0 + s / 0x40) as byte, (0x80 + s % 0x40) as byte]
    else if s <= 0xFFFF then
      [(0xE0 + s / 0x1000) as byte, (0x80 + s / 0x40 % 0x40) as byte, (0x80 + s % 0x40) as byte]
    else
      [(0xF0 + s / 0x40000) as byte, (0x80 + s / 0x1000 % 0x40) as byte,
       (0x80 + s / 0x40 % 0x40) as byte, (0x80 + s % 0x40) as byte]
  }

  function Utf8All(ss: seq<Scalar>): seq<byte> {
    if ss == [] then [] else Utf8(ss[0]) + Utf8All(ss[1..])
  }

  // Section 2.1 of RFC 2781.
  function Utf16(s: Scalar): (u: seq<unit>)
    ensures 1 <= |u| <= 2
  {
    if s < 0x1_0000 then [s as unit]
    else [(0xD800 + (s - 0x1_0000) / 0x400) as unit, (0xDC00 + (s - 0x1_0000) % 0x400) as unit]
  }

  function Utf16All(ss: seq<Scalar>): seq<unit> {
    if ss == [] then [] else Utf16(ss[0]) + Utf16All(ss[1..])
  }

  predicate Continuation(b: byte) {
    0x80 <= b <= 0xBF
  }

  // The length of the character that `b` starts with, 0 if there is none: the
  // alternatives of the grammar in section 4 of RFC 3629.
  function CharLength(b: seq<byte>): (n: nat)
    ensures n <= |b| && n <= 4
  {
    if |b| >= 1 && b[0] <= 0x7F then 1
    else if |b| >= 2 && 0xC2 <= b[0] <= 0xDF && Continuation(b[1]) then 2
    else if |b| >= 3 && Continuation(b[2]) &&
            (|| (b[0] == 0xE0 && 0xA0 <= b[1] <= 0xBF)
             || (b[0] == 0xED && 0x80 <= b[1] <= 0x9F)
             || (0xE1 <= b[0] <= 0xEF && b[0] != 0xED && Continuation(b[1]))) then 3
    else if |b| >= 4 && Continuation(b[2]) && Continuation(b[3]) &&
            (|| (b[0] == 0xF0 && 0x90 <= b[1] <= 0xBF)
             || (b[0] == 0xF4 && 0x80 <= b[1] <= 0x8F)
             || (0xF1 <= b[0] <= 0xF3 && Continuation(b[1]))) then 4
    else 0
  }

  function DecodeChar(b: seq<byte>): (s: Scalar)
    requires CharLength(b) > 0
  {
    var n := CharLength(b);
    if n == 1 then b[0] as int
    else if n == 2 then (b[0] as int - 0xC0) * 0x40 + (b[1] as int - 0x80)
    else if n == 3 then (b[0] as int - 0xE0) * 0x1000 + (b[1] as int - 0x80) * 0x40 + (b[2] as int - 0x80)
    else (b[0] as int - 0xF0) * 0x40000 + (b[1] as int - 0x80) * 0x1000 + (b[2] as int - 0x80) * 0x40 + (b[3] as int - 0x80)
  }

  // Base-64 digits are unique.
  lemma {:induction false} Base64Digits(a: nat, b: nat, c: nat, d: nat)
    requires b < 0x40 && c < 0x40 && d < 0x40
    ensures var s := a * 0x40000 + b * 0x1000 + c * 0x40 + d;
            s / 0x40000 == a && s / 0x1000 % 0x40 == b && s / 0x40 % 0x40 == c && s % 0x40 == d
    ensures a == 0 ==> var s := b * 0x1000 + c * 0x40 + d; s / 0x1000 == b
    ensures a == b == 0 ==> (c * 0x40 + d) / 0x40 == c
  {
    var s := a * 0x40000 + b * 0x1000 + c * 0x40 + d;
    assert s / 0x40 == a * 0x1000 + b * 0x40 + c;
    assert s / 0x1000 == a * 0x40 + b;
  }

  lemma {:induction false} DecodeSound3(b: seq<byte>)
    requires CharLength(b) == 3
    ensures Utf8(DecodeChar(b)) == b[..3]
  {
    Base64Digits(0, b[0] as int - 0xE0, b[1] as int - 0x80, b[2] as int - 0x80);
    var s := DecodeChar(b);
    assert 0x800 <= s <= 0xFFFF;
  }

  lemma {:induction false} DecodeSound4(b: seq<byte>)
    requires CharLength(b) == 4
    ensures Utf8(DecodeChar(b)) == b[..4]
  {
    Base64Digits(b[0] as int - 0xF0, b[1] as int - 0x80, b[2] as int - 0x80, b[3] as int - 0x80);
    var s := DecodeChar(b);
    assert 0x1_0000 <= s;
  }

  lemma {:induction false} DecodeSound(b: seq<byte>)
    requires CharLength(b) > 0
    ensures Utf8(DecodeChar(b)) == b[..CharLength(b)]
  {
    var n := CharLength(b);
    if n == 1 {
    } else if n == 2 {
      Base64Digits(0, 0, b[0] as int - 0xC0, b[1] as int - 0x80);
    } else if n == 3 {
      DecodeSound3(b);
    } else {
      DecodeSound4(b);
    }
  }

  // The parts that the encoding of a scalar is made of.
  lemma {:induction false} Parts(s: nat)
    ensures s == s / 0x40 * 0x40 + s % 0x40
    ensures s == s / 0x1000 * 0x1000 + s / 0x40 % 0x40 * 0x40 + s % 0x40
    ensures s == s / 0x40000 * 0x40000 + s / 0x1000 % 0x40 * 0x1000 + s / 0x40 % 0x40 * 0x40 + s % 0x40
  {
    assert s / 0x1000 == s / 0x40 / 0x40;
    assert s / 0x40000 == s / 0x1000 / 0x40;
  }

  lemma {:induction false} EncodeStarts(s: Scalar, rest: seq<byte>)
    ensures CharLength(Utf8(s) + rest) == |Utf8(s)|
    ensures DecodeChar(Utf8(s) + rest) == s
  {
    Parts(s);
    var b := Utf8(s) + rest;
    assert forall i :: 0 <= i < |Utf8(s)| ==> b[i] == Utf8(s)[i];
  }

  predicate WellFormed(b: seq<byte>)
    decreases |b|
  {
    b == [] || (CharLength(b) > 0 && WellFormed(b[CharLength(b)..]))
  }

  lemma {:induction false} EncodedIsWellFormed(ss: seq<Scalar>)
    ensures WellFormed(Utf8All(ss))
  {
    if ss != [] {
      EncodedIsWellFormed(ss[1..]);
      EncodeStarts(ss[0], Utf8All(ss[1..]));
      assert Utf8All(ss)[|Utf8(ss[0])|..] == Utf8All(ss[1..]);
    }
  }

  lemma {:induction false} WellFormedIsEncoded(b: seq<byte>) returns (ss: seq<Scalar>)
    requires WellFormed(b)
    ensures Utf8All(ss) == b
    decreases |b|
  {
    if b == [] {
      ss := [];
    } else {
      var n := CharLength(b);
      var tail := WellFormedIsEncoded(b[n..]);
      DecodeSound(b);
      ss := [DecodeChar(b)] + tail;
      assert ss[1..] == tail && b == b[..n] + b[n..];
    }
  }

  // No two sequences of scalars have the same encoding.
  lemma {:induction false} Utf8Unique(ss: seq<Scalar>, ts: seq<Scalar>)
    requires Utf8All(ss) == Utf8All(ts)
    ensures ss == ts
  {
    if ss == [] || ts == [] {
      assert ss == ts == [];
    } else {
      EncodeStarts(ss[0], Utf8All(ss[1..]));
      EncodeStarts(ts[0], Utf8All(ts[1..]));
      assert Utf8All(ss)[|Utf8(ss[0])|..] == Utf8All(ss[1..]);
      assert Utf8All(ts)[|Utf8(ts[0])|..] == Utf8All(ts[1..]);
      Utf8Unique(ss[1..], ts[1..]);
      assert ss == [ss[0]] + ss[1..] && ts == [ts[0]] + ts[1..];
    }
  }

  // valid_utf8_bytes accepts exactly the encodings of sequences of scalars.
  method ValidUtf8(bytes: seq<byte>) returns (ok: bool)
    ensures ok <==> exists ss :: Utf8All(ss) == bytes
  {
    ok := ScanUtf8(bytes);
    if ok {
      ghost var ss := WellFormedIsEncoded(bytes);
    } else {
      forall ss | Utf8All(ss) == bytes
        ensures false
      {
        EncodedIsWellFormed(ss);
      }
    }
  }

  // The loop of valid_utf8_bytes.
  method ScanUtf8(bytes: seq<byte>) returns (ok: bool)
    ensures ok <==> WellFormed(bytes)
  {
    var index: nat := 0;
    assert bytes[0..] == bytes;
    while index < |bytes|
      invariant index <= |bytes|
      invariant WellFormed(bytes) <==> WellFormed(bytes[index..])
    {
      ghost var here := bytes[index..];
      var first := bytes[index];
      index := index + 1;
      if first <= 0x7F {
        assert here[1..] == bytes[index..];
      } else if 0xC2 <= first <= 0xDF {
        if index >= |bytes| || !Continuation(bytes[index]) {
          return false;
        }
        index := index + 1;
        assert here[2..] == bytes[index..];
      } else if 0xE0 <= first <= 0xEF {
        if index + 1 >= |bytes| {
          return false;
        }
        var second, third := bytes[index], bytes[index + 1];
        index := index + 2;
        assert here[1] == second && here[2] == third;
        if !Continuation(third) {
          return false;
        }
        if first == 0xE0 {
          if second < 0xA0 || second > 0xBF {
            return false;
          }
        } else if first == 0xED {
          if second < 0x80 || second > 0x9F {
            return false;
          }
        } else if !Continuation(second) {
          return false;
        }
        assert here[3..] == bytes[index..];
      } else if 0xF0 <= first <= 0xF4 {
        if index + 2 >= |bytes| {
          return false;
        }
        var second, third, fourth := bytes[index], bytes[index + 1], bytes[index + 2];
        index := index + 3;
        assert here[1] == second && here[2] == third && here[3] == fourth;
        if !Continuation(third) || !Continuation(fourth) {
          return false;
        }
        if first == 0xF0 {
          if second < 0x90 || second > 0xBF {
            return false;
          }
        } else if first == 0xF4 {
          if second < 0x80 || second > 0x8F {
            return false;
          }
        } else if !Continuation(second) {
          return false;
        }
        assert here[4..] == bytes[index..];
      } else {
        return false;
      }
    }
    ok := true;
  }

  predicate High(u: unit) { 0xD800 <= u <= 0xDBFF }

  predicate Low(u: unit) { 0xDC00 <= u <= 0xDFFF }

  // The number of units of the character that `u` starts with, 0 if there is none.
  function UnitLength(u: seq<unit>): (n: nat)
    ensures n <= |u| && n <= 2
  {
    if |u| >= 1 && !High(u[0]) && !Low(u[0]) then 1
    else if |u| >= 2 && High(u[0]) && Low(u[1]) then 2
    else 0
  }

  function DecodeUnits(u: seq<unit>): (s: Scalar)
    requires UnitLength(u) > 0
  {
    if UnitLength(u) == 1 then u[0] as int
    else 0x1_0000 + (u[0] as int - 0xD800) * 0x400 + (u[1] as int - 0xDC00)
  }

  predicate WellFormed16(u: seq<unit>)
    decreases |u|
  {
    u == [] || (UnitLength(u) > 0 && WellFormed16(u[UnitLength(u)..]))
  }

  // The scalars that well-formed units stand for.
  function Scalars(u: seq<unit>): seq<Scalar>
    requires WellFormed16(u)
    decreases |u|
  {
    if u == [] then [] else [DecodeUnits(u)] + Scalars(u[UnitLength(u)..])
  }

  lemma {:induction false} Utf16Inverse(u: seq<unit>)
    requires WellFormed16(u)
    ensures Utf16All(Scalars(u)) == u
    decreases |u|
  {
    if u != [] {
      var n := UnitLength(u);
      Utf16Inverse(u[n..]);
      assert Utf16(DecodeUnits(u)) == u[..n];
      assert Scalars(u)[1..] == Scalars(u[n..]) && u == u[..n] + u[n..];
    }
  }

  lemma {:induction false} Utf16RoundTrip(ss: seq<Scalar>)
    ensures WellFormed16(Utf16All(ss)) && Scalars(Utf16All(ss)) == ss
  {
    if ss != [] {
      var u, rest := Utf16All(ss), Utf16All(ss[1..]);
      Utf16RoundTrip(ss[1..]);
      var n := |Utf16(ss[0])|;
      assert u[0] == Utf16(ss[0])[0] && (n == 2 ==> u[1] == Utf16(ss[0])[1]);
      assert UnitLength(u) == n && u[n..] == rest;
      assert DecodeUnits(u) == ss[0];
      assert ss == [ss[0]] + ss[1..];
    }
  }

  // The well-formed unit sequences are the encodings of sequences of scalars.
  lemma {:induction false} WellFormed16IsEncoded(u: seq<unit>)
    ensures WellFormed16(u) <==> exists ss :: Utf16All(ss) == u
  {
    if WellFormed16(u) {
      Utf16Inverse(u);
    }
    forall ss | Utf16All(ss) == u
      ensures WellFormed16(u)
    {
      Utf16RoundTrip(ss);
    }
  }

  lemma {:induction false} Utf8Snoc(ss: seq<Scalar>, s: Scalar)
    ensures Utf8All(ss + [s]) == Utf8All(ss) + Utf8(s)
  {
    if ss == [] {
      assert ss + [s] == [s] && [s][1..] == [];
    } else {
      assert (ss + [s])[1..] == ss[1..] + [s];
      Utf8Snoc(ss[1..], s);
    }
  }

  // append_code_point: refuse to fill the last byte of the buffer, which the
  // terminating zero needs.
  method AppendCodePoint(output: array<byte>, length: nat, s: Scalar) returns (ok: bool, length': nat)
    requires length <= output.Length
    modifies output
    ensures ok <==> length + |Utf8(s)| < output.Length
    ensures ok ==> length' == length + |Utf8(s)|
    ensures ok ==> output[..length'] == old(output[..length]) + Utf8(s)
  {
    ok, length' := false, length;
    if s <= 0x7F {
      if length + 1 >= output.Length { return; }
      output[length] := s as byte;
      length' := length + 1;
    } else if s <= 0x7FF {
      if length + 2 >= output.Length { return; }
      output[length] := (0xC0 + s / 0x40) as byte;
      output[length + 1] := (0x80 + s % 0x40) as byte;
      length' := length + 2;
    } else if s <= 0xFFFF {
      if length + 3 >= output.Length { return; }
      output[length] := (0xE0 + s / 0x1000) as byte;
      output[length + 1] := (0x80 + s / 0x40 % 0x40) as byte;
      output[length + 2] := (0x80 + s % 0x40) as byte;
      length' := length + 3;
    } else {
      if length + 4 >= output.Length { return; }
      output[length] := (0xF0 + s / 0x40000) as byte;
      output[length + 1] := (0x80 + s / 0x1000 % 0x40) as byte;
      output[length + 2] := (0x80 + s / 0x40 % 0x40) as byte;
      output[length + 3] := (0x80 + s % 0x40) as byte;
      length' := length + 4;
    }
    ok := true;
  }

  // The surrogate handling in the loop of jstring_to_utf8.
  method ReadCodePoint(units: seq<unit>, index: nat) returns (ok: bool, s: Scalar, next: nat)
    requires index < |units|
    ensures ok <==> UnitLength(units[index..]) > 0
    ensures ok ==> next == index + UnitLength(units[index..]) && s == DecodeUnits(units[index..])
  {
    var codePoint: int := units[index] as int;
    ok, s, next := false, 0, index;
    if 0xD800 <= codePoint <= 0xDBFF {
      if next + 1 >= |units| {
        return;
      }
      next := next + 1;
      var low := units[next] as int;
      if low < 0xDC00 || low > 0xDFFF {
        return;
      }
      codePoint := 0x1_0000 + (codePoint - 0xD800) * 0x400 + (low - 0xDC00);
    } else if 0xDC00 <= codePoint <= 0xDFFF {
      return;
    }
    ok, s, next := true, codePoint, next + 1;
  }

  // `done` is what the first `index` units stand for, if all of them are well formed.
  ghost predicate Decoded(units: seq<unit>, index: nat, done: seq<Scalar>)
    requires index <= |units|
  {
    && (WellFormed16(units) <==> WellFormed16(units[index..]))
    && (WellFormed16(units) ==> Scalars(units) == done + Scalars(units[index..]))
  }

  lemma {:induction false} DecodeStep(units: seq<unit>, index: nat, done: seq<Scalar>)
    requires index < |units| && Decoded(units, index, done)
    ensures UnitLength(units[index..]) == 0 ==> !WellFormed16(units)
    ensures UnitLength(units[index..]) > 0 ==>
              Decoded(units, index + UnitLength(units[index..]), done + [DecodeUnits(units[index..])])
  {
    var here := units[index..];
    var n := UnitLength(here);
    if n > 0 {
      assert here[n..] == units[index + n..];
      if WellFormed16(units) {
        var one, rest := [DecodeUnits(here)], Scalars(here[n..]);
        assert done + (one + rest) == (done + one) + rest;
      }
    }
  }

  // jstring_to_utf8, given the units of the string and enough memory.
  method ToUtf8(units: seq<unit>) returns (ok: bool, output: array<byte>, length: nat)
    ensures fresh(output) && output.Length == 4 * |units| + 1
    ensures ok <==> WellFormed16(units)
    ensures ok ==> length < output.Length && output[length] == 0
    ensures ok ==> output[..length] == Utf8All(Scalars(units))
  {
    output := new byte[4 * |units| + 1];
    length, ok := 0, true;
    var index: nat := 0;
    ghost var done: seq<Scalar> := [];
    assert units[0..] == units;
    while index < |units| && ok
      invariant index <= |units| && length <= 4 * index && ok
      invariant Decoded(units, index, done)
      invariant output[..length] == Utf8All(done)
    {
      var s, next;
      ok, s, next := ReadCodePoint(units, index);
      DecodeStep(units, index, done);
      if !ok {
        return;
      }
      Utf8Snoc(done, s);
      ok, length := AppendCodePoint(output, length, s);
      index, done := next, done + [s];
    }
    assert units[index..] == [] && done + [] == done;
    output[length] := 0;
  }

  // The output is accepted as UTF-8 and determines the units.
  lemma {:induction false} OutputIsFaithful(u: seq<unit>, v: seq<unit>)
    requires WellFormed16(u) && WellFormed16(v)
    ensures WellFormed(Utf8All(Scalars(u)))
    ensures Utf8All(Scalars(u)) == Utf8All(Scalars(v)) ==> u == v
  {
    EncodedIsWellFormed(Scalars(u));
    if Utf8All(Scalars(u)) == Utf8All(Scalars(v)) {
      Utf8Unique(Scalars(u), Scalars(v));
      Utf16Inverse(u);
      Utf16Inverse(v);
    }
  }
}
