// Lists of records and what is selected from them.

module Lists {
  ghost function Filter<T>(s: seq<T>, p: T -> bool): seq<T> {
    if s == [] then []
    else (if p(s[0]) then [s[0]] else []) + Filter(s[1..], p)
  }

  lemma {:induction false} FilterAppend<T>(s: seq<T>, t: seq<T>, p: T -> bool)
    ensures Filter(s + t, p) == Filter(s, p) + Filter(t, p)
  {
    if s == [] {
      assert s + t == t;
    } else {
      var head := if p(s[0]) then [s[0]] else [];
      assert (s + t)[0] == s[0] && (s + t)[1..] == s[1..] + t;
      FilterAppend(s[1..], t, p);
      var a, b := Filter(s[1..], p), Filter(t, p);
      assert head + (a + b) == (head + a) + b;
    }
  }

  function Without<T>(s: seq<T>, k: nat): seq<T>
    requires k < |s|
  {
    s[..k] + s[k + 1..]
  }

  lemma {:induction false} FilterWithout<T>(s: seq<T>, k: nat, p: T -> bool)
    requires k < |s|
    ensures !p(s[k]) ==> Filter(Without(s, k), p) == Filter(s, p)
    ensures p(s[k]) ==> |Filter(Without(s, k), p)| == |Filter(s, p)| - 1
  {
    var one := [s[k]];
    assert s == s[..k] + (one + s[k + 1..]);
    FilterAppend(s[..k], one + s[k + 1..], p);
    FilterAppend(one, s[k + 1..], p);
    FilterAppend(s[..k], s[k + 1..], p);
    assert one[1..] == [];
  }

  lemma {:induction false} FilterBounds<T>(s: seq<T>, p: T -> bool)
    ensures |Filter(s, p)| <= |s|
    ensures |Filter(s, p)| == |s| <==> forall i :: 0 <= i < |s| ==> p(s[i])
    ensures |Filter(s, p)| == 0 <==> forall i :: 0 <= i < |s| ==> !p(s[i])
  {
    if s != [] {
      FilterBounds(s[1..], p);
      assert forall i :: 1 <= i < |s| ==> s[i] == s[1..][i - 1];
    }
  }

  lemma {:induction false} FilterAll<T>(s: seq<T>, p: T -> bool)
    requires forall i :: 0 <= i < |s| ==> p(s[i])
    ensures Filter(s, p) == s
  {
    if s != [] {
      FilterAll(s[1..], p);
      assert s == [s[0]] + s[1..];
    }
  }

  // What is selected has the property selected for, and those that all had.
  lemma {:induction false} FilterForall<T>(s: seq<T>, p: T -> bool, q: T -> bool)
    requires forall i :: 0 <= i < |s| ==> q(s[i])
    ensures forall i :: 0 <= i < |Filter(s, p)| ==> p(Filter(s, p)[i]) && q(Filter(s, p)[i])
  {
    if s != [] {
      assert forall i :: 0 <= i < |s[1..]| ==> s[1..][i] == s[i + 1];
      FilterForall(s[1..], p, q);
    }
  }

  function Flatten<T>(ss: seq<seq<T>>): seq<T> {
    if ss == [] then [] else ss[0] + Flatten(ss[1..])
  }

  lemma {:induction false} FlattenAt<T>(ss: seq<seq<T>>, k: nat)
    requires k < |ss|
    ensures Flatten(ss) == Flatten(ss[..k]) + ss[k] + Flatten(ss[k + 1..])
  {
    if k > 0 {
      var rest := ss[1..];
      FlattenAt(rest, k - 1);
      assert ss[..k][1..] == rest[..k - 1] && ss[k + 1..] == rest[k..];
      Regroup(ss[0], Flatten(rest[..k - 1]), ss[k], Flatten(rest[k..]));
    }
  }

  lemma {:induction false} Regroup<T>(a: seq<T>, b: seq<T>, c: seq<T>, d: seq<T>)
    ensures a + (b + c + d) == (a + b) + c + d
  {
  }

  lemma {:induction false} FlattenUpdate<T>(ss: seq<seq<T>>, k: nat, s: seq<T>)
    requires k < |ss|
    ensures Flatten(ss[k := s]) == Flatten(ss[..k]) + s + Flatten(ss[k + 1..])
  {
    FlattenAt(ss[k := s], k);
    assert ss[k := s][..k] == ss[..k] && ss[k := s][k + 1..] == ss[k + 1..];
  }

  lemma {:induction false} FlattenForall<T>(ss: seq<seq<T>>, q: T -> bool)
    requires forall b, k :: 0 <= b < |ss| && 0 <= k < |ss[b]| ==> q(ss[b][k])
    ensures forall i :: 0 <= i < |Flatten(ss)| ==> q(Flatten(ss)[i])
  {
    if ss != [] {
      assert forall b :: 0 <= b < |ss[1..]| ==> ss[1..][b] == ss[b + 1];
      FlattenForall(ss[1..], q);
    }
  }

  lemma {:induction false} FlattenFilter<T>(ss: seq<seq<T>>, tt: seq<seq<T>>, p: T -> bool)
    requires |ss| == |tt| && forall b :: 0 <= b < |ss| ==> tt[b] == Filter(ss[b], p)
    ensures Flatten(tt) == Filter(Flatten(ss), p)
  {
    if ss != [] {
      assert forall b :: 0 <= b < |ss| - 1 ==> tt[1..][b] == Filter(ss[1..][b], p);
      FlattenFilter(ss[1..], tt[1..], p);
      FilterAppend(ss[0], Flatten(ss[1..]), p);
    }
  }
}
