/** Small value types shared by every module: an optional value and a C++ pointer. */
module Wrappers {

  datatype Option<+T> = None | Some(value: T)

  /** A raw pointer as the C++ code uses it: null, or pointing at a value.
      Pointer identity is abstracted to the value pointed at. */
  datatype Ptr<+T> = Null | Ref(target: T)

  /** Concatenation of a sequence of sequences. */
  function Flatten<T>(ss: seq<seq<T>>): (r: seq<T>)
    decreases |ss|
  {
    if ss == [] then [] else Flatten(ss[..|ss| - 1]) + ss[|ss| - 1]
  }

  /** A non-empty sequence is its front and its last element. */
  lemma SplitLast<T>(s: seq<T>)
    requires s != []
    ensures s == s[..|s| - 1] + [s[|s| - 1]]
  {
  }

  lemma {:induction false} FlattenAppend<T>(ss: seq<seq<T>>, ts: seq<seq<T>>)
    ensures Flatten(ss + ts) == Flatten(ss) + Flatten(ts)
    decreases |ts|
  {
    if ts == [] {
      assert ss + ts == ss;
    } else {
      var n := |ts| - 1;
      assert (ss + ts)[..|ss + ts| - 1] == ss + ts[..n];
      FlattenAppend(ss, ts[..n]);
    }
  }

  lemma {:induction false} FlattenLength<T>(ss: seq<seq<T>>, k: nat)
    requires forall i | 0 <= i < |ss| :: |ss[i]| == k
    ensures |Flatten(ss)| == |ss| * k
    decreases |ss|
  {
    if ss != [] {
      FlattenLength(ss[..|ss| - 1], k);
    }
  }

  lemma {:induction false} FlattenMembers<T>(ss: seq<seq<T>>, x: T)
    ensures x in Flatten(ss) <==> exists i | 0 <= i < |ss| :: x in ss[i]
    decreases |ss|
  {
    if ss != [] {
      var n := |ss| - 1;
      FlattenMembers(ss[..n], x);
      if exists i | 0 <= i < |ss| :: x in ss[i] {
        var i :| 0 <= i < |ss| && x in ss[i];
        if i < n {
          assert ss[..n][i] == ss[i];
        }
      }
    }
  }

  /** The values of the `Some` elements, in order. */
  function Somes<T>(s: seq<Option<T>>): (r: seq<T>)
    ensures |r| <= |s|
    decreases |s|
  {
    if s == [] then []
    else Somes(s[..|s| - 1]) + (if s[|s| - 1].Some? then [s[|s| - 1].value] else [])
  }

  lemma {:induction false} SomesAppend<T>(s: seq<Option<T>>, t: seq<Option<T>>)
    ensures Somes(s + t) == Somes(s) + Somes(t)
    decreases |t|
  {
    if t == [] {
      assert s + t == s;
    } else {
      var n := |t| - 1;
      assert (s + t)[..|s + t| - 1] == s + t[..n];
      assert (s + t)[|s + t| - 1] == t[n];
      SomesAppend(s, t[..n]);
    }
  }

  lemma {:induction false} SomesMembers<T>(s: seq<Option<T>>, x: T)
    ensures x in Somes(s) <==> Some(x) in s
    decreases |s|
  {
    if s != [] {
      var n := |s| - 1;
      SomesMembers(s[..n], x);
      assert s == s[..n] + [s[n]];
    }
  }
}
