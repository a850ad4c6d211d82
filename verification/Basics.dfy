/** Small facts about finite sets and options that several modules use. */
module Basics {

  datatype Option<+T> = None | Some(value: T)

  /** The numbers below `n`. */
  ghost function Below(n: nat): (s: set<nat>)
    ensures |s| == n
    ensures forall q: nat :: q in s <==> q < n
  {
    if n == 0 then {} else Below(n - 1) + {n - 1}
  }

  lemma SubsetSize<T>(s: set<T>, t: set<T>)
    requires s <= t
    ensures |s| <= |t|
    ensures |s| == |t| ==> s == t
  {
    assert t == s + (t - s);
    assert |t| == |s| + |t - s|;
  }

  /** A set whose elements a duplicate-free sequence sends into `t` is no larger than `t`. */
  lemma {:induction false} InjectionSize<T>(s: set<nat>, f: seq<T>, t: set<T>)
    requires forall q :: q in s ==> q < |f| && f[q] in t
    requires forall j, k :: 0 <= j < k < |f| ==> f[j] != f[k]
    ensures |s| <= |t|
  {
    if s != {} {
      var q :| q in s;
      InjectionSize(s - {q}, f, t - {f[q]});
      assert |s - {q}| == |s| - 1;
      assert |t - {f[q]}| == |t| - 1;
    }
  }
}
