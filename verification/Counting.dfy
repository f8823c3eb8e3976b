/** Comparing the sizes of finite sets. */
module Counting {

  /** A set that maps one-to-one into another is no larger. */
  lemma {:induction false} InjectionCounts<A, B>(xs: set<A>, ys: set<B>, f: map<A, B>)
    requires xs <= f.Keys && forall x :: x in xs ==> f[x] in ys
    requires forall x, x' :: x in xs && x' in xs && x != x' ==> f[x] != f[x']
    ensures |xs| <= |ys|
    decreases xs
  {
    if xs != {} {
      var x :| x in xs;
      InjectionCounts(xs - {x}, ys - {f[x]}, f);
      assert |xs - {x}| == |xs| - 1 && |ys - {f[x]}| == |ys| - 1;
    }
  }

  /** A proper subset is smaller. */
  lemma ProperSubsetCounts<A>(xs: set<A>, ys: set<A>, y: A)
    requires xs <= ys && y in ys && y !in xs
    ensures |xs| < |ys|
  {
    InjectionCounts(xs, ys - {y}, map x | x in xs :: x);
  }
}
