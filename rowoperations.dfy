/** Row operations of the elimination seen from the weights side: how a dot
    product with a row-combined vector is rewritten as one with the original
    vector and adjusted weights. */
module RowOperations {
  import opened Polynomial

  /** On vectors: if u == w + mu * wp, where wp == w[p], then fi . u == fi2 . w,
      where fi2 is fi with s == fi . mu added at position p. */
  lemma RowOperationUndone(fi: seq<real>, fi2: seq<real>, u: seq<real>, w: seq<real>, mu: seq<real>, p: nat, k: nat, wp: real, s: real)
    requires |fi| == k && |fi2| == k && |u| == k && |w| == k && |mu| == k && p < k && w[p] == wp
    requires forall j :: 0 <= j < k ==> u[j] == w[j] + mu[j] * wp
    requires s == Dot(fi, mu, k) && fi2[p] == fi[p] + s
    requires forall j :: 0 <= j < k && j != p ==> fi2[j] == fi[j]
    ensures Dot(fi2, w, k) == Dot(fi, u, k)
  {
    WeightAddedAtPivot(fi, fi2, w, s, wp, p, k);
    DotRightAddedScaled(fi, u, w, mu, wp, s, k);
  }

  /** Adding s at position p of the weights adds w[p] * s to the dot product. */
  lemma WeightAddedAtPivot(fi: seq<real>, fi2: seq<real>, w: seq<real>, s: real, wp: real, p: nat, k: nat)
    requires |fi| == k && |fi2| == k && |w| == k && p < k && w[p] == wp
    requires fi2[p] == fi[p] + s && forall j :: 0 <= j < k && j != p ==> fi2[j] == fi[j]
    ensures Dot(fi2, w, k) == Dot(fi, w, k) + wp * s
  {
    DotTwoTermsDiffer(fi2, w, fi, w, k, p, k);
    AddedTerm(fi2[p], fi[p], s, w[p]);
  }

  /** (f + s) * w - f * w == w * s, on plain reals. */
  lemma AddedTerm(f2: real, f: real, s: real, wp: real)
    requires f2 == f + s
    ensures f2 * wp - f * wp == wp * s
  {
  }
}
