/** The least-squares polynomial fit of leastsquaresfit.h.

    LeastSquaresPolynomialFit<N> keeps the power sums of the normal equations
    (ata[k] = sum of x^k for k <= 2N, aty[k] = sum of x^k * y for k <= N),
    builds the augmented matrix [H | I] with the Hankel block H[r][c] = ata[r + c],
    inverts H by Gauss-Jordan elimination and multiplies the inverse by aty.

    The elimination is specified twice: as functions on seq<seq<real>> (Step,
    InvertFrom, Fit), about which the algebra is proved, and as methods on an
    array2 that are proved to follow those functions step by step. */
module LeastSquaresFit {
  import opened Polynomial
  import opened RowOperations

  datatype Option<T> = None | Some(value: T)

  /** One sample passed to AddPoint. */
  datatype Sample = Sample(x: real, y: real)

  type Matrix = seq<seq<real>>

  // ---------------------------------------------------------------------------
  // Accumulated sums
  // ---------------------------------------------------------------------------

  /** The sum of x^k over the samples: what ata[k] holds. */
  function PowerSum(s: seq<Sample>, k: nat): real
  {
    if |s| == 0 then 0.0 else PowerSum(s[..|s| - 1], k) + Pow(s[|s| - 1].x, k)
  }

  /** The term x^k * y that one sample adds to aty[k]. */
  function Moment(e: Sample, k: nat): real
  {
    Pow(e.x, k) * e.y
  }

  /** The sum of x^k * y over the samples: what aty[k] holds. */
  function WeightedSum(s: seq<Sample>, k: nat): real
  {
    if |s| == 0 then 0.0 else WeightedSum(s[..|s| - 1], k) + Moment(s[|s| - 1], k)
  }

  function PowerSums(s: seq<Sample>, n: nat): (r: seq<real>)
    ensures |r| == 2 * n + 1
  {
    seq(2 * n + 1, k requires 0 <= k < 2 * n + 1 => PowerSum(s, k))
  }

  function WeightedSums(s: seq<Sample>, n: nat): (r: seq<real>)
    ensures |r| == n + 1
  {
    seq(n + 1, k requires 0 <= k < n + 1 => WeightedSum(s, k))
  }

  /** Accumulating two batches separately and adding the sums equals accumulating
      them in one pass (the sums of a concatenation split). */
  lemma {:induction false} SumsAppend(s: seq<Sample>, t: seq<Sample>, k: nat)
    ensures PowerSum(s + t, k) == PowerSum(s, k) + PowerSum(t, k)
    ensures WeightedSum(s + t, k) == WeightedSum(s, k) + WeightedSum(t, k)
  {
    if |t| == 0 {
      assert s + t == s;
    } else {
      var t' := t[..|t| - 1];
      assert (s + t)[..|s + t| - 1] == s + t';
      SumsAppend(s, t', k);
    }
  }

  /** Taking sample i out of the sequence takes its terms out of the sums. */
  lemma SumsRemove(t: seq<Sample>, i: nat, k: nat)
    requires i < |t|
    ensures multiset(t) == multiset(t[..i] + t[i + 1..]) + multiset{t[i]}
    ensures PowerSum(t, k) == PowerSum(t[..i] + t[i + 1..], k) + Pow(t[i].x, k)
    ensures WeightedSum(t, k) == WeightedSum(t[..i] + t[i + 1..], k) + Moment(t[i], k)
  {
    var e, front, back := t[i], t[..i], t[i + 1..];
    SumsSingle(e, k);
    assert t == front + ([e] + back);
    SumsAppend(front, [e] + back, k);
    SumsAppend([e], back, k);
    SumsAppend(front, back, k);
  }

  lemma SumsSingle(e: Sample, k: nat)
    ensures PowerSum([e], k) == Pow(e.x, k)
    ensures WeightedSum([e], k) == Moment(e, k)
  {
    assert [e][..0] == [];
  }

  /** The sums depend only on the multiset of samples, not on their order. */
  lemma {:induction false} SumsPermutation(s: seq<Sample>, t: seq<Sample>, k: nat)
    requires multiset(s) == multiset(t)
    ensures PowerSum(s, k) == PowerSum(t, k)
    ensures WeightedSum(s, k) == WeightedSum(t, k)
    decreases |s|
  {
    if |s| == 0 {
      assert |t| == |multiset(t)| == 0;
    } else {
      var e := s[|s| - 1];
      var s' := s[..|s| - 1];
      assert s == s' + [e];
      assert multiset(s) == multiset(s') + multiset{e};
      assert e in multiset(t);
      var i :| 0 <= i < |t| && t[i] == e;
      var t' := t[..i] + t[i + 1..];
      SumsRemove(t, i, k);
      assert multiset(s') == multiset(t') by {
        assert multiset(s') == multiset(s) - multiset{e};
        assert multiset(t') == multiset(t) - multiset{e};
      }
      SumsPermutation(s', t', k);
    }
  }

  // ---------------------------------------------------------------------------
  // The augmented matrix and the elimination, as functions
  // ---------------------------------------------------------------------------

  /** m has n + 1 rows of 2 * (n + 1) entries. */
  ghost predicate Shaped(m: Matrix, n: nat)
  {
    |m| == n + 1 && forall r :: 0 <= r <= n ==> |m[r]| == 2 * (n + 1)
  }

  /** m has n + 1 rows of at least n + 1 entries. */
  ghost predicate Wide(m: Matrix, n: nat)
  {
    |m| == n + 1 && forall r :: 0 <= r <= n ==> n + 1 <= |m[r]|
  }

  /** The matrix [H | I] that CalculateCoefficients starts from; its left block
      is the Hankel matrix of the power sums, hence symmetric. */
  function Augmented(ata: seq<real>, n: nat): (m: Matrix)
    requires |ata| == 2 * n + 1
    ensures Shaped(m, n)
    ensures forall r, c :: 0 <= r <= n && 0 <= c <= n ==>
      m[r][c] == ata[r + c] && m[r][c] == m[c][r]
    ensures forall r, c :: 0 <= r <= n && n + 1 <= c < 2 * (n + 1) ==>
      m[r][c] == if c == r + n + 1 then 1.0 else 0.0
  {
    seq(n + 1, r requires 0 <= r <= n =>
      seq(2 * (n + 1), c requires 0 <= c < 2 * (n + 1) =>
        if c <= n then ata[r + c] else if c - (n + 1) == r then 1.0 else 0.0))
  }

  /** p is the row the source picks for column t: among rows t..n, the first one
      holding the largest (signed) value of column t. */
  ghost predicate IsPivot(m: Matrix, n: nat, t: nat, p: nat)
    requires Shaped(m, n) && t <= n
  {
    && t <= p <= n
    && (forall r :: t <= r <= n ==> m[r][t] <= m[p][t])
    && (forall r :: t <= r < p ==> m[r][t] < m[p][t])
  }

  function PivotFrom(m: Matrix, n: nat, t: nat, row: nat, best: nat): (p: nat)
    requires Shaped(m, n) && t <= best < row <= n + 1
    requires forall r :: t <= r < row ==> m[r][t] <= m[best][t]
    requires forall r :: t <= r < best ==> m[r][t] < m[best][t]
    ensures IsPivot(m, n, t, p)
    decreases n + 1 - row
  {
    if row > n then best
    else PivotFrom(m, n, t, row + 1, if m[row][t] > m[best][t] then row else best)
  }

  /** The pivot row of column t. */
  function PivotRow(m: Matrix, n: nat, t: nat): (p: nat)
    requires Shaped(m, n) && t <= n
    ensures IsPivot(m, n, t, p)
  {
    PivotFrom(m, n, t, t + 1, t)
  }

  /** The pivot row is determined by the column: two candidates are the same row. */
  lemma PivotUnique(m: Matrix, n: nat, t: nat, p: nat, q: nat)
    requires Shaped(m, n) && t <= n
    requires IsPivot(m, n, t, p) && IsPivot(m, n, t, q)
    ensures p == q
  {
    assert m[q][t] <= m[p][t] && m[p][t] <= m[q][t];
  }

  function ScaleRow(row: seq<real>, d: real): (r: seq<real>)
    requires d != 0.0
    ensures |r| == |row|
  {
    seq(|row|, c requires 0 <= c < |row| => row[c] / d)
  }

  function SubtractRow(row: seq<real>, pivot: seq<real>, multiplier: real): (r: seq<real>)
    requires |pivot| == |row|
    ensures |r| == |row|
  {
    seq(|row|, c requires 0 <= c < |row| => row[c] - pivot[c] * multiplier)
  }

  /** Divides row p by d. */
  function Normalize(m: Matrix, p: nat, d: real): (m': Matrix)
    requires p < |m| && d != 0.0
    ensures |m'| == |m| && |m'[p]| == |m[p]|
    ensures forall c :: 0 <= c < |m[p]| ==> m'[p][c] * d == m[p][c]
    ensures forall r :: 0 <= r < |m| && r != p ==> m'[r] == m[r]
  {
    m[p := ScaleRow(m[p], d)]
  }

  /** Subtracts from every row other than p the multiple of row p that clears column t. */
  function Eliminate(m: Matrix, n: nat, p: nat, t: nat): (m': Matrix)
    requires Shaped(m, n) && p <= n && t <= n
    ensures Shaped(m', n)
    ensures m'[p] == m[p]
    ensures m[p][t] == 1.0 ==> forall r :: 0 <= r <= n && r != p ==> m'[r][t] == 0.0
  {
    seq(n + 1, r requires 0 <= r <= n =>
      if r == p then m[p] else SubtractRow(m[r], m[p], m[r][t]))
  }

  /** Exchanges rows p and t. */
  function Swap(m: Matrix, p: nat, t: nat): (m': Matrix)
    requires p < |m| && t < |m|
    ensures |m'| == |m| && m'[p] == m[t] && m'[t] == m[p]
    ensures forall r :: 0 <= r < |m| && r != p && r != t ==> m'[r] == m[r]
  {
    m[p := m[t]][t := m[p]]
  }

  /** One pass of the elimination loop for column t with row p as the pivot row:
      divide row p by its entry in column t, clear column t in every other row and
      exchange rows p and t. None when that entry is zero, where the source would
      divide by zero. */
  function PivotStep(m: Matrix, n: nat, t: nat, p: nat): (r: Option<Matrix>)
    requires Shaped(m, n) && t <= p <= n
    ensures r.None? <==> m[p][t] == 0.0
    ensures r.Some? ==> Shaped(r.value, n)
    ensures r.Some? ==> r.value[t][t] == 1.0
    ensures r.Some? ==> forall i :: 0 <= i <= n && i != t ==> r.value[i][t] == 0.0
  {
    var d := m[p][t];
    if d == 0.0 then None
    else
      var m1 := Normalize(m, p, d);
      var m2 := Eliminate(m1, n, p, t);
      assert ScaleRow(m[p], d)[t] == d / d == 1.0;
      assert forall i :: 0 <= i <= n && i != p ==> m2[i][t] == 0.0;
      Some(Swap(m2, p, t))
  }

  /** The source's pass for column t: the pivot row is chosen by PivotRow. */
  function Step(m: Matrix, n: nat, t: nat): (r: Option<Matrix>)
    requires Shaped(m, n) && t <= n
    ensures r.None? <==> m[PivotRow(m, n, t)][t] == 0.0
    ensures r.Some? ==> Shaped(r.value, n)
    ensures r.Some? ==> r.value[t][t] == 1.0
    ensures r.Some? ==> forall i :: 0 <= i <= n && i != t ==> r.value[i][t] == 0.0
  {
    PivotStep(m, n, t, PivotRow(m, n, t))
  }

  /** The elimination loop from column t on. */
  function InvertFrom(m: Matrix, n: nat, t: nat): (r: Option<Matrix>)
    requires Shaped(m, n) && t <= n + 1
    ensures r.Some? ==> Shaped(r.value, n)
    decreases n + 1 - t
  {
    if t > n then Some(m)
    else match Step(m, n, t)
      case None => None
      case Some(m') => InvertFrom(m', n, t + 1)
  }

  /** The right half of an augmented row. */
  function Right(row: seq<real>, n: nat): (r: seq<real>)
    requires |row| == 2 * (n + 1)
    ensures |r| == n + 1
  {
    row[n + 1..]
  }

  /** Column c of h. */
  function Col(h: Matrix, n: nat, c: nat): (r: seq<real>)
    requires |h| == n + 1 && forall j :: 0 <= j <= n ==> c < |h[j]|
    ensures |r| == n + 1
  {
    seq(n + 1, j requires 0 <= j <= n => h[j][c])
  }

  /** The product of the right block of m with aty. */
  function Coefficients(m: Matrix, aty: seq<real>, n: nat): (c: seq<real>)
    requires Shaped(m, n) && |aty| == n + 1
    ensures |c| == n + 1
  {
    seq(n + 1, i requires 0 <= i <= n => Dot(Right(m[i], n), aty, n + 1))
  }

  /** What CalculateCoefficients computes from the accumulators; None when a pivot is zero. */
  function Fit(ata: seq<real>, aty: seq<real>, n: nat): (r: Option<seq<real>>)
    requires |ata| == 2 * n + 1 && |aty| == n + 1
    ensures r.None? <==> InvertFrom(Augmented(ata, n), n, 0).None?
    ensures r.Some? ==> |r.value| == n + 1
  {
    match InvertFrom(Augmented(ata, n), n, 0)
    case None => None
    case Some(m) => Some(Coefficients(m, aty, n))
  }

  // ---------------------------------------------------------------------------
  // What the elimination achieves
  // ---------------------------------------------------------------------------

  /** Every row of m satisfies left == right * h: the row operations applied so far
      are recorded in the right block. */
  ghost predicate Consistent(m: Matrix, h: Matrix, n: nat)
  {
    && Shaped(m, n) && Shaped(h, n)
    && forall r, c :: 0 <= r <= n && 0 <= c <= n ==>
         m[r][c] == Dot(Right(m[r], n), Col(h, n, c), n + 1)
  }

  /** Columns 0..t-1 of the left block are unit columns. */
  ghost predicate UnitColumns(m: Matrix, n: nat, t: nat)
    requires Shaped(m, n)
  {
    forall r, c :: 0 <= r <= n && 0 <= c < t && c <= n ==>
      m[r][c] == if r == c then 1.0 else 0.0
  }

  /** At the start the right block is I, so left == I * H holds. */
  lemma InitialConsistent(ata: seq<real>, n: nat)
    requires |ata| == 2 * n + 1
    ensures Consistent(Augmented(ata, n), Augmented(ata, n), n)
  {
    var h := Augmented(ata, n);
    forall r, c | 0 <= r <= n && 0 <= c <= n
      ensures h[r][c] == Dot(Right(h[r], n), Col(h, n, c), n + 1)
    {
      DotUnit(Right(h[r], n), Col(h, n, c), r, n + 1);
    }
  }

  lemma NormalizeConsistent(m: Matrix, h: Matrix, n: nat, p: nat, d: real)
    requires Consistent(m, h, n) && p <= n && d != 0.0
    ensures Consistent(Normalize(m, p, d), h, n)
  {
    var m1 := Normalize(m, p, d);
    assert Shaped(m1, n);
    forall r, c | 0 <= r <= n && 0 <= c <= n
      ensures m1[r][c] == Dot(Right(m1[r], n), Col(h, n, c), n + 1)
    {
      if r == p {
        DotScaled(Right(m1[p], n), Right(m[p], n), Col(h, n, c), d, n + 1);
      }
    }
  }

  lemma EliminateConsistent(m: Matrix, h: Matrix, n: nat, p: nat, t: nat)
    requires Consistent(m, h, n) && p <= n && t <= n
    ensures Consistent(Eliminate(m, n, p, t), h, n)
  {
    var m2 := Eliminate(m, n, p, t);
    forall r, c | 0 <= r <= n && 0 <= c <= n
      ensures m2[r][c] == Dot(Right(m2[r], n), Col(h, n, c), n + 1)
    {
      if r != p {
        EliminatedEntryConsistent(m, h, n, p, t, r, c);
      }
    }
  }

  lemma EliminatedEntryConsistent(m: Matrix, h: Matrix, n: nat, p: nat, t: nat, r: nat, c: nat)
    requires Shaped(m, n) && Shaped(h, n) && p <= n && t <= n && r <= n && c <= n && r != p
    requires m[r][c] == Dot(Right(m[r], n), Col(h, n, c), n + 1)
    requires m[p][c] == Dot(Right(m[p], n), Col(h, n, c), n + 1)
    ensures Eliminate(m, n, p, t)[r][c] == Dot(Right(Eliminate(m, n, p, t)[r], n), Col(h, n, c), n + 1)
  {
    var row' := SubtractRow(m[r], m[p], m[r][t]);
    EliminatedRow(m, n, p, t, r);
    RightOfSubtracted(m[r], m[p], row', m[r][t], n);
    SubtractedEntryConsistent(row'[c], m[r][c], m[p][c], m[r][t],
      Right(row', n), Right(m[r], n), Right(m[p], n), Col(h, n, c), n + 1);
  }

  /** Every row other than the pivot row loses m[r][t] times the pivot row. */
  lemma EliminatedRow(m: Matrix, n: nat, p: nat, t: nat, r: nat)
    requires Shaped(m, n) && p <= n && t <= n && r <= n && r != p
    ensures Eliminate(m, n, p, t)[r] == SubtractRow(m[r], m[p], m[r][t])
  {
  }

  /** An entry that is a - b * mult, next to a right block that is the same combination
      of right blocks, keeps entry == (right block) . col. */
  lemma SubtractedEntryConsistent(e': real, e: real, ep: real, mult: real,
                                  r': seq<real>, r: seq<real>, rp: seq<real>, col: seq<real>, k: nat)
    requires |r'| == k && |r| == k && |rp| == k && |col| == k
    requires forall j :: 0 <= j < k ==> r'[j] == r[j] - rp[j] * mult
    requires e' == e - ep * mult && e == Dot(r, col, k) && ep == Dot(rp, col, k)
    ensures e' == Dot(r', col, k)
  {
    DotSubtracted(r', r, rp, col, mult, k);
  }

  /** The right block of row - pivot * mult is the same combination of right blocks. */
  lemma RightOfSubtracted(row: seq<real>, pivot: seq<real>, row': seq<real>, mult: real, n: nat)
    requires |row| == |pivot| == 2 * (n + 1)
    requires row' == SubtractRow(row, pivot, mult)
    ensures forall j :: 0 <= j < n + 1 ==> Right(row', n)[j] == Right(row, n)[j] - Right(pivot, n)[j] * mult
  {
  }

  lemma SwapConsistent(m: Matrix, h: Matrix, n: nat, p: nat, t: nat)
    requires Consistent(m, h, n) && p <= n && t <= n
    ensures Consistent(Swap(m, p, t), h, n)
  {
    var m3 := Swap(m, p, t);
    assert Shaped(m3, n);
    forall r, c | 0 <= r <= n && 0 <= c <= n
      ensures m3[r][c] == Dot(Right(m3[r], n), Col(h, n, c), n + 1)
    {
      var src := if r == t then p else if r == p then t else r;
      assert m3[r] == m[src];
    }
  }

  /** One step keeps left == right * h, and turns column t into a unit column
      while leaving the unit columns before it as they were. */
  lemma StepInvariant(m: Matrix, h: Matrix, n: nat, t: nat)
    requires Consistent(m, h, n) && t <= n && UnitColumns(m, n, t)
    requires Step(m, n, t).Some?
    ensures Consistent(Step(m, n, t).value, h, n)
    ensures UnitColumns(Step(m, n, t).value, n, t + 1)
  {
    var p := PivotRow(m, n, t);
    PivotStepConsistent(m, h, n, t, p);
    PivotStepUnitColumns(m, n, t, p);
  }

  /** A step at any pivot row keeps left == right * h. */
  lemma PivotStepConsistent(m: Matrix, h: Matrix, n: nat, t: nat, p: nat)
    requires Consistent(m, h, n) && t <= p <= n
    requires PivotStep(m, n, t, p).Some?
    ensures Consistent(PivotStep(m, n, t, p).value, h, n)
  {
    var d := m[p][t];
    var m1 := Normalize(m, p, d);
    var m2 := Eliminate(m1, n, p, t);
    assert Swap(m2, p, t) == PivotStep(m, n, t, p).value;
    NormalizeConsistent(m, h, n, p, d);
    EliminateConsistent(m1, h, n, p, t);
    SwapConsistent(m2, h, n, p, t);
  }

  /** A step at any pivot row at or below the diagonal keeps the unit columns
      before t and adds column t to them. */
  lemma PivotStepUnitColumns(m: Matrix, n: nat, t: nat, p: nat)
    requires Shaped(m, n) && t <= p <= n && UnitColumns(m, n, t)
    requires PivotStep(m, n, t, p).Some?
    ensures UnitColumns(PivotStep(m, n, t, p).value, n, t + 1)
  {
    var d := m[p][t];
    var m1 := Normalize(m, p, d);
    var m2 := Eliminate(m1, n, p, t);
    var m3 := Swap(m2, p, t);
    assert m3 == PivotStep(m, n, t, p).value;
    forall r, c | 0 <= r <= n && 0 <= c < t
      ensures m3[r][c] == if r == c then 1.0 else 0.0
    {
      assert m[p][c] == 0.0;
      assert m1[p][c] == 0.0;
      assert forall i :: 0 <= i <= n ==> m2[i][c] == m[i][c];
      var src := if r == t then p else if r == p then t else r;
      assert m3[r] == m2[src];
    }
  }

  /** The remaining loop keeps left == right * h and ends with unit columns 0..n. */
  lemma InvertFromInvariant(m: Matrix, h: Matrix, n: nat, t: nat)
    requires Consistent(m, h, n) && t <= n + 1 && UnitColumns(m, n, t)
    requires InvertFrom(m, n, t).Some?
    ensures Consistent(InvertFrom(m, n, t).value, h, n)
    ensures UnitColumns(InvertFrom(m, n, t).value, n, n + 1)
  {
    InvertFromConsistent(m, h, n, t, InvertFrom(m, n, t).value);
    InvertFromUnitColumns(m, n, t);
  }

  lemma {:induction false} InvertFromConsistent(m: Matrix, h: Matrix, n: nat, t: nat, r: Matrix)
    requires Consistent(m, h, n) && t <= n + 1
    requires InvertFrom(m, n, t) == Some(r)
    ensures Consistent(r, h, n)
    decreases n + 1 - t
  {
    if t <= n {
      var m' := InvertFromStepConsistent(m, h, n, t, r);
      InvertFromConsistent(m', h, n, t + 1, r);
    } else {
      InvertFromDone(m, n, t);
    }
  }

  /** Past the last column the loop hands back the matrix it was given. */
  lemma InvertFromDone(m: Matrix, n: nat, t: nat)
    requires Shaped(m, n) && n < t <= n + 1
    ensures InvertFrom(m, n, t) == Some(m)
  {
  }

  /** One successful step of the loop keeps left == right * h. */
  lemma InvertFromStepConsistent(m: Matrix, h: Matrix, n: nat, t: nat, r: Matrix) returns (m': Matrix)
    requires Consistent(m, h, n) && t <= n
    requires InvertFrom(m, n, t) == Some(r)
    ensures Consistent(m', h, n) && InvertFrom(m', n, t + 1) == Some(r)
  {
    var p := PivotRow(m, n, t);
    InvertFromStep(m, n, t);
    PivotStepConsistent(m, h, n, t, p);
    m' := PivotStep(m, n, t, p).value;
  }

  lemma {:induction false} InvertFromUnitColumns(m: Matrix, n: nat, t: nat)
    requires Shaped(m, n) && t <= n + 1 && UnitColumns(m, n, t)
    requires InvertFrom(m, n, t).Some?
    ensures UnitColumns(InvertFrom(m, n, t).value, n, n + 1)
    decreases n + 1 - t
  {
    if t <= n {
      var p := PivotRow(m, n, t);
      InvertFromStep(m, n, t);
      PivotStepUnitColumns(m, n, t, p);
      InvertFromUnitColumns(PivotStep(m, n, t, p).value, n, t + 1);
    }
  }

  /** When every pivot is nonzero the loop ends with the identity in the left block
      and, in the right block, a matrix R with R * H == I. */
  lemma InverseOnSuccess(ata: seq<real>, n: nat)
    requires |ata| == 2 * n + 1
    requires InvertFrom(Augmented(ata, n), n, 0).Some?
    ensures UnitColumns(InvertFrom(Augmented(ata, n), n, 0).value, n, n + 1)
    ensures forall r, c :: 0 <= r <= n && 0 <= c <= n ==>
      Dot(Right(InvertFrom(Augmented(ata, n), n, 0).value[r], n), Col(Augmented(ata, n), n, c), n + 1)
        == if r == c then 1.0 else 0.0
  {
    var h := Augmented(ata, n);
    InitialConsistent(ata, n);
    InvertFromInvariant(h, h, n, 0);
  }

  function MatVec(h: Matrix, p: seq<real>, n: nat): (r: seq<real>)
    requires Wide(h, n) && |p| == n + 1
    ensures |r| == n + 1
  {
    seq(n + 1, j requires 0 <= j <= n => Dot(h[j], p, n + 1))
  }

  /** u + s * row, on the first n + 1 positions. */
  function AddScaledRow(u: seq<real>, row: seq<real>, s: real, n: nat): (r: seq<real>)
    requires |u| == n + 1 && n + 1 <= |row|
    ensures |r| == n + 1
  {
    seq(n + 1, c requires 0 <= c <= n => u[c] + row[c] * s)
  }

  /** The row vector a H, summed over the first k rows of H. */
  function VecMat(a: seq<real>, h: Matrix, n: nat, k: nat): (r: seq<real>)
    requires Wide(h, n) && k <= n + 1 && k <= |a|
    ensures |r| == n + 1
  {
    if k == 0 then seq(n + 1, c => 0.0)
    else AddScaledRow(VecMat(a, h, n, k - 1), h[k - 1], a[k - 1], n)
  }

  /** Entry c of a H is a . (column c of H). */
  lemma {:induction false} VecMatEntry(a: seq<real>, h: Matrix, n: nat, k: nat)
    requires Wide(h, n) && k <= n + 1 && k <= |a|
    ensures forall c :: 0 <= c <= n ==> VecMat(a, h, n, k)[c] == Dot(a, Col(h, n, c), k)
  {
    if k > 0 {
      VecMatEntry(a, h, n, k - 1);
      forall c | 0 <= c <= n
        ensures VecMat(a, h, n, k)[c] == Dot(a, Col(h, n, c), k)
      {
        assert Col(h, n, c)[k - 1] == h[k - 1][c];
      }
    }
  }

  /** a . (H p) == (a H) . p, summing over the first k rows of H. */
  lemma {:induction false} DotAssociative(a: seq<real>, h: Matrix, p: seq<real>, n: nat, k: nat)
    requires Wide(h, n) && |p| == n + 1 && k <= n + 1 && k <= |a|
    ensures Dot(a, MatVec(h, p, n), k) == Dot(VecMat(a, h, n, k), p, n + 1)
  {
    if k == 0 {
      DotUnit(VecMat(a, h, n, 0), p, n + 1, n + 1);
    } else {
      DotAssociative(a, h, p, n, k - 1);
      DotAssociativeStep(a, h, p, n, k);
    }
  }

  /** The inductive step of DotAssociative: adding row k - 1 to both sides. */
  lemma DotAssociativeStep(a: seq<real>, h: Matrix, p: seq<real>, n: nat, k: nat)
    requires Wide(h, n) && |p| == n + 1 && 0 < k <= n + 1 && k <= |a|
    requires Dot(a, MatVec(h, p, n), k - 1) == Dot(VecMat(a, h, n, k - 1), p, n + 1)
    ensures Dot(a, MatVec(h, p, n), k) == Dot(VecMat(a, h, n, k), p, n + 1)
  {
    var hp := MatVec(h, p, n);
    VecMatDotStep(a, h, p, n, k);
    assert hp[k - 1] == Dot(h[k - 1], p, n + 1);
  }

  /** (a H) . p over k rows is (a H) . p over k - 1 rows plus a[k-1] * (H[k-1] . p). */
  lemma VecMatDotStep(a: seq<real>, h: Matrix, p: seq<real>, n: nat, k: nat)
    requires Wide(h, n) && |p| == n + 1 && 0 < k <= n + 1 && k <= |a|
    ensures Dot(VecMat(a, h, n, k), p, n + 1)
         == Dot(VecMat(a, h, n, k - 1), p, n + 1) + Dot(h[k - 1], p, n + 1) * a[k - 1]
  {
    DotAddedScaled(VecMat(a, h, n, k), VecMat(a, h, n, k - 1), h[k - 1], p, a[k - 1], n + 1);
  }

  /** If p solves the normal equations H p == aty, a successful fit returns exactly p. */
  lemma FitRecoversSolution(ata: seq<real>, aty: seq<real>, n: nat, p: seq<real>)
    requires |ata| == 2 * n + 1 && |aty| == n + 1 && |p| == n + 1
    requires forall k :: 0 <= k <= n ==> aty[k] == Dot(Augmented(ata, n)[k], p, n + 1)
    requires Fit(ata, aty, n).Some?
    ensures Fit(ata, aty, n).value == p
  {
    var h := Augmented(ata, n);
    var m := InvertFrom(h, n, 0).value;
    InverseOnSuccess(ata, n);
    var c := Coefficients(m, aty, n);
    forall i | 0 <= i <= n
      ensures c[i] == p[i]
    {
      LeftInverseRow(h, Right(m[i], n), aty, p, n, i);
    }
  }

  /** A row r with r . (column c of H) == [i == c] recovers p[i] from H p. */
  lemma LeftInverseRow(h: Matrix, r: seq<real>, aty: seq<real>, p: seq<real>, n: nat, i: nat)
    requires Wide(h, n) && |r| == n + 1 && |aty| == n + 1 && |p| == n + 1 && i <= n
    requires forall k :: 0 <= k <= n ==> aty[k] == Dot(h[k], p, n + 1)
    requires forall c :: 0 <= c <= n ==> Dot(r, Col(h, n, c), n + 1) == if i == c then 1.0 else 0.0
    ensures Dot(r, aty, n + 1) == p[i]
  {
    DotCongruent(r, r, aty, MatVec(h, p, n), n + 1);
    DotAssociative(r, h, p, n, n + 1);
    VecMatEntry(r, h, n, n + 1);
    DotUnit(VecMat(r, h, n, n + 1), p, i, n + 1);
  }

  /** Row k of H p, for a sample set that ends in a sample on the polynomial p,
      grows by exactly what that sample adds to aty[k]. */
  lemma ExactSampleRow(s: seq<Sample>, p: seq<real>, n: nat, k: nat)
    requires |s| > 0 && |p| == n + 1 && k <= n
    requires s[|s| - 1].y == PolyValue(p, s[|s| - 1].x)
    requires WeightedSum(s[..|s| - 1], k) == Dot(Augmented(PowerSums(s[..|s| - 1], n), n)[k], p, n + 1)
    ensures WeightedSum(s, k) == Dot(Augmented(PowerSums(s, n), n)[k], p, n + 1)
  {
    var e := s[|s| - 1];
    var row := Augmented(PowerSums(s, n), n)[k];
    var row' := Augmented(PowerSums(s[..|s| - 1], n), n)[k];
    var w := seq(n + 1, c requires 0 <= c <= n => Pow(e.x, k + c));
    assert Dot(row, p, n + 1) == Dot(row', p, n + 1) + Dot(w, p, n + 1) by {
      HankelRowGrowth(s, n, k, w);
      DotAdded(row, row', w, p, n + 1);
    }
    ShiftedRowOnCurve(w, p, e, n, k);
  }

  /** For a sample on the curve p, the powers x^k .. x^(k+n) dotted with p give
      x^k * p(x), which is what that sample adds to aty[k]. */
  lemma ShiftedRowOnCurve(w: seq<real>, p: seq<real>, e: Sample, n: nat, k: nat)
    requires |w| == n + 1 && |p| == n + 1
    requires forall c :: 0 <= c <= n ==> w[c] == Pow(e.x, k + c)
    requires e.y == PolyValue(p, e.x)
    ensures Dot(w, p, n + 1) == Moment(e, k)
  {
    DotShiftedPowers(w, p, e.x, k, n + 1, Pow(e.x, k), e.y);
  }

  /** Adding the last sample adds x^(k+c) to entry c of row k of the Hankel block. */
  lemma HankelRowGrowth(s: seq<Sample>, n: nat, k: nat, w: seq<real>)
    requires |s| > 0 && k <= n && |w| == n + 1
    requires forall c :: 0 <= c <= n ==> w[c] == Pow(s[|s| - 1].x, k + c)
    ensures forall c :: 0 <= c <= n ==>
      Augmented(PowerSums(s, n), n)[k][c] == Augmented(PowerSums(s[..|s| - 1], n), n)[k][c] + w[c]
  {
    forall c | 0 <= c <= n
      ensures Augmented(PowerSums(s, n), n)[k][c] == Augmented(PowerSums(s[..|s| - 1], n), n)[k][c] + w[c]
    {
      assert Augmented(PowerSums(s, n), n)[k][c] == PowerSums(s, n)[k + c] == PowerSum(s, k + c);
      assert Augmented(PowerSums(s[..|s| - 1], n), n)[k][c] == PowerSum(s[..|s| - 1], k + c);
    }
  }

  /** Samples lying on a polynomial p of degree <= n satisfy H p == aty. */
  lemma {:induction false} NormalEquationsOfExactSamples(s: seq<Sample>, p: seq<real>, n: nat)
    requires |p| == n + 1
    requires forall j :: 0 <= j < |s| ==> s[j].y == PolyValue(p, s[j].x)
    ensures forall k :: 0 <= k <= n ==>
      WeightedSum(s, k) == Dot(Augmented(PowerSums(s, n), n)[k], p, n + 1)
  {
    if |s| == 0 {
      forall k | 0 <= k <= n
        ensures WeightedSum(s, k) == Dot(Augmented(PowerSums(s, n), n)[k], p, n + 1)
      {
        var row := Augmented(PowerSums(s, n), n)[k];
        forall c | 0 <= c <= n
          ensures row[c] == 0.0
        {
          assert row[c] == PowerSums(s, n)[k + c] == PowerSum(s, k + c);
        }
        DotUnit(row, p, n + 1, n + 1);
      }
    } else {
      NormalEquationsOfExactSamples(s[..|s| - 1], p, n);
      forall k | 0 <= k <= n
        ensures WeightedSum(s, k) == Dot(Augmented(PowerSums(s, n), n)[k], p, n + 1)
      {
        ExactSampleRow(s, p, n, k);
      }
    }
  }

  /** Fitting samples taken exactly from a polynomial p of degree <= n reproduces p,
      whenever no pivot is zero. */
  lemma ExactFit(s: seq<Sample>, p: seq<real>, n: nat)
    requires |p| == n + 1
    requires forall j :: 0 <= j < |s| ==> s[j].y == PolyValue(p, s[j].x)
    requires Fit(PowerSums(s, n), WeightedSums(s, n), n).Some?
    ensures Fit(PowerSums(s, n), WeightedSums(s, n), n).value == p
  {
    NormalEquationsOfExactSamples(s, p, n);
    FitRecoversSolution(PowerSums(s, n), WeightedSums(s, n), n, p);
  }

  /** The fit depends only on the multiset of samples, not on the insertion order. */
  lemma FitOrderIndependent(s: seq<Sample>, t: seq<Sample>, n: nat)
    requires multiset(s) == multiset(t)
    ensures PowerSums(s, n) == PowerSums(t, n) && WeightedSums(s, n) == WeightedSums(t, n)
    ensures Fit(PowerSums(s, n), WeightedSums(s, n), n) == Fit(PowerSums(t, n), WeightedSums(t, n), n)
  {
    forall k | 0 <= k < 2 * n + 1
      ensures PowerSum(s, k) == PowerSum(t, k) && WeightedSum(s, k) == WeightedSum(t, k)
    {
      SumsPermutation(s, t, k);
    }
  }

  // ---------------------------------------------------------------------------
  // The right block is also a right inverse
  // ---------------------------------------------------------------------------

  /** f * m == [H | I]: the rows of the start matrix h are combinations, with
      weights f, of the current rows of m. Every row operation can be undone, so
      this survives the elimination. */
  ghost predicate Recovers(f: Matrix, m: Matrix, h: Matrix, n: nat)
  {
    && Shaped(m, n) && Shaped(h, n)
    && |f| == n + 1 && (forall i :: 0 <= i <= n ==> |f[i]| == n + 1)
    && forall i, c :: 0 <= i <= n && 0 <= c < 2 * (n + 1) ==>
         h[i][c] == Dot(f[i], Col(m, n, c), n + 1)
  }

  function Identity(n: nat): (e: Matrix)
    ensures |e| == n + 1 && forall i :: 0 <= i <= n ==> |e[i]| == n + 1
  {
    seq(n + 1, i requires 0 <= i <= n => seq(n + 1, j requires 0 <= j <= n => if i == j then 1.0 else 0.0))
  }

  lemma InitialRecovers(h: Matrix, n: nat)
    requires Shaped(h, n)
    ensures Recovers(Identity(n), h, h, n)
  {
    forall i, c | 0 <= i <= n && 0 <= c < 2 * (n + 1)
      ensures h[i][c] == Dot(Identity(n)[i], Col(h, n, c), n + 1)
    {
      DotUnit(Identity(n)[i], Col(h, n, c), i, n + 1);
    }
  }

  /** Undoing the division of row p by d multiplies column p of f by d. */
  function ScaleColumn(f: Matrix, n: nat, p: nat, d: real): (f': Matrix)
    requires |f| == n + 1 && (forall i :: 0 <= i <= n ==> |f[i]| == n + 1) && p <= n
    ensures |f'| == n + 1 && forall i :: 0 <= i <= n ==> |f'[i]| == n + 1
  {
    seq(n + 1, i requires 0 <= i <= n => f[i][p := f[i][p] * d])
  }

  lemma NormalizeRecovers(f: Matrix, m: Matrix, h: Matrix, n: nat, p: nat, d: real)
    requires Recovers(f, m, h, n) && p <= n && d != 0.0
    ensures Recovers(ScaleColumn(f, n, p, d), Normalize(m, p, d), h, n)
  {
    var f1, m1 := ScaleColumn(f, n, p, d), Normalize(m, p, d);
    forall i, c | 0 <= i <= n && 0 <= c < 2 * (n + 1)
      ensures h[i][c] == Dot(f1[i], Col(m1, n, c), n + 1)
    {
      NormalizedEntry(f, m, n, p, d, i, c);
    }
  }

  /** One entry of NormalizeRecovers: scaling weight p by d cancels dividing row p by d. */
  lemma NormalizedEntry(f: Matrix, m: Matrix, n: nat, p: nat, d: real, i: nat, c: nat)
    requires Shaped(m, n) && |f| == n + 1 && (forall r :: 0 <= r <= n ==> |f[r]| == n + 1)
    requires p <= n && d != 0.0 && i <= n && c < 2 * (n + 1)
    ensures Dot(ScaleColumn(f, n, p, d)[i], Col(Normalize(m, p, d), n, c), n + 1)
         == Dot(f[i], Col(m, n, c), n + 1)
  {
    var fi, fi1 := f[i], ScaleColumn(f, n, p, d)[i];
    var u, u1 := Col(m, n, c), Col(Normalize(m, p, d), n, c);
    forall j | 0 <= j <= n
      ensures fi1[j] * u1[j] == fi[j] * u[j]
    {
      if j == p {
        CancelledScale(fi[p], u[p], d, fi1[p], u1[p]);
      }
    }
    DotTermwise(fi1, u1, fi, u, n + 1);
  }

  /** (a * d) * (b / d) == a * b, on plain reals. */
  lemma CancelledScale(a: real, b: real, d: real, a': real, b': real)
    requires d != 0.0 && a' == a * d && b' == b / d
    ensures a' * b' == a * b
  {
    assert a' * b' == (a * b) * (d / d);
  }

  /** The multiples of row p that Eliminate subtracts from each row (none from row p). */
  function Multipliers(m: Matrix, n: nat, p: nat, t: nat): (mu: seq<real>)
    requires Shaped(m, n) && t <= n
    ensures |mu| == n + 1
  {
    seq(n + 1, j requires 0 <= j <= n => if j == p then 0.0 else m[j][t])
  }

  /** Undoing the elimination adds, to column p of f, f times the multipliers. */
  function AbsorbElimination(f: Matrix, m: Matrix, n: nat, p: nat, t: nat): (f': Matrix)
    requires Shaped(m, n) && |f| == n + 1 && (forall i :: 0 <= i <= n ==> |f[i]| == n + 1)
    requires p <= n && t <= n
    ensures |f'| == n + 1 && forall i :: 0 <= i <= n ==> |f'[i]| == n + 1
  {
    seq(n + 1, i requires 0 <= i <= n => f[i][p := f[i][p] + Dot(f[i], Multipliers(m, n, p, t), n + 1)])
  }

  lemma EliminateRecovers(f: Matrix, m: Matrix, h: Matrix, n: nat, p: nat, t: nat)
    requires Recovers(f, m, h, n) && p <= n && t <= n
    ensures Recovers(AbsorbElimination(f, m, n, p, t), Eliminate(m, n, p, t), h, n)
  {
    var f2, m2 := AbsorbElimination(f, m, n, p, t), Eliminate(m, n, p, t);
    forall i, c | 0 <= i <= n && 0 <= c < 2 * (n + 1)
      ensures h[i][c] == Dot(f2[i], Col(m2, n, c), n + 1)
    {
      AbsorbedEntry(f, m, n, p, t, i, c);
    }
  }

  /** One entry of EliminateRecovers: the weights absorb the multiples of row p. */
  lemma AbsorbedEntry(f: Matrix, m: Matrix, n: nat, p: nat, t: nat, i: nat, c: nat)
    requires Shaped(m, n) && |f| == n + 1 && (forall r :: 0 <= r <= n ==> |f[r]| == n + 1)
    requires p <= n && t <= n && i <= n && c < 2 * (n + 1)
    ensures Dot(AbsorbElimination(f, m, n, p, t)[i], Col(Eliminate(m, n, p, t), n, c), n + 1)
         == Dot(f[i], Col(m, n, c), n + 1)
  {
    var mu := Multipliers(m, n, p, t);
    var w := Col(Eliminate(m, n, p, t), n, c);
    EliminatedColumn(m, n, p, t, c);
    var s := Dot(f[i], mu, n + 1);
    RowOperationUndone(f[i], AbsorbElimination(f, m, n, p, t)[i], Col(m, n, c), w, mu, p, n + 1, w[p], s);
  }

  /** Column c before the elimination is column c after it plus the multipliers
      times the (unchanged) pivot entry. */
  lemma EliminatedColumn(m: Matrix, n: nat, p: nat, t: nat, c: nat)
    requires Shaped(m, n) && p <= n && t <= n && c < 2 * (n + 1)
    ensures forall j :: 0 <= j <= n ==>
      Col(m, n, c)[j] == Col(Eliminate(m, n, p, t), n, c)[j]
        + Multipliers(m, n, p, t)[j] * Col(Eliminate(m, n, p, t), n, c)[p]
  {
    var m2, mu := Eliminate(m, n, p, t), Multipliers(m, n, p, t);
    var u, w := Col(m, n, c), Col(m2, n, c);
    assert m2[p] == m[p];
    forall j | 0 <= j <= n
      ensures u[j] == w[j] + mu[j] * w[p]
    {
      if j != p {
        assert m2[j] == SubtractRow(m[j], m[p], m[j][t]);
        RowRestored(u[j], w[j], mu[j], w[p], m[p][c], m[j][t]);
      }
    }
  }

  /** If w == u - pc * mt, then u == w + mu * wp for mu == mt and wp == pc, on plain reals. */
  lemma RowRestored(u: real, w: real, mu: real, wp: real, pc: real, mt: real)
    requires w == u - pc * mt && wp == pc && mu == mt
    ensures u == w + mu * wp
  {
  }

  /** Undoing the exchange of rows p and t exchanges columns p and t of f. */
  function SwapColumns(f: Matrix, n: nat, p: nat, t: nat): (f': Matrix)
    requires |f| == n + 1 && (forall i :: 0 <= i <= n ==> |f[i]| == n + 1) && p <= n && t <= n
    ensures |f'| == n + 1 && forall i :: 0 <= i <= n ==> |f'[i]| == n + 1
  {
    seq(n + 1, i requires 0 <= i <= n => f[i][p := f[i][t]][t := f[i][p]])
  }

  lemma SwapRecovers(f: Matrix, m: Matrix, h: Matrix, n: nat, p: nat, t: nat)
    requires Recovers(f, m, h, n) && p <= n && t <= n
    ensures Recovers(SwapColumns(f, n, p, t), Swap(m, p, t), h, n)
  {
    var f3, m3 := SwapColumns(f, n, p, t), Swap(m, p, t);
    assert Shaped(m3, n);
    forall i, c | 0 <= i <= n && 0 <= c < 2 * (n + 1)
      ensures h[i][c] == Dot(f3[i], Col(m3, n, c), n + 1)
    {
      SwappedEntry(f, m, n, p, t, i, c);
    }
  }

  /** One entry of SwapRecovers: exchanging weights p and t cancels exchanging rows p and t. */
  lemma SwappedEntry(f: Matrix, m: Matrix, n: nat, p: nat, t: nat, i: nat, c: nat)
    requires Shaped(m, n) && |f| == n + 1 && (forall r :: 0 <= r <= n ==> |f[r]| == n + 1)
    requires p <= n && t <= n && i <= n && c < 2 * (n + 1)
    ensures Shaped(Swap(m, p, t), n)
    ensures Dot(SwapColumns(f, n, p, t)[i], Col(Swap(m, p, t), n, c), n + 1)
         == Dot(f[i], Col(m, n, c), n + 1)
  {
    SwappedShaped(m, n, p, t);
    SwappedTerms(f, m, n, p, t, i, c);
    DotSwapped(SwapColumns(f, n, p, t)[i], Col(Swap(m, p, t), n, c), f[i], Col(m, n, c), n + 1, p, t);
  }

  lemma SwappedShaped(m: Matrix, n: nat, p: nat, t: nat)
    requires Shaped(m, n) && p <= n && t <= n
    ensures Shaped(Swap(m, p, t), n)
  {
    var m3 := Swap(m, p, t);
    assert forall r :: 0 <= r <= n ==> m3[r] == m[r] || m3[r] == m[p] || m3[r] == m[t];
  }

  /** The entries of the two dot products in SwappedEntry: equal away from p and t,
      exchanged at p and t. */
  lemma SwappedTerms(f: Matrix, m: Matrix, n: nat, p: nat, t: nat, i: nat, c: nat)
    requires p <= n && t <= n && i <= n && c < 2 * (n + 1)
    requires Shaped(m, n) && Shaped(Swap(m, p, t), n)
    requires |f| == n + 1 && (forall r :: 0 <= r <= n ==> |f[r]| == n + 1)
    ensures forall j :: 0 <= j <= n && j != p && j != t ==>
      SwapColumns(f, n, p, t)[i][j] == f[i][j] && Col(Swap(m, p, t), n, c)[j] == Col(m, n, c)[j]
    ensures SwapColumns(f, n, p, t)[i][p] == f[i][t] && Col(Swap(m, p, t), n, c)[p] == Col(m, n, c)[t]
    ensures SwapColumns(f, n, p, t)[i][t] == f[i][p] && Col(Swap(m, p, t), n, c)[t] == Col(m, n, c)[p]
  {
    var m3 := Swap(m, p, t);
    forall j | 0 <= j <= n && j != p && j != t
      ensures Col(m3, n, c)[j] == Col(m, n, c)[j]
    {
      assert m3[j] == m[j];
    }
  }

  /** One elimination step, at any pivot row, keeps f * m == [H | I] for an updated f. */
  lemma PivotStepRecovers(f: Matrix, m: Matrix, h: Matrix, n: nat, t: nat, p: nat) returns (f': Matrix)
    requires Recovers(f, m, h, n) && t <= p <= n && PivotStep(m, n, t, p).Some?
    ensures Recovers(f', PivotStep(m, n, t, p).value, h, n)
  {
    var d := m[p][t];
    var m1 := Normalize(m, p, d);
    var m2 := Eliminate(m1, n, p, t);
    assert Swap(m2, p, t) == PivotStep(m, n, t, p).value;
    NormalizeRecovers(f, m, h, n, p, d);
    var f1 := ScaleColumn(f, n, p, d);
    EliminateRecovers(f1, m1, h, n, p, t);
    var f2 := AbsorbElimination(f1, m1, n, p, t);
    SwapRecovers(f2, m2, h, n, p, t);
    f' := SwapColumns(f2, n, p, t);
  }

  /** The loop at column t either stops on a zero pivot or hands the rest of the
      loop the stepped matrix. */
  lemma InvertFromStep(m: Matrix, n: nat, t: nat)
    requires Shaped(m, n) && t <= n
    ensures var p := PivotRow(m, n, t);
      && (m[p][t] == 0.0 ==> InvertFrom(m, n, t).None?)
      && (m[p][t] != 0.0 ==> PivotStep(m, n, t, p).Some?)
      && (m[p][t] != 0.0 ==>
            InvertFrom(m, n, t) == InvertFrom(PivotStep(m, n, t, p).value, n, t + 1))
  {
  }

  lemma {:induction false} InvertFromRecovers(f: Matrix, m: Matrix, h: Matrix, n: nat, t: nat) returns (f': Matrix)
    requires Recovers(f, m, h, n) && t <= n + 1 && InvertFrom(m, n, t).Some?
    ensures Recovers(f', InvertFrom(m, n, t).value, h, n)
    decreases n + 1 - t
  {
    if t > n {
      f' := f;
    } else {
      var p := PivotRow(m, n, t);
      var m' := PivotStep(m, n, t, p).value;
      InvertFromStep(m, n, t);
      var f1 := PivotStepRecovers(f, m, h, n, t, p);
      f' := InvertFromRecovers(f1, m', h, n, t + 1);
    }
  }

  /** When every pivot is nonzero, the right block R of the result satisfies
      H * R == I as well as R * H == I: it is the inverse of the Hankel matrix. */
  lemma RightInverseOnSuccess(ata: seq<real>, n: nat)
    requires |ata| == 2 * n + 1
    requires InvertFrom(Augmented(ata, n), n, 0).Some?
    ensures forall i, c :: 0 <= i <= n && n + 1 <= c < 2 * (n + 1) ==>
      Dot(Augmented(ata, n)[i], Col(InvertFrom(Augmented(ata, n), n, 0).value, n, c), n + 1)
        == if c == i + n + 1 then 1.0 else 0.0
  {
    var h := Augmented(ata, n);
    InverseOnSuccess(ata, n);
    InitialRecovers(h, n);
    var f := InvertFromRecovers(Identity(n), h, h, n, 0);
    RightInverseOfRecovered(f, InvertFrom(h, n, 0).value, h, n);
  }

  /** Once the left block of m is I, f * m == h makes f the left block of h, so
      the right block of m is a right inverse of that left block. */
  lemma RightInverseOfRecovered(f: Matrix, m: Matrix, h: Matrix, n: nat)
    requires Recovers(f, m, h, n) && UnitColumns(m, n, n + 1)
    requires forall i, c :: 0 <= i <= n && n + 1 <= c < 2 * (n + 1) ==>
      h[i][c] == if c == i + n + 1 then 1.0 else 0.0
    ensures forall i, c :: 0 <= i <= n && n + 1 <= c < 2 * (n + 1) ==>
      Dot(h[i], Col(m, n, c), n + 1) == if c == i + n + 1 then 1.0 else 0.0
  {
    forall i | 0 <= i <= n
      ensures forall c :: n + 1 <= c < 2 * (n + 1) ==>
        Dot(h[i], Col(m, n, c), n + 1) == if c == i + n + 1 then 1.0 else 0.0
    {
      RecoveredRowIsHankelRow(f, m, h, n, i);
      forall c | n + 1 <= c < 2 * (n + 1)
        ensures Dot(h[i], Col(m, n, c), n + 1) == if c == i + n + 1 then 1.0 else 0.0
      {
        DotCongruent(f[i], h[i], Col(m, n, c), Col(m, n, c), n + 1);
      }
    }
  }

  /** The right blocks of the rows of m, as a matrix of their own. */
  function RightBlock(m: Matrix, n: nat): (r: Matrix)
    requires Shaped(m, n)
    ensures Wide(r, n)
    ensures forall i, j :: 0 <= i <= n && 0 <= j <= n ==> r[i][j] == m[i][n + 1 + j]
  {
    seq(n + 1, i requires 0 <= i <= n => Right(m[i], n))
  }

  /** A successful fit solves the normal equations: H c == aty for the returned c. */
  lemma FitSolvesNormalEquations(ata: seq<real>, aty: seq<real>, n: nat)
    requires |ata| == 2 * n + 1 && |aty| == n + 1
    requires Fit(ata, aty, n).Some?
    ensures forall k :: 0 <= k <= n ==> Dot(Augmented(ata, n)[k], Fit(ata, aty, n).value, n + 1) == aty[k]
  {
    RightInverseOnSuccess(ata, n);
    forall k | 0 <= k <= n
      ensures Dot(Augmented(ata, n)[k], Fit(ata, aty, n).value, n + 1) == aty[k]
    {
      NormalEquationRow(Augmented(ata, n), InvertFrom(Augmented(ata, n), n, 0).value, aty, n, k);
    }
  }

  /** Row k of h times the coefficients of m is aty[k] when the right block of m
      is a right inverse of h. */
  lemma NormalEquationRow(h: Matrix, m: Matrix, aty: seq<real>, n: nat, k: nat)
    requires Wide(h, n) && Shaped(m, n) && |aty| == n + 1 && k <= n
    requires forall c :: n + 1 <= c < 2 * (n + 1) ==>
      Dot(h[k], Col(m, n, c), n + 1) == if c == k + n + 1 then 1.0 else 0.0
    ensures Dot(h[k], Coefficients(m, aty, n), n + 1) == aty[k]
  {
    var r := RightBlock(m, n);
    var v := VecMat(h[k], r, n, n + 1);
    DotCongruent(h[k], h[k], Coefficients(m, aty, n), MatVec(r, aty, n), n + 1);
    DotAssociative(h[k], r, aty, n, n + 1);
    forall j | 0 <= j <= n
      ensures v[j] == if j == k then 1.0 else 0.0
    {
      RightBlockColumn(h[k], m, r, n, j);
    }
    DotUnit(v, aty, k, n + 1);
  }

  /** Entry j of a * R is a times column n + 1 + j of m. */
  lemma RightBlockColumn(a: seq<real>, m: Matrix, r: Matrix, n: nat, j: nat)
    requires Shaped(m, n) && r == RightBlock(m, n) && n + 1 <= |a| && j <= n
    ensures VecMat(a, r, n, n + 1)[j] == Dot(a, Col(m, n, n + 1 + j), n + 1)
  {
    VecMatEntry(a, r, n, n + 1);
    DotCongruent(a, a, Col(r, n, j), Col(m, n, n + 1 + j), n + 1);
  }

  /** Once the left block of m is the identity, row i of f is row i of H. */
  lemma RecoveredRowIsHankelRow(f: Matrix, m: Matrix, h: Matrix, n: nat, i: nat)
    requires Recovers(f, m, h, n) && UnitColumns(m, n, n + 1) && i <= n
    ensures forall j :: 0 <= j <= n ==> f[i][j] == h[i][j]
  {
    forall j | 0 <= j <= n
      ensures f[i][j] == h[i][j]
    {
      DotCommutes(f[i], Col(m, n, j), n + 1);
      DotUnit(Col(m, n, j), f[i], j, n + 1);
    }
  }

  // ---------------------------------------------------------------------------
  // Pivoting by magnitude
  // ---------------------------------------------------------------------------

  /** The magnitude of x. */
  function Abs(x: real): (r: real)
    ensures 0.0 <= r && (r == 0.0 <==> x == 0.0)
    ensures r == x || r == -x
  {
    if x < 0.0 then -x else x
  }

  /** p is the first of rows t..n whose entry in column t has the largest magnitude:
      the usual partial-pivoting rule, which the source's signed comparison misses. */
  ghost predicate IsMagnitudePivot(m: Matrix, n: nat, t: nat, p: nat)
    requires Shaped(m, n) && t <= n
  {
    && t <= p <= n
    && (forall r :: t <= r <= n ==> Abs(m[r][t]) <= Abs(m[p][t]))
    && (forall r :: t <= r < p ==> Abs(m[r][t]) < Abs(m[p][t]))
  }

  function MagnitudePivotFrom(m: Matrix, n: nat, t: nat, row: nat, best: nat): (p: nat)
    requires Shaped(m, n) && t <= best < row <= n + 1
    requires forall r :: t <= r < row ==> Abs(m[r][t]) <= Abs(m[best][t])
    requires forall r :: t <= r < best ==> Abs(m[r][t]) < Abs(m[best][t])
    ensures IsMagnitudePivot(m, n, t, p)
    decreases n + 1 - row
  {
    if row > n then best
    else MagnitudePivotFrom(m, n, t, row + 1, if Abs(m[row][t]) > Abs(m[best][t]) then row else best)
  }

  /** The pivot row of column t under the magnitude rule. */
  function MagnitudePivotRow(m: Matrix, n: nat, t: nat): (p: nat)
    requires Shaped(m, n) && t <= n
    ensures IsMagnitudePivot(m, n, t, p)
  {
    MagnitudePivotFrom(m, n, t, t + 1, t)
  }

  /** The elimination loop from column t on, with the pivot chosen by magnitude. */
  function MagnitudeInvertFrom(m: Matrix, n: nat, t: nat): (r: Option<Matrix>)
    requires Shaped(m, n) && t <= n + 1
    ensures r.Some? ==> Shaped(r.value, n)
    decreases n + 1 - t
  {
    if t > n then Some(m)
    else match PivotStep(m, n, t, MagnitudePivotRow(m, n, t))
      case None => None
      case Some(m') => MagnitudeInvertFrom(m', n, t + 1)
  }

  /** The fit with the elimination pivoting by magnitude. */
  function MagnitudeFit(ata: seq<real>, aty: seq<real>, n: nat): (r: Option<seq<real>>)
    requires |ata| == 2 * n + 1 && |aty| == n + 1
    ensures r.None? <==> MagnitudeInvertFrom(Augmented(ata, n), n, 0).None?
    ensures r.Some? ==> |r.value| == n + 1
  {
    match MagnitudeInvertFrom(Augmented(ata, n), n, 0)
    case None => None
    case Some(m) => Some(Coefficients(m, aty, n))
  }

  /** h v == 0: v is in the kernel of the left block of h. */
  ghost predicate Annihilates(h: Matrix, v: seq<real>, n: nat)
  {
    Wide(h, n) && |v| == n + 1 && forall i :: 0 <= i <= n ==> Dot(h[i], v, n + 1) == 0.0
  }

  /** Only the zero vector is in the kernel of the left block of h. */
  ghost predicate Nonsingular(h: Matrix, n: nat)
  {
    Wide(h, n) && forall v :: Annihilates(h, v, n) ==> forall j :: 0 <= j <= n ==> v[j] == 0.0
  }

  /** The loop at column t either stops on a zero pivot or hands the rest of the
      loop the stepped matrix. */
  lemma MagnitudeInvertFromStep(m: Matrix, n: nat, t: nat)
    requires Shaped(m, n) && t <= n
    ensures var p := MagnitudePivotRow(m, n, t);
      && (m[p][t] == 0.0 ==> MagnitudeInvertFrom(m, n, t).None?)
      && (m[p][t] != 0.0 ==> PivotStep(m, n, t, p).Some?)
      && (m[p][t] != 0.0 ==>
            MagnitudeInvertFrom(m, n, t) == MagnitudeInvertFrom(PivotStep(m, n, t, p).value, n, t + 1))
  {
  }

  /** A successful run keeps f * m == [H | I] for some f. */
  lemma {:induction false} MagnitudeInvertFromRecovers(f: Matrix, m: Matrix, h: Matrix, n: nat, t: nat)
    returns (f': Matrix)
    requires Recovers(f, m, h, n) && t <= n + 1
    requires MagnitudeInvertFrom(m, n, t).Some?
    ensures Recovers(f', MagnitudeInvertFrom(m, n, t).value, h, n)
    decreases n + 1 - t
  {
    if t > n {
      f' := f;
    } else {
      var p := MagnitudePivotRow(m, n, t);
      MagnitudeInvertFromStep(m, n, t);
      var f1 := PivotStepRecovers(f, m, h, n, t, p);
      f' := MagnitudeInvertFromRecovers(f1, PivotStep(m, n, t, p).value, h, n, t + 1);
    }
  }

  /** A successful run ends with the identity in the left block. */
  lemma {:induction false} MagnitudeInvertFromUnitColumns(m: Matrix, n: nat, t: nat)
    requires Shaped(m, n) && t <= n + 1 && UnitColumns(m, n, t)
    requires MagnitudeInvertFrom(m, n, t).Some?
    ensures UnitColumns(MagnitudeInvertFrom(m, n, t).value, n, n + 1)
    decreases n + 1 - t
  {
    if t <= n {
      var p := MagnitudePivotRow(m, n, t);
      MagnitudeInvertFromStep(m, n, t);
      PivotStepUnitColumns(m, n, t, p);
      MagnitudeInvertFromUnitColumns(PivotStep(m, n, t, p).value, n, t + 1);
    }
  }

  /** A run that stops has met a column that is zero from the diagonal down, and
      that column yields a nonzero vector in the kernel of h: h is singular. */
  lemma {:induction false} MagnitudeStopsOnSingular(f: Matrix, m: Matrix, h: Matrix, n: nat, t: nat)
    requires Recovers(f, m, h, n) && t <= n + 1 && UnitColumns(m, n, t)
    requires MagnitudeInvertFrom(m, n, t).None?
    ensures !Nonsingular(h, n)
    decreases n + 1 - t
  {
    var p := MagnitudePivotRow(m, n, t);
    if m[p][t] == 0.0 {
      StuckColumnSingular(f, m, h, n, t);
    } else {
      var m' := PivotStep(m, n, t, p).value;
      MagnitudeInvertFromStep(m, n, t);
      PivotStepUnitColumns(m, n, t, p);
      var f1 := PivotStepRecovers(f, m, h, n, t, p);
      MagnitudeStopsOnSingular(f1, m', h, n, t + 1);
    }
  }

  /** With pivoting by magnitude, the elimination of [H | I] fails only when H is
      singular: on every nonsingular H it reaches the end. */
  lemma MagnitudeFitSucceedsWhenNonsingular(ata: seq<real>, aty: seq<real>, n: nat)
    requires |ata| == 2 * n + 1 && |aty| == n + 1
    ensures Nonsingular(Augmented(ata, n), n) ==> MagnitudeFit(ata, aty, n).Some?
  {
    var h := Augmented(ata, n);
    if MagnitudeInvertFrom(h, n, 0).None? {
      InitialRecovers(h, n);
      MagnitudeStopsOnSingular(Identity(n), h, h, n, 0);
    }
  }

  /** When it succeeds, the fit with pivoting by magnitude solves the normal equations. */
  lemma MagnitudeFitSolvesNormalEquations(ata: seq<real>, aty: seq<real>, n: nat)
    requires |ata| == 2 * n + 1 && |aty| == n + 1
    requires MagnitudeFit(ata, aty, n).Some?
    ensures forall k :: 0 <= k <= n ==> Dot(Augmented(ata, n)[k], MagnitudeFit(ata, aty, n).value, n + 1) == aty[k]
  {
    var h := Augmented(ata, n);
    var m := MagnitudeInvertFrom(h, n, 0).value;
    InitialRecovers(h, n);
    var f := MagnitudeInvertFromRecovers(Identity(n), h, h, n, 0);
    MagnitudeInvertFromUnitColumns(h, n, 0);
    RightInverseOfRecovered(f, m, h, n);
    forall k | 0 <= k <= n
      ensures Dot(h[k], Coefficients(m, aty, n), n + 1) == aty[k]
    {
      NormalEquationRow(h, m, aty, n, k);
    }
  }

  /** The vector with 1 at t, minus column t of m above the diagonal, and 0 below. */
  function KernelVector(m: Matrix, n: nat, t: nat): (v: seq<real>)
    requires Shaped(m, n) && t <= n
    ensures |v| == n + 1 && v[t] == 1.0
  {
    seq(n + 1, j requires 0 <= j <= n => if j < t then -m[j][t] else if j == t then 1.0 else 0.0)
  }

  /** If columns 0..t-1 are unit columns and column t is zero from row t down,
      KernelVector is annihilated by the left block of m, and so by h. */
  lemma StuckColumnSingular(f: Matrix, m: Matrix, h: Matrix, n: nat, t: nat)
    requires Recovers(f, m, h, n) && t <= n && UnitColumns(m, n, t)
    requires forall r :: t <= r <= n ==> Abs(m[r][t]) <= 0.0
    ensures !Nonsingular(h, n)
  {
    var v := KernelVector(m, n, t);
    forall k | 0 <= k <= n
      ensures Dot(m[k], v, n + 1) == 0.0
    {
      KernelPrefix(m, n, t, k, n + 1);
    }
    forall i | 0 <= i <= n
      ensures Dot(h[i], v, n + 1) == 0.0
    {
      AnnihilatedRow(f, m, h, n, v, i);
    }
    assert Annihilates(h, v, n);
  }

  /** Dot(m[k], v, j) for the KernelVector v, in closed form. */
  lemma {:induction false} KernelPrefix(m: Matrix, n: nat, t: nat, k: nat, j: nat)
    requires Shaped(m, n) && t <= n && UnitColumns(m, n, t) && k <= n && j <= n + 1
    ensures Dot(m[k], KernelVector(m, n, t), j)
      == (if k < j && k < t then -m[k][t] else 0.0) + (if t < j then m[k][t] else 0.0)
  {
    if j > 0 {
      KernelPrefix(m, n, t, k, j - 1);
      var v := KernelVector(m, n, t);
      var c := j - 1;
      if c < t {
        assert m[k][c] == if k == c then 1.0 else 0.0;
        assert v[c] == -m[c][t];
      } else if c == t {
        assert v[c] == 1.0;
      } else {
        assert v[c] == 0.0;
      }
    }
  }

  /** f * m == h and m v == 0 give h v == 0, row by row. */
  lemma AnnihilatedRow(f: Matrix, m: Matrix, h: Matrix, n: nat, v: seq<real>, i: nat)
    requires Recovers(f, m, h, n) && |v| == n + 1 && i <= n
    requires forall k :: 0 <= k <= n ==> Dot(m[k], v, n + 1) == 0.0
    ensures Dot(h[i], v, n + 1) == 0.0
  {
    var mv := MatVec(m, v, n);
    var a := VecMat(f[i], m, n, n + 1);
    DotAssociative(f[i], m, v, n, n + 1);
    DotCommutes(f[i], mv, n + 1);
    DotUnit(mv, f[i], n + 1, n + 1);
    VecMatEntry(f[i], m, n, n + 1);
    DotCongruent(h[i], a, v, v, n + 1);
  }

  /** Samples at x = 1, 3, 4 and -0.5, with any y. */
  function ZeroPivotSamples(y0: real, y1: real, y2: real, y3: real): seq<Sample>
  {
    [Sample(1.0, y0), Sample(3.0, y1), Sample(4.0, y2), Sample(-0.5, y3)]
  }

  lemma ZeroPivotSums(y0: real, y1: real, y2: real, y3: real)
    ensures PowerSums(ZeroPivotSamples(y0, y1, y2, y3), 2) == [4.0, 7.5, 26.25, 91.875, 338.0625]
  {
    var s := ZeroPivotSamples(y0, y1, y2, y3);
    var r := PowerSums(s, 2);
    PowerSumOfFour(s, 0);
    PowerSumOfFour(s, 1);
    PowerSumOfFour(s, 2);
    PowerSumOfFour(s, 3);
    PowerSumOfFour(s, 4);
    assert Pow(-0.5, 3) == -0.125 && Pow(-0.5, 4) == 0.0625;
    assert Pow(3.0, 4) == 81.0 && Pow(4.0, 4) == 256.0;
  }

  /** The power sum of four samples, written out. */
  lemma PowerSumOfFour(s: seq<Sample>, k: nat)
    requires |s| == 4
    ensures PowerSum(s, k) == Pow(s[0].x, k) + Pow(s[1].x, k) + Pow(s[2].x, k) + Pow(s[3].x, k)
  {
    var s3 := s[..3];
    var s2 := s3[..2];
    var s1 := s2[..1];
    assert s1[..0] == [];
    assert PowerSum(s1, k) == Pow(s[0].x, k);
    assert PowerSum(s2, k) == PowerSum(s1, k) + Pow(s[1].x, k);
    assert PowerSum(s3, k) == PowerSum(s2, k) + Pow(s[2].x, k);
  }

  /** The Hankel matrix of those samples has determinant 804.375: h v == 0 forces v == 0. */
  lemma ZeroPivotHankelNonsingular()
    ensures Nonsingular(Augmented([4.0, 7.5, 26.25, 91.875, 338.0625], 2), 2)
  {
    var h := Augmented([4.0, 7.5, 26.25, 91.875, 338.0625], 2);
    forall v | Annihilates(h, v, 2)
      ensures forall j :: 0 <= j <= 2 ==> v[j] == 0.0
    {
      DotCongruent(h[0], [4.0, 7.5, 26.25], v, v, 3);
      DotCongruent(h[1], [7.5, 26.25, 91.875], v, v, 3);
      DotCongruent(h[2], [26.25, 91.875, 338.0625], v, v, 3);
      DotOfThree([4.0, 7.5, 26.25], v);
      DotOfThree([7.5, 26.25, 91.875], v);
      DotOfThree([26.25, 91.875, 338.0625], v);
      HankelSystem(v[0], v[1], v[2]);
    }
  }

  lemma DotOfThree(u: seq<real>, v: seq<real>)
    requires |u| == 3 && |v| == 3
    ensures Dot(u, v, 3) == u[0] * v[0] + u[1] * v[1] + u[2] * v[2]
  {
    assert Dot(u, v, 1) == u[0] * v[0];
  }

  lemma HankelSystem(a: real, b: real, c: real)
    requires 4.0 * a + 7.5 * b + 26.25 * c == 0.0
    requires 7.5 * a + 26.25 * b + 91.875 * c == 0.0
    requires 26.25 * a + 91.875 * b + 338.0625 * c == 0.0
    ensures a == 0.0 && b == 0.0 && c == 0.0
  {
  }

  /** The source's signed pivot rule stops on these samples although their Hankel
      matrix is invertible: column 0 pivots on row 2, which leaves 0 and -6.5 in
      column 1 below the diagonal, and the signed rule picks the 0. */
  lemma SignedPivotStopsOnSamples(y0: real, y1: real, y2: real, y3: real)
    ensures var s := ZeroPivotSamples(y0, y1, y2, y3);
      && Nonsingular(Augmented(PowerSums(s, 2), 2), 2)
      && Fit(PowerSums(s, 2), WeightedSums(s, 2), 2).None?
  {
    ZeroPivotSums(y0, y1, y2, y3);
    ZeroPivotHankelNonsingular();
    var h := Augmented([4.0, 7.5, 26.25, 91.875, 338.0625], 2);
    var m3 := ZeroPivotFirstStep(h);
    assert IsPivot(m3, 2, 1, 1);
    PivotUnique(m3, 2, 1, 1, PivotRow(m3, 2, 1));
    assert Step(m3, 2, 1).None?;
    assert InvertFrom(h, 2, 0) == InvertFrom(m3, 2, 1);
  }

  /** The first step on those samples: pivot row 2, leaving 0 and -6.5 in column 1. */
  lemma ZeroPivotFirstStep(h: Matrix) returns (m3: Matrix)
    requires Shaped(h, 2)
    requires h[0][0] == 4.0 && h[1][0] == 7.5 && h[2][0] == 26.25
    requires h[0][1] == 7.5 && h[1][1] == 26.25 && h[2][1] == 91.875
    ensures Step(h, 2, 0) == Some(m3)
    ensures Shaped(m3, 2) && m3[1][1] == 0.0 && m3[2][1] == -6.5
  {
    assert IsPivot(h, 2, 0, 2);
    PivotUnique(h, 2, 0, 2, PivotRow(h, 2, 0));
    var m1 := Normalize(h, 2, 26.25);
    var m2 := Eliminate(m1, 2, 2, 0);
    m3 := Swap(m2, 2, 0);
    assert m1[2][1] == 3.5 && m1[1][0] == 7.5 && m1[0][0] == 4.0;
    assert m2[1][1] == 0.0 && m2[0][1] == -6.5;
  }

  /** Pivoting by magnitude completes the fit of those samples. */
  lemma MagnitudePivotFitsSamples(y0: real, y1: real, y2: real, y3: real)
    ensures var s := ZeroPivotSamples(y0, y1, y2, y3);
      MagnitudeFit(PowerSums(s, 2), WeightedSums(s, 2), 2).Some?
  {
    var s := ZeroPivotSamples(y0, y1, y2, y3);
    ZeroPivotSums(y0, y1, y2, y3);
    ZeroPivotHankelNonsingular();
    MagnitudeFitSucceedsWhenNonsingular(PowerSums(s, 2), WeightedSums(s, 2), 2);
  }

  // ---------------------------------------------------------------------------
  // The elimination on an array2, step by step
  // ---------------------------------------------------------------------------

  /** The array a holds the matrix m. */
  ghost predicate Holds(a: array2<real>, m: Matrix, n: nat)
    reads a
  {
    && Shaped(m, n) && a.Length0 == n + 1 && a.Length1 == 2 * (n + 1)
    && forall r, c :: 0 <= r <= n && 0 <= c < 2 * (n + 1) ==> a[r, c] == m[r][c]
  }

  /** Fills [H | I]; every index ix + iy with ix, iy <= n is inside ata. */
  method BuildAugmented(ata: array<real>, n: nat) returns (a: array2<real>)
    requires ata.Length == 2 * n + 1
    ensures fresh(a) && Holds(a, Augmented(ata[..], n), n)
  {
    ghost var h := Augmented(ata[..], n);
    a := new real[n + 1, 2 * (n + 1)];
    for iy := 0 to n + 1
      invariant forall r, c :: 0 <= r < iy && 0 <= c < 2 * (n + 1) ==> a[r, c] == h[r][c]
    {
      FillRow(a, ata, n, iy);
    }
  }

  /** The inner loop of the matrix set-up: row iy of [H | I]. */
  method FillRow(a: array2<real>, ata: array<real>, n: nat, iy: nat)
    requires ata.Length == 2 * n + 1 && a.Length0 == n + 1 && a.Length1 == 2 * (n + 1) && iy <= n
    modifies a
    ensures forall c :: 0 <= c < 2 * (n + 1) ==> a[iy, c] == Augmented(ata[..], n)[iy][c]
    ensures forall r, c :: 0 <= r <= n && r != iy && 0 <= c < 2 * (n + 1) ==> a[r, c] == old(a[r, c])
  {
    ghost var h := Augmented(ata[..], n);
    for ix := 0 to n + 1
      invariant forall c :: 0 <= c < ix ==> a[iy, c] == h[iy][c]
      invariant forall c :: n + 1 <= c < ix + n + 1 ==> a[iy, c] == h[iy][c]
      invariant forall r, c :: 0 <= r <= n && r != iy && 0 <= c < 2 * (n + 1) ==> a[r, c] == old(a[r, c])
    {
      a[iy, ix] := ata[ix + iy];
      a[iy, ix + n + 1] := if ix == iy then 1.0 else 0.0;
      assert h[iy][ix] == ata[..][iy + ix];
      assert h[iy][ix + n + 1] == if ix == iy then 1.0 else 0.0;
    }
  }

  /** Finds the row at or below the diagonal with the largest value in column t;
      on ties the first such row wins. */
  method FindPivot(a: array2<real>, t: nat) returns (bestRow: nat, bestRowValue: real)
    requires t < a.Length0 && t < a.Length1
    ensures t <= bestRow < a.Length0 && bestRowValue == a[bestRow, t]
    ensures forall r :: t <= r < a.Length0 ==> a[r, t] <= bestRowValue
    ensures forall r :: t <= r < bestRow ==> a[r, t] < bestRowValue
  {
    bestRow := t;
    bestRowValue := a[t, t];
    for row := t + 1 to a.Length0
      invariant t <= bestRow < row && bestRowValue == a[bestRow, t]
      invariant forall r :: t <= r < row ==> a[r, t] <= bestRowValue
      invariant forall r :: t <= r < bestRow ==> a[r, t] < bestRowValue
    {
      if a[row, t] > bestRowValue {
        bestRow := row;
        bestRowValue := a[row, t];
      }
    }
  }

  /** Divides row p by d. */
  method NormalizeRow(a: array2<real>, p: nat, d: real, ghost m: Matrix, n: nat)
    requires Holds(a, m, n) && p <= n && d != 0.0
    modifies a
    ensures Holds(a, Normalize(m, p, d), n)
  {
    for column := 0 to 2 * (n + 1)
      invariant forall r, c :: 0 <= r <= n && 0 <= c < 2 * (n + 1) ==>
        a[r, c] == if r == p && c < column then m[r][c] / d else m[r][c]
    {
      a[p, column] := a[p, column] / d;
    }
  }

  /** Subtracts multiples of row p from the other rows to clear column t. */
  method EliminateColumn(a: array2<real>, p: nat, t: nat, ghost m: Matrix, n: nat)
    requires Holds(a, m, n) && p <= n && t <= n
    modifies a
    ensures Holds(a, Eliminate(m, n, p, t), n)
  {
    ghost var e := Eliminate(m, n, p, t);
    for row := 0 to n + 1
      invariant Holds(a, RowsDone(e, m, n, row), n)
    {
      ghost var cur := RowsDone(e, m, n, row);
      if row == p {
        assert RowsDone(e, m, n, row + 1) == cur;
        continue;
      }
      var multiplier := a[row, t];
      SubtractRowInPlace(a, row, p, multiplier, cur, n);
      assert RowsDone(e, m, n, row + 1) == cur[row := SubtractRow(cur[row], cur[p], multiplier)];
    }
  }

  /** Rows below `done` taken from e, the others from m. */
  ghost function RowsDone(e: Matrix, m: Matrix, n: nat, done: nat): (r: Matrix)
    requires |e| == n + 1 && |m| == n + 1
    ensures |r| == n + 1
  {
    seq(n + 1, r requires 0 <= r <= n => if r < done then e[r] else m[r])
  }

  /** The inner loop of the elimination: row -= multiplier * (row p). */
  method SubtractRowInPlace(a: array2<real>, row: nat, p: nat, multiplier: real, ghost m: Matrix, n: nat)
    requires Holds(a, m, n) && row <= n && p <= n && row != p
    modifies a
    ensures Holds(a, m[row := SubtractRow(m[row], m[p], multiplier)], n)
  {
    ghost var target := SubtractRow(m[row], m[p], multiplier);
    for column := 0 to 2 * (n + 1)
      invariant forall c :: 0 <= c < 2 * (n + 1) ==>
        a[row, c] == if c < column then target[c] else m[row][c]
      invariant forall r, c :: 0 <= r <= n && r != row && 0 <= c < 2 * (n + 1) ==> a[r, c] == m[r][c]
    {
      a[row, column] := a[row, column] - a[p, column] * multiplier;
    }
  }

  /** Exchanges rows p and t. */
  method SwapRows(a: array2<real>, p: nat, t: nat, ghost m: Matrix, n: nat)
    requires Holds(a, m, n) && p <= n && t <= n && p != t
    modifies a
    ensures Holds(a, Swap(m, p, t), n)
  {
    ghost var s := Swap(m, p, t);
    for column := 0 to 2 * (n + 1)
      invariant forall r, c :: 0 <= r <= n && 0 <= c < 2 * (n + 1) ==>
        a[r, c] == if c < column then s[r][c] else m[r][c]
    {
      a[p, column], a[t, column] := a[t, column], a[p, column];
    }
  }

  /** The elimination loop of CalculateCoefficients on the array a, which starts
      out holding h. It stops with ok == false at the first zero pivot. */
  method InvertInPlace(a: array2<real>, n: nat, ghost h: Matrix) returns (ok: bool)
    requires Holds(a, h, n)
    modifies a
    ensures ok <==> InvertFrom(h, n, 0).Some?
    ensures ok ==> Holds(a, InvertFrom(h, n, 0).value, n)
  {
    ghost var m := h;
    for t := 0 to n + 1
      invariant Holds(a, m, n)
      invariant InvertFrom(h, n, 0) == InvertFrom(m, n, t)
    {
      var bestRow, bestRowValue := FindPivot(a, t);
      PivotUnique(m, n, t, bestRow, PivotRow(m, n, t));
      if bestRowValue == 0.0 {
        return false;
      }
      NormalizeRow(a, bestRow, bestRowValue, m, n);
      ghost var m1 := Normalize(m, bestRow, bestRowValue);
      EliminateColumn(a, bestRow, t, m1, n);
      ghost var m2 := Eliminate(m1, n, bestRow, t);
      if bestRow != t {
        SwapRows(a, bestRow, t, m2, n);
      } else {
        assert Swap(m2, bestRow, t) == m2;
      }
      m := Step(m, n, t).value;
    }
    return true;
  }

  /** out[i] = the sum over j of a[i, n + 1 + j] * aty[j]: the right block times aty. */
  method MultiplyRight(a: array2<real>, aty: array<real>, out: array<real>, ghost m: Matrix, n: nat)
    requires Holds(a, m, n) && aty.Length == n + 1 && out.Length == n + 1 && out != aty
    modifies out
    ensures out[..] == Coefficients(m, aty[..], n)
  {
    for i := 0 to n + 1
      invariant forall i' :: 0 <= i' < i ==> out[i'] == Dot(Right(m[i'], n), aty[..], n + 1)
    {
      var sum := 0.0;
      for index := 0 to n + 1
        invariant sum == Dot(Right(m[i], n), aty[..], index)
      {
        sum := sum + a[i, n + 1 + index] * aty[index];
      }
      out[i] := sum;
    }
  }

  // ---------------------------------------------------------------------------
  // The fit object
  // ---------------------------------------------------------------------------

  class LeastSquaresPolynomialFit {
    /** The degree N of the fitted polynomial. */
    const n: nat
    /** ata[k] = sum of x^k over the samples, k in 0..2n. */
    const ata: array<real>
    /** aty[k] = sum of x^k * y over the samples, k in 0..n. */
    const aty: array<real>
    /** Ascending coefficients of the fitted polynomial. */
    const coefficients: array<real>
    /** The samples added so far (never stored by the source, only summed). */
    ghost var samples: seq<Sample>

    ghost predicate Valid()
      reads this, ata, aty
    {
      && ata.Length == 2 * n + 1 && aty.Length == n + 1 && coefficients.Length == n + 1
      && ata != aty && ata != coefficients && aty != coefficients
      && (forall k :: 0 <= k < ata.Length ==> ata[k] == PowerSum(samples, k))
      && (forall k :: 0 <= k < aty.Length ==> aty[k] == WeightedSum(samples, k))
    }

    /** A fit of degree n with zeroed accumulators and coefficients. */
    constructor (n: nat)
      ensures Valid() && this.n == n && samples == []
      ensures fresh(ata) && fresh(aty) && fresh(coefficients)
      ensures forall i :: 0 <= i < coefficients.Length ==> coefficients[i] == 0.0
    {
      this.n := n;
      ata := new real[2 * n + 1](_ => 0.0);
      aty := new real[n + 1](_ => 0.0);
      coefficients := new real[n + 1](_ => 0.0);
      samples := [];
    }

    /** Folds (x, y) into the power sums; nothing else changes. */
    method AddPoint(x: real, y: real)
      requires Valid()
      modifies this, ata, aty
      ensures Valid()
      ensures samples == old(samples) + [Sample(x, y)]
      ensures forall k :: 0 <= k < ata.Length ==> ata[k] == old(ata[k]) + Pow(x, k)
      ensures forall k :: 0 <= k < aty.Length ==> aty[k] == old(aty[k]) + Moment(Sample(x, y), k)
      ensures unchanged(coefficients)
    {
      AddPowers(x);
      AddWeightedPowers(x, y);
      ghost var e := Sample(x, y);
      samples := samples + [e];
      forall k: nat
        ensures PowerSum(samples, k) == PowerSum(old(samples), k) + Pow(x, k)
        ensures WeightedSum(samples, k) == WeightedSum(old(samples), k) + Moment(e, k)
      {
        SumsAppend(old(samples), [e], k);
        SumsSingle(e, k);
      }
    }

    /** The first loop of AddPoint: ata[i] += x^i. */
    method AddPowers(x: real)
      requires ata.Length == 2 * n + 1 && ata != aty
      modifies ata
      ensures forall k :: 0 <= k < ata.Length ==> ata[k] == old(ata[k]) + Pow(x, k)
    {
      var xpow := 1.0;
      for i := 0 to ata.Length
        invariant xpow == Pow(x, i)
        invariant forall k :: 0 <= k < ata.Length ==>
          ata[k] == old(ata[k]) + if k < i then Pow(x, k) else 0.0
      {
        ata[i] := ata[i] + xpow;
        xpow := xpow * x;
      }
    }

    /** The second loop of AddPoint: aty[i] += x^i * y. */
    method AddWeightedPowers(x: real, y: real)
      requires aty.Length == n + 1
      modifies aty
      ensures forall k :: 0 <= k < aty.Length ==> aty[k] == old(aty[k]) + Moment(Sample(x, y), k)
    {
      var xpow := 1.0;
      for i := 0 to aty.Length
        invariant xpow == Pow(x, i)
        invariant forall k :: 0 <= k < aty.Length ==>
          aty[k] == old(aty[k]) + if k < i then Moment(Sample(x, y), k) else 0.0
      {
        aty[i] := aty[i] + xpow * y;
        xpow := xpow * x;
      }
    }

    /** Solves the normal equations. ok is false exactly when some pivot is zero
        (where the source divides by zero); then the coefficients are left as they were. */
    method CalculateCoefficients() returns (ok: bool)
      requires Valid()
      modifies coefficients
      ensures Valid()
      ensures ok <==> Fit(ata[..], aty[..], n).Some?
      ensures ok ==> coefficients[..] == Fit(ata[..], aty[..], n).value
      ensures !ok ==> coefficients[..] == old(coefficients[..])
    {
      var a := BuildAugmented(ata, n);
      ok := InvertInPlace(a, n, Augmented(ata[..], n));
      if ok {
        MultiplyRight(a, aty, coefficients, InvertFrom(Augmented(ata[..], n), n, 0).value, n);
      }
    }

    /** The fitted polynomial at x; changes nothing. */
    method Evaluate(x: real) returns (r: real)
      requires Valid()
      ensures r == PolyValue(coefficients[..], x)
    {
      r := 0.0;
      var xpow := 1.0;
      for index := 0 to n + 1
        invariant xpow == Pow(x, index)
        invariant r == PolyPrefix(coefficients[..], x, index)
      {
        r := r + xpow * coefficients[index];
        xpow := xpow * x;
      }
    }
  }
}
