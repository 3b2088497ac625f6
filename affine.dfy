/** The transform driver of main.cpp: the forward matrix built from the four
    coefficients a, b, c, d, its inverse, the extent of the output canvas, and
    the nearest-neighbour inverse-mapping loop that fills it. */
module Affine {
  import opened CMath
  import opened Matrix
  import opened Bitmaps

  /** The forward transform, a homogeneous matrix acting on row vectors [x, y, 1]. */
  function Forward(a: real, b: real, c: real, d: real): (m: Mat)
    ensures IsMatrix(m, 3, 3)
  {
    [[a, b, 0.0],
     [c, d, 0.0],
     [0.0, 0.0, 1.0]]
  }

  function Determinant(a: real, b: real, c: real, d: real): real
  {
    a * d - b * c
  }

  /** A source corner [x, y, 1] times the forward matrix lands on (a x + c y, b x + d y). */
  lemma CornerImage(a: real, b: real, c: real, d: real, x: real, y: real)
    ensures Product(Point(x, y), Forward(a, b, c, d)) == Point(a * x + c * y, b * x + d * y)
  {
    var m := Forward(a, b, c, d);
    PointTimes(x, y, m);
    MatricesEqual(Product(Point(x, y), m), Point(a * x + c * y, b * x + d * y), 1, 3);
  }

  // ---------------------------------------------------------------------
  // Inverting the forward matrix

  /** The inverse of the forward matrix, written out by the adjugate. */
  function ForwardInverse(a: real, b: real, c: real, d: real): (m: Mat)
    requires Determinant(a, b, c, d) != 0.0
    ensures IsMatrix(m, 3, 3)
  {
    var det := Determinant(a, b, c, d);
    [[d / det, -b / det, 0.0],
     [-c / det, a / det, 0.0],
     [0.0, 0.0, 1.0]]
  }

  /** Elimination without pivoting succeeds on the forward matrix exactly when
      both pivots it meets, a and det / a, are nonzero; then it yields the true
      inverse. Over exact reals it therefore fails on invertible matrices whose
      top-left coefficient is 0, a quarter turn among them. */
  lemma InverseOfForward(a: real, b: real, c: real, d: real)
    ensures Inverse(Forward(a, b, c, d)).Success? <==> a != 0.0 && Determinant(a, b, c, d) != 0.0
    ensures Inverse(Forward(a, b, c, d)).Success? ==> Inverse(Forward(a, b, c, d)).value == ForwardInverse(a, b, c, d)
  {
    var m := Forward(a, b, c, d);
    IdentityThree();
    var s0 := Augmented(m, Identity(3));
    assert Eliminate(m, 3, 0) == Success(s0);
    if a == 0.0 {
      assert Eliminate(m, 3, 1) == Failure(SingularMatrix);
      EliminateFailureStays(m, 3, 1, 3);
      return;
    }
    var r := c / a;
    var p := d - r * b;
    var s1 := Augmented([[a, b, 0.0], [0.0, p, 0.0], [0.0, 0.0, 1.0]],
                        [[1.0, 0.0, 0.0], [-r, 1.0, 0.0], [0.0, 0.0, 1.0]]);
    EliminateColumnZero(a, b, c, d, r);
    assert Eliminate(m, 3, 1) == Success(EliminateRows(s0, 3, 0, 3));
    assert Eliminate(m, 3, 1) == Success(s1);
    assert p * a == Determinant(a, b, c, d);
    if p == 0.0 {
      assert Eliminate(m, 3, 2) == Failure(SingularMatrix);
      EliminateFailureStays(m, 3, 2, 3);
      return;
    }
    var q := b / p;
    var s2 := Augmented([[a, 0.0, 0.0], [0.0, p, 0.0], [0.0, 0.0, 1.0]],
                        [[1.0 + q * r, -q, 0.0], [-r, 1.0, 0.0], [0.0, 0.0, 1.0]]);
    EliminateColumnOne(a, b, r, p, q);
    assert Eliminate(m, 3, 2) == Success(EliminateRows(s1, 3, 1, 3));
    assert Eliminate(m, 3, 2) == Success(s2);
    EliminateColumnTwo(a, p, 1.0 + q * r, -q, r);
    assert Eliminate(m, 3, 3) == Success(EliminateRows(s2, 3, 2, 3));
    assert Eliminate(m, 3, 3) == Success(s2);
    NormalizeForward(a, b, c, d, r, p, q);
    assert Inverse(m) == Success(NormalizeRows(s2, 3, 3).ident);
  }

  lemma IdentityThree()
    ensures Identity(3) == [[1.0, 0.0, 0.0], [0.0, 1.0, 0.0], [0.0, 0.0, 1.0]]
  {
    MatricesEqual(Identity(3), [[1.0, 0.0, 0.0], [0.0, 1.0, 0.0], [0.0, 0.0, 1.0]], 3, 3);
  }

  /** A three-entry row minus ratio times another, entry by entry. */
  lemma SubtractThree(u0: real, u1: real, u2: real, v0: real, v1: real, v2: real, ratio: real,
                      w0: real, w1: real, w2: real)
    requires w0 == u0 - ratio * v0 && w1 == u1 - ratio * v1 && w2 == u2 - ratio * v2
    ensures SubtractRow([u0, u1, u2], [v0, v1, v2], ratio) == [w0, w1, w2]
  {
    var w := SubtractRow([u0, u1, u2], [v0, v1, v2], ratio);
    assert w[0] == w0 && w[1] == w1 && w[2] == w2;
  }

  /** A three-entry row over a divisor, entry by entry. */
  lemma DivideThree(u0: real, u1: real, u2: real, divisor: real, w0: real, w1: real, w2: real)
    requires divisor != 0.0
    requires w0 == u0 / divisor && w1 == u1 / divisor && w2 == u2 / divisor
    ensures DivideRow([u0, u1, u2], divisor) == [w0, w1, w2]
  {
    var w := DivideRow([u0, u1, u2], divisor);
    assert w[0] == w0 && w[1] == w1 && w[2] == w2;
  }

  /** Column 0: row 1 loses c / a times row 0, row 2 loses nothing. */
  lemma EliminateColumnZero(a: real, b: real, c: real, d: real, r: real)
    requires a != 0.0 && r == c / a
    ensures EliminateRows(Augmented(Forward(a, b, c, d), Identity(3)), 3, 0, 3)
         == Augmented([[a, b, 0.0], [0.0, d - r * b, 0.0], [0.0, 0.0, 1.0]],
                      [[1.0, 0.0, 0.0], [-r, 1.0, 0.0], [0.0, 0.0, 1.0]])
  {
    IdentityThree();
    var s := Augmented(Forward(a, b, c, d), Identity(3));
    assert s.temp[0] == [a, b, 0.0] && s.temp[1] == [c, d, 0.0] && s.temp[2] == [0.0, 0.0, 1.0];
    assert s.ident[0] == [1.0, 0.0, 0.0] && s.ident[1] == [0.0, 1.0, 0.0] && s.ident[2] == [0.0, 0.0, 1.0];
    var s1 := Augmented([[a, b, 0.0], [0.0, d - r * b, 0.0], [0.0, 0.0, 1.0]],
                        [[1.0, 0.0, 0.0], [-r, 1.0, 0.0], [0.0, 0.0, 1.0]]);
    // row 1
    assert s.temp[1][0] / s.temp[0][0] == r;
    SubtractThree(c, d, 0.0, a, b, 0.0, r, 0.0, d - r * b, 0.0);
    SubtractThree(0.0, 1.0, 0.0, 1.0, 0.0, 0.0, r, -r, 1.0, 0.0);
    assert SubtractRow(s.temp[1], s.temp[0], r) == SubtractRow([c, d, 0.0], [a, b, 0.0], r);
    assert SubtractRow(s.ident[1], s.ident[0], r) == SubtractRow([0.0, 1.0, 0.0], [1.0, 0.0, 0.0], r);
    assert EliminateRows(s, 3, 0, 1) == s;
    assert EliminateRow(s, 3, 0, 1) == s1;
    // row 2
    assert s1.temp[2][0] / s1.temp[0][0] == 0.0;
    SubtractThree(0.0, 0.0, 1.0, a, b, 0.0, 0.0, 0.0, 0.0, 1.0);
    SubtractThree(0.0, 0.0, 1.0, 1.0, 0.0, 0.0, 0.0, 0.0, 0.0, 1.0);
    assert SubtractRow(s1.temp[2], s1.temp[0], 0.0) == SubtractRow([0.0, 0.0, 1.0], [a, b, 0.0], 0.0);
    assert SubtractRow(s1.ident[2], s1.ident[0], 0.0) == SubtractRow([0.0, 0.0, 1.0], [1.0, 0.0, 0.0], 0.0);
    var e2 := EliminateRows(s, 3, 0, 2);
    assert e2 == s1;
    assert e2.temp == s1.temp && e2.ident == s1.ident;
    assert EliminateRow(s1, 3, 0, 2) == s1;
    assert EliminateRows(s, 3, 0, 3) == EliminateRow(e2, 3, 0, 2);
    assert EliminateRow(e2, 3, 0, 2) == EliminateRow(s1, 3, 0, 2);
  }

  /** Column 1: row 0 loses b / p times row 1, row 2 loses nothing. */
  lemma EliminateColumnOne(a: real, b: real, r: real, p: real, q: real)
    requires p != 0.0 && q == b / p
    ensures EliminateRows(Augmented([[a, b, 0.0], [0.0, p, 0.0], [0.0, 0.0, 1.0]],
                                    [[1.0, 0.0, 0.0], [-r, 1.0, 0.0], [0.0, 0.0, 1.0]]), 3, 1, 3)
         == Augmented([[a, 0.0, 0.0], [0.0, p, 0.0], [0.0, 0.0, 1.0]],
                      [[1.0 + q * r, -q, 0.0], [-r, 1.0, 0.0], [0.0, 0.0, 1.0]])
  {
    var s := Augmented([[a, b, 0.0], [0.0, p, 0.0], [0.0, 0.0, 1.0]],
                       [[1.0, 0.0, 0.0], [-r, 1.0, 0.0], [0.0, 0.0, 1.0]]);
    var s1 := Augmented([[a, 0.0, 0.0], [0.0, p, 0.0], [0.0, 0.0, 1.0]],
                        [[1.0 + q * r, -q, 0.0], [-r, 1.0, 0.0], [0.0, 0.0, 1.0]]);
    // row 0
    assert s.temp[0][1] / s.temp[1][1] == q;
    SubtractThree(a, b, 0.0, 0.0, p, 0.0, q, a, 0.0, 0.0);
    SubtractThree(1.0, 0.0, 0.0, -r, 1.0, 0.0, q, 1.0 + q * r, -q, 0.0);
    assert SubtractRow(s.temp[0], s.temp[1], q) == SubtractRow([a, b, 0.0], [0.0, p, 0.0], q);
    assert SubtractRow(s.ident[0], s.ident[1], q) == SubtractRow([1.0, 0.0, 0.0], [-r, 1.0, 0.0], q);
    assert EliminateRows(s, 3, 1, 0) == s;
    assert EliminateRow(s, 3, 1, 0) == s1;
    assert EliminateRows(s, 3, 1, 2) == s1;
    // row 2
    assert s1.temp[2][1] / s1.temp[1][1] == 0.0;
    SubtractThree(0.0, 0.0, 1.0, 0.0, p, 0.0, 0.0, 0.0, 0.0, 1.0);
    SubtractThree(0.0, 0.0, 1.0, -r, 1.0, 0.0, 0.0, 0.0, 0.0, 1.0);
    assert SubtractRow(s1.temp[2], s1.temp[1], 0.0) == SubtractRow([0.0, 0.0, 1.0], [0.0, p, 0.0], 0.0);
    assert SubtractRow(s1.ident[2], s1.ident[1], 0.0) == SubtractRow([0.0, 0.0, 1.0], [-r, 1.0, 0.0], 0.0);
    assert EliminateRow(s1, 3, 1, 2) == s1;
  }

  /** Column 2 is already clear: its eliminations subtract zero times row 2. */
  lemma EliminateColumnTwo(a: real, p: real, e0: real, e1: real, r: real)
    requires p != 0.0 && a != 0.0
    ensures
      var s := Augmented([[a, 0.0, 0.0], [0.0, p, 0.0], [0.0, 0.0, 1.0]],
                         [[e0, e1, 0.0], [-r, 1.0, 0.0], [0.0, 0.0, 1.0]]);
      EliminateRows(s, 3, 2, 3) == s
  {
    var s := Augmented([[a, 0.0, 0.0], [0.0, p, 0.0], [0.0, 0.0, 1.0]],
                       [[e0, e1, 0.0], [-r, 1.0, 0.0], [0.0, 0.0, 1.0]]);
    assert s.temp[0][2] / s.temp[2][2] == 0.0 && s.temp[1][2] / s.temp[2][2] == 0.0;
    SubtractThree(a, 0.0, 0.0, 0.0, 0.0, 1.0, 0.0, a, 0.0, 0.0);
    SubtractThree(e0, e1, 0.0, 0.0, 0.0, 1.0, 0.0, e0, e1, 0.0);
    SubtractThree(0.0, p, 0.0, 0.0, 0.0, 1.0, 0.0, 0.0, p, 0.0);
    SubtractThree(-r, 1.0, 0.0, 0.0, 0.0, 1.0, 0.0, -r, 1.0, 0.0);
    assert SubtractRow(s.temp[0], s.temp[2], 0.0) == SubtractRow([a, 0.0, 0.0], [0.0, 0.0, 1.0], 0.0);
    assert SubtractRow(s.ident[0], s.ident[2], 0.0) == SubtractRow([e0, e1, 0.0], [0.0, 0.0, 1.0], 0.0);
    assert SubtractRow(s.temp[1], s.temp[2], 0.0) == SubtractRow([0.0, p, 0.0], [0.0, 0.0, 1.0], 0.0);
    assert SubtractRow(s.ident[1], s.ident[2], 0.0) == SubtractRow([-r, 1.0, 0.0], [0.0, 0.0, 1.0], 0.0);
    assert EliminateRows(s, 3, 2, 0) == s;
    assert EliminateRow(s, 3, 2, 0) == s;
    assert EliminateRow(s, 3, 2, 1) == s;
    assert EliminateRows(s, 3, 2, 2) == s;
    assert EliminateRow(s, 3, 2, 2) == s;
  }

  /** Normalisation divides the rows by a, p and 1, leaving the adjugate over the determinant. */
  lemma NormalizeForward(a: real, b: real, c: real, d: real, r: real, p: real, q: real)
    requires a != 0.0 && r == c / a && p == d - r * b && p != 0.0 && q == b / p
    ensures Determinant(a, b, c, d) != 0.0
    ensures NormalizeRows(Augmented([[a, 0.0, 0.0], [0.0, p, 0.0], [0.0, 0.0, 1.0]],
                                    [[1.0 + q * r, -q, 0.0], [-r, 1.0, 0.0], [0.0, 0.0, 1.0]]), 3, 3).ident
         == ForwardInverse(a, b, c, d)
  {
    var det := Determinant(a, b, c, d);
    AdjugateEntries(a, b, c, d, r, p, q);
    var s := Augmented([[a, 0.0, 0.0], [0.0, p, 0.0], [0.0, 0.0, 1.0]],
                       [[1.0 + q * r, -q, 0.0], [-r, 1.0, 0.0], [0.0, 0.0, 1.0]]);
    DivideThree(a, 0.0, 0.0, a, 1.0, 0.0, 0.0);
    DivideThree(1.0 + q * r, -q, 0.0, a, d / det, -b / det, 0.0);
    DivideThree(0.0, p, 0.0, p, 0.0, 1.0, 0.0);
    DivideThree(-r, 1.0, 0.0, p, -c / det, a / det, 0.0);
    DivideThree(0.0, 0.0, 1.0, 1.0, 0.0, 0.0, 1.0);
    assert NormalizeRows(s, 3, 0) == s;
    var n1 := Augmented([[1.0, 0.0, 0.0], [0.0, p, 0.0], [0.0, 0.0, 1.0]],
                        [[d / det, -b / det, 0.0], [-r, 1.0, 0.0], [0.0, 0.0, 1.0]]);
    assert DivideRow(s.temp[0], a) == DivideRow([a, 0.0, 0.0], a);
    assert DivideRow(s.ident[0], a) == DivideRow([1.0 + q * r, -q, 0.0], a);
    assert NormalizeRows(s, 3, 1) == n1;
    var n2 := Augmented([[1.0, 0.0, 0.0], [0.0, 1.0, 0.0], [0.0, 0.0, 1.0]],
                        [[d / det, -b / det, 0.0], [-c / det, a / det, 0.0], [0.0, 0.0, 1.0]]);
    assert DivideRow(n1.temp[1], p) == DivideRow([0.0, p, 0.0], p);
    assert DivideRow(n1.ident[1], p) == DivideRow([-r, 1.0, 0.0], p);
    assert NormalizeRows(s, 3, 2) == n2;
    assert DivideRow(n2.temp[2], 1.0) == DivideRow([0.0, 0.0, 1.0], 1.0);
    assert DivideRow(n2.ident[2], 1.0) == DivideRow([0.0, 0.0, 1.0], 1.0);
    assert NormalizeRows(s, 3, 3) == n2;
  }

  /** Dividing twice is dividing by the product. */
  lemma QuotientOverProduct(x: real, y: real, z: real, det: real)
    requires y != 0.0 && z != 0.0 && det == y * z
    ensures (x / y) / z == x / det
  {
    var u := x / y;
    assert u * y == x;
    assert (u / z) * (y * z) == u * y;
  }

  /** A factor recovered from its product. */
  lemma Cancel(x: real, k: real, n: real)
    requires k != 0.0 && x * k == n
    ensures x == n / k
  {
    assert (n / k) * k == n;
    assert (x - n / k) * k == 0.0;
  }

  lemma Negate(x: real, y: real)
    requires y != 0.0
    ensures -x / y == -(x / y)
  {
  }

  /** The pivot of row 1 after the first column is eliminated, times a, is the determinant. */
  lemma PivotProduct(a: real, b: real, c: real, d: real, r: real, p: real)
    requires a != 0.0 && r == c / a && p == d - r * b
    ensures a * p == Determinant(a, b, c, d)
  {
    assert a * r == c;
    assert a * p == a * d - (a * r) * b;
  }

  /** Entry (0, 0) of the eliminated identity, before normalisation, is d / p. */
  lemma CornerEntry(a: real, b: real, c: real, d: real, q: real, r: real, p: real)
    requires a != 0.0 && p != 0.0 && q == b / p && r == c / a && p == d - r * b
    ensures 1.0 + q * r == d / p
  {
    assert r * b == d - p;
    assert q * p == b;
    assert (1.0 + q * r) * p == p + r * (q * p);
    assert (1.0 + q * r) * p == d;
    Cancel(1.0 + q * r, p, d);
  }

  /** The entries elimination produces, rewritten over the determinant. */
  lemma AdjugateEntries(a: real, b: real, c: real, d: real, r: real, p: real, q: real)
    requires a != 0.0 && r == c / a && p == d - r * b && p != 0.0 && q == b / p
    ensures Determinant(a, b, c, d) != 0.0
    ensures
      var det := Determinant(a, b, c, d);
      (1.0 + q * r) / a == d / det && -q / a == -b / det && -r / p == -c / det && 1.0 / p == a / det
  {
    var det := Determinant(a, b, c, d);
    PivotProduct(a, b, c, d, r, p);
    QuotientOverProduct(a, a, p, det);
    assert a / a == 1.0;
    QuotientOverProduct(c, a, p, det);
    Negate(r, p);
    Negate(c, det);
    QuotientOverProduct(b, p, a, det);
    Negate(q, a);
    Negate(b, det);
    CornerEntry(a, b, c, d, q, r, p);
    QuotientOverProduct(d, p, a, det);
  }

  /** Two products over a common denominator combine into one quotient. */
  lemma OverDenominator(p: real, u: real, q: real, v: real, det: real)
    requires det != 0.0
    ensures p * (u / det) + q * (v / det) == (p * u + q * v) / det
  {
    assert p * (u / det) == (p * u) / det;
    assert q * (v / det) == (q * v) / det;
  }

  /** A weighted sum over a common denominator whose numerator is x times it. */
  lemma UndoCoordinate(p: real, u: real, q: real, v: real, det: real, x: real)
    requires det != 0.0 && p * u + q * v == x * det
    ensures p * (u / det) + q * (v / det) == x
  {
    OverDenominator(p, u, q, v, det);
    Cancel(x, det, p * u + q * v);
  }

  /** The numerators of the round trip: the adjugate undoes the forward map up to
      the factor det. */
  lemma AdjugateNumerators(a: real, b: real, c: real, d: real, x: real, y: real, det: real)
    requires det == a * d - b * c
    ensures (a * x + c * y) * d + (b * x + d * y) * (-c) == x * det
    ensures (a * x + c * y) * (-b) + (b * x + d * y) * a == y * det
  {
    assert x * det == a * d * x - b * c * x;
    assert y * det == a * d * y - b * c * y;
    assert (a * x + c * y) * d == a * d * x + c * d * y;
    assert (b * x + d * y) * (-c) == -(b * c * x) - c * d * y;
    assert (a * x + c * y) * (-b) == -(a * b * x) - b * c * y;
    assert (b * x + d * y) * a == a * b * x + a * d * y;
  }

  /** The two entries of the round trip, as real arithmetic over the determinant. */
  lemma UndoEntries(a: real, b: real, c: real, d: real, x: real, y: real, det: real)
    requires det == a * d - b * c && det != 0.0
    ensures (a * x + c * y) * (d / det) + (b * x + d * y) * (-c / det) == x
    ensures (a * x + c * y) * (-b / det) + (b * x + d * y) * (a / det) == y
  {
    AdjugateNumerators(a, b, c, d, x, y, det);
    UndoCoordinate(a * x + c * y, d, b * x + d * y, -c, det, x);
    UndoCoordinate(a * x + c * y, -b, b * x + d * y, a, det, y);
  }

  /** Mapping a point forward and back through the inverse returns it. */
  lemma ForwardRoundTrip(a: real, b: real, c: real, d: real, x: real, y: real)
    requires Determinant(a, b, c, d) != 0.0
    ensures Product(Product(Point(x, y), Forward(a, b, c, d)), ForwardInverse(a, b, c, d)) == Point(x, y)
  {
    var det := Determinant(a, b, c, d);
    var x', y' := a * x + c * y, b * x + d * y;
    CornerImage(a, b, c, d, x, y);
    var inv := ForwardInverse(a, b, c, d);
    PointTimes(x', y', inv);
    assert inv[0][0] == d / det && inv[1][0] == -c / det && inv[2][0] == 0.0;
    assert inv[0][1] == -b / det && inv[1][1] == a / det && inv[2][1] == 0.0;
    UndoEntries(a, b, c, d, x, y, det);
    MatricesEqual(Product(Point(x', y'), inv), Point(x, y), 1, 3);
  }

  // ---------------------------------------------------------------------
  // The extent of the output canvas

  /** Width and height of the output bitmap, and the canvas position of its pixel (0, 0). */
  datatype Extent = Extent(newWidth: nat, newHeight: nat, xOffset: int, yOffset: int)

  /** The input's four corners as homogeneous row vectors. */
  function Corners(width: real, height: real): (cs: seq<Mat>)
    ensures |cs| == 4 && forall k :: 0 <= k < 4 ==> IsMatrix(cs[k], 1, 3)
  {
    [Point(0.0, 0.0), Point(width, 0.0), Point(0.0, height), Point(width, height)]
  }

  /** std::ceil of one coordinate (0 for x, 1 for y) of a corner mapped by m. */
  function MappedCeiling(corner: Mat, m: Mat, axis: nat): (r: int)
    requires IsMatrix(corner, 1, 3) && IsMatrix(m, 3, 3) && axis < 2
    ensures Product(corner, m)[0][axis] <= r as real < Product(corner, m)[0][axis] + 1.0
  {
    Ceil(Product(corner, m)[0][axis])
  }

  /** The ceilings of one coordinate of the four mapped corners. */
  function CornerCeilings(m: Mat, width: nat, height: nat, axis: nat): (r: seq<int>)
    requires IsMatrix(m, 3, 3) && axis < 2
    ensures |r| == 4
  {
    var cs := Corners(width as real, height as real);
    [MappedCeiling(cs[0], m, axis), MappedCeiling(cs[1], m, axis),
     MappedCeiling(cs[2], m, axis), MappedCeiling(cs[3], m, axis)]
  }

  /** The smallest element, as std::minmax_element finds it. */
  function MinOf(s: seq<int>): (r: int)
    requires |s| > 0
    ensures r in s && forall k :: 0 <= k < |s| ==> r <= s[k]
  {
    if |s| == 1 then s[0]
    else
      var rest := MinOf(s[1..]);
      if s[0] <= rest then s[0] else rest
  }

  /** The largest element, as std::minmax_element finds it. */
  function MaxOf(s: seq<int>): (r: int)
    requires |s| > 0
    ensures r in s && forall k :: 0 <= k < |s| ==> s[k] <= r
  {
    if |s| == 1 then s[0]
    else
      var rest := MaxOf(s[1..]);
      if s[0] >= rest then s[0] else rest
  }

  /** Elements of a sequence that bound all the others are its minimum and maximum. */
  lemma Extremes(s: seq<int>, lo: int, hi: int)
    requires lo in s && hi in s && forall k :: 0 <= k < |s| ==> lo <= s[k] <= hi
    ensures MinOf(s) == lo && MaxOf(s) == hi
  {
  }

  /** The canvas is the tightest integer box holding the corner ceilings xs and ys:
      its offsets are their minima and its sides reach their maxima. */
  function ExtentOf(xs: seq<int>, ys: seq<int>): (e: Extent)
    requires |xs| > 0 && |ys| > 0
    ensures forall k :: 0 <= k < |xs| ==> e.xOffset <= xs[k] <= e.xOffset + e.newWidth
    ensures forall k :: 0 <= k < |ys| ==> e.yOffset <= ys[k] <= e.yOffset + e.newHeight
    ensures e.xOffset in xs && e.xOffset + e.newWidth in xs
    ensures e.yOffset in ys && e.yOffset + e.newHeight in ys
  {
    Extent(MaxOf(xs) - MinOf(xs), MaxOf(ys) - MinOf(ys), MinOf(xs), MinOf(ys))
  }

  /** main.cpp's extent: the ceilings of the mapped corners, boxed. */
  function ComputeExtent(m: Mat, width: nat, height: nat): (e: Extent)
    requires IsMatrix(m, 3, 3)
    ensures forall k :: 0 <= k < 4 ==>
              e.xOffset <= CornerCeilings(m, width, height, 0)[k] <= e.xOffset + e.newWidth &&
              e.yOffset <= CornerCeilings(m, width, height, 1)[k] <= e.yOffset + e.newHeight
  {
    ExtentOf(CornerCeilings(m, width, height, 0), CornerCeilings(m, width, height, 1))
  }

  /** The ceiling of one coordinate of corner k, at (x, y), mapped by a matrix whose
      column for that coordinate is (p, q, 0). */
  lemma CornerCeilingEntry(m: Mat, width: nat, height: nat, axis: nat, k: nat, x: real, y: real)
    requires IsMatrix(m, 3, 3) && axis < 2 && m[2][axis] == 0.0 && k < 4
    requires x == (if k % 2 == 1 then width as real else 0.0)
    requires y == (if k >= 2 then height as real else 0.0)
    ensures CornerCeilings(m, width, height, axis)[k] == Ceil(x * m[0][axis] + y * m[1][axis])
  {
    assert Corners(width as real, height as real)[k] == Point(x, y);
    PointTimes(x, y, m);
  }

  /** The box is determined by the bounds it must reach: any bounds that are among
      the ceilings and enclose all of them are the offsets and far sides. */
  lemma ExtentUnique(xs: seq<int>, ys: seq<int>, xlo: int, xhi: int, ylo: int, yhi: int)
    requires xlo in xs && xhi in xs && forall k :: 0 <= k < |xs| ==> xlo <= xs[k] <= xhi
    requires ylo in ys && yhi in ys && forall k :: 0 <= k < |ys| ==> ylo <= ys[k] <= yhi
    ensures xhi - xlo >= 0 && yhi - ylo >= 0
    ensures ExtentOf(xs, ys) == Extent(xhi - xlo, yhi - ylo, xlo, ylo)
  {
    Extremes(xs, xlo, xhi);
    Extremes(ys, ylo, yhi);
  }

  /** The identity transform keeps the input's size and puts it at the origin. */
  lemma IdentityExtent(width: nat, height: nat)
    ensures ComputeExtent(Forward(1.0, 0.0, 0.0, 1.0), width, height) == Extent(width, height, 0, 0)
  {
    var m := Forward(1.0, 0.0, 0.0, 1.0);
    var xs := CornerCeilings(m, width, height, 0);
    var ys := CornerCeilings(m, width, height, 1);
    assert xs == [0, width, 0, width] by {
      CornerCeilingEntry(m, width, height, 0, 0, 0.0, 0.0);
      CornerCeilingEntry(m, width, height, 0, 1, width as real, 0.0);
      CornerCeilingEntry(m, width, height, 0, 2, 0.0, height as real);
      CornerCeilingEntry(m, width, height, 0, 3, width as real, height as real);
      CeilOfInteger(0);
      CeilOfInteger(width);
    }
    assert ys == [0, 0, height, height] by {
      CornerCeilingEntry(m, width, height, 1, 0, 0.0, 0.0);
      CornerCeilingEntry(m, width, height, 1, 1, width as real, 0.0);
      CornerCeilingEntry(m, width, height, 1, 2, 0.0, height as real);
      CornerCeilingEntry(m, width, height, 1, 3, width as real, height as real);
      CeilOfInteger(0);
      CeilOfInteger(height);
    }
    ExtentUnique([0, width, 0, width], [0, 0, height, height], 0, width, 0, height);
  }

  /** A quarter turn (a = d = 0, c = -b = 1) swaps the sides and moves the canvas up by the width. */
  lemma QuarterTurnExtent(width: nat, height: nat)
    ensures ComputeExtent(Forward(0.0, -1.0, 1.0, 0.0), width, height) == Extent(height, width, 0, -(width as int))
  {
    var m := Forward(0.0, -1.0, 1.0, 0.0);
    var xs := CornerCeilings(m, width, height, 0);
    var ys := CornerCeilings(m, width, height, 1);
    assert xs == [0, 0, height, height] by {
      CornerCeilingEntry(m, width, height, 0, 0, 0.0, 0.0);
      CornerCeilingEntry(m, width, height, 0, 1, width as real, 0.0);
      CornerCeilingEntry(m, width, height, 0, 2, 0.0, height as real);
      CornerCeilingEntry(m, width, height, 0, 3, width as real, height as real);
      CeilOfInteger(0);
      CeilOfInteger(height);
    }
    var w := -(width as int);
    assert ys == [0, w, 0, w] by {
      CornerCeilingEntry(m, width, height, 1, 0, 0.0, 0.0);
      CornerCeilingEntry(m, width, height, 1, 1, width as real, 0.0);
      CornerCeilingEntry(m, width, height, 1, 2, 0.0, height as real);
      CornerCeilingEntry(m, width, height, 1, 3, width as real, height as real);
      CeilOfInteger(0);
      CeilOfInteger(w);
      assert -1.0 * width as real == w as real;
    }
    ExtentUnique([0, 0, height, height], [0, w, 0, w], 0, height, w, 0);
  }

  // ---------------------------------------------------------------------
  // Nearest-neighbour resampling

  /** The source point of output pixel (newX, newY): its canvas position times the inverse. */
  function SourcePoint(inv: Mat, xOffset: int, yOffset: int, newX: int, newY: int): (p: Mat)
    requires IsMatrix(inv, 3, 3)
    ensures IsMatrix(p, 1, 3)
  {
    Product(Point((newX + xOffset) as real, (newY + yOffset) as real), inv)
  }

  /** What the loop leaves in output pixel (newX, newY): the input pixel at the rounded
      source point when the input has one there, and otherwise the default pixel. */
  function NearestPixel(input: Bitmap, inv: Mat, xOffset: int, yOffset: int, newX: int, newY: int): (p: Pixel)
    requires input.Valid() && IsMatrix(inv, 3, 3)
    reads input, input.pixels
    ensures p == Black || exists x, y :: 0 <= x < input.width && 0 <= y < input.height && p == input.Get(x, y)
  {
    var coord := SourcePoint(inv, xOffset, yOffset, newX, newY);
    var x, y := Round(coord[0][0]), Round(coord[0][1]);
    if 0 <= x < input.width && 0 <= y < input.height then input.Get(x, y) else Black
  }

  /** The body of the resampling loop: round the source point of output pixel
      (newX, newY) and fetch the input pixel there when the input has one. */
  method NearestSample(input: Bitmap, inv: Mat, xOffset: int, yOffset: int, newX: int, newY: int)
    returns (inside: bool, pixel: Pixel)
    requires input.Valid() && IsMatrix(inv, 3, 3)
    ensures inside ==> pixel == NearestPixel(input, inv, xOffset, yOffset, newX, newY)
    ensures !inside ==> NearestPixel(input, inv, xOffset, yOffset, newX, newY) == Black
  {
    var coord := MultiplyMatrices([[(newX + xOffset) as real, (newY + yOffset) as real, 1.0]], inv);
    var x, y := Round(coord[0][0]), Round(coord[0][1]);
    inside := 0 <= x < input.width && 0 <= y < input.height;
    pixel := if inside then input.Get(x, y) else Black;
  }

  /** The inner resampling loop (the loop over new_y): column newX of the output,
      still all default pixels, receives its nearest source pixels, and every other
      pixel is left alone. */
  method ResampleColumn(output: Bitmap, input: Bitmap, inv: Mat, xOffset: int, yOffset: int, newX: int)
    requires output.Valid() && input.Valid() && IsMatrix(inv, 3, 3)
    requires output.pixels != input.pixels
    requires 0 <= newX < output.width
    requires forall y :: 0 <= y < output.height ==> output.pixels[newX, y] == Black
    modifies output.pixels
    ensures forall x, y :: 0 <= x < output.width && 0 <= y < output.height ==>
              output.pixels[x, y] ==
                if x == newX then NearestPixel(input, inv, xOffset, yOffset, x, y) else old(output.pixels[x, y])
  {
    var newY := 0;
    while newY < output.height
      invariant 0 <= newY <= output.height
      invariant forall x, y :: 0 <= x < output.width && 0 <= y < output.height ==>
                  output.pixels[x, y] ==
                    if x == newX && y < newY then NearestPixel(input, inv, xOffset, yOffset, x, y)
                    else old(output.pixels[x, y])
    {
      var inside, pixel := NearestSample(input, inv, xOffset, yOffset, newX, newY);
      if inside {
        output.Set(newX, newY, pixel);
      }
      newY := newY + 1;
    }
  }

  /** The resampling loop: every pixel of a fresh new_width x new_height bitmap is
      visited once and receives its nearest source pixel, when there is one. */
  method ResampleNearest(input: Bitmap, inv: Mat, e: Extent) returns (output: Bitmap)
    requires input.Valid() && IsMatrix(inv, 3, 3)
    ensures fresh(output) && fresh(output.pixels) && output.Valid()
    ensures output.width == e.newWidth && output.height == e.newHeight
    ensures forall x, y :: 0 <= x < e.newWidth && 0 <= y < e.newHeight ==>
              output.pixels[x, y] == NearestPixel(input, inv, e.xOffset, e.yOffset, x, y)
  {
    output := new Bitmap(e.newWidth, e.newHeight);
    var newX := 0;
    while newX < e.newWidth
      invariant 0 <= newX <= e.newWidth
      invariant forall x, y :: 0 <= x < e.newWidth && 0 <= y < e.newHeight ==>
                  output.pixels[x, y] == if x < newX then NearestPixel(input, inv, e.xOffset, e.yOffset, x, y) else Black
    {
      ResampleColumn(output, input, inv, e.xOffset, e.yOffset, newX);
      newX := newX + 1;
    }
  }

  /** main.cpp from the four coefficients on: invert the forward matrix, size the
      canvas and resample. Where the source would divide by a zero pivot the model
      reports SingularMatrix, which happens exactly when a or the determinant is 0. */
  method Warp(input: Bitmap, a: real, b: real, c: real, d: real) returns (r: Result<Bitmap>)
    requires input.Valid()
    ensures r.Success? <==> a != 0.0 && Determinant(a, b, c, d) != 0.0
    ensures r.Success? ==>
              var e := ComputeExtent(Forward(a, b, c, d), input.width, input.height);
              fresh(r.value) && fresh(r.value.pixels) && r.value.Valid() &&
              r.value.width == e.newWidth && r.value.height == e.newHeight &&
              forall x, y :: 0 <= x < e.newWidth && 0 <= y < e.newHeight ==>
                r.value.pixels[x, y] == NearestPixel(input, ForwardInverse(a, b, c, d), e.xOffset, e.yOffset, x, y)
  {
    var matrix := Forward(a, b, c, d);
    var invMatrix := InverseMatrix(matrix);
    InverseOfForward(a, b, c, d);
    if invMatrix.Failure? {
      return Failure(invMatrix.error);
    }
    var e := ComputeExtent(matrix, input.width, input.height);
    var output := ResampleNearest(input, invMatrix.value, e);
    return Success(output);
  }

  /** Under the identity transform every input pixel lands on itself. */
  lemma NearestIdentity(input: Bitmap, x: int, y: int)
    requires input.Valid() && 0 <= x < input.width && 0 <= y < input.height
    ensures Determinant(1.0, 0.0, 0.0, 1.0) != 0.0
    ensures NearestPixel(input, ForwardInverse(1.0, 0.0, 0.0, 1.0), 0, 0, x, y) == input.Get(x, y)
  {
    var inv := ForwardInverse(1.0, 0.0, 0.0, 1.0);
    PointTimes(x as real, y as real, inv);
    RoundOfInteger(x);
    RoundOfInteger(y);
  }

  /** The identity transform reproduces the input: same size, no offset, same pixels. */
  lemma IdentityWarpCopies(input: Bitmap)
    requires input.Valid()
    ensures Determinant(1.0, 0.0, 0.0, 1.0) != 0.0
    ensures ComputeExtent(Forward(1.0, 0.0, 0.0, 1.0), input.width, input.height) == Extent(input.width, input.height, 0, 0)
    ensures forall x, y :: 0 <= x < input.width && 0 <= y < input.height ==>
              NearestPixel(input, ForwardInverse(1.0, 0.0, 0.0, 1.0), 0, 0, x, y) == input.Get(x, y)
  {
    IdentityExtent(input.width, input.height);
    forall x, y | 0 <= x < input.width && 0 <= y < input.height
      ensures NearestPixel(input, ForwardInverse(1.0, 0.0, 0.0, 1.0), 0, 0, x, y) == input.Get(x, y)
    {
      NearestIdentity(input, x, y);
    }
  }

  /** A canvas position that is the forward image of (x, y) maps back to (x, y). */
  lemma SourceOfImage(a: real, b: real, c: real, d: real,
                      xOffset: int, yOffset: int, newX: int, newY: int, x: real, y: real)
    requires Determinant(a, b, c, d) != 0.0
    requires (newX + xOffset) as real == a * x + c * y
    requires (newY + yOffset) as real == b * x + d * y
    ensures SourcePoint(ForwardInverse(a, b, c, d), xOffset, yOffset, newX, newY) == Point(x, y)
  {
    var image := Point(a * x + c * y, b * x + d * y);
    assert Product(Point(x, y), Forward(a, b, c, d)) == image by {
      CornerImage(a, b, c, d, x, y);
    }
    assert Product(image, ForwardInverse(a, b, c, d)) == Point(x, y) by {
      ForwardRoundTrip(a, b, c, d, x, y);
    }
    assert Point((newX + xOffset) as real, (newY + yOffset) as real) == image;
  }

  /** An output pixel whose canvas position is exactly the forward image of an input
      pixel receives that input pixel. */
  lemma NearestFindsPreimage(input: Bitmap, a: real, b: real, c: real, d: real,
                             xOffset: int, yOffset: int, newX: int, newY: int, x: int, y: int)
    requires input.Valid() && 0 <= x < input.width && 0 <= y < input.height
    requires Determinant(a, b, c, d) != 0.0
    requires (newX + xOffset) as real == a * x as real + c * y as real
    requires (newY + yOffset) as real == b * x as real + d * y as real
    ensures NearestPixel(input, ForwardInverse(a, b, c, d), xOffset, yOffset, newX, newY) == input.Get(x, y)
  {
    SourceOfImage(a, b, c, d, xOffset, yOffset, newX, newY, x as real, y as real);
    RoundOfInteger(x);
    RoundOfInteger(y);
  }
}
