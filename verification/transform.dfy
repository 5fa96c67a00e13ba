/** Affine transformations in the PDF convention of `pypdf/_page.py`: a
    2×3 matrix `[a b c d e f]` standing for the 3×3 matrix
    `((a, b, 0), (c, d, 0), (e, f, 1))` that multiplies a row vector
    `[x y 1]` (section 8.3.4 of ISO 32000-1).  Coordinates are reals. */
module Transformations {
  import opened PyBase

  /** The six-number compressed form `(a, b, c, d, e, f)`. */
  datatype Matrix = Matrix(a: real, b: real, c: real, d: real, e: real, f: real)

  const Identity: Matrix := Matrix(1.0, 0.0, 0.0, 1.0, 0.0, 0.0)

  /** A point `(x, y)`. */
  datatype Point = Point(x: real, y: real)

  /** The image of a point: `[x y 1]` times the matrix. */
  function Apply(m: Matrix, p: Point): Point
  {
    Point(m.a * p.x + m.c * p.y + m.e, m.b * p.x + m.d * p.y + m.f)
  }

  /** The product of `Transformation.transform`, `m` first and `n` after,
      which the text-layout code also uses under the name `mult`. */
  function Mult(m: Matrix, n: Matrix): Matrix
  {
    Matrix(m.a * n.a + m.b * n.c,
           m.a * n.b + m.b * n.d,
           m.c * n.a + m.d * n.c,
           m.c * n.b + m.d * n.d,
           m.e * n.a + m.f * n.c + n.e,
           m.e * n.b + m.f * n.d + n.f)
  }

  /** One coordinate of the product's image, expanded. */
  lemma Distribute(a: real, b: real, c: real, d: real, e: real, f: real, x: real, y: real, u: real, v: real, w: real)
    ensures (a * u + b * v) * x + (c * u + d * v) * y + (e * u + f * v + w)
            == u * (a * x + c * y + e) + v * (b * x + d * y + f) + w
  {
    calc {
      (a * u + b * v) * x + (c * u + d * v) * y + (e * u + f * v + w);
      u * (a * x) + v * (b * x) + u * (c * y) + v * (d * y) + u * e + v * f + w;
      u * (a * x + c * y + e) + v * (b * x + d * y + f) + w;
    }
  }

  /** Applying a product is applying its left factor, then its right one. */
  lemma MultApply(m: Matrix, n: Matrix, p: Point)
    ensures Apply(Mult(m, n), p) == Apply(n, Apply(m, p))
  {
    MultApplyX(m, n, p);
    MultApplyY(m, n, p);
  }

  lemma MultApplyX(m: Matrix, n: Matrix, p: Point)
    ensures Apply(Mult(m, n), p).x == Apply(n, Apply(m, p)).x
  {
    Distribute(m.a, m.b, m.c, m.d, m.e, m.f, p.x, p.y, n.a, n.c, n.e);
  }

  lemma MultApplyY(m: Matrix, n: Matrix, p: Point)
    ensures Apply(Mult(m, n), p).y == Apply(n, Apply(m, p)).y
  {
    Distribute(m.a, m.b, m.c, m.d, m.e, m.f, p.x, p.y, n.b, n.d, n.f);
  }

  /** The identity is neutral on both sides of the product. */
  lemma MultIdentity(m: Matrix)
    ensures Mult(Identity, m) == m
    ensures Mult(m, Identity) == m
  {
  }

  /** Two matrices that move every point alike are equal. */
  lemma ApplyDetermines(m: Matrix, n: Matrix)
    requires Apply(m, Point(0.0, 0.0)) == Apply(n, Point(0.0, 0.0))
    requires Apply(m, Point(1.0, 0.0)) == Apply(n, Point(1.0, 0.0))
    requires Apply(m, Point(0.0, 1.0)) == Apply(n, Point(0.0, 1.0))
    ensures m == n
  {
  }

  /** The product is associative, so a stack of frames may be folded in
      any grouping: both groupings move every point alike. */
  lemma MultAssoc(m: Matrix, n: Matrix, o: Matrix)
    ensures Mult(Mult(m, n), o) == Mult(m, Mult(n, o))
  {
    var ps := [Point(0.0, 0.0), Point(1.0, 0.0), Point(0.0, 1.0)];
    forall p | p in ps
      ensures Apply(Mult(Mult(m, n), o), p) == Apply(Mult(m, Mult(n, o)), p)
    {
      MultApply(Mult(m, n), o, p);
      MultApply(m, n, p);
      MultApply(m, Mult(n, o), p);
      MultApply(n, o, Apply(m, p));
    }
    ApplyDetermines(Mult(Mult(m, n), o), Mult(m, Mult(n, o)));
  }

  // ---------------------------------------------------------------------
  // Transformation
  // ---------------------------------------------------------------------

  /** `Transformation(ctm)`. */
  datatype Transformation = Transformation(ctm: Matrix)

  /** `Transformation()`: the default matrix is the identity. */
  function Default(): (r: Transformation)
    ensures forall p: Point {:trigger Apply(r.ctm, p)} :: Apply(r.ctm, p) == p
  {
    Transformation(Identity)
  }

  /** The three rows of the 3×3 form. */
  datatype Rows = Rows(r0: (real, real, real), r1: (real, real, real), r2: (real, real, real))

  /** `matrix`: `((a, b, 0), (c, d, 0), (e, f, 1))`. */
  function Expanded(t: Transformation): (r: Rows)
    ensures r.r0.2 == 0.0 && r.r1.2 == 0.0 && r.r2.2 == 1.0
  {
    var m := t.ctm;
    Rows((m.a, m.b, 0.0), (m.c, m.d, 0.0), (m.e, m.f, 1.0))
  }

  /** `compress(matrix)`: the first two columns, row by row. */
  function Compress(rows: Rows): Matrix
  {
    Matrix(rows.r0.0, rows.r0.1, rows.r1.0, rows.r1.1, rows.r2.0, rows.r2.1)
  }

  /** `compress` undoes `matrix`, and `matrix` undoes `compress` on every
      3×3 matrix whose last column is `(0, 0, 1)`. */
  lemma CompressRoundTrip(t: Transformation, rows: Rows)
    ensures Compress(Expanded(t)) == t.ctm
    ensures rows.r0.2 == 0.0 && rows.r1.2 == 0.0 && rows.r2.2 == 1.0 ==>
      Expanded(Transformation(Compress(rows))) == rows
  {
  }

  /** `t.transform(m)`: the new matrix is `t`'s followed by `m`'s. */
  function Transform(t: Transformation, m: Transformation): Transformation
  {
    Transformation(Mult(t.ctm, m.ctm))
  }

  /** `apply_on(pt)`: `(a x + c y + e, b x + d y + f)`. */
  function ApplyOn(t: Transformation, p: Point): Point
  {
    Apply(t.ctm, p)
  }

  /** Applying `t1.transform(t2)` is applying `t1`, then `t2`; the default
      transformation is neutral on both sides of `transform`. */
  lemma TransformComposes(t1: Transformation, t2: Transformation, p: Point)
    ensures ApplyOn(Transform(t1, t2), p) == ApplyOn(t2, ApplyOn(t1, p))
    ensures Transform(Default(), t1) == t1 && Transform(t1, Default()) == t1
  {
    MultApply(t1.ctm, t2.ctm, p);
    MultIdentity(t1.ctm);
  }

  /** `translate(tx, ty)`. */
  function Translate(t: Transformation, tx: real, ty: real): Transformation
  {
    Transform(t, Transformation(Matrix(1.0, 0.0, 0.0, 1.0, tx, ty)))
  }

  /** A translation moves every image of `t` by `(tx, ty)`, and translations
      add up. */
  lemma TranslateShifts(t: Transformation, tx: real, ty: real, ux: real, uy: real, p: Point)
    ensures ApplyOn(Translate(t, tx, ty), p) == Point(ApplyOn(t, p).x + tx, ApplyOn(t, p).y + ty)
    ensures Translate(Translate(t, tx, ty), ux, uy) == Translate(t, tx + ux, ty + uy)
  {
    TransformComposes(t, Transformation(Matrix(1.0, 0.0, 0.0, 1.0, tx, ty)), p);
  }

  /** `scale(sx, sy)`: with both factors absent the transformation itself;
      an absent factor takes the other one's value. */
  function Scale(t: Transformation, sx: Option<real>, sy: Option<real>): (r: Transformation)
  {
    if sx.None? && sy.None? then t
    else
      var x := if sx.None? then sy.value else sx.value;
      var y := if sy.None? then x else sy.value;
      Transform(t, Transformation(Matrix(x, 0.0, 0.0, y, 0.0, 0.0)))
  }

  /** Scaling multiplies each coordinate of every image of `t`; both
      factors absent changes nothing, and one absent factor copies the
      other. */
  lemma ScaleStretches(t: Transformation, sx: real, sy: real, p: Point)
    ensures ApplyOn(Scale(t, Some(sx), Some(sy)), p) == Point(sx * ApplyOn(t, p).x, sy * ApplyOn(t, p).y)
    ensures Scale(t, None, None) == t
    ensures Scale(t, Some(sx), None) == Scale(t, Some(sx), Some(sx))
    ensures Scale(t, None, Some(sy)) == Scale(t, Some(sy), Some(sy))
  {
    TransformComposes(t, Transformation(Matrix(sx, 0.0, 0.0, sy, 0.0, 0.0)), p);
  }
}
