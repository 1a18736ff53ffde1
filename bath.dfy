/** Bath coordinates and the integer arithmetic of the crystallization engine:
    the bath-to-storage transform, the circle test, the growth-radius update
    and the two radii fixed at construction. */
module Bath {

  /** A point of the bath: origin at the centre of the grid, x grows to the
      right, y grows upwards. */
  type Pos = (int, int)

  function Max(a: int, b: int): int { if a >= b then a else b }

  function Abs(a: int): int { if a >= 0 then a else -a }

  /** n * n, defined by (n - 1)^2 + 2n - 1 so that the solver reasons about
      squares through the lemmas below (SqIsProduct ties it to n * n). */
  function Sq(n: int): nat
    decreases Abs(n), if n < 0 then 1 else 0
  {
    if n == 0 then 0 else if n < 0 then Sq(-n) else Sq(n - 1) + 2 * n - 1
  }

  /** Squared distance of (x, y) from the bath origin, Java's `x*x + y*y`. */
  function Dist2(x: int, y: int): nat { Sq(x) + Sq(y) }

  // ---------------------------------------------------------------------
  // Squares and integer square root (stand-in for Math.sqrt)
  // ---------------------------------------------------------------------

  lemma {:induction false} SqIsProduct(n: int)
    ensures Sq(n) == n * n
    decreases Abs(n), if n < 0 then 1 else 0
  {
    if n < 0 { SqIsProduct(-n); }
    else if n > 0 { SqIsProduct(n - 1); }
  }

  lemma {:induction false} SquareMono(a: int, b: int)
    requires 0 <= a <= b
    ensures Sq(a) <= Sq(b)
    decreases b - a
  {
    if a < b { SquareMono(a, b - 1); }
  }

  lemma SquareStrictMono(a: int, b: int)
    requires 0 <= a < b
    ensures Sq(a) < Sq(b)
  {
    SquareMono(a, b - 1);
  }

  /** |x| < e follows from x*x < e*e when e > 0. */
  lemma SquareBelow(x: int, e: int)
    requires e > 0 && Sq(x) < Sq(e)
    ensures -e < x < e
  {
    if x >= e { SquareMono(e, x); }
    if x <= -e { SquareMono(e, -x); }
  }

  /** (2t)^2 = 4 t^2. */
  lemma {:induction false} SqDouble(t: int)
    ensures Sq(2 * t) == 4 * Sq(t)
    decreases Abs(t), if t < 0 then 1 else 0
  {
    if t < 0 {
      SqDouble(-t);
    } else if t > 0 {
      SqDouble(t - 1);
      assert Sq(2 * t) == Sq(2 * t - 2) + 8 * t - 4;
    }
  }

  /** The floor of the square root of n. */
  function ISqrt(n: nat): (r: nat)
    ensures Sq(r) <= n < Sq(r + 1)
    decreases n
  {
    if n < 4 then (if n == 0 then 0 else 1)
    else
      var t := ISqrt(n / 4);
      var s := 2 * t;
      assert Sq(s) <= n by { SqDouble(t); }
      assert n < Sq(s + 2) by {
        SqDouble(t + 1);
        assert 2 * (t + 1) == s + 2;
      }
      if Sq(s + 1) <= n then s + 1 else s
  }

  /** The floor square root is determined by its defining inequalities. */
  lemma ISqrtUnique(n: nat, r: nat)
    requires Sq(r) <= n < Sq(r + 1)
    ensures ISqrt(n) == r
  {
    var s := ISqrt(n);
    if s < r { SquareMono(s + 1, r); }
    if r < s { SquareMono(r + 1, s); }
  }

  // ---------------------------------------------------------------------
  // Coordinate transform (xBathToModelRep / yBathToModelRep)
  // ---------------------------------------------------------------------

  /** Storage column of bath x, for escape radius e. */
  function XBathToModelRep(e: int, x: int): int { x + e + 4 }

  /** Storage row of bath y, for escape radius e: the y axis is flipped. */
  function YBathToModelRep(e: int, y: int): int { e - y + 4 }

  /** Bath x of storage column col. */
  function XModelRepToBath(e: int, col: int): int { col - e - 4 }

  /** Bath y of storage row row. */
  function YModelRepToBath(e: int, row: int): int { e + 4 - row }

  /** The transform is a bijection between bath points and storage cells. */
  lemma TransformBijection(e: int, x: int, y: int, row: int, col: int)
    ensures (row == YBathToModelRep(e, y) && col == XBathToModelRep(e, x))
        <==> (x == XModelRepToBath(e, col) && y == YModelRepToBath(e, row))
  {
  }

  /** Storage cell (row, col) holds bath point p exactly when p's transform
      is (row, col). */
  lemma StoredAt(e: int, p: Pos, row: int, col: int)
    ensures (XModelRepToBath(e, col), YModelRepToBath(e, row)) == p
        <==> (row == YBathToModelRep(e, p.1) && col == XBathToModelRep(e, p.0))
  {
    TransformBijection(e, p.0, p.1, row, col);
  }

  /** The bath point p lies on a size x size grid with escape radius e. */
  predicate InGrid(size: int, e: int, p: Pos) {
    0 <= YBathToModelRep(e, p.1) < size && 0 <= XBathToModelRep(e, p.0) < size
  }

  /** The 4-cell margin: every bath point with |x|, |y| <= e + 3 is stored
      inside the grid. */
  lemma MarginInGrid(size: int, x: int, y: int)
    requires size >= 0
    requires Abs(x) <= EscapeRadius(size) + 3 && Abs(y) <= EscapeRadius(size) + 3
    ensures InGrid(size, EscapeRadius(size), (x, y))
  {
  }

  // ---------------------------------------------------------------------
  // Radii
  // ---------------------------------------------------------------------

  /** Java's `size / 2 - 4`, with int division truncating toward zero. */
  function EscapeRadius(size: int): (e: int)
    ensures size >= 0 ==> 2 * (e + 4) <= size <= 2 * (e + 4) + 1
    ensures size < 0 ==> 2 * (e + 4) >= size >= 2 * (e + 4) - 1
  {
    if size >= 0 then size / 2 - 4 else -((-size) / 2) - 4
  }

  /** Java's `(int)(0.1 * e)`: the cast truncates toward zero. For every int
      e >= 0 the double product 0.1 * e truncates to the floor of e / 10. */
  function TenthTruncated(e: int): int {
    if e >= 0 then e / 10 else -((-e) / 10)
  }

  /** `escapeCircleRadius - (int)(0.1 * escapeCircleRadius)`. */
  function StartRadius(e: int): (r: int)
    ensures e >= 0 ==> 0 <= r <= e && 10 * (e - r) <= e < 10 * (e - r) + 10
    ensures -10 < e < 0 ==> r == e
  {
    e - TenthTruncated(e)
  }

  // ---------------------------------------------------------------------
  // Circle test and growth radius
  // ---------------------------------------------------------------------

  /** `outsideCicle`: sqrt(x*x + y*y) >= r, evaluated on integers; the
      circle itself counts as outside. */
  function OutsideCircle(r: int, x: int, y: int): bool {
    r <= 0 || Dist2(x, y) >= Sq(r)
  }

  /** The circle test compares the (floored) distance with r: the point is
      outside exactly when its distance from the origin is at least r. */
  lemma OutsideCircleIsDistance(r: int, x: int, y: int)
    ensures OutsideCircle(r, x, y) <==> ISqrt(Dist2(x, y)) >= r
  {
    var d := Dist2(x, y);
    var s := ISqrt(d);
    if r > 0 {
      if s >= r { SquareMono(r, s); }
      if d >= Sq(r) && s < r { SquareMono(s + 1, r); }
    }
  }

  /** A point strictly inside the circle of radius r has both coordinates
      strictly between -r and r. */
  lemma InsideCircleBounds(r: int, x: int, y: int)
    requires !OutsideCircle(r, x, y)
    ensures -r < x < r && -r < y < r
  {
    SquareBelow(x, r);
    SquareBelow(y, r);
  }

  /** The radius after an attachment at (x, y): Java sets
      currentRadius = (int)sqrt(x*x + y*y) + 3 when sqrt(x*x + y*y) + 3 exceeds
      currentRadius, and keeps it otherwise. */
  function UpdatedRadius(radius: int, x: int, y: int): (r: int)
    ensures r == Max(radius, ISqrt(Dist2(x, y)) + 3)
  {
    var d := Dist2(x, y);
    var s := ISqrt(d);
    if radius - 3 < 0 || d > Sq(radius - 3) then
      assert s + 3 >= radius by {
        if radius - 3 >= 0 && s < radius - 3 { SquareMono(s + 1, radius - 3); }
      }
      s + 3
    else
      assert s + 3 <= radius by {
        if s > radius - 3 { SquareStrictMono(radius - 3, s); }
      }
      radius
  }

  // ---------------------------------------------------------------------
  // Neighbourhood and the random step
  // ---------------------------------------------------------------------

  /** p and q are orthogonal neighbours. */
  predicate Neighbours(p: Pos, q: Pos) {
    Abs(p.0 - q.0) + Abs(p.1 - q.1) == 1
  }

  /** `anyNeighbours`: one of the four orthogonal neighbours of p is occupied
      (checked in the order y + 1, y - 1, x + 1, x - 1). */
  predicate Touches(occupied: set<Pos>, p: Pos) {
    (p.0, p.1 + 1) in occupied || (p.0, p.1 - 1) in occupied ||
    (p.0 + 1, p.1) in occupied || (p.0 - 1, p.1) in occupied
  }

  /** Touches is exactly "some occupied cell is a neighbour". */
  lemma TouchesIsNeighbour(occupied: set<Pos>, p: Pos)
    ensures Touches(occupied, p) <==> exists q :: q in occupied && Neighbours(q, p)
  {
    if q :| q in occupied && Neighbours(q, p) {
      assert q == (p.0, p.1 + 1) || q == (p.0, p.1 - 1) || q == (p.0 + 1, p.1) || q == (p.0 - 1, p.1);
    }
    if Touches(occupied, p) {
      if (p.0, p.1 + 1) in occupied { assert Neighbours((p.0, p.1 + 1), p); }
      else if (p.0, p.1 - 1) in occupied { assert Neighbours((p.0, p.1 - 1), p); }
      else if (p.0 + 1, p.1) in occupied { assert Neighbours((p.0 + 1, p.1), p); }
      else { assert Neighbours((p.0 - 1, p.1), p); }
    }
  }

  /** One step of the walk for the value of `random.nextInt(4)`: 0 right,
      1 left, 2 up, 3 down; any other value leaves the walker in place (the
      switch's default branch). */
  function Step(p: Pos, dir: int): (q: Pos)
    ensures 0 <= dir < 4 ==> Neighbours(p, q)
    ensures !(0 <= dir < 4) ==> q == p
  {
    if dir == 0 then (p.0 + 1, p.1)
    else if dir == 1 then (p.0 - 1, p.1)
    else if dir == 2 then (p.0, p.1 + 1)
    else if dir == 3 then (p.0, p.1 - 1)
    else p
  }

  /** A step from strictly inside the square of half-width e stays in it
      (boundary included). */
  lemma StepStaysNear(p: Pos, dir: int, e: int)
    requires -e < p.0 < e && -e < p.1 < e
    ensures Abs(Step(p, dir).0) <= e && Abs(Step(p, dir).1) <= e
  {
  }
}
