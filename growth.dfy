/** The crystallization algorithm as functions on values: the walk of one
    ion, the effect of one released ion on the engine's state, the batch
    driver, and the invariants they keep (every occupied cell was attached
    next to an earlier one, the growth radius covers every occupied cell). */
module Growth {
  import opened Bath

  /** How the inner walk loop of `crystallizeOneIon` ends, and where. */
  datatype WalkEnd =
    | Attached(at: Pos)  // an occupied neighbour was found: the ion settles here
    | Escaped(at: Pos)   // the ion reached the escape circle without settling
    | Stalled(at: Pos)   // the supplied directions ran out first
    | Blocked(at: Pos)   // the loop guard found the walker's own cell occupied

  /** The walk loop, with the random directions supplied in dirs: test the
      loop guard, then the neighbours, then the escape circle, then step. */
  function Walk(occupied: set<Pos>, e: int, p: Pos, dirs: seq<int>): (w: WalkEnd)
    ensures w.Attached? ==> w.at !in occupied && Touches(occupied, w.at)
    ensures w.Escaped? ==> w.at !in occupied && !Touches(occupied, w.at) && OutsideCircle(e, w.at.0, w.at.1)
    ensures w.Stalled? ==> w.at !in occupied && !Touches(occupied, w.at) && !OutsideCircle(e, w.at.0, w.at.1)
    ensures w.Blocked? ==> w.at in occupied
    decreases |dirs|
  {
    if p in occupied then Blocked(p)
    else if Touches(occupied, p) then Attached(p)
    else if OutsideCircle(e, p.0, p.1) then Escaped(p)
    else if dirs == [] then Stalled(p)
    else Walk(occupied, e, Step(p, dirs[0]), dirs[1..])
  }

  /** An ion that starts on a free cell never finds its own cell occupied:
      the "NEVER BE" exit after the loop is unreachable. */
  lemma {:induction false} WalkNeverBlocked(occupied: set<Pos>, e: int, p: Pos, dirs: seq<int>)
    requires p !in occupied
    ensures !Walk(occupied, e, p, dirs).Blocked?
    decreases |dirs|
  {
    if !Touches(occupied, p) && !OutsideCircle(e, p.0, p.1) && dirs != [] {
      var q := Step(p, dirs[0]);
      assert q !in occupied;
      WalkNeverBlocked(occupied, e, q, dirs[1..]);
    }
  }

  /** The cells occupied by an attachment history. */
  function Cells(h: seq<Pos>): set<Pos> { set p | p in h }

  /** The engine's state as a value: the attachment history since the last
      reset (the seed first, then each attached ion in order), the growth
      radius, and the last walker position. */
  datatype Snapshot = Snapshot(growth: seq<Pos>, radius: int, walker: Pos)

  /** What `crystallizeOneIon` returns: its boolean, or OutOfSteps when the
      supplied directions ran out before the ion settled or escaped. */
  datatype IonResult = Done(goOn: bool) | OutOfSteps

  /** One released ion, dropped at drop and walking by dirs, for escape
      radius e and start radius start. */
  function Ion(s: Snapshot, e: int, start: int, drop: Pos, dirs: seq<int>): (Snapshot, IonResult) {
    match Walk(Cells(s.growth), e, drop, dirs)
    case Attached(p) =>
      (Snapshot(s.growth + [p], UpdatedRadius(s.radius, p.0, p.1), p), Done(!OutsideCircle(start, p.0, p.1)))
    case Escaped(p) => (s.(walker := p), Done(true))
    case Stalled(p) => (s.(walker := p), OutOfSteps)
    case Blocked(p) => (s.(walker := p), Done(false))
  }

  /** Every element after the seed is a new cell, orthogonally adjacent to an
      element attached before it. */
  ghost predicate GrownFromSeed(h: seq<Pos>) {
    && |h| >= 1
    && h[0] == (0, 0)
    && forall i :: 0 < i < |h| ==> AttachedAt(h, i)
  }

  /** The i-th element of h is new and next to an element before it. */
  ghost predicate AttachedAt(h: seq<Pos>, i: nat)
    requires 0 < i < |h|
  {
    h[i] !in h[..i] && exists j :: 0 <= j < i && Neighbours(h[j], h[i])
  }

  /** The growth radius is at least 5 and at least 3 more than the floored
      distance of every occupied cell. */
  ghost predicate WithinRadius(h: seq<Pos>, radius: int) {
    radius >= 5 && forall i :: 0 <= i < |h| ==> Covers(radius, h[i])
  }

  /** p lies strictly inside the circle of radius - 2, that is, its floored
      distance plus 3 is at most radius (see CoversIsFlooredDistance). */
  predicate Covers(radius: int, p: Pos) {
    radius >= 3 && Dist2(p.0, p.1) < Sq(radius - 2)
  }

  lemma CoversIsFlooredDistance(radius: int, p: Pos)
    requires radius >= 3
    ensures Covers(radius, p) <==> ISqrt(Dist2(p.0, p.1)) + 3 <= radius
  {
    var d := Dist2(p.0, p.1);
    var q := ISqrt(d);
    if q + 3 <= radius { SquareMono(q + 1, radius - 2); }
    if q + 3 > radius { SquareMono(radius - 2, q); }
  }

  /** A larger radius covers every cell a smaller one covers. */
  lemma CoversMono(radius: int, radius': int, p: Pos)
    requires Covers(radius, p) && radius <= radius'
    ensures Covers(radius', p)
  {
    SquareMono(radius - 2, radius' - 2);
  }

  ghost predicate Inv(s: Snapshot) {
    GrownFromSeed(s.growth) && WithinRadius(s.growth, s.radius)
  }

  /** The truncations toward zero of the points of the circle of radius r,
      which is what `dropNewIon` computes: p is one exactly when the unit box
      [|x|, |x| + 1) x [|y|, |y| + 1) of points truncating to it meets the
      circle, that is, its near corner lies on or inside the circle and its
      far corner strictly outside. */
  predicate DropGuard(r: int, p: Pos) {
    Dist2(p.0, p.1) <= Sq(r) < Sq(Abs(p.0) + 1) + Sq(Abs(p.1) + 1)
  }

  /** A truncated circle point lies within r on both axes and in the ring
      between the circles of radius r - 2 and r. */
  lemma DropNearCircle(r: int, p: Pos)
    requires r >= 2 && DropGuard(r, p)
    ensures Abs(p.0) <= r && Abs(p.1) <= r
    ensures Sq(r - 2) <= Dist2(p.0, p.1) <= Sq(r)
  {
    var a, b := Abs(p.0), Abs(p.1);
    assert Sq(p.0) == Sq(a) && Sq(p.1) == Sq(b);
    assert Sq(a + 1) == Sq(a) + 2 * a + 1;
    assert Sq(b + 1) == Sq(b) + 2 * b + 1;
    assert Sq(r) == Sq(r - 2) + 4 * r - 4 by {
      assert Sq(r) == Sq(r - 1) + 2 * r - 1;
      if r - 1 > 0 { assert Sq(r - 1) == Sq(r - 2) + 2 * r - 3; }
    }
    if a > r { SquareStrictMono(r, a); }
    else if b > r { SquareStrictMono(r, b); }
    else if Dist2(p.0, p.1) < Sq(r - 2) {
      // then a, b <= r - 3, and the far corner would lie inside the circle
      if a >= r - 2 { SquareMono(r - 2, a); }
      else if b >= r - 2 { SquareMono(r - 2, b); }
    }
  }

  /** An ion is never dropped on an occupied cell. */
  lemma DropIsFree(h: seq<Pos>, radius: int, drop: Pos)
    requires WithinRadius(h, radius) && DropGuard(radius, drop)
    ensures drop !in Cells(h)
  {
    DropNearCircle(radius, drop);
    assert !Covers(radius, drop);
    forall i | 0 <= i < |h| ensures h[i] != drop {
      assert Covers(radius, h[i]);
    }
  }

  /** The seed alone satisfies the invariant for any radius >= 5. */
  lemma SeedInv(radius: int, walker: Pos)
    requires radius >= 5
    ensures Inv(Snapshot([(0, 0)], radius, walker))
  {
    var h := [(0, 0)];
    forall i | 0 <= i < |h| ensures Covers(radius, h[i]) {
      assert h[i] == (0, 0);
      SquareMono(1, radius - 2);
    }
    assert WithinRadius(h, radius);
    assert GrownFromSeed(h);
  }

  /** Attaching a free cell adjacent to the cluster keeps it grown from the
      seed. */
  lemma AttachGrows(h: seq<Pos>, p: Pos)
    requires GrownFromSeed(h) && p !in Cells(h) && Touches(Cells(h), p)
    ensures GrownFromSeed(h + [p])
  {
    var h' := h + [p];
    TouchesIsNeighbour(Cells(h), p);
    var q :| q in Cells(h) && Neighbours(q, p);
    var j :| 0 <= j < |h| && h[j] == q;
    assert h'[..|h|] == h;
    forall i | 0 < i < |h'|
      ensures AttachedAt(h', i)
    {
      if i < |h| {
        assert AttachedAt(h, i);
        assert h'[..i] == h[..i];
        var k :| 0 <= k < i && Neighbours(h[k], h[i]);
        assert Neighbours(h'[k], h'[i]);
      } else {
        assert h'[j] == q;
        assert p !in h;
      }
    }
  }

  /** Cells(h + [p]) adds exactly p. */
  lemma CellsAppend(h: seq<Pos>, p: Pos)
    ensures Cells(h + [p]) == Cells(h) + {p}
  {
    assert forall q :: q in h + [p] <==> q in h || q == p;
  }

  /** Adding a cell and updating the radius for it keeps every cell covered. */
  lemma AttachCovers(h: seq<Pos>, radius: int, p: Pos)
    requires WithinRadius(h, radius)
    ensures WithinRadius(h + [p], UpdatedRadius(radius, p.0, p.1))
  {
    var h' := h + [p];
    var r' := UpdatedRadius(radius, p.0, p.1);
    forall i | 0 <= i < |h'| ensures Covers(r', h'[i]) {
      if i < |h| {
        assert h'[i] == h[i];
        CoversMono(radius, r', h[i]);
      } else {
        CoversIsFlooredDistance(r', p);
      }
    }
  }

  /** Attaching a free cell next to the cluster keeps the invariant once the
      radius is updated. */
  lemma AttachKeepsInv(s: Snapshot, p: Pos, walker: Pos)
    requires Inv(s) && p !in Cells(s.growth) && Touches(Cells(s.growth), p)
    ensures Inv(Snapshot(s.growth + [p], UpdatedRadius(s.radius, p.0, p.1), walker))
  {
    AttachGrows(s.growth, p);
    AttachCovers(s.growth, s.radius, p);
  }

  /** The growth radius never decreases, and while the ion reports that
      growth goes on it stays within start + 2 of the origin. */
  lemma IonRadius(s: Snapshot, e: int, start: int, drop: Pos, dirs: seq<int>)
    ensures var (t, r) := Ion(s, e, start, drop, dirs);
      && t.radius >= s.radius
      && (r == Done(true) ==> t.radius <= Max(s.radius, start + 2))
  {
    var w := Walk(Cells(s.growth), e, drop, dirs);
    if w.Attached? && !OutsideCircle(start, w.at.0, w.at.1) {
      OutsideCircleIsDistance(start, w.at.0, w.at.1);
    }
  }

  /** One released ion keeps the invariant; the growth radius never
      decreases; cells are only ever added, at most one per ion, and an added
      cell was free and next to an occupied one. While the ion reports that
      growth goes on, the radius stays within start + 2 of the origin. */
  lemma IonKeepsInv(s: Snapshot, e: int, start: int, drop: Pos, dirs: seq<int>)
    requires Inv(s) && DropGuard(s.radius, drop)
    ensures var (t, r) := Ion(s, e, start, drop, dirs);
      && Inv(t)
      && t.radius >= s.radius
      && (t.growth == s.growth ||
          exists p :: t.growth == s.growth + [p] && p !in Cells(s.growth) && Touches(Cells(s.growth), p))
      && (r == Done(true) ==> t.radius <= Max(s.radius, start + 2))
  {
    DropIsFree(s.growth, s.radius, drop);
    WalkNeverBlocked(Cells(s.growth), e, drop, dirs);
    var w := Walk(Cells(s.growth), e, drop, dirs);
    if w.Attached? {
      var p := w.at;
      AttachKeepsInv(s, p, p);
    }
    IonRadius(s, e, start, drop, dirs);
  }

  /** What the ion's result means. It is Done(false) exactly when the ion
      attached at distance >= start; it is Done(true) when it attached
      strictly inside the start circle or escaped, leaving the cluster as it
      was; OutOfSteps leaves the cluster as it was. The neighbour test comes
      first: an ion that escapes had no occupied neighbour. */
  lemma IonResultMeaning(s: Snapshot, e: int, start: int, drop: Pos, dirs: seq<int>)
    requires Inv(s) && DropGuard(s.radius, drop)
    ensures var (t, r) := Ion(s, e, start, drop, dirs);
      && (r == Done(false) <==>
           |t.growth| == |s.growth| + 1 && OutsideCircle(start, t.walker.0, t.walker.1))
      && (r == Done(true) <==>
           (|t.growth| == |s.growth| + 1 && !OutsideCircle(start, t.walker.0, t.walker.1)) ||
           (t.growth == s.growth && OutsideCircle(e, t.walker.0, t.walker.1) &&
            !Touches(Cells(s.growth), t.walker)))
      && (|t.growth| == |s.growth| + 1 ==> t.growth == s.growth + [t.walker])
      && (r == OutOfSteps ==> t.growth == s.growth && t.radius == s.radius)
  {
    DropIsFree(s.growth, s.radius, drop);
    WalkNeverBlocked(Cells(s.growth), e, drop, dirs);
  }

  /** A path of orthogonal steps. */
  ghost predicate IsPath(path: seq<Pos>) {
    forall k :: 0 < k < |path| ==> Neighbours(path[k - 1], path[k])
  }

  /** Connectivity: a path of occupied cells from the seed to the i-th
      attached cell, so every occupied cell is 4-connected to the seed. */
  ghost function PathFromSeed(h: seq<Pos>, i: nat): (path: seq<Pos>)
    requires GrownFromSeed(h) && i < |h|
    ensures |path| >= 1 && path[0] == (0, 0) && path[|path| - 1] == h[i] && IsPath(path)
    ensures forall k :: 0 <= k < |path| ==> path[k] in Cells(h)
    decreases i
  {
    if i == 0 then [h[0]]
    else
      assert AttachedAt(h, i);
      var j :| 0 <= j < i && Neighbours(h[j], h[i]);
      PathFromSeed(h, j) + [h[i]]
  }

  /** `runSomeSteps`, from iteration i on: a do-while loop that releases ion
      i (its drop point chosen by drop(i, radius), its directions walks(i))
      and goes on while i + 1 < steps and the ion returned true. The result
      holds the final state and the result of each call, in order. */
  function Run(s: Snapshot, e: int, start: int, steps: int,
               drop: (nat, int) -> Pos, walks: nat -> seq<int>, i: nat): (res: (Snapshot, seq<IonResult>))
    ensures 1 <= |res.1| <= Max(steps - i, 1)
    ensures |res.1| < Max(steps - i, 1) ==> res.1[|res.1| - 1] != Done(true)
    decreases steps - i
  {
    var (t, r) := Ion(s, e, start, drop(i, s.radius), walks(i));
    if i + 1 < steps && r == Done(true) then
      var (u, log) := Run(t, e, start, steps, drop, walks, i + 1);
      (u, [r] + log)
    else
      (t, [r])
  }

  /** Every call of a batch but the last returned true. */
  lemma {:induction false} RunLog(s: Snapshot, e: int, start: int, steps: int,
                                  drop: (nat, int) -> Pos, walks: nat -> seq<int>, i: nat)
    ensures forall k :: 0 <= k < |Run(s, e, start, steps, drop, walks, i).1| - 1 ==>
      Run(s, e, start, steps, drop, walks, i).1[k] == Done(true)
    decreases steps - i
  {
    var (t, r) := Ion(s, e, start, drop(i, s.radius), walks(i));
    if i + 1 < steps && r == Done(true) {
      RunLog(t, e, start, steps, drop, walks, i + 1);
      var log := Run(t, e, start, steps, drop, walks, i + 1).1;
      assert Run(s, e, start, steps, drop, walks, i).1 == [r] + log;
      forall k | 0 <= k < |log|
        ensures ([r] + log)[k] == Done(true)
      {
        if k > 0 {
          assert ([r] + log)[k] == log[k - 1];
          assert log[k - 1] == Done(true);
        }
      }
    } else {
      assert Run(s, e, start, steps, drop, walks, i).1 == [r];
    }
  }

  /** Run from 0 has reached iteration i in state s after the results log. */
  ghost predicate RunReaches(s0: Snapshot, e: int, start: int, steps: int,
                             drop: (nat, int) -> Pos, walks: nat -> seq<int>,
                             i: nat, s: Snapshot, log: seq<IonResult>)
  {
    var rest := Run(s, e, start, steps, drop, walks, i);
    Run(s0, e, start, steps, drop, walks, 0) == (rest.0, log + rest.1)
  }

  /** The batch from s0 ends in state t with the results log. */
  ghost predicate RunEnds(s0: Snapshot, e: int, start: int, steps: int,
                          drop: (nat, int) -> Pos, walks: nat -> seq<int>,
                          t: Snapshot, log: seq<IonResult>)
  {
    Run(s0, e, start, steps, drop, walks, 0) == (t, log)
  }

  /** The batch starts at iteration 0 with an empty log. */
  lemma RunStarts(s0: Snapshot, e: int, start: int, steps: int,
                  drop: (nat, int) -> Pos, walks: nat -> seq<int>)
    ensures RunReaches(s0, e, start, steps, drop, walks, 0, s0, [])
  {
    var rest := Run(s0, e, start, steps, drop, walks, 0);
    assert [] + rest.1 == rest.1;
  }

  /** One more ion of the batch: either the batch goes on from the new
      state, or it ends there. */
  lemma RunAdvances(s0: Snapshot, e: int, start: int, steps: int,
                    drop: (nat, int) -> Pos, walks: nat -> seq<int>,
                    i: nat, s: Snapshot, log: seq<IonResult>, t: Snapshot, r: IonResult)
    requires RunReaches(s0, e, start, steps, drop, walks, i, s, log)
    requires (t, r) == Ion(s, e, start, drop(i, s.radius), walks(i))
    ensures i + 1 < steps && r == Done(true) ==>
      RunReaches(s0, e, start, steps, drop, walks, i + 1, t, log + [r])
    ensures !(i + 1 < steps && r == Done(true)) ==>
      RunEnds(s0, e, start, steps, drop, walks, t, log + [r])
  {
    if i + 1 < steps && r == Done(true) {
      var rest := Run(t, e, start, steps, drop, walks, i + 1);
      assert Run(s, e, start, steps, drop, walks, i) == (rest.0, [r] + rest.1);
      assert log + ([r] + rest.1) == (log + [r]) + rest.1;
    } else {
      assert Run(s, e, start, steps, drop, walks, i) == (t, [r]);
    }
  }

  /** The oracle's drop point for ion i at radius r is admissible. */
  ghost predicate Admissible(drop: (nat, int) -> Pos, i: nat, r: int) {
    DropGuard(r, drop(i, r))
  }

  /** The oracle only produces admissible drop points. */
  ghost predicate DropOracle(drop: (nat, int) -> Pos) {
    forall i: nat, r: int :: 5 <= r ==> Admissible(drop, i, r)
  }

  /** The drop point the oracle gives ion i at radius r >= 5. */
  lemma DropOracleAt(drop: (nat, int) -> Pos, i: nat, r: int)
    requires DropOracle(drop) && 5 <= r
    ensures DropGuard(r, drop(i, r))
  {
    assert Admissible(drop, i, r);
  }

  /** A batch keeps the invariant and never shrinks the cluster. */
  lemma {:induction false} RunKeepsInv(s: Snapshot, e: int, start: int, steps: int,
                                       drop: (nat, int) -> Pos, walks: nat -> seq<int>, i: nat)
    requires Inv(s) && DropOracle(drop)
    ensures var u := Run(s, e, start, steps, drop, walks, i).0;
      Inv(u) && s.growth <= u.growth
    decreases steps - i
  {
    var p := drop(i, s.radius);
    assert Admissible(drop, i, s.radius);
    var (t, r) := Ion(s, e, start, p, walks(i));
    IonKeepsInv(s, e, start, p, walks(i));
    assert s.growth <= t.growth;
    if i + 1 < steps && r == Done(true) {
      RunKeepsInv(t, e, start, steps, drop, walks, i + 1);
      var (u, log) := Run(t, e, start, steps, drop, walks, i + 1);
      assert Run(s, e, start, steps, drop, walks, i) == (u, [r] + log);
    } else {
      assert Run(s, e, start, steps, drop, walks, i) == (t, [r]);
    }
  }

  /** A batch never shrinks the radius. */
  lemma {:induction false} RunRadiusGrows(s: Snapshot, e: int, start: int, steps: int,
                                          drop: (nat, int) -> Pos, walks: nat -> seq<int>, i: nat)
    ensures Run(s, e, start, steps, drop, walks, i).0.radius >= s.radius
    decreases steps - i
  {
    var ion := Ion(s, e, start, drop(i, s.radius), walks(i));
    IonRadius(s, e, start, drop(i, s.radius), walks(i));
    if i + 1 < steps && ion.1 == Done(true) {
      RunRadiusGrows(ion.0, e, start, steps, drop, walks, i + 1);
      assert Run(s, e, start, steps, drop, walks, i).0 == Run(ion.0, e, start, steps, drop, walks, i + 1).0;
    } else {
      assert Run(s, e, start, steps, drop, walks, i).0 == ion.0;
    }
  }

  /** When the last call of a batch returned true (so every call did, by
      RunLog), no ion attached at or beyond the start circle, and the radius
      is at most start + 2 or where it was. */
  lemma {:induction false} RunRadiusBounded(s: Snapshot, e: int, start: int, steps: int,
                                            drop: (nat, int) -> Pos, walks: nat -> seq<int>, i: nat)
    ensures Run(s, e, start, steps, drop, walks, i).1[|Run(s, e, start, steps, drop, walks, i).1| - 1] == Done(true) ==>
      Run(s, e, start, steps, drop, walks, i).0.radius <= Max(s.radius, start + 2)
    decreases steps - i
  {
    var ion := Ion(s, e, start, drop(i, s.radius), walks(i));
    IonRadius(s, e, start, drop(i, s.radius), walks(i));
    var run := Run(s, e, start, steps, drop, walks, i);
    if i + 1 < steps && ion.1 == Done(true) {
      RunRadiusBounded(ion.0, e, start, steps, drop, walks, i + 1);
      var rest := Run(ion.0, e, start, steps, drop, walks, i + 1);
      assert run.0 == rest.0 && run.1 == [ion.1] + rest.1;
      assert run.1[|run.1| - 1] == rest.1[|rest.1| - 1];
    } else {
      assert run == (ion.0, [ion.1]);
    }
  }
}
