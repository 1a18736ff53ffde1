/** The crystallization engine as the object the source defines: a
    size x size occupancy grid stored in a 2-D array and updated in place,
    the growth radius, and the walking ion's position. Each method is
    proved against the functions of Growth and Drawing. */
module Engine {
  import opened Bath
  import opened Growth
  import opened Drawing

  class CrystalModel {
    const size: int
    const escapeCircleRadius: int
    const startCircleRadius: int
    var currentRadius: int
    var modelRep: array2<bool>
    var x: int
    var y: int

    /** Attachment history since the last reset: the seed, then each ion in
        the order it attached. Apart from the seed these are the positions
        the update listener is notified of. */
    ghost var growth: seq<Pos>
    /** The occupied bath points. */
    ghost var occupied: set<Pos>

    /** The constants fixed at construction, and the radius's floor. */
    ghost predicate Basics()
      reads this`currentRadius
    {
      && size >= 1
      && escapeCircleRadius == EscapeRadius(size)
      && startCircleRadius == StartRadius(escapeCircleRadius)
      && currentRadius >= 5
    }

    /** The object invariant: the array stores exactly the occupied points,
        through the bath-to-storage transform. (That the occupied points were
        grown from the seed inside the growth radius is Growth's Inv of
        Abstract(), carried by the value model.) */
    ghost predicate Valid()
      reads this`currentRadius, this`modelRep, this`growth, this`occupied, modelRep
    {
      && Basics()
      && modelRep.Length0 == size && modelRep.Length1 == size
      && occupied == Cells(growth)
      && (forall p :: p in occupied ==> InGrid(size, escapeCircleRadius, p))
      && (forall r, c :: 0 <= r < size && 0 <= c < size ==>
            (modelRep[r, c] <==>
             (XModelRepToBath(escapeCircleRadius, c), YModelRepToBath(escapeCircleRadius, r)) in occupied))
    }

    /** The state as a value. */
    ghost function Abstract(): Snapshot
      reads this
    {
      Snapshot(growth, currentRadius, (x, y))
    }

    /** An ion dropped at distance <= currentRadius, and its four
        neighbours, lie inside the grid. */
    predicate DropFits()
      reads this`currentRadius
    {
      currentRadius + 1 <= escapeCircleRadius + 4 && escapeCircleRadius + currentRadius + 5 < size
    }

    /** `new CrystalModel(size)`: fixes the two radii and resets the grid.
        Java fails with an exception for size < 1 (a negative array size, or
        an index outside an empty grid). */
    constructor (size: int)
      requires size >= 1
      ensures Valid() && fresh(modelRep)
      ensures this.size == size
      ensures escapeCircleRadius == EscapeRadius(size) && startCircleRadius == StartRadius(escapeCircleRadius)
      ensures currentRadius == 5 && x == 0 && y == 0
      ensures growth == [(0, 0)] && occupied == {(0, 0)}
      ensures size >= 13 ==> DropFits()
    {
      var e := size / 2 - 4;
      this.size := size;
      escapeCircleRadius := e;
      startCircleRadius := e - TenthTruncated(e);
      currentRadius := 5;
      x, y := 0, 0;
      modelRep := new bool[0, 0];  // stands for the grid not yet allocated
      growth, occupied := [], {};
      new;
      Reset();
    }

    /** `reset`: a fresh all-free grid with the seed at the bath origin.
        The growth radius and the walker position are left as they were. */
    method Reset()
      requires Basics()
      modifies this
      ensures Valid() && fresh(modelRep)
      ensures growth == [(0, 0)] && occupied == {(0, 0)}
      ensures forall r, c :: 0 <= r < size && 0 <= c < size ==>
        modelRep[r, c] == (r == escapeCircleRadius + 4 && c == escapeCircleRadius + 4)
      ensures currentRadius == old(currentRadius) && x == old(x) && y == old(y)
    {
      modelRep := new bool[size, size]((r, c) => false);
      modelRep[YBathToModelRep(escapeCircleRadius, 0), XBathToModelRep(escapeCircleRadius, 0)] := true;
      growth := [(0, 0)];
      occupied := {(0, 0)};
    }

    /** `getModelValue`: whether bath point (x, y) is occupied. */
    function GetModelValue(x: int, y: int): (b: bool)
      reads this`currentRadius, this`modelRep, this`growth, this`occupied, modelRep
      requires Valid() && InGrid(size, escapeCircleRadius, (x, y))
      ensures b <==> (x, y) in occupied
    {
      modelRep[YBathToModelRep(escapeCircleRadius, y), XBathToModelRep(escapeCircleRadius, x)]
    }

    /** `anyNeighbours`: whether one of the four orthogonal neighbours of
        (x, y) is occupied. */
    function AnyNeighbours(x: int, y: int): (b: bool)
      reads this`currentRadius, this`modelRep, this`growth, this`occupied, modelRep
      requires Valid()
      requires InGrid(size, escapeCircleRadius, (x, y + 1)) && InGrid(size, escapeCircleRadius, (x, y - 1))
      requires InGrid(size, escapeCircleRadius, (x + 1, y)) && InGrid(size, escapeCircleRadius, (x - 1, y))
      ensures b <==> Touches(occupied, (x, y))
    {
      GetModelValue(x, y + 1) || GetModelValue(x, y - 1) || GetModelValue(x + 1, y) || GetModelValue(x - 1, y)
    }

    /** `dropNewIon`, with the random point on the growth circle supplied. */
    method DropNewIon(drop: Pos)
      requires DropGuard(currentRadius, drop)
      modifies this`x, this`y
      ensures x == drop.0 && y == drop.1
    {
      x := drop.0;
      y := drop.1;
    }

    /** `crystallizeOneIon`: drop an ion and walk it by dirs until it attaches
        or escapes. The new state and the result are those of Ion. */
    method CrystallizeOneIon(drop: Pos, dirs: seq<int>) returns (r: IonResult)
      requires Valid() && DropFits() && DropGuard(currentRadius, drop)
      modifies this, modelRep
      ensures Valid() && modelRep == old(modelRep)
      ensures (Abstract(), r) == Ion(old(Abstract()), escapeCircleRadius, startCircleRadius, drop, dirs)
      ensures old(occupied) <= occupied && currentRadius >= old(currentRadius)
      ensures r == Done(true) ==> DropFits()
    {
      IonRadius(Abstract(), escapeCircleRadius, startCircleRadius, drop, dirs);
      DropNearCircle(currentRadius, drop);
      DropNewIon(drop);
      var end := WalkIon(dirs);
      match end
      case Attached(_) =>
        Attach();
        r := Done(!OutsideCircle(startCircleRadius, x, y));
      case Escaped(_) =>
        r := Done(true);
      case Stalled(_) =>
        r := OutOfSteps;
      case Blocked(_) =>
        r := Done(false);  // the exit after the loop, marked "NEVER BE"
    }

    /** The walk loop of `crystallizeOneIon`, from the walker's position: it
        ends as Walk does, with the walker where the walk stopped. */
    method WalkIon(dirs: seq<int>) returns (end: WalkEnd)
      requires Valid() && DropFits()
      requires Abs(x) <= currentRadius && Abs(y) <= currentRadius
      modifies this`x, this`y
      ensures end == Walk(occupied, escapeCircleRadius, old((x, y)), dirs)
      ensures (x, y) == end.at && InGrid(size, escapeCircleRadius, (x, y))
    {
      ghost var w := Walk(occupied, escapeCircleRadius, (x, y), dirs);
      var k := 0;
      while !GetModelValue(x, y)
        invariant 0 <= k <= |dirs|
        invariant k == 0 ==> Abs(x) <= currentRadius && Abs(y) <= currentRadius
        invariant k > 0 ==> Abs(x) <= escapeCircleRadius && Abs(y) <= escapeCircleRadius
        invariant w == Walk(occupied, escapeCircleRadius, (x, y), dirs[k..])
        decreases |dirs| - k
      {
        if AnyNeighbours(x, y) {
          return Attached((x, y));
        }
        if OutsideCircle(escapeCircleRadius, x, y) {
          return Escaped((x, y));
        }
        if k == |dirs| {
          return Stalled((x, y));
        }
        InsideCircleBounds(escapeCircleRadius, x, y);
        StepStaysNear((x, y), dirs[k], escapeCircleRadius);
        assert dirs[k..][1..] == dirs[k + 1..];
        var next := Step((x, y), dirs[k]);
        x, y := next.0, next.1;
        k := k + 1;
      }
      return Blocked((x, y));
    }

    /** The attachment of `crystallizeOneIon`: the walker's free cell next to
        the cluster becomes occupied and the growth radius is updated. */
    method Attach()
      requires Valid() && InGrid(size, escapeCircleRadius, (x, y))
      requires (x, y) !in occupied && Touches(occupied, (x, y))
      modifies this, modelRep
      ensures Valid() && modelRep == old(modelRep) && x == old(x) && y == old(y)
      ensures growth == old(growth) + [(x, y)] && occupied == old(occupied) + {(x, y)}
      ensures currentRadius == UpdatedRadius(old(currentRadius), x, y)
      ensures forall r, c :: 0 <= r < size && 0 <= c < size ==>
        modelRep[r, c] == (old(modelRep[r, c]) ||
                           (r == YBathToModelRep(escapeCircleRadius, y) && c == XBathToModelRep(escapeCircleRadius, x)))
    {
      var row, col := YBathToModelRep(escapeCircleRadius, y), XBathToModelRep(escapeCircleRadius, x);
      modelRep[row, col] := true;
      CellsAppend(growth, (x, y));
      growth := growth + [(x, y)];
      occupied := occupied + {(x, y)};
      currentRadius := UpdatedRadius(currentRadius, x, y);
      forall r, c | 0 <= r < size && 0 <= c < size
        ensures modelRep[r, c] <==>
          (XModelRepToBath(escapeCircleRadius, c), YModelRepToBath(escapeCircleRadius, r)) in occupied
      {
        StoredAt(escapeCircleRadius, (x, y), r, c);
      }
    }

    /** `runSomeSteps`: a do-while loop releasing ions until steps have been
        released or one returns something other than true; ion i is dropped
        at drop(i, currentRadius) and walks by walks(i). The new state and
        the results of the calls (log) are those of Run. */
    method RunSomeSteps(steps: int, drop: (nat, int) -> Pos, walks: nat -> seq<int>)
      returns (goOn: IonResult, ghost log: seq<IonResult>)
      requires Valid() && DropFits() && DropOracle(drop)
      modifies this, modelRep
      ensures Valid() && modelRep == old(modelRep)
      ensures RunEnds(old(Abstract()), escapeCircleRadius, startCircleRadius, steps, drop, walks, Abstract(), log)
      ensures goOn == log[|log| - 1]
    {
      ghost var s0 := Abstract();
      var i := 0;
      goOn := Done(false);
      log := [];
      RunStarts(s0, escapeCircleRadius, startCircleRadius, steps, drop, walks);
      while true
        invariant Valid() && modelRep == old(modelRep) && DropFits()
        invariant i == |log| && (i == 0 || i < steps)
        invariant RunReaches(s0, escapeCircleRadius, startCircleRadius, steps, drop, walks, i, Abstract(), log)
        decreases steps - i
      {
        goOn, log := ReleaseIon(s0, steps, drop, walks, i, log);
        i := i + 1;
        if !(i < steps && goOn == Done(true)) {
          break;
        }
      }
    }

    /** One pass of the `runSomeSteps` loop: ion i is dropped where the
        oracle says and crystallized, and the batch advances by one ion. */
    method ReleaseIon(ghost s0: Snapshot, steps: int, drop: (nat, int) -> Pos, walks: nat -> seq<int>,
                      i: nat, ghost log: seq<IonResult>) returns (r: IonResult, ghost log': seq<IonResult>)
      requires Valid() && DropFits() && DropOracle(drop)
      requires RunReaches(s0, escapeCircleRadius, startCircleRadius, steps, drop, walks, i, Abstract(), log)
      modifies this, modelRep
      ensures Valid() && modelRep == old(modelRep)
      ensures log' == log + [r] && log'[|log'| - 1] == r
      ensures i + 1 < steps && r == Done(true) ==>
        DropFits() && RunReaches(s0, escapeCircleRadius, startCircleRadius, steps, drop, walks, i + 1, Abstract(), log')
      ensures !(i + 1 < steps && r == Done(true)) ==>
        RunEnds(s0, escapeCircleRadius, startCircleRadius, steps, drop, walks, Abstract(), log')
    {
      ghost var s := Abstract();
      DropOracleAt(drop, i, currentRadius);
      r := CrystallizeOneIon(drop(i, currentRadius), walks(i));
      RunAdvances(s0, escapeCircleRadius, startCircleRadius, steps, drop, walks, i, s, log, Abstract(), r);
      log' := log + [r];
    }

    /** `toString`: the drawing of the grid, with the walker's cell marked. */
    method ToString() returns (s: string)
      requires Valid()
      ensures s == Render(occupied, (x, y), escapeCircleRadius)
    {
      var e := escapeCircleRadius;
      ghost var occ, walker := occupied, (x, y);
      var border := DrawBorder(e);
      s := border;
      var i := -e;
      while i < e
        invariant -e <= i && (i <= e || i == -e)
        invariant s == border + Lines(occ, walker, e, i)
      {
        var line := DrawLine(i);
        AppendLine(border, occ, walker, e, i, line);
        s := s + line;
        i := i + 1;
      }
      s := s + border;
    }

    /** The border loop of `toString`: a dash for each of -e - 1 .. e, then
        a newline. */
    static method DrawBorder(e: int) returns (s: string)
      ensures s == Border(e)
    {
      s := [];
      var i := -e - 1;
      while i < e + 1
        invariant -e - 1 <= i && (i <= e + 1 || i == -e - 1)
        invariant s == Dashes(i + e + 1)
      {
        s := s + "-";
        i := i + 1;
      }
      s := s + "\n";
    }

    /** One pass of the outer loop of `toString`: the cells of bath x = i
        for y = -e .. e - 1 between two bars. */
    method DrawLine(i: int) returns (s: string)
      requires Valid() && -escapeCircleRadius <= i < escapeCircleRadius
      ensures s == Line(occupied, (x, y), escapeCircleRadius, i)
    {
      var e := escapeCircleRadius;
      s := "|";
      var j := -e;
      while j < e
        invariant -e <= j <= e
        invariant s == "|" + LineCells(occupied, (x, y), e, i, j)
      {
        var c;
        if GetModelValue(i, j) {
          if i == x && j == y {
            c := '#';
          } else {
            c := '*';
          }
        } else {
          c := ' ';
        }
        s := s + [c];
        j := j + 1;
      }
      s := s + "|\n";
    }
  }
}
