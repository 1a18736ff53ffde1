# Crystal growth by diffusion-limited aggregation

This project models the crystallization engine of a small Java simulation,
`CrystalModel`. An electrolyte bath is a `size x size` grid of booleans. A
carbon cathode sits at the centre, where one seed cell is occupied. The
engine drops an ion on the growth circle around the cluster and walks it in
random orthogonal steps. The ion attaches when one of its four neighbours is
occupied, and is abandoned when it reaches the escape circle. Attaching grows
the growth radius. The crystal is complete when an ion attaches at or beyond
the start circle.

The project has four modules.

- `Bath` (bath.dfy) holds bath coordinates and integer arithmetic:
  - the bath-to-storage transform and its inverse;
  - the circle test and the growth-radius update;
  - the two radii the constructor fixes;
  - the neighbour test and the random step.

  `Math.sqrt` is replaced by exact integer squares (`Sq`, `Dist2`) and a
  floor square root (`ISqrt`).
- `Growth` (growth.dfy) is the algorithm as functions on values:
  - `Walk` is the walk loop of `crystallizeOneIon`;
  - `Ion` is the effect of one released ion on the state `Snapshot`;
  - `Run` is the `runSomeSteps` batch.

  It also proves the invariants they keep. Every occupied cell was attached
  free and next to an earlier one, so it is 4-connected to the seed. The
  growth radius covers every occupied cell, so a dropped ion never lands on
  an occupied cell. The "NEVER BE" exit is unreachable.
- `Drawing` (drawing.dfy) specifies the text drawing `toString` produces. It
  proves that the drawing is a fixed layout of bordered lines.
- `Engine` (engine.dfy) is the class `CrystalModel` itself, with these
  fields:
  - the `array2<bool>` grid, updated in place;
  - `currentRadius` and the walker position `x`, `y`;
  - two ghost fields: the attachment history `growth` and the set
    `occupied`.

  The object invariant `Valid` says the array stores exactly `occupied`
  through the transform. Each method is proved against the matching
  `Growth` or `Drawing` function: the new `Abstract()` state and the result
  are what `Ion`, `Run` or `Render` compute. The value-level lemmas then
  carry the cluster invariants.

Randomness is passed in as parameters:

- The drop point is a parameter satisfying `DropGuard`:
  `x^2 + y^2 <= r^2 < (|x| + 1)^2 + (|y| + 1)^2`. These are exactly the
  truncations toward zero of the points `(r*cos(a), r*sin(a))` for real
  angles `a`. Java's 360 integer angles produce some of them.
- The values of `random.nextInt(4)` for one ion are a sequence `dirs`.
- For a batch, an oracle `drop(i, radius)` chooses drop points and
  `walks(i)` gives the directions of ion `i`.

## Model

| member | source | states |
|---|---|---|
| Bath.XBathToModelRep | src/CrystalModel.java:227-229 | storage column of bath x: x + E + 4 |
| Bath.YBathToModelRep | src/CrystalModel.java:230-232 | storage row of bath y, with the y axis flipped: E - y + 4 |
| Bath.TransformBijection | src/CrystalModel.java:227-232 | row = E - y + 4 and col = x + E + 4 hold exactly when x = col - E - 4 and y = E + 4 - row: the transform is a bijection between bath points and storage cells |
| Bath.StoredAt | src/CrystalModel.java:63-65 | storage cell (row, col) holds bath point p exactly when p transforms to (row, col) |
| Bath.MarginInGrid | src/CrystalModel.java:36 | every bath point with abs(x), abs(y) <= E + 3 is stored inside the size x size grid, for E = size/2 - 4 |
| Bath.EscapeRadius | src/CrystalModel.java:36 | `size / 2 - 4` with Java's truncating division: 2(E + 4) <= size <= 2(E + 4) + 1 for size >= 0, and the mirrored bounds for negative sizes |
| Bath.TenthTruncated | src/CrystalModel.java:37 | `(int)(0.1 * E)`: E / 10 rounded toward zero, for either sign of E |
| Bath.StartRadius | src/CrystalModel.java:37 | `E - (int)(0.1 * E)`: for E >= 0, 0 <= start <= E and E - start is the floor of E / 10; for -10 < E < 0 it is E |
| Bath.ISqrt | src/CrystalModel.java:88 | the floor square root r of n: r^2 <= n < (r + 1)^2 |
| Bath.ISqrtUnique | src/CrystalModel.java:88 | the floor square root is the only r with r^2 <= n < (r + 1)^2 |
| Bath.SqIsProduct | src/CrystalModel.java:88 | the recursive square Sq(n) equals n * n, Java's `x * x` |
| Bath.OutsideCircle | src/CrystalModel.java:162-165 | `outsideCicle` on integers: true for r <= 0, otherwise true exactly when x^2 + y^2 >= r^2 |
| Bath.OutsideCircleIsDistance | src/CrystalModel.java:162-165 | `outsideCicle(r, x, y)` holds exactly when the floored distance of (x, y) from the origin is at least r (boundary outside; every point is outside for r <= 0) |
| Bath.InsideCircleBounds | src/CrystalModel.java:105-107 | a point strictly inside the circle of radius r has both coordinates strictly between -r and r |
| Bath.UpdatedRadius | src/CrystalModel.java:88-92 | the radius after attaching at (x, y) is max(old radius, isqrt(x^2 + y^2) + 3) |
| Bath.Touches | src/CrystalModel.java:240-247 | `anyNeighbours` on the occupied set: (x, y + 1), (x, y - 1), (x + 1, y) or (x - 1, y) is occupied |
| Bath.TouchesIsNeighbour | src/CrystalModel.java:240-247 | the four-neighbour test holds exactly when some occupied cell is an orthogonal neighbour of the point |
| Bath.Step | src/CrystalModel.java:109-124 | directions 0..3 move to an orthogonal neighbour; any other value leaves the walker in place |
| Bath.StepStaysNear | src/CrystalModel.java:109-124 | a step from strictly inside the square of half-width e stays within it |
| Growth.Walk | src/CrystalModel.java:78-127 | the walk ends Attached on a free cell with an occupied neighbour, Escaped on a free cell with no occupied neighbour on or outside the escape circle, Stalled inside it when the directions run out, or Blocked on an occupied cell |
| Growth.WalkNeverBlocked | src/CrystalModel.java:128 | a walk from a free cell never ends on an occupied one: the "NEVER BE" exit is unreachable |
| Growth.DropGuard | src/CrystalModel.java:214-217 | the points `dropNewIon` can produce at radius r: the truncations toward zero of the points of the circle of radius r, those whose near corner (abs(x), abs(y)) is on or inside the circle and whose far corner (abs(x) + 1, abs(y) + 1) is outside |
| Growth.DropNearCircle | src/CrystalModel.java:214-217 | a truncated circle point of radius r >= 2 lies within r on both axes, with (r - 2)^2 <= x^2 + y^2 <= r^2 |
| Growth.DropIsFree | src/CrystalModel.java:211-219 | a drop point admitted by DropGuard is never an occupied cell when the radius covers the cluster |
| Growth.CoversIsFlooredDistance | src/CrystalModel.java:88-92 | a cell is covered by the radius exactly when its floored distance + 3 is at most the radius |
| Growth.SeedInv | src/CrystalModel.java:149-152 | the seed alone is grown from the seed and covered by any radius >= 5 |
| Growth.AttachGrows | src/CrystalModel.java:84-86 | attaching a free cell next to the cluster keeps every cell attached next to an earlier one |
| Growth.AttachCovers | src/CrystalModel.java:86-92 | after the radius update every cell, the new one included, is covered |
| Growth.AttachKeepsInv | src/CrystalModel.java:84-92 | an attachment keeps the cluster invariant |
| Growth.Ion | src/CrystalModel.java:73-130 | one released ion from state s: walk from the drop point; on attachment append the cell, update the radius and return whether it lies strictly inside the start circle; on escape return true with the cluster unchanged; when the directions run out return OutOfSteps; at the "NEVER BE" exit return false; the walker ends where the walk stopped |
| Growth.IonKeepsInv | src/CrystalModel.java:73-130 | one ion keeps the invariant, never lowers the radius, and adds nothing or exactly one free cell next to the cluster; a true result keeps the radius within max(old, start + 2) |
| Growth.IonRadius | src/CrystalModel.java:88-102 | one ion never lowers the radius; a true result keeps it at most max(old, start + 2) |
| Growth.IonResultMeaning | src/CrystalModel.java:84-107 | false exactly when the ion attached on or outside the start circle; true exactly when it attached strictly inside it, or escaped with no occupied neighbour and the cluster unchanged; running out of directions changes neither cluster nor radius |
| Growth.PathFromSeed | src/CrystalModel.java:84-86 | every occupied cell is the end of an orthogonal path of occupied cells from the seed |
| Growth.Run | src/CrystalModel.java:134-144 | the batch calls the ion step at least once and at most max(steps, 1) times, and ends early only on a result other than true |
| Growth.RunLog | src/CrystalModel.java:138-141 | every call of a batch but the last returned true: the loop stops right after the first false |
| Growth.RunKeepsInv | src/CrystalModel.java:134-144 | a batch keeps the cluster invariant and only extends the attachment history |
| Growth.RunRadiusGrows | src/CrystalModel.java:134-144 | a batch never lowers the growth radius |
| Growth.RunRadiusBounded | src/CrystalModel.java:91-102 | when the last call of a batch returned true, the radius ends at most max(initial, start + 2) |
| Drawing.CellChar | src/CrystalModel.java:187-195 | the character of bath point (x, y): '#' when occupied and the walker's position, '*' when occupied elsewhere, ' ' when free |
| Drawing.Render | src/CrystalModel.java:172-205 | the text `toString` builds: a border of 2E + 2 dashes, then for each bath x from -E to E - 1 a line of '|', the characters of y = -E .. E - 1 and '|', then the border again, every line ending in a newline |
| Drawing.RenderLayout | src/CrystalModel.java:172-205 | the drawing is 2E + 2 lines of 2E + 3 characters: a dash border, lines of '|', 2E cells and '|' for bath x = -E .. E - 1 (cell y from -E), a dash border, each line ending in a newline; a cell is '#' when occupied at the walker, '*' when occupied elsewhere, ' ' when free |
| Drawing.LineAt | src/CrystalModel.java:185-198 | one drawn line has 2E + 3 characters and agrees with the layout character by character |
| Drawing.DashesAt | src/CrystalModel.java:179-181 | the border loop appends exactly n dashes |
| Engine.CrystalModel.constructor | src/CrystalModel.java:34-39 | sets E = EscapeRadius(size) and start = StartRadius(E); the grid holds only the seed; the radius is 5 and the walker at the origin; for size >= 13 a drop fits in the grid |
| Engine.CrystalModel.Reset | src/CrystalModel.java:149-152 | a fresh grid whose only occupied cell is storage [E + 4][E + 4], the bath origin; the radius and walker are unchanged; the grid depends only on size, so resetting twice is resetting once |
| Engine.CrystalModel.GetModelValue | src/CrystalModel.java:63-65 | the stored cell is true exactly when the bath point is occupied |
| Engine.CrystalModel.AnyNeighbours | src/CrystalModel.java:240-247 | true exactly when an orthogonal neighbour is occupied |
| Engine.CrystalModel.DropNewIon | src/CrystalModel.java:211-219 | the walker is placed at the supplied drop point |
| Engine.CrystalModel.CrystallizeOneIon | src/CrystalModel.java:73-130 | the new state and the result are exactly Ion of the old state; the grid only gains cells, the radius never decreases, and a true result leaves room for the next drop |
| Engine.CrystalModel.WalkIon | src/CrystalModel.java:78-127 | the in-place walk loop ends as Walk does from the drop point, with the walker at the end point, inside the grid |
| Engine.CrystalModel.Attach | src/CrystalModel.java:84-92 | exactly the walker's cell of the grid becomes true, it is appended to the history, and the radius becomes UpdatedRadius |
| Engine.CrystalModel.RunSomeSteps | src/CrystalModel.java:134-144 | the new state and the log of results are exactly Run from iteration 0, and the returned value is the last result |
| Engine.CrystalModel.ReleaseIon | src/CrystalModel.java:139-141 | one pass of the do-while: the log gains this ion's result, and the batch either continues from the new state or is complete |
| Engine.CrystalModel.ToString | src/CrystalModel.java:172-205 | the text built in the nested loops is exactly Render of the occupied cells and the walker |
| Engine.CrystalModel.DrawBorder | src/CrystalModel.java:179-183 | the border loop yields 2E + 2 dashes and a newline |
| Engine.CrystalModel.DrawLine | src/CrystalModel.java:185-198 | one outer pass yields '|', the cells of bath x = i for y = -E .. E - 1, '|' and a newline |

## Left out

- The Swing view, the control thread and the program entry points are not part of this model: they are UI, concurrency and I/O.
- `java.util.Random`, `Math.cos`, `Math.sin` and `Math.toRadians` become parameters. `DropNewIon` takes a drop point satisfying `DropGuard`. The walk takes the sequence of `nextInt(4)` values.
- DropNewIon: the drop point is not computed from an angle. `DropGuard` admits every truncation toward zero of a point on the circle of radius `currentRadius`, for any real angle. Java draws one of 360 integer angles and rounds in doubles, so it produces only some of these points. Up to that rounding, it produces nothing outside them.
- `Math.sqrt` and double comparisons become exact integer arithmetic. `sqrt(d) >= r` is `d >= r^2` for `r > 0`, and `(int)sqrt(d)` is `ISqrt(d)`. This agrees with doubles for all squared distances a grid of Java ints can hold. `(int)(0.1 * E)` is modelled as the truncation of E / 10.
- 32-bit overflow of `x * x + y * y` is not modelled; squares are exact. A walker stays within distance E + 1 of the origin and a drop within E + 3, so for size < 92 684 (E + 3 <= 46 340) every squared distance the engine computes fits in an int. For larger sizes Java's product wraps to a negative number, `Math.sqrt` gives NaN and `outsideCicle` is false, so an ion is never abandoned; that wrap-around is not modelled.
- The `ModelUpdateListener` callback is not modelled. The ghost history `growth` records the positions it would be notified of.
- The getters `getX`, `getY` and `getEscapeCircleRadius` are not modelled: each only reads a field, which the model's fields expose directly. `setUpdateListener` only stores the listener, the one object reference the engine holds besides its grid, and the listener is left out as above.
- Engine.CrystalModel.CrystallizeOneIon: a walk whose supplied directions run out ends with the model-only result `OutOfSteps`. That result leaves the grid and radius as they are. Java walks on until it attaches or escapes.
- Engine.CrystalModel.CrystallizeOneIon: requires `DropFits`, meaning a drop on the growth circle and its neighbours lie inside the array. It holds after construction for `size >= 13` and is kept by every call that returns true. After a false return Java may index past the array, for example with an even size once the radius reaches E + 4. The model does not follow those calls.
- Engine.CrystalModel.GetModelValue: requires the point inside the grid. Java throws `ArrayIndexOutOfBoundsException` for any other point. Every call in the engine stays inside the grid, as `Valid`, `WalkIon` and `DrawLine` prove.
- Engine.CrystalModel.AnyNeighbours: requires all four neighbours inside the grid. Java short-circuits and reads only until the first occupied neighbour.
- Engine.CrystalModel.constructor: requires `size >= 1`. For a smaller size Java throws, for a negative array size or an index outside an empty grid.
- Reset follows the code: it does not reset `currentRadius`, `x` or `y`, and does not call the listener.
- The drawing follows the code and is transposed. Text line i shows bath x = i, and its characters run over bath y from -E.
- The cluster invariant `Inv` is not part of the class invariant `Valid`. It holds of `Abstract()` through the value-level lemmas (`IonKeepsInv`, `RunKeepsInv`), which the engine's contracts tie to the object.
- WalkIon, Attach, ReleaseIon, DrawBorder and DrawLine are parts of single Java methods (`crystallizeOneIon`, `runSomeSteps`, `toString`). They are split out as their own methods; the code they run is the same.
