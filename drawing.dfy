/** The text drawing of the bath produced by `toString`. The text has a
    border of dashes, then one line per bath x from -e to e - 1, each showing
    the cells y = -e .. e - 1 between two bars, then a second border. So the
    drawing is transposed: a line of text is a column of the bath. */
module Drawing {
  import opened Bath

  /** The character drawn for bath point (x, y): '#' for the occupied
      walker's cell, '*' for another occupied cell, a space for a free one. */
  function CellChar(occupied: set<Pos>, walker: Pos, x: int, y: int): char {
    if (x, y) in occupied then (if x == walker.0 && y == walker.1 then '#' else '*') else ' '
  }

  /** n dashes, appended one at a time. */
  function Dashes(n: int): string
    decreases n
  {
    if n <= 0 then "" else Dashes(n - 1) + "-"
  }

  /** The loop from -e - 1 to e + 1, then a newline. */
  function Border(e: int): string {
    Dashes(2 * e + 2) + "\n"
  }

  /** The characters of line x for y = -e .. hi - 1. */
  function LineCells(occupied: set<Pos>, walker: Pos, e: int, x: int, hi: int): string
    decreases hi + e
  {
    if hi <= -e then "" else LineCells(occupied, walker, e, x, hi - 1) + [CellChar(occupied, walker, x, hi - 1)]
  }

  /** Line x of the drawing. */
  function Line(occupied: set<Pos>, walker: Pos, e: int, x: int): string {
    "|" + LineCells(occupied, walker, e, x, e) + "|\n"
  }

  /** Lines x = -e .. hi - 1. */
  function Lines(occupied: set<Pos>, walker: Pos, e: int, hi: int): string
    decreases hi + e
  {
    if hi <= -e then "" else Lines(occupied, walker, e, hi - 1) + Line(occupied, walker, e, hi - 1)
  }

  /** The whole drawing. */
  function Render(occupied: set<Pos>, walker: Pos, e: int): string {
    Border(e) + Lines(occupied, walker, e, e) + Border(e)
  }

  /** Reference layout, independent of how the text is built: character c of
      text line n, for lines 2e + 3 characters wide (newline included). */
  function LayoutChar(occupied: set<Pos>, walker: Pos, e: int, n: int, c: int): char {
    if c == 2 * e + 2 then '\n'
    else if n == 0 || n == 2 * e + 1 then '-'
    else if c == 0 || c == 2 * e + 1 then '|'
    else CellChar(occupied, walker, n - 1 - e, c - 1 - e)
  }

  lemma {:induction false} DashesAt(n: int)
    ensures |Dashes(n)| == Max(n, 0)
    ensures forall k :: 0 <= k < |Dashes(n)| ==> Dashes(n)[k] == '-'
    decreases n
  {
    if n > 0 { DashesAt(n - 1); }
  }

  lemma {:induction false} LineCellsAt(occupied: set<Pos>, walker: Pos, e: int, x: int, hi: int)
    requires hi >= -e
    ensures |LineCells(occupied, walker, e, x, hi)| == hi + e
    ensures forall y :: -e <= y < hi ==>
      LineCells(occupied, walker, e, x, hi)[y + e] == CellChar(occupied, walker, x, y)
    decreases hi + e
  {
    if hi > -e { LineCellsAt(occupied, walker, e, x, hi - 1); }
  }

  lemma LineAt(occupied: set<Pos>, walker: Pos, e: int, x: int)
    requires e >= 0 && -e <= x < e
    ensures |Line(occupied, walker, e, x)| == 2 * e + 3
    ensures forall c :: 0 <= c < 2 * e + 3 ==>
      Line(occupied, walker, e, x)[c] == LayoutChar(occupied, walker, e, x + e + 1, c)
  {
    LineCellsAt(occupied, walker, e, x, e);
    var cells := LineCells(occupied, walker, e, x, e);
    forall c | 0 <= c < 2 * e + 3
      ensures Line(occupied, walker, e, x)[c] == LayoutChar(occupied, walker, e, x + e + 1, c)
    {
      if 1 <= c <= 2 * e {
        assert Line(occupied, walker, e, x)[c] == cells[(c - 1 - e) + e];
      }
    }
  }

  /** Appending line x to the text of the lines before it. */
  lemma AppendLine(prefix: string, occupied: set<Pos>, walker: Pos, e: int, x: int, line: string)
    requires -e <= x && line == Line(occupied, walker, e, x)
    ensures prefix + Lines(occupied, walker, e, x) + line == prefix + Lines(occupied, walker, e, x + 1)
  {
    assert Lines(occupied, walker, e, x + 1) == Lines(occupied, walker, e, x) + line;
  }

  /** The reference drawing as a list of text lines: 2e + 2 lines, each
      2e + 3 characters wide with its newline. */
  function LayoutLines(occupied: set<Pos>, walker: Pos, e: int): (lines: seq<string>)
    requires e >= 0
    ensures |lines| == 2 * e + 2 && forall n :: 0 <= n < |lines| ==> |lines[n]| == 2 * e + 3
  {
    seq(2 * e + 2, n => seq(2 * e + 3, c => LayoutChar(occupied, walker, e, n, c)))
  }

  /** The lines joined in order. */
  function Concat(lines: seq<string>): string {
    if lines == [] then "" else Concat(lines[..|lines| - 1]) + lines[|lines| - 1]
  }

  lemma LineIsLayout(occupied: set<Pos>, walker: Pos, e: int, x: int)
    requires e >= 0 && -e <= x < e
    ensures Line(occupied, walker, e, x) == LayoutLines(occupied, walker, e)[x + e + 1]
  {
    LineAt(occupied, walker, e, x);
  }

  lemma {:induction false} LinesAreLayout(occupied: set<Pos>, walker: Pos, e: int, hi: int)
    requires e >= 0 && -e <= hi <= e
    ensures Lines(occupied, walker, e, hi) == Concat(LayoutLines(occupied, walker, e)[1..hi + e + 1])
    decreases hi + e
  {
    var layout := LayoutLines(occupied, walker, e);
    if hi > -e {
      LinesAreLayout(occupied, walker, e, hi - 1);
      LineIsLayout(occupied, walker, e, hi - 1);
      var s := layout[1..hi + e + 1];
      assert s[..|s| - 1] == layout[1..hi + e];
    } else {
      assert layout[1..hi + e + 1] == [];
    }
  }

  /** The border is the first and the last line of the layout. */
  lemma BorderIsLayout(occupied: set<Pos>, walker: Pos, e: int)
    requires e >= 0
    ensures Border(e) == LayoutLines(occupied, walker, e)[0]
    ensures Border(e) == LayoutLines(occupied, walker, e)[2 * e + 1]
  {
    DashesAt(2 * e + 2);
  }

  /** The drawing is the reference layout's lines joined in order. */
  lemma RenderLayout(occupied: set<Pos>, walker: Pos, e: int)
    requires e >= 0
    ensures Render(occupied, walker, e) == Concat(LayoutLines(occupied, walker, e))
  {
    var layout := LayoutLines(occupied, walker, e);
    var n := 2 * e + 2;
    var middle := layout[1..n - 1];
    BorderIsLayout(occupied, walker, e);
    LinesAreLayout(occupied, walker, e, e);
    assert Lines(occupied, walker, e, e) == Concat(middle);
    assert layout[..n - 1] == [layout[0]] + middle;
    ConcatCons(layout[0], middle);
    assert Concat(layout) == Concat(layout[..n - 1]) + layout[n - 1];
  }

  lemma {:induction false} ConcatCons(first: string, rest: seq<string>)
    ensures Concat([first] + rest) == first + Concat(rest)
    decreases |rest|
  {
    if rest != [] {
      var s := [first] + rest;
      assert s[..|s| - 1] == [first] + rest[..|rest| - 1];
      ConcatCons(first, rest[..|rest| - 1]);
    } else {
      assert [first] + rest == [first];
      assert [first][..0] == [];
    }
  }
}
