/** The layout parser as a class over its character grid: the grid block of
    a layout file is copied into the grid, entities are walked out of it one
    at a time, in place, and the property lines are applied to the entity
    table. */
module Layouts {
  import opened Wrappers
  import opened Objects
  import opened Grids
  import opened Walkers
  import opened Scanner
  import opened Properties
  import opened Text

  /** The grid after `Parse_Grid`: each row takes the characters of its
      line, cut to the grid's width; a shorter line leaves the rest of its
      row as it was. */
  function Overlay(g: Grid, lines: seq<string>, w: nat): (h: Grid)
    requires IsGrid(g, w) && |lines| >= |g|
    ensures IsGrid(h, w) && |h| == |g|
  {
    seq(|g|, r requires 0 <= r < |g| =>
      seq(w, c requires 0 <= c < w => if c < |lines[r]| then lines[r][c] else g[r][c]))
  }

  /** A row whose line is at least as wide as the grid becomes that line cut
      to the width; a shorter line is followed by what the row held there. */
  lemma OverlayRows(g: Grid, lines: seq<string>, w: nat, r: nat)
    requires IsGrid(g, w) && |lines| >= |g| && r < |g|
    ensures Overlay(g, lines, w)[r] ==
      if |lines[r]| >= w then lines[r][..w] else lines[r] + g[r][|lines[r]|..]
  {
    var row := Overlay(g, lines, w)[r];
    if |lines[r]| >= w {
      assert forall c | 0 <= c < w :: row[c] == lines[r][..w][c];
    } else {
      var expected := lines[r] + g[r][|lines[r]|..];
      assert forall c | 0 <= c < w :: row[c] == expected[c];
    }
  }

  /** A whole layout file as the parser reads it: the grid block copied over
      the grid, every entity walked out of it into the table, then the
      property lines that follow the grid applied in order. The result is
      the entity table and the grid left behind, or the first error. */
  function LayoutParse(g: Grid, w: nat, table: Hash<Obj>, lines: seq<string>, toNumber: string -> Option<int>): Result<(Hash<Obj>, Grid)>
    requires IsGrid(g, w) && |lines| >= |g|
  {
    match ScanAll(Overlay(g, lines, w), w, table)
    case Failure(e) => Failure(e)
    case Ok((t, h)) =>
      match ApplyLines(t, lines[|g|..], toNumber)
      case Failure(e) => Failure(e)
      case Ok(t') => Ok((t', h))
  }

  /** A layout that parses leaves no entity marker in its grid and keeps
      every entity of the table it started with, next to the new ones. */
  lemma LayoutParseClears(g: Grid, w: nat, table: Hash<Obj>, lines: seq<string>, toNumber: string -> Option<int>)
    requires IsGrid(g, w) && |lines| >= |g|
    requires LayoutParse(g, w, table, lines, toNumber).Ok?
    ensures var (t, h) := LayoutParse(g, w, table, lines, toNumber).value;
      IsGrid(h, w) && |h| == |g| && !HasMarker(h) && table.keys <= t.keys
  {
    var o := Overlay(g, lines, w);
    ScanAllConsumesMarkers(o, w, table);
    ScanAllKeepsShape(o, w, table);
  }

  /** The grid a successful scan leaves has the shape it started with. */
  lemma {:induction false} ScanAllKeepsShape(g: Grid, w: nat, table: Hash<Obj>)
    requires IsGrid(g, w)
    requires ScanAll(g, w, table).Ok?
    ensures |ScanAll(g, w, table).value.1| == |g|
    decreases MarkerCount(g)
  {
    if FirstMarker(g).Some? {
      var (en, h) := ScanStep(g, w).value;
      ScanAllKeepsShape(h, w, Set(table, en.id, ToObject(en)));
    }
  }

  /** A layout: its grid of `height` rows of `width` cells and the table of
      the entities parsed out of it, keyed by id. */
  class Layout {
    const width: nat
    const height: nat
    const grid: array2<char>
    var components: Hash<Obj>

    ghost predicate Valid()
    {
      grid.Length0 == height && grid.Length1 == width
    }

    /** The grid's cells as rows. */
    ghost function Cells(): (g: Grid)
      reads grid
      requires Valid()
      ensures IsGrid(g, width) && |g| == height
      ensures forall r, c | 0 <= r < height && 0 <= c < width :: g[r][c] == grid[r, c]
    {
      seq(height, r requires 0 <= r < height reads grid =>
        seq(width, c requires 0 <= c < width reads grid => grid[r, c]))
    }

    /** A layout whose screen of `pixelWidth` by `pixelHeight` is divided
        into cells of `cellW` by `cellH`, with a blank grid and no entity. */
    constructor(pixelWidth: nat, pixelHeight: nat, cellW: nat, cellH: nat)
      requires cellW > 0 && cellH > 0
      ensures width == pixelWidth / cellW && height == pixelHeight / cellH
      ensures Valid() && fresh(grid) && components.keys == []
      ensures forall r, c | 0 <= r < height && 0 <= c < width :: grid[r, c] == ' '
    {
      width := pixelWidth / cellW;
      height := pixelHeight / cellH;
      grid := new char[pixelHeight / cellH, pixelWidth / cellW];
      components := Empty();
      new;
      ClearGrid();
    }

    /** `Clear_Grid`: every cell becomes a blank. */
    method ClearGrid()
      requires Valid()
      modifies grid
      ensures forall r, c | 0 <= r < height && 0 <= c < width :: grid[r, c] == ' '
    {
      var y := 0;
      while y < height
        invariant 0 <= y <= height
        invariant forall r, c | 0 <= r < y && 0 <= c < width :: grid[r, c] == ' '
      {
        var x := 0;
        while x < width
          invariant 0 <= x <= width
          invariant forall r, c | 0 <= r < y && 0 <= c < width :: grid[r, c] == ' '
          invariant forall c | 0 <= c < x :: grid[y, c] == ' '
        {
          grid[y, x] := ' ';
          x := x + 1;
        }
        y := y + 1;
      }
    }

    /** `Parse_Grid`: one line per row, each copied up to the grid's width. */
    method ParseGrid(lines: seq<string>)
      requires Valid() && |lines| >= height
      modifies grid
      ensures Cells() == Overlay(old(Cells()), lines, width)
    {
      ghost var g := Cells();
      var y := 0;
      while y < height
        invariant 0 <= y <= height
        invariant forall r, c | 0 <= r < height && 0 <= c < width ::
          grid[r, c] == if r < y && c < |lines[r]| then lines[r][c] else g[r][c]
      {
        var line := lines[y];
        var count := if |line| > width then width else |line|;
        var x := 0;
        while x < count
          invariant 0 <= x <= count
          invariant forall r, c | 0 <= r < height && 0 <= c < width ::
            grid[r, c] == if (r < y && c < |lines[r]|) || (r == y && c < x) then lines[r][c] else g[r][c]
        {
          grid[y, x] := line[x];
          x := x + 1;
        }
        y := y + 1;
      }
      SameCells(Cells(), Overlay(g, lines, width), width);
    }

    /** `Has_Entity`: whether any cell holds an entity marker. */
    method HasEntity() returns (b: bool)
      requires Valid()
      ensures b == HasMarker(Cells())
    {
      b := false;
      var y := 0;
      while y < height
        invariant 0 <= y <= height
        invariant b <==> exists r, c | 0 <= r < y && 0 <= c < width :: IsMarker(grid[r, c])
      {
        var x := 0;
        while x < width
          invariant 0 <= x <= width
          invariant b <==> exists r, c | 0 <= r < y && 0 <= c < width :: IsMarker(grid[r, c])
          invariant forall c | 0 <= c < x :: !IsMarker(grid[y, c])
        {
          var cell := grid[y, x];
          if IsMarker(cell) {
            b := true;
            break;
          }
          x := x + 1;
        }
        y := y + 1;
      }
      assert b <==> HasMarker(Cells()) by {
        if b {
          var r, c :| 0 <= r < height && 0 <= c < width && IsMarker(grid[r, c]);
          assert InGrid(Cells(), r, c) && IsMarker(Cells()[r][c]);
        }
        if HasMarker(Cells()) {
          var r, c :| InGrid(Cells(), r, c) && IsMarker(Cells()[r][c]);
          assert IsMarker(grid[r, c]);
        }
      }
    }

    /** The search at the start of `Parse_Entity`: the first marker cell in
        row-major order, as (row, column). */
    method FindMarker() returns (p: Option<(nat, nat)>)
      requires Valid()
      ensures p == FirstMarker(Cells())
    {
      var y := 0;
      while y < height
        invariant 0 <= y <= height
        invariant forall r, c | 0 <= r < y && 0 <= c < width :: !IsMarker(grid[r, c])
      {
        var x := 0;
        while x < width
          invariant 0 <= x <= width
          invariant forall c | 0 <= c < x :: !IsMarker(grid[y, c])
        {
          if IsMarker(grid[y, x]) {
            FirstMarkerAt(Cells(), y, x);
            return Some((y, x));
          }
          x := x + 1;
        }
        y := y + 1;
      }
      assert !HasMarker(Cells());
      return None;
    }

    /** `Parse_Entity`: the row-major first marker is walked by the walker
        its character selects, and the entity is stored in the table under
        its id, replacing any entity with that id. With no marker left, the
        initial entity is stored under the empty id. A failed walk leaves
        the table as it was and has only blanked cells of the grid. */
    method ParseEntity() returns (r: Result<Entity>)
      requires Valid()
      modifies this, grid
      ensures var st := old(ScanStep(Cells(), width));
        (r.Ok? <==> st.Ok?) && (r.Failure? ==> r.error == st.error && components == old(components)) &&
        (r.Ok? ==>
          r.value == st.value.0 && Cells() == st.value.1 &&
          components == Set(old(components), r.value.id, ToObject(r.value)))
      ensures forall r, c | 0 <= r < height && 0 <= c < width ::
        grid[r, c] == old(grid[r, c]) || grid[r, c] == ' '
    {
      ghost var g := Cells();
      var p := FindMarker();
      if p.None? {
        r := Ok(Unfound);
      } else {
        var (y, x) := p.value;
        var shape := ShapeOf(grid[y, x]);
        var walked;
        if shape == Box {
          walked := ParseBox(x, y);
        } else {
          walked := ParseRun(x, y, shape);
        }
        if walked.Failure? {
          assert Record(g, width, x, y) == Failure(walked.error);
          return Failure(walked.error);
        }
        var (id, entityWidth, entityHeight) := walked.value;
        r := Ok(Entity(id, TypeName(shape), x, y, entityWidth, entityHeight));
        assert Record(g, width, x, y) == Ok((r.value, Cells()));
      }
      components := Set(components, r.value.id, ToObject(r.value));
    }

    /** `Parse_Field`, `Parse_Panel` and `Parse_Button` from the opener at
        (`y`, `x`): the id collected, the width counted and the height,
        with the walked cells blanked in place. A failed walk has blanked
        some cells of row `y` and nothing else. */
    method ParseRun(x: nat, y: nat, shape: Shape) returns (r: Result<(string, nat, nat)>)
      requires Valid() && y < height && x < width && shape != Box
      modifies grid
      ensures var wk := old(RunWalk(Cells(), width, x, y, shape));
        (r.Ok? <==> wk.Ok?) && (r.Failure? ==> r.error == wk.error) &&
        (r.Ok? ==> r.value == (wk.value.id, wk.value.width, wk.value.height) && Cells() == wk.value.grid)
      ensures forall r, c | 0 <= r < height && 0 <= c < width ::
        grid[r, c] == old(grid[r, c]) || (r == y && grid[r, c] == ' ')
    {
      ghost var g := Cells();
      grid[y, x] := ' ';
      var res, id, runWidth := WalkRun(g, x, y, shape);
      if res.Failure? {
        return Failure(res.error);
      }
      assert RunWalk(g, width, x, y, shape) == Ok(Walked(id, runWidth, 1, Cells()));
      return Ok((id, runWidth, 1));
    }

    /** The walk of `Parse_Field`, `Parse_Panel` and `Parse_Button` along
        row `y` of grid `g`, from the column after the opener at `x`: the
        column of the closer, the id collected and the width counted. */
    method WalkRun(ghost g: Grid, x: nat, y: nat, shape: Shape) returns (res: Result<nat>, id: string, runWidth: nat)
      requires Valid() && IsGrid(g, width) && |g| == height && y < height && x < width && shape != Box
      requires forall r, c | 0 <= r < height && 0 <= c < width :: grid[r, c] == if r == y && c == x then ' ' else g[r][c]
      modifies grid
      ensures res == RunMeasure(g, width, x, y, shape)
      ensures res.Ok? ==> id == Identifiers(g[y][x + 1..res.value]) && runWidth == res.value - x + 1
      ensures forall r, c | 0 <= r < height && 0 <= c < width ::
        grid[r, c] == old(grid[r, c]) || (r == y && grid[r, c] == ' ')
      ensures res.Ok? ==> Cells() == Blanked(g, Segment(y, x, res.value))
    {
      var pos;
      pos, id, runWidth := RunCells(g, x, y);
      if pos < width && grid[y, pos] == Closer(shape) {
        RunMeasureCloses(g, width, x, y, shape, pos);
        runWidth := runWidth + 1;
        grid[y, pos] := ' ';
        res := Ok(pos);
        assert forall r, c | 0 <= r < height && 0 <= c < width ::
          grid[r, c] == if InRegion(Segment(y, x, pos), r, c) then ' ' else g[r][c];
        BlankedCells(g, Cells(), width, Segment(y, x, pos));
      } else if pos < width {
        RunMeasureStray(g, width, x, y, shape, pos);
        res := Failure(Error("Not a valid " + TypeName(shape) + "."));
      } else {
        RunMeasureTruncated(g, width, x, y, shape);
        res := Failure(Error("Truncated " + TypeName(shape) + "."));
      }
    }

    /** The loop of the run walkers: rightwards along row `y` of grid `g`
        from the column after the opener at `x`, over identifier characters
        and blanks, blanking each and collecting the identifier characters
        into the id, up to the first other cell (the closer, or a stray
        character) or the grid's right edge. */
    method RunCells(ghost g: Grid, x: nat, y: nat) returns (pos: nat, id: string, runWidth: nat)
      requires Valid() && IsGrid(g, width) && |g| == height && y < height && x < width
      requires forall c | x < c < width :: grid[y, c] == g[y][c]
      modifies grid
      ensures x < pos <= width && runWidth == pos - x
      ensures forall k | x < k < pos :: IsIdentifier(g[y][k]) || g[y][k] == ' '
      ensures pos < width ==> grid[y, pos] == g[y][pos] && !IsIdentifier(g[y][pos]) && g[y][pos] != ' '
      ensures id == Identifiers(g[y][x + 1..pos])
      ensures forall r, c | 0 <= r < height && 0 <= c < width ::
        grid[r, c] == if r == y && x < c < pos then ' ' else old(grid[r, c])
    {
      pos := x + 1;
      id := "";
      runWidth := 1;
      while pos < width
        invariant x < pos <= width && runWidth == pos - x
        invariant forall k | x < k < pos :: IsIdentifier(g[y][k]) || g[y][k] == ' '
        invariant id == Identifiers(g[y][x + 1..pos])
        invariant forall c | pos <= c < width :: grid[y, c] == g[y][c]
        invariant forall c | 0 <= c < width :: grid[y, c] == if x < c < pos then ' ' else old(grid[y, c])
        invariant forall r, c | 0 <= r < height && r != y && 0 <= c < width :: grid[r, c] == old(grid[r, c])
      {
        var cell := grid[y, pos];
        if !IsIdentifier(cell) && cell != ' ' {
          break;
        }
        IdentifiersGrow(g[y], x + 1, pos);
        if IsIdentifier(cell) {
          id := id + [cell];
        }
        runWidth := runWidth + 1;
        grid[y, pos] := ' ';
        pos := pos + 1;
      }
    }

    /** `Parse_Box` from the corner at (`y`, `x`): the id collected along
        the top edge, the width and the height, with the box's perimeter
        blanked in place. A failed walk has only blanked cells. */
    method ParseBox(x: nat, y: nat) returns (r: Result<(string, nat, nat)>)
      requires Valid() && y < height && x < width
      modifies grid
      ensures var wk := old(BoxWalk(Cells(), width, x, y));
        (r.Ok? <==> wk.Ok?) && (r.Failure? ==> r.error == wk.error) &&
        (r.Ok? ==> r.value == (wk.value.id, wk.value.width, wk.value.height) && Cells() == wk.value.grid)
      ensures forall r, c | 0 <= r < height && 0 <= c < width ::
        grid[r, c] == old(grid[r, c]) || grid[r, c] == ' '
    {
      ghost var g := Cells();
      grid[y, x] := ' ';
      var m, id, boxWidth, boxHeight := WalkBox(g, x, y);
      if m.Failure? {
        return Failure(m.error);
      }
      assert BoxWalked(g, x, y, m.value.0, m.value.1) == Walked(id, boxWidth, boxHeight, Cells());
      assert old(BoxWalk(Cells(), width, x, y)) == Ok(Walked(id, boxWidth, boxHeight, Cells()));
      return Ok((id, boxWidth, boxHeight));
    }

    /** The walks of `Parse_Box` over grid `g`, whose corner at (`y`, `x`)
        is already blanked: the measure of the box, the id read along its
        top edge, its width and height, and its perimeter blanked. */
    method WalkBox(ghost g: Grid, x: nat, y: nat) returns (m: Result<(nat, nat)>, id: string, boxWidth: nat, boxHeight: nat)
      requires Valid() && IsGrid(g, width) && |g| == height && y < height && x < width
      requires forall r, c | 0 <= r < height && 0 <= c < width :: grid[r, c] == if r == y && c == x then ' ' else g[r][c]
      modifies grid
      ensures m == BoxMeasure(g, width, x, y)
      ensures m.Ok? ==> id == g[y][x + 1..m.value.0] && boxWidth == m.value.0 - x + 1 && boxHeight == m.value.1 - y + 1
      ensures forall r, c | 0 <= r < height && 0 <= c < width ::
        grid[r, c] == old(grid[r, c]) || grid[r, c] == ' '
      ensures m.Ok? ==> Cells() == Blanked(g, Frame(x, y, m.value.0, m.value.1))
    {
      var right;
      right, id, boxWidth := WalkRight(g, x, y);
      if right.Failure? {
        assert BoxMeasure(g, width, x, y) == Failure(right.error);
        return Failure(right.error), id, boxWidth, 1;
      }
      var bottom;
      bottom, boxHeight := DownAndBack(g, x, y, right.value, boxWidth);
      if bottom.Failure? {
        assert BoxMeasure(g, width, x, y) == Failure(bottom.error);
        return Failure(bottom.error), id, boxWidth, boxHeight;
      }
      m := Ok((right.value, bottom.value));
      assert BoxMeasure(g, width, x, y) == m;
      assert forall r, c | 0 <= r < height && 0 <= c < width ::
        grid[r, c] == if InRegion(Frame(x, y, right.value, bottom.value), r, c) then ' ' else g[r][c];
      BlankedCells(g, Cells(), width, Frame(x, y, right.value, bottom.value));
    }

    /** The second half of `Parse_Box` over grid `g`, once the top edge is
        blanked up to column `right`: the walk down the right side to the
        bottom corner, then the return walks. */
    method DownAndBack(ghost g: Grid, x: nat, y: nat, right: nat, boxWidth: nat) returns (res: Result<nat>, boxHeight: nat)
      requires Valid() && IsGrid(g, width) && |g| == height
      requires x < right < width && y < height && boxWidth == right - x + 1
      requires forall r, c | y < r < height && 0 <= c <= right :: grid[r, c] == g[r][c]
      requires forall r | 0 <= r <= y :: grid[r, x] == if r == y then ' ' else g[r][x]
      modifies grid
      ensures res == match WalkTo(Column(g, width, right), y + 1, Bar, "Truncated box. (height)", "Not a valid box. (down)")
        case Failure(e) => Failure(e)
        case Ok(bottom) => match BoxReturn(g, width, x, y, right, bottom)
          case Failure(e) => Failure(e)
          case Ok(_) => Ok(bottom)
      ensures res.Ok? ==> y < res.value < height && boxHeight == res.value - y + 1
      ensures forall r, c | 0 <= r < height && 0 <= c < width ::
        grid[r, c] == old(grid[r, c]) || grid[r, c] == ' '
      ensures res.Ok? ==> forall r, c | 0 <= r < height && 0 <= c < width ::
        grid[r, c] == if (c == right && y < r <= res.value) || (r == res.value && x <= c < right) || (c == x && y <= r < res.value)
          then ' ' else old(grid[r, c])
    {
      var bottom;
      bottom, boxHeight := WalkDown(g, right, y);
      if bottom.Failure? {
        return Failure(bottom.error), boxHeight;
      }
      assert forall c | 0 <= c < right :: grid[bottom.value, c] == g[bottom.value][c];
      assert forall r | 0 <= r < bottom.value :: grid[r, x] == if r == y then ' ' else g[r][x];
      var back := ReturnWalk(g, x, y, right, bottom.value, boxWidth, boxHeight);
      if back.Failure? {
        return Failure(back.error), boxHeight;
      }
      res := bottom;
    }

    /** The return half of `Parse_Box` over grid `g`, once the outbound walks
        have blanked the top edge and the right side: the left walk along the
        bottom row, the guard against running off the grid, and the up walk
        along column `x`. */
    method ReturnWalk(ghost g: Grid, x: nat, y: nat, right: nat, bottom: nat, boxWidth: nat, boxHeight: nat) returns (res: Result<int>)
      requires Valid() && IsGrid(g, width) && |g| == height
      requires x < right < width && y < bottom < height
      requires boxWidth == right - x + 1 && boxHeight == bottom - y + 1
      requires forall c | 0 <= c < right :: grid[bottom, c] == g[bottom][c]
      requires forall r | 0 <= r < bottom :: grid[r, x] == if r == y then ' ' else g[r][x]
      modifies grid
      ensures res == BoxReturn(g, width, x, y, right, bottom)
      ensures forall r, c | 0 <= r < height && 0 <= c < width ::
        grid[r, c] == old(grid[r, c]) || grid[r, c] == ' '
      ensures res.Ok? ==> forall r, c | 0 <= r < height && 0 <= c < width ::
        grid[r, c] == if (r == bottom && x <= c < right) || (c == x && y <= r < bottom) then ' ' else old(grid[r, c])
    {
      var left := WalkLeft(g, x, right, bottom, boxWidth);
      if left.Failure? {
        return Failure(left.error);
      }
      if left.value < 0 {
        return Failure(Error("Not a valid box. (left)"));
      }
      assert left.value == x;
      res := WalkUp(g, x, y, bottom, boxHeight);
      UpWalkTop(Column(g, width, x), y, bottom);
    }

    /** The right walk of `Parse_Box` along row `y` of grid `g`, from the
        column after the corner at `x`: the column of the top-right corner,
        the id collected and the width counted. */
    method WalkRight(ghost g: Grid, x: nat, y: nat) returns (res: Result<nat>, id: string, boxWidth: nat)
      requires Valid() && IsGrid(g, width) && |g| == height && y < height && x < width
      requires forall c | x < c < width :: grid[y, c] == g[y][c]
      modifies grid
      ensures res == WalkTo(g[y], x + 1, IdentOnly, "Truncated box. (width)", "Not a valid box. (right)")
      ensures res.Ok? ==> id == g[y][x + 1..res.value] && boxWidth == res.value - x + 1
      ensures forall r, c | 0 <= r < height && 0 <= c < width ::
        grid[r, c] == old(grid[r, c]) || (r == y && grid[r, c] == ' ')
      ensures res.Ok? ==> forall r, c | 0 <= r < height && 0 <= c < width ::
        grid[r, c] == if r == y && x < c <= res.value then ' ' else old(grid[r, c])
    {
      var pos := x + 1;
      id := "";
      boxWidth := 1;
      while pos < width
        invariant x < pos <= width && boxWidth == pos - x
        invariant forall k | x < k < pos :: IsIdentifier(g[y][k])
        invariant id == g[y][x + 1..pos]
        invariant forall r, c | 0 <= r < height && 0 <= c < width ::
          grid[r, c] == if r == y && x < c < pos then ' ' else old(grid[r, c])
      {
        var cell := grid[y, pos];
        if cell == '+' {
          boxWidth := boxWidth + 1;
          grid[y, pos] := ' ';
          break;
        } else if IsIdentifier(cell) {
          assert g[y][x + 1..pos + 1] == g[y][x + 1..pos] + [cell];
          id := id + [cell];
          boxWidth := boxWidth + 1;
          grid[y, pos] := ' ';
        } else {
          ScanForwardStopsAt(g[y], x + 1, IdentOnly, pos);
          return Failure(Error("Not a valid box. (right)")), id, boxWidth;
        }
        pos := pos + 1;
      }
      if pos == width {
        ScanForwardRunsOut(g[y], x + 1, IdentOnly);
        return Failure(Error("Truncated box. (width)")), id, boxWidth;
      }
      WalkToCorner(g[y], x + 1, IdentOnly, "Truncated box. (width)", "Not a valid box. (right)", pos);
      res := Ok(pos);
    }

    /** The down walk of `Parse_Box` in column `right` of grid `g`, from
        the row after the top edge in row `y`: the row of the bottom-right
        corner and the height counted. */
    method WalkDown(ghost g: Grid, right: nat, y: nat) returns (res: Result<nat>, boxHeight: nat)
      requires Valid() && IsGrid(g, width) && |g| == height && y < height && right < width
      requires forall r | y < r < height :: grid[r, right] == g[r][right]
      modifies grid
      ensures res == WalkTo(Column(g, width, right), y + 1, Bar, "Truncated box. (height)", "Not a valid box. (down)")
      ensures res.Ok? ==> boxHeight == res.value - y + 1
      ensures forall r, c | 0 <= r < height && 0 <= c < width ::
        grid[r, c] == old(grid[r, c]) || (c == right && grid[r, c] == ' ')
      ensures res.Ok? ==> forall r, c | 0 <= r < height && 0 <= c < width ::
        grid[r, c] == if c == right && y < r <= res.value then ' ' else old(grid[r, c])
    {
      ghost var side := Column(g, width, right);
      var pos := y + 1;
      boxHeight := 1;
      while pos < height
        invariant y < pos <= height && boxHeight == pos - y
        invariant forall k | y < k < pos :: side[k] == '|'
        invariant forall r, c | 0 <= r < height && 0 <= c < width ::
          grid[r, c] == if c == right && y < r < pos then ' ' else old(grid[r, c])
      {
        var cell := grid[pos, right];
        if cell == '+' {
          boxHeight := boxHeight + 1;
          grid[pos, right] := ' ';
          break;
        } else if cell == '|' {
          boxHeight := boxHeight + 1;
          grid[pos, right] := ' ';
        } else {
          ScanForwardStopsAt(side, y + 1, Bar, pos);
          return Failure(Error("Not a valid box. (down)")), boxHeight;
        }
        pos := pos + 1;
      }
      if pos == height {
        ScanForwardRunsOut(side, y + 1, Bar);
        return Failure(Error("Truncated box. (height)")), boxHeight;
      }
      WalkToCorner(side, y + 1, Bar, "Truncated box. (height)", "Not a valid box. (down)", pos);
      res := Ok(pos);
    }

    /** The left walk of `Parse_Box` along row `bottom` of grid `g`, from
        the column before the bottom-right corner, and the width check after
        it: the column it stopped in, -1 when it ran off the grid. */
    method WalkLeft(ghost g: Grid, x: nat, right: nat, bottom: nat, boxWidth: nat) returns (res: Result<int>)
      requires Valid() && IsGrid(g, width) && |g| == height
      requires x < right < width && bottom < height && boxWidth == right - x + 1
      requires forall c | 0 <= c < right :: grid[bottom, c] == g[bottom][c]
      modifies grid
      ensures res == LeftWalkAsWritten(g[bottom], right, x)
      ensures forall r, c | 0 <= r < height && 0 <= c < width ::
        grid[r, c] == old(grid[r, c]) || (r == bottom && grid[r, c] == ' ')
      ensures res.Ok? ==> forall r, c | 0 <= r < height && 0 <= c < width ::
        grid[r, c] == if r == bottom && res.value <= c < right then ' ' else old(grid[r, c])
    {
      var pos: int := right - 1;
      var revWidth := 1;
      while pos >= 0
        invariant -1 <= pos < right && revWidth == right - pos
        invariant forall k | pos < k < right :: g[bottom][k] == '-'
        invariant forall r, c | 0 <= r < height && 0 <= c < width ::
          grid[r, c] == if r == bottom && pos < c < right then ' ' else old(grid[r, c])
      {
        var cell := grid[bottom, pos];
        if cell == '+' {
          revWidth := revWidth + 1;
          grid[bottom, pos] := ' ';
          break;
        } else if cell == '-' {
          revWidth := revWidth + 1;
          grid[bottom, pos] := ' ';
        } else {
          ScanBackwardStopsAt(g[bottom], right - 1, Dash, pos);
          return Failure(Error("Not a valid box. (left)"));
        }
        pos := pos - 1;
      }
      if pos >= 0 {
        ScanBackwardStopsAt(g[bottom], right - 1, Dash, pos);
      } else {
        ScanBackwardRunsOut(g[bottom], right - 1, Dash);
      }
      if revWidth != boxWidth {
        return Failure(Error("Not a valid box. (width mismatch)"));
      }
      res := Ok(pos);
    }

    /** The up walk of `Parse_Box` in column `x` of grid `g`, from the row
        above the bottom corner, over a column whose top-left corner the
        right walk has already blanked, and the height check after it: the
        row it stopped in. */
    method WalkUp(ghost g: Grid, x: nat, y: nat, bottom: nat, boxHeight: nat) returns (res: Result<int>)
      requires Valid() && IsGrid(g, width) && |g| == height
      requires x < width && y < bottom < height && boxHeight == bottom - y + 1
      requires forall r | 0 <= r < bottom :: grid[r, x] == if r == y then ' ' else g[r][x]
      modifies grid
      ensures res == UpWalk(Column(g, width, x), y, bottom)
      ensures forall r, c | 0 <= r < height && 0 <= c < width ::
        grid[r, c] == old(grid[r, c]) || (c == x && grid[r, c] == ' ')
      ensures res.Ok? ==> forall r, c | 0 <= r < height && 0 <= c < width ::
        grid[r, c] == if c == x && res.value <= r < bottom then ' ' else old(grid[r, c])
    {
      ghost var side := Column(g, width, x)[y := ' '];
      assert forall r | 0 <= r < bottom :: grid[r, x] == side[r];
      var pos, revHeight := ClimbBars(side, x, bottom);
      if pos >= 0 {
        ScanBackwardStopsAt(side, bottom - 1, Bar, pos);
        if grid[pos, x] != ' ' {
          return Failure(Error("Not a valid box. (up)"));
        }
        revHeight := revHeight + 1;
        grid[pos, x] := ' ';
      } else {
        ScanBackwardRunsOut(side, bottom - 1, Bar);
      }
      if revHeight != boxHeight {
        return Failure(Error("Not a valid box. (height mismatch)"));
      }
      res := Ok(pos);
    }

    /** The loop of the up walk: upwards in column `x` from the row above
        `bottom`, blanking each `|` and counting it into the return height,
        to the first other cell or the grid's top edge. `side` is what the
        column holds above `bottom`. */
    method ClimbBars(ghost side: seq<char>, x: nat, bottom: nat) returns (pos: int, revHeight: nat)
      requires Valid() && x < width && bottom < height && |side| == height
      requires forall r | 0 <= r < bottom :: grid[r, x] == side[r]
      modifies grid
      ensures -1 <= pos < bottom && revHeight == bottom - pos
      ensures forall k | pos < k < bottom :: side[k] == '|'
      ensures pos >= 0 ==> side[pos] != '|' && grid[pos, x] == side[pos]
      ensures forall r, c | 0 <= r < height && 0 <= c < width ::
        grid[r, c] == if c == x && pos < r < bottom then ' ' else old(grid[r, c])
    {
      pos := bottom - 1;
      revHeight := 1;
      while pos >= 0
        invariant -1 <= pos < bottom && revHeight == bottom - pos
        invariant forall k | pos < k < bottom :: side[k] == '|'
        invariant forall r | 0 <= r <= pos :: grid[r, x] == side[r]
        invariant forall r | 0 <= r < height :: grid[r, x] == if pos < r < bottom then ' ' else old(grid[r, x])
        invariant forall r, c | 0 <= r < height && 0 <= c < width && c != x :: grid[r, c] == old(grid[r, c])
      {
        if grid[pos, x] != '|' {
          break;
        }
        revHeight := revHeight + 1;
        grid[pos, x] := ' ';
        pos := pos - 1;
      }
    }

    /** `Parse_Properties`: the property lines that follow the grid block,
        applied in order to the entity table. Each line names an entity the
        grid defined and assigns its items in order, a number where the
        number parser accepts the value and the text otherwise. The first
        malformed line or item, or unknown entity, ends the parse with its
        error; the table then keeps its entities, with the assignments made
        before the error. */
    method ParseProperties(lines: seq<string>, toNumber: string -> Option<int>) returns (err: Option<Error>)
      modifies this
      ensures var res := old(ApplyLines(components, lines, toNumber));
        (err.None? <==> res.Ok?) && (err.Some? ==> err.value == res.error) &&
        (res.Ok? ==> components == res.value)
      ensures components == old(LinesWritten(components, lines, toNumber))
      ensures components.keys == old(components.keys)
    {
      ghost var c0 := components;
      var i := 0;
      while i < |lines|
        invariant 0 <= i <= |lines|
        invariant ApplyLines(c0, lines[..i], toNumber) == Ok(components)
        invariant components.keys == c0.keys
      {
        assert lines[..i + 1][..i] == lines[..i];
        ghost var before := components;
        var pair := Split(lines[i], "->");
        if |pair| != 2 {
          assert LinesWritten(c0, lines[..i + 1], toNumber) == components;
          ApplyLinesStops(c0, lines, i + 1, toNumber);
          return Some(Error("Entity ID is missing properties."));
        }
        var id := pair[0];
        if !Has(components, id) {
          assert LinesWritten(c0, lines[..i + 1], toNumber) == components;
          ApplyLinesStops(c0, lines, i + 1, toNumber);
          return Some(Error("Entity " + id + " is not defined."));
        }
        var applied := ParseItems(id, Split(pair[1], ","), toNumber);
        if !applied {
          assert LinesWritten(c0, lines[..i + 1], toNumber) == LineWritten(before, lines[i], toNumber);
          ApplyLinesStops(c0, lines, i + 1, toNumber);
          return Some(Error("Property is missing value."));
        }
        i := i + 1;
      }
      assert lines[..i] == lines;
      return None;
    }

    /** The items of one property line written in order into the entity
        `id`, as `Parse_Properties` does: false at the first item that is
        not a `key=value` pair, with the items before it written. */
    method ParseItems(id: string, props: seq<string>, toNumber: string -> Option<int>) returns (applied: bool)
      requires Has(components, id)
      modifies this
      ensures var res := ApplyItems(old(Get(components, id)), props, toNumber);
        (applied <==> res.Ok?) && (applied ==> components == Set(old(components), id, res.value)) &&
        (!applied ==> res.error == Error("Property is missing value."))
      ensures components == Set(old(components), id, ItemsWritten(old(Get(components, id)), props, toNumber))
      ensures components.keys == old(components.keys)
    {
      ghost var c1 := components;
      ghost var e := Get(c1, id);
      SetSame(c1, id);
      assert props[..0] == [];
      var k := 0;
      while k < |props|
        invariant 0 <= k <= |props|
        invariant ApplyItems(e, props[..k], toNumber).Ok?
        invariant components == Set(c1, id, ApplyItems(e, props[..k], toNumber).value)
      {
        assert props[..k + 1][..k] == props[..k];
        var prop := Split(props[k], "=");
        if |prop| != 2 {
          assert ItemsWritten(e, props[..k + 1], toNumber) == ApplyItems(e, props[..k], toNumber).value;
          ItemsWrittenStops(e, props, k + 1, toNumber);
          return false;
        }
        SetSet(c1, id, ApplyItems(e, props[..k], toNumber).value, ApplyItems(e, props[..k + 1], toNumber).value);
        components := Set(components, id, Set(Get(components, id), prop[0], ToValue(prop[1], toNumber)));
        k := k + 1;
      }
      assert props[..k] == props;
      return true;
    }

    /** `Parse_Layout` on the lines of a layout file: the first `height`
        lines are copied over the grid, every entity is walked out of the
        grid into the table while a marker is left, and the remaining lines
        are parsed as properties. The outcome is the first error, or the
        table and grid that `LayoutParse` describes. */
    method ParseLayout(lines: seq<string>, toNumber: string -> Option<int>) returns (err: Option<Error>)
      requires Valid() && |lines| >= height
      modifies this, grid
      ensures var res := old(LayoutParse(Cells(), width, components, lines, toNumber));
        (err.None? <==> res.Ok?) && (err.Some? ==> err.value == res.error) &&
        (res.Ok? ==> components == res.value.0 && Cells() == res.value.1)
    {
      ParseGrid(lines);
      ghost var g1 := Cells();
      ghost var t0 := components;
      var has := HasEntity();
      while has
        invariant Valid()
        invariant has == HasMarker(Cells())
        invariant ScanAll(Cells(), width, components) == ScanAll(g1, width, t0)
        decreases MarkerCount(Cells())
      {
        var en := ParseEntity();
        if en.Failure? {
          return Some(en.error);
        }
        has := HasEntity();
      }
      assert ScanAll(g1, width, t0) == Ok((components, Cells()));
      err := ParseProperties(lines[height..], toNumber);
    }
  }
}
