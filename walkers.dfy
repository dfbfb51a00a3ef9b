/** The outline walkers as functions of the grid they start on: what each
    walk reads, the identifier and extents it measures, the cells it blanks
    and the error it raises. */
module Walkers {
  import opened Wrappers
  import opened Grids

  datatype Shape = Box | Field | Panel | Button

  /** The entity type a marker glyph starts. */
  function ShapeOf(marker: char): (s: Shape)
    requires IsMarker(marker)
    ensures (s == Box) == (marker == '+')
  {
    if marker == '+' then Box
    else if marker == '[' then Field
    else if marker == '{' then Panel
    else Button
  }

  function TypeName(s: Shape): string
  {
    match s
    case Box => "box"
    case Field => "field"
    case Panel => "panel"
    case Button => "button"
  }

  /** The glyph that closes a field, panel or button. */
  function Closer(s: Shape): (c: char)
    requires s != Box
    ensures !IsIdentifier(c) && c != ' ' && !IsMarker(c)
  {
    match s
    case Field => ']'
    case Panel => '}'
    case Button => ')'
  }

  /** What a successful walk measured, and the grid it left behind. */
  datatype Walked = Walked(id: string, width: nat, height: nat, grid: Grid)

  /** The identifier characters of `s`, in order. */
  function Identifiers(s: seq<char>): seq<char>
    decreases |s|
  {
    if s == [] then []
    else
      var last := s[|s| - 1];
      Identifiers(s[..|s| - 1]) + (if IsIdentifier(last) then [last] else [])
  }

  /** The id collected holds only identifier characters, no more than the
      cells walked, and every one of them when all are identifier
      characters. */
  lemma {:induction false} IdentifiersKeep(s: seq<char>)
    ensures |Identifiers(s)| <= |s|
    ensures forall i | 0 <= i < |Identifiers(s)| :: IsIdentifier(Identifiers(s)[i])
    ensures (forall i | 0 <= i < |s| :: IsIdentifier(s[i])) ==> Identifiers(s) == s
    decreases |s|
  {
    if s != [] {
      var init := s[..|s| - 1];
      IdentifiersKeep(init);
      if forall i | 0 <= i < |s| :: IsIdentifier(s[i]) {
        assert forall i | 0 <= i < |init| :: IsIdentifier(init[i]);
        assert init + [s[|s| - 1]] == s;
      }
    }
  }

  /** Collecting one more character adds it when it is an identifier
      character, as `id_str += cell` does. */
  lemma IdentifiersSnoc(s: seq<char>, c: char)
    ensures Identifiers(s + [c]) == Identifiers(s) + (if IsIdentifier(c) then [c] else [])
  {
    assert (s + [c])[..|s|] == s;
  }

  /** The identifier characters of a slice of `s` that grows by one cell. */
  lemma IdentifiersGrow(s: seq<char>, from: nat, pos: nat)
    requires from <= pos < |s|
    ensures Identifiers(s[from..pos + 1]) == Identifiers(s[from..pos]) + (if IsIdentifier(s[pos]) then [s[pos]] else [])
  {
    assert s[from..pos + 1] == s[from..pos] + [s[pos]];
    IdentifiersSnoc(s[from..pos], s[pos]);
  }

  // ---------------------------------------------------------------------
  // Field, panel and button: one walk to the right.

  /** Column `j` closes the run that opens at column `x` of row `s`: every
      cell in between is an identifier character or a blank. */
  predicate Closes(s: seq<char>, x: nat, j: int, closer: char)
  {
    x < j < |s| && s[j] == closer &&
    forall k | x < k < j :: IsIdentifier(s[k]) || s[k] == ' '
  }

  /** A stray character at column `j` ends the run before any closer. */
  predicate StrayAt(s: seq<char>, x: nat, j: int, closer: char)
  {
    x < j < |s| && s[j] != closer && !IsIdentifier(s[j]) && s[j] != ' ' &&
    forall k | x < k < j :: IsIdentifier(s[k]) || s[k] == ' '
  }

  /** The walk of `Parse_Field`, `Parse_Panel` and `Parse_Button` from the
      opener at (`y`, `x`): rightwards over identifier characters and blanks
      to the shape's closer, whose column is the result. */
  function RunMeasure(g: Grid, w: nat, x: nat, y: nat, shape: Shape): (r: Result<nat>)
    requires IsGrid(g, w) && y < |g| && x < w && shape != Box
    ensures r.Ok? ==> Closes(g[y], x, r.value, Closer(shape))
  {
    match ScanForward(g[y], x + 1, IdentOrBlank)
    case None => Failure(Error("Truncated " + TypeName(shape) + "."))
    case Some(j) =>
      if g[y][j] == Closer(shape) then Ok(j)
      else Failure(Error("Not a valid " + TypeName(shape) + "."))
  }

  /** The run walk: the identifier characters between opener and closer as
      id, a width from opener to closer inclusive, a height of one, and
      exactly those cells blanked. */
  function RunWalk(g: Grid, w: nat, x: nat, y: nat, shape: Shape): Result<Walked>
    requires IsGrid(g, w) && y < |g| && x < w && shape != Box
  {
    match RunMeasure(g, w, x, y, shape)
    case Failure(e) => Failure(e)
    case Ok(j) => Ok(Walked(Identifiers(g[y][x + 1..j]), j - x + 1, 1, Blanked(g, Segment(y, x, j))))
  }

  /** A closer that ends the run is where the walk stops. */
  lemma RunMeasureCloses(g: Grid, w: nat, x: nat, y: nat, shape: Shape, j: nat)
    requires IsGrid(g, w) && y < |g| && x < w && shape != Box
    requires Closes(g[y], x, j, Closer(shape))
    ensures RunMeasure(g, w, x, y, shape) == Ok(j)
  {
    ScanForwardStopsAt(g[y], x + 1, IdentOrBlank, j);
  }

  /** A stray character before any closer makes the run "Not a valid ...". */
  lemma RunMeasureStray(g: Grid, w: nat, x: nat, y: nat, shape: Shape, j: nat)
    requires IsGrid(g, w) && y < |g| && x < w && shape != Box
    requires StrayAt(g[y], x, j, Closer(shape))
    ensures RunMeasure(g, w, x, y, shape) == Failure(Error("Not a valid " + TypeName(shape) + "."))
  {
    ScanForwardStopsAt(g[y], x + 1, IdentOrBlank, j);
  }

  /** A run of identifier characters and blanks to the right edge is
      "Truncated ...". */
  lemma RunMeasureTruncated(g: Grid, w: nat, x: nat, y: nat, shape: Shape)
    requires IsGrid(g, w) && y < |g| && x < w && shape != Box
    requires forall k | x < k < w :: IsIdentifier(g[y][k]) || g[y][k] == ' '
    ensures RunMeasure(g, w, x, y, shape) == Failure(Error("Truncated " + TypeName(shape) + "."))
  {
    ScanForwardRunsOut(g[y], x + 1, IdentOrBlank);
  }

  // ---------------------------------------------------------------------
  // Box: right, down, left, up around a `+`-cornered rectangle.

  /** A walk along `s` from index `from` over cells `f` accepts, which must
      end on a `+` corner: the index of the corner, or `truncated` when the
      walk runs off the end, or `invalid` when another character stops it. */
  function WalkTo(s: seq<char>, from: nat, f: Fill, truncated: string, invalid: string): (r: Result<nat>)
    ensures r.Ok? ==> from <= r.value < |s| && s[r.value] == '+'
    ensures r.Ok? ==> forall i | from <= i < r.value :: Accepts(f, s[i])
    ensures r.Failure? ==> r.error == Error(truncated) || r.error == Error(invalid)
  {
    match ScanForward(s, from, f)
    case None => Failure(Error(truncated))
    case Some(k) => if s[k] != '+' then Failure(Error(invalid)) else Ok(k)
  }

  /** A walk over accepted cells that reaches a corner stops there. */
  lemma WalkToCorner(s: seq<char>, from: nat, f: Fill, truncated: string, invalid: string, k: nat)
    requires from <= k < |s| && s[k] == '+' && !Accepts(f, '+')
    requires forall i | from <= i < k :: Accepts(f, s[i])
    ensures WalkTo(s, from, f, truncated, invalid) == Ok(k)
  {
    ScanForwardStopsAt(s, from, f, k);
  }

  /** A walk whose every cell to the end is accepted runs off the grid:
      the `truncated` error ("Truncated box. (width)" or "(height)"). */
  lemma WalkToTruncated(s: seq<char>, from: nat, f: Fill, truncated: string, invalid: string)
    requires forall i | from <= i < |s| :: Accepts(f, s[i])
    ensures WalkTo(s, from, f, truncated, invalid) == Failure(Error(truncated))
  {
    ScanForwardRunsOut(s, from, f);
  }

  /** A walk that meets a cell it does not accept, other than a corner, is
      rejected there: the `invalid` error ("Not a valid box. (right)" or
      "(down)"). */
  lemma WalkToInvalid(s: seq<char>, from: nat, f: Fill, truncated: string, invalid: string, k: nat)
    requires from <= k < |s| && !Accepts(f, s[k]) && s[k] != '+'
    requires forall i | from <= i < k :: Accepts(f, s[i])
    ensures WalkTo(s, from, f, truncated, invalid) == Failure(Error(invalid))
  {
    ScanForwardStopsAt(s, from, f, k);
  }

  /** The left walk of `Parse_Box` and the width check after it, as the
      source writes them: leftwards along the bottom row from the column
      before the bottom-right corner, over `-` to a `+`, counting a return
      width that must equal the width `right - x + 1`. The walk has no check
      for running off the grid's left edge. On success the result is the
      column the up walk goes on to read: column `x` when a corner was
      found, and column -1, outside the grid, when the bottom row is all
      `-` and the box starts in column 0. */
  function LeftWalkAsWritten(row: seq<char>, right: nat, x: nat): (r: Result<int>)
    requires 0 < right < |row|
    ensures r.Ok? ==> r.value == x || (x == 0 && r.value == -1)
    ensures r.Ok? && r.value == x ==> x < right && row[x] == '+' && forall c | x < c < right :: row[c] == '-'
    ensures r.Ok? && r.value == -1 ==> forall c | 0 <= c < right :: row[c] == '-'
  {
    var left := ScanBackward(row, right - 1, Dash);
    if left >= 0 && row[left] != '+' then Failure(Error("Not a valid box. (left)"))
    else
      var returnWidth := if left >= 0 then right - left + 1 else right + 1;
      if returnWidth != right - x + 1 then Failure(Error("Not a valid box. (width mismatch)"))
      else Ok(left)
  }

  /** A bottom row that meets its corner in column `x` passes the left walk. */
  lemma LeftWalkToCorner(row: seq<char>, right: nat, x: nat)
    requires x < right < |row| && row[x] == '+'
    requires forall c | x < c < right :: row[c] == '-'
    ensures LeftWalkAsWritten(row, right, x) == Ok(x)
  {
    ScanBackwardStopsAt(row, right - 1, Dash, x);
  }

  /** The up walk of `Parse_Box` in a column `side` of the grid: upwards from
      above the bottom-left corner in row `bottom`, over `|` to the blank
      that the right walk left in the top-left corner in row `y`, counting a
      return height that must equal the height `bottom - y + 1`. */
  function UpWalk(side: seq<char>, y: nat, bottom: nat): Result<int>
    requires y < bottom < |side|
  {
    var leftSide := side[y := ' '];
    var top := ScanBackward(leftSide, bottom - 1, Bar);
    if top >= 0 && leftSide[top] != ' ' then Failure(Error("Not a valid box. (up)"))
    else
      var returnHeight := if top >= 0 then bottom - top + 1 else bottom + 1;
      if returnHeight != bottom - y + 1 then Failure(Error("Not a valid box. (height mismatch)"))
      else Ok(top)
  }

  /** A successful up walk stops at the top-left corner. */
  lemma UpWalkTop(side: seq<char>, y: nat, bottom: nat)
    requires y < bottom < |side|
    ensures UpWalk(side, y, bottom).Ok? ==> UpWalk(side, y, bottom).value == y
  {
    var leftSide := side[y := ' '];
    assert !Accepts(Bar, leftSide[y]);
  }

  /** The up walk succeeds exactly when the side is unbroken between the
      two rows of corners. */
  lemma UpWalkAccepts(side: seq<char>, y: nat, bottom: nat)
    requires y < bottom < |side|
    ensures UpWalk(side, y, bottom).Ok? <==> forall r | y < r < bottom :: side[r] == '|'
  {
    var leftSide := side[y := ' '];
    if forall r | y < r < bottom :: side[r] == '|' {
      ScanBackwardStopsAt(leftSide, bottom - 1, Bar, y);
    } else {
      var r :| y < r < bottom && side[r] != '|';
      assert leftSide[r] == side[r];
    }
  }

  /** The rectangle with top-left corner (`y`, `x`), top-right corner in
      column `right` and bottom edge in row `bottom` is drawn the way the box
      walker accepts it: identifier characters along the top edge, `+` in
      the three other corners, `|` down both sides and `-` along the bottom.
      The top-left cell itself is not looked at. */
  ghost predicate Outline(g: Grid, w: nat, x: nat, y: nat, right: nat, bottom: nat)
    requires IsGrid(g, w)
  {
    y < bottom < |g| && x < right < w &&
    g[y][right] == '+' && g[bottom][right] == '+' && g[bottom][x] == '+' &&
    (forall c | x < c < right :: IsIdentifier(g[y][c])) &&
    (forall c | x < c < right :: g[bottom][c] == '-') &&
    (forall r | y < r < bottom :: g[r][right] == '|') &&
    (forall r | y < r < bottom :: g[r][x] == '|')
  }

  /** What the box walker yields for that rectangle: the whole top edge as
      id, the rectangle's extents, and its perimeter blanked. */
  function BoxWalked(g: Grid, x: nat, y: nat, right: nat, bottom: nat): Walked
    requires y < bottom && y < |g| && x < right <= |g[y]|
  {
    Walked(g[y][x + 1..right], right - x + 1, bottom - y + 1, Blanked(g, Frame(x, y, right, bottom)))
  }

  /** The walk of `Parse_Box` from the corner at (`y`, `x`): right along the
      top edge over identifier characters to a `+`; down over `|` to a `+`;
      then the left and up walks. One guard is added to the source: when
      the left walk finds no `+` before the grid's left edge and its count
      still matches (which happens only for a box in column 0), the walk
      fails instead of going on in column -1. The result is the column of
      the right corners and the row of the bottom corners. */
  function BoxMeasure(g: Grid, w: nat, x: nat, y: nat): (r: Result<(nat, nat)>)
    requires IsGrid(g, w) && y < |g| && x < w
    ensures r.Ok? ==> x < r.value.0 < w && y < r.value.1 < |g|
  {
    match WalkTo(g[y], x + 1, IdentOnly, "Truncated box. (width)", "Not a valid box. (right)")
    case Failure(e) => Failure(e)
    case Ok(right) =>
      match WalkTo(Column(g, w, right), y + 1, Bar, "Truncated box. (height)", "Not a valid box. (down)")
      case Failure(e) => Failure(e)
      case Ok(bottom) =>
        match BoxReturn(g, w, x, y, right, bottom)
        case Failure(e) => Failure(e)
        case Ok(_) => Ok((right, bottom))
  }

  /** The return half of the box walk, once the outbound walks found the
      right corners in column `right` and the bottom edge in row `bottom`:
      the left walk with its width check, the guard, and the up walk with
      its height check. The result is the row the up walk stopped in. */
  function BoxReturn(g: Grid, w: nat, x: nat, y: nat, right: nat, bottom: nat): Result<int>
    requires IsGrid(g, w) && x < right < w && y < bottom < |g|
  {
    match LeftWalkAsWritten(g[bottom], right, x)
    case Failure(e) => Failure(e)
    case Ok(left) =>
      if left < 0 then Failure(Error("Not a valid box. (left)"))
      else UpWalk(Column(g, w, left), y, bottom)
  }

  /** The box walk: its measurements turned into the box's id, extents and
      blanked perimeter. */
  function BoxWalk(g: Grid, w: nat, x: nat, y: nat): Result<Walked>
    requires IsGrid(g, w) && y < |g| && x < w
  {
    match BoxMeasure(g, w, x, y)
    case Failure(e) => Failure(e)
    case Ok((right, bottom)) => Ok(BoxWalked(g, x, y, right, bottom))
  }

  /** The box of width 4 and height 3 in column 0 whose bottom row lacks its
      left corner: as written, the width check passes and the up walk is
      sent to column -1; the guarded walker rejects the box instead. */
  lemma CornerlessBoxLeavesGrid()
    ensures LeftWalkAsWritten("---+", 3, 0) == Ok(-1)
    ensures BoxWalk(["+ab+", "   |", "---+"], 4, 0, 0) == Failure(Error("Not a valid box. (left)"))
  {
    var g: Grid := ["+ab+", "   |", "---+"];
    WalkToCorner(g[0], 1, IdentOnly, "Truncated box. (width)", "Not a valid box. (right)", 3);
    WalkToCorner(Column(g, 4, 3), 1, Bar, "Truncated box. (height)", "Not a valid box. (down)", 2);
    assert ScanBackward("---+", 2, Dash) == -1;
  }

  /** A correctly drawn box is measured exactly: the column of its right
      corners and the row of its bottom corners. */
  lemma BoxMeasureComplete(g: Grid, w: nat, x: nat, y: nat, right: nat, bottom: nat)
    requires IsGrid(g, w) && y < |g| && x < w
    requires Outline(g, w, x, y, right, bottom)
    ensures BoxMeasure(g, w, x, y) == Ok((right, bottom))
  {
    WalkToCorner(g[y], x + 1, IdentOnly, "Truncated box. (width)", "Not a valid box. (right)", right);
    WalkToCorner(Column(g, w, right), y + 1, Bar, "Truncated box. (height)", "Not a valid box. (down)", bottom);
    LeftWalkToCorner(g[bottom], right, x);
    UpWalkAccepts(Column(g, w, x), y, bottom);
  }

  /** Whatever the box walker accepts is a correctly drawn box: the return
      walks confirm the outbound measurements, so a skewed shape is never
      accepted. */
  lemma BoxMeasureSound(g: Grid, w: nat, x: nat, y: nat)
    requires IsGrid(g, w) && y < |g| && x < w
    requires BoxMeasure(g, w, x, y).Ok?
    ensures Outline(g, w, x, y, BoxMeasure(g, w, x, y).value.0, BoxMeasure(g, w, x, y).value.1)
  {
    var right := WalkTo(g[y], x + 1, IdentOnly, "Truncated box. (width)", "Not a valid box. (right)").value;
    var rightSide := Column(g, w, right);
    var bottom := WalkTo(rightSide, y + 1, Bar, "Truncated box. (height)", "Not a valid box. (down)").value;
    var left := LeftWalkAsWritten(g[bottom], right, x).value;
    assert left == x;
    UpWalkAccepts(Column(g, w, x), y, bottom);
    assert forall r | y < r < bottom :: g[r][right] == '|' by {
      forall r | y < r < bottom ensures g[r][right] == '|' {
        assert rightSide[r] == '|';
      }
    }
    assert BoxMeasure(g, w, x, y).value == (right, bottom);
  }

  /** The top edge and right side of a box as drawn, reaching the
      bottom-right corner at (`bottom`, `right`). */
  ghost predicate OutboundLegs(g: Grid, w: nat, x: nat, y: nat, right: nat, bottom: nat)
    requires IsGrid(g, w)
  {
    y < bottom < |g| && x < right < w &&
    g[y][right] == '+' && g[bottom][right] == '+' &&
    (forall c | x < c < right :: IsIdentifier(g[y][c])) &&
    (forall r | y < r < bottom :: g[r][right] == '|')
  }

  /** A bottom edge that meets its left corner in another column than the
      top edge's is a width mismatch. */
  lemma SkewedBottomRejected(g: Grid, w: nat, x: nat, y: nat, right: nat, bottom: nat, left: nat)
    requires IsGrid(g, w) && y < |g| && x < w
    requires OutboundLegs(g, w, x, y, right, bottom)
    requires left < right && left != x && g[bottom][left] == '+'
    requires forall c | left < c < right :: g[bottom][c] == '-'
    ensures BoxMeasure(g, w, x, y) == Failure(Error("Not a valid box. (width mismatch)"))
  {
    WalkToCorner(g[y], x + 1, IdentOnly, "Truncated box. (width)", "Not a valid box. (right)", right);
    WalkToCorner(Column(g, w, right), y + 1, Bar, "Truncated box. (height)", "Not a valid box. (down)", bottom);
    ScanBackwardStopsAt(g[bottom], right - 1, Dash, left);
  }

  /** A left side whose run of `|` is broken by a blank below the top-left
      corner is shorter than the right side: a height mismatch. */
  lemma SkewedLeftSideRejected(g: Grid, w: nat, x: nat, y: nat, right: nat, bottom: nat, gap: nat)
    requires IsGrid(g, w) && y < |g| && x < w
    requires OutboundLegs(g, w, x, y, right, bottom)
    requires g[bottom][x] == '+' && forall c | x < c < right :: g[bottom][c] == '-'
    requires y < gap < bottom && g[gap][x] == ' '
    requires forall r | gap < r < bottom :: g[r][x] == '|'
    ensures BoxMeasure(g, w, x, y) == Failure(Error("Not a valid box. (height mismatch)"))
  {
    WalkToCorner(g[y], x + 1, IdentOnly, "Truncated box. (width)", "Not a valid box. (right)", right);
    WalkToCorner(Column(g, w, right), y + 1, Bar, "Truncated box. (height)", "Not a valid box. (down)", bottom);
    LeftWalkToCorner(g[bottom], right, x);
    var side := Column(g, w, x);
    ScanBackwardStopsAt(side[y := ' '], bottom - 1, Bar, gap);
    assert UpWalk(side, y, bottom) == Failure(Error("Not a valid box. (height mismatch)"));
  }

  /** A bottom edge that meets a character other than `-` or `+` before
      any corner is not a valid box edge. */
  lemma StrayBottomRejected(g: Grid, w: nat, x: nat, y: nat, right: nat, bottom: nat, c: nat)
    requires IsGrid(g, w) && y < |g| && x < w
    requires OutboundLegs(g, w, x, y, right, bottom)
    requires c < right && g[bottom][c] != '-' && g[bottom][c] != '+'
    requires forall k | c < k < right :: g[bottom][k] == '-'
    ensures BoxMeasure(g, w, x, y) == Failure(Error("Not a valid box. (left)"))
  {
    WalkToCorner(g[y], x + 1, IdentOnly, "Truncated box. (width)", "Not a valid box. (right)", right);
    WalkToCorner(Column(g, w, right), y + 1, Bar, "Truncated box. (height)", "Not a valid box. (down)", bottom);
    ScanBackwardStopsAt(g[bottom], right - 1, Dash, c);
  }

  /** A left side that meets a character other than `|` or a blank below
      the top-left corner is not a valid box side. */
  lemma StrayLeftSideRejected(g: Grid, w: nat, x: nat, y: nat, right: nat, bottom: nat, r: nat)
    requires IsGrid(g, w) && y < |g| && x < w
    requires OutboundLegs(g, w, x, y, right, bottom)
    requires g[bottom][x] == '+' && forall c | x < c < right :: g[bottom][c] == '-'
    requires y < r < bottom && g[r][x] != '|' && g[r][x] != ' '
    requires forall k | r < k < bottom :: g[k][x] == '|'
    ensures BoxMeasure(g, w, x, y) == Failure(Error("Not a valid box. (up)"))
  {
    WalkToCorner(g[y], x + 1, IdentOnly, "Truncated box. (width)", "Not a valid box. (right)", right);
    WalkToCorner(Column(g, w, right), y + 1, Bar, "Truncated box. (height)", "Not a valid box. (down)", bottom);
    LeftWalkToCorner(g[bottom], right, x);
    var side := Column(g, w, x);
    ScanBackwardStopsAt(side[y := ' '], bottom - 1, Bar, r);
    assert UpWalk(side, y, bottom) == Failure(Error("Not a valid box. (up)"));
  }

  /** A box in column 0 whose bottom row is all `-` up to its right corner
      runs the left walk off the grid. Where the walk as written goes on in
      column -1, the walker rejects the box. */
  lemma RunOffRejected(g: Grid, w: nat, y: nat, right: nat, bottom: nat)
    requires IsGrid(g, w) && y < |g| && 0 < w
    requires OutboundLegs(g, w, 0, y, right, bottom)
    requires forall c | 0 <= c < right :: g[bottom][c] == '-'
    ensures LeftWalkAsWritten(g[bottom], right, 0) == Ok(-1)
    ensures BoxMeasure(g, w, 0, y) == Failure(Error("Not a valid box. (left)"))
  {
    WalkToCorner(g[y], 1, IdentOnly, "Truncated box. (width)", "Not a valid box. (right)", right);
    WalkToCorner(Column(g, w, right), y + 1, Bar, "Truncated box. (height)", "Not a valid box. (down)", bottom);
    ScanBackwardRunsOut(g[bottom], right - 1, Dash);
  }
}
