/** The layout grid as a value: a sequence of equally long rows of
    characters, the glyph classes the parser tests for, regions of cells the
    walkers blank, the scans the walkers perform and the count of entity
    markers left in a grid. */
module Grids {
  import opened Wrappers

  type Grid = seq<seq<char>>

  /** Every row of `g` has `w` columns. */
  predicate IsGrid(g: Grid, w: nat)
  {
    forall r | 0 <= r < |g| :: |g[r]| == w
  }

  predicate InGrid(g: Grid, r: int, c: int)
  {
    0 <= r < |g| && 0 <= c < |g[r]|
  }

  /** A glyph that starts an entity: a box corner, a field, panel or button opener. */
  predicate IsMarker(c: char)
  {
    c == '+' || c == '[' || c == '{' || c == '('
  }

  /** A letter, a digit or an underscore. */
  function IsIdentifier(c: char): (b: bool)
    ensures b ==> !IsMarker(c) && c != ' ' && c != '|' && c != '-'
    ensures b ==> c != ']' && c != '}' && c != ')'
  {
    ('a' <= c <= 'z') || ('A' <= c <= 'Z') || ('0' <= c <= '9') || c == '_'
  }

  /** A set of cells a walker consumes: part of one row, or the perimeter
      of a rectangle given by its inclusive bounds. */
  datatype Region =
    | Segment(row: nat, first: nat, last: nat)
    | Frame(left: nat, top: nat, right: nat, bottom: nat)

  predicate InRegion(reg: Region, r: int, c: int)
  {
    match reg
    case Segment(row, first, last) => r == row && first <= c <= last
    case Frame(left, top, right, bottom) =>
      top <= r <= bottom && left <= c <= right &&
      (r == top || r == bottom || c == left || c == right)
  }

  /** `g` with every cell of `reg` overwritten by a blank. */
  function Blanked(g: Grid, reg: Region): (h: Grid)
    ensures |h| == |g|
    ensures forall r | 0 <= r < |h| :: |h[r]| == |g[r]|
    ensures forall r, c | InGrid(g, r, c) :: h[r][c] == if InRegion(reg, r, c) then ' ' else g[r][c]
  {
    seq(|g|, r requires 0 <= r < |g| =>
      seq(|g[r]|, c requires 0 <= c < |g[r]| => if InRegion(reg, r, c) then ' ' else g[r][c]))
  }

  /** The cells a scan steps over: identifier characters, identifier
      characters or blanks, vertical edges, horizontal edges, or anything
      that is not a marker. */
  datatype Fill = IdentOnly | IdentOrBlank | Bar | Dash | NonMarker

  predicate Accepts(f: Fill, c: char)
  {
    match f
    case IdentOnly => IsIdentifier(c)
    case IdentOrBlank => IsIdentifier(c) || c == ' '
    case Bar => c == '|'
    case Dash => c == '-'
    case NonMarker => !IsMarker(c)
  }

  /** The first position at or after `pos` that `f` does not accept, if any. */
  function ScanForward(s: seq<char>, pos: nat, f: Fill): (k: Option<nat>)
    ensures k.Some? ==> pos <= k.value < |s| && !Accepts(f, s[k.value])
    ensures forall i | pos <= i < (if k.Some? then k.value else |s|) :: Accepts(f, s[i])
    decreases |s| - pos
  {
    if pos >= |s| then None
    else if !Accepts(f, s[pos]) then Some(pos)
    else ScanForward(s, pos + 1, f)
  }

  /** The last position at or before `pos` that `f` does not accept, or -1. */
  function ScanBackward(s: seq<char>, pos: int, f: Fill): (k: int)
    requires -1 <= pos < |s|
    ensures -1 <= k <= pos
    ensures k >= 0 ==> !Accepts(f, s[k])
    ensures forall i | k < i <= pos :: Accepts(f, s[i])
    decreases pos + 1
  {
    if pos < 0 then -1
    else if !Accepts(f, s[pos]) then pos
    else ScanBackward(s, pos - 1, f)
  }

  /** A forward scan stops exactly at the first position it does not accept. */
  lemma ScanForwardStopsAt(s: seq<char>, pos: nat, f: Fill, k: nat)
    requires pos <= k < |s| && !Accepts(f, s[k])
    requires forall i | pos <= i < k :: Accepts(f, s[i])
    ensures ScanForward(s, pos, f) == Some(k)
  {
  }

  lemma ScanForwardRunsOut(s: seq<char>, pos: nat, f: Fill)
    requires forall i | pos <= i < |s| :: Accepts(f, s[i])
    ensures ScanForward(s, pos, f) == None
  {
  }

  /** A backward scan stops exactly at the last position it does not accept. */
  lemma ScanBackwardStopsAt(s: seq<char>, pos: int, f: Fill, k: nat)
    requires k <= pos < |s| && !Accepts(f, s[k])
    requires forall i | k < i <= pos :: Accepts(f, s[i])
    ensures ScanBackward(s, pos, f) == k
  {
  }

  /** A grid of the same shape that is blank on a region and agrees with
      `g` elsewhere is `g` with that region blanked. */
  lemma BlankedCells(g: Grid, h: Grid, w: nat, reg: Region)
    requires IsGrid(g, w) && IsGrid(h, w) && |g| == |h|
    requires forall r, c | 0 <= r < |g| && 0 <= c < w :: h[r][c] == if InRegion(reg, r, c) then ' ' else g[r][c]
    ensures h == Blanked(g, reg)
  {
    SameCells(h, Blanked(g, reg), w);
  }

  /** A backward scan over accepted cells only runs off the start. */
  lemma ScanBackwardRunsOut(s: seq<char>, pos: int, f: Fill)
    requires -1 <= pos < |s|
    requires forall i | 0 <= i <= pos :: Accepts(f, s[i])
    ensures ScanBackward(s, pos, f) == -1
  {
  }

  /** Two grids of the same shape that agree on every cell are equal. */
  lemma SameCells(g: Grid, h: Grid, w: nat)
    requires IsGrid(g, w) && IsGrid(h, w) && |g| == |h|
    requires forall r, c | 0 <= r < |g| && 0 <= c < w :: g[r][c] == h[r][c]
    ensures g == h
  {
    forall r | 0 <= r < |g| ensures g[r] == h[r] {
      assert forall c | 0 <= c < w :: g[r][c] == h[r][c];
    }
  }

  /** Column `c` of `g`, top to bottom. */
  function Column(g: Grid, w: nat, c: nat): (col: seq<char>)
    requires IsGrid(g, w) && c < w
    ensures |col| == |g| && forall r | 0 <= r < |g| :: col[r] == g[r][c]
  {
    seq(|g|, r requires 0 <= r < |g| => g[r][c])
  }

  /** Row-major order on cells given as (row, column). */
  predicate Before(r: int, c: int, r': int, c': int)
  {
    r < r' || (r == r' && c < c')
  }

  ghost predicate HasMarker(g: Grid)
  {
    exists r, c | InGrid(g, r, c) :: IsMarker(g[r][c])
  }

  /** The row-major first marker cell at or after row `row`, as (row, column). */
  function FirstMarkerFrom(g: Grid, row: nat): (p: Option<(nat, nat)>)
    ensures p.Some? ==> row <= p.value.0 && InGrid(g, p.value.0, p.value.1)
    ensures p.Some? ==> IsMarker(g[p.value.0][p.value.1])
    ensures p.Some? ==> forall r, c | InGrid(g, r, c) && row <= r && Before(r, c, p.value.0, p.value.1) :: !IsMarker(g[r][c])
    ensures p.None? ==> forall r, c | InGrid(g, r, c) && row <= r :: !IsMarker(g[r][c])
    decreases |g| - row
  {
    if row >= |g| then None
    else match ScanForward(g[row], 0, NonMarker)
      case Some(c) => Some((row, c))
      case None => FirstMarkerFrom(g, row + 1)
  }

  /** The marker an entity scan finds: the first one in row-major order. */
  function FirstMarker(g: Grid): (p: Option<(nat, nat)>)
    ensures p.None? <==> !HasMarker(g)
    ensures p.Some? ==> InGrid(g, p.value.0, p.value.1) && IsMarker(g[p.value.0][p.value.1])
    ensures p.Some? ==> forall r, c | InGrid(g, r, c) && Before(r, c, p.value.0, p.value.1) :: !IsMarker(g[r][c])
  {
    FirstMarkerFrom(g, 0)
  }

  /** A marker with no marker before it in row-major order is the one
      the scan finds. */
  lemma FirstMarkerAt(g: Grid, r: nat, c: nat)
    requires InGrid(g, r, c) && IsMarker(g[r][c])
    requires forall r', c' | InGrid(g, r', c') && Before(r', c', r, c) :: !IsMarker(g[r'][c'])
    ensures FirstMarker(g) == Some((r, c))
  {
    assert HasMarker(g);
    var (r', c') := FirstMarker(g).value;
    assert !Before(r', c', r, c);
    assert !Before(r, c, r', c');
  }

  function RowMarkers(s: seq<char>): nat
  {
    if s == [] then 0
    else RowMarkers(s[..|s| - 1]) + (if IsMarker(s[|s| - 1]) then 1 else 0)
  }

  /** The number of marker cells in `g`. */
  function MarkerCount(g: Grid): nat
  {
    if g == [] then 0
    else MarkerCount(g[..|g| - 1]) + RowMarkers(g[|g| - 1])
  }

  /** A row whose markers are all markers of another row of the same length
      has no more markers, and strictly fewer when it lost one. */
  lemma {:induction false} RowMarkersShrink(s: seq<char>, t: seq<char>)
    requires |s| == |t|
    requires forall i | 0 <= i < |t| :: IsMarker(t[i]) ==> IsMarker(s[i])
    ensures RowMarkers(t) <= RowMarkers(s)
    ensures (exists i | 0 <= i < |s| :: IsMarker(s[i]) && !IsMarker(t[i])) ==> RowMarkers(t) < RowMarkers(s)
    decreases |s|
  {
    if s != [] {
      var n := |s| - 1;
      RowMarkersShrink(s[..n], t[..n]);
      if exists i | 0 <= i < |s| :: IsMarker(s[i]) && !IsMarker(t[i]) {
        var i :| 0 <= i < |s| && IsMarker(s[i]) && !IsMarker(t[i]);
        if i < n {
          assert IsMarker(s[..n][i]) && !IsMarker(t[..n][i]);
        }
      }
    }
  }

  /** Grid version of RowMarkersShrink: blanking-like changes never add a
      marker, and removing one strictly lowers the count. */
  lemma {:induction false} MarkerCountShrinks(g: Grid, h: Grid)
    requires |g| == |h| && forall r | 0 <= r < |g| :: |g[r]| == |h[r]|
    requires forall r, c | InGrid(h, r, c) :: IsMarker(h[r][c]) ==> IsMarker(g[r][c])
    ensures MarkerCount(h) <= MarkerCount(g)
    ensures (exists r, c | InGrid(g, r, c) :: IsMarker(g[r][c]) && !IsMarker(h[r][c])) ==> MarkerCount(h) < MarkerCount(g)
    decreases |g|
  {
    if g != [] {
      var n := |g| - 1;
      assert forall r, c | InGrid(h[..n], r, c) :: IsMarker(h[..n][r][c]) ==> IsMarker(g[..n][r][c]) by {
        forall r, c | InGrid(h[..n], r, c) ensures IsMarker(h[..n][r][c]) ==> IsMarker(g[..n][r][c]) {
          assert InGrid(h, r, c);
        }
      }
      MarkerCountShrinks(g[..n], h[..n]);
      assert forall i | 0 <= i < |h[n]| :: IsMarker(h[n][i]) ==> IsMarker(g[n][i]) by {
        forall i | 0 <= i < |h[n]| ensures IsMarker(h[n][i]) ==> IsMarker(g[n][i]) {
          assert InGrid(h, n, i);
        }
      }
      RowMarkersShrink(g[n], h[n]);
      if exists r, c | InGrid(g, r, c) :: IsMarker(g[r][c]) && !IsMarker(h[r][c]) {
        var r, c :| InGrid(g, r, c) && IsMarker(g[r][c]) && !IsMarker(h[r][c]);
        if r < n {
          assert InGrid(g[..n], r, c) && IsMarker(g[..n][r][c]) && !IsMarker(h[..n][r][c]);
        } else {
          assert IsMarker(g[n][c]) && !IsMarker(h[n][c]);
        }
      }
    }
  }

  /** Blanking a region that holds a marker keeps the grid's shape and
      strictly lowers the marker count. */
  lemma BlankingRemovesMarker(g: Grid, w: nat, reg: Region, r: nat, c: nat)
    requires IsGrid(g, w) && InGrid(g, r, c) && IsMarker(g[r][c]) && InRegion(reg, r, c)
    ensures IsGrid(Blanked(g, reg), w) && |Blanked(g, reg)| == |g|
    ensures MarkerCount(Blanked(g, reg)) < MarkerCount(g)
  {
    var h := Blanked(g, reg);
    MarkerCountShrinks(g, h);
  }

  /** A grid without marker cells has a marker count of zero. */
  lemma {:induction false} NoMarkerNoCount(g: Grid)
    requires !HasMarker(g)
    ensures MarkerCount(g) == 0
    decreases |g|
  {
    if g != [] {
      var n := |g| - 1;
      forall r, c | InGrid(g[..n], r, c) ensures !IsMarker(g[..n][r][c]) {
        assert InGrid(g, r, c);
      }
      NoMarkerNoCount(g[..n]);
      NoMarkerRow(g[n]);
    }
  }

  lemma {:induction false} NoMarkerRow(s: seq<char>)
    requires forall i | 0 <= i < |s| :: !IsMarker(s[i])
    ensures RowMarkers(s) == 0
    decreases |s|
  {
    if s != [] {
      NoMarkerRow(s[..|s| - 1]);
    }
  }
}
