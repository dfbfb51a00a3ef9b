/** The entity scanner as a function of the grid: find the row-major first
    marker, walk its outline, record the entity, and repeat until no marker
    is left. */
module Scanner {
  import opened Wrappers
  import opened Objects
  import opened Grids
  import opened Walkers

  /** The six fields `Parse_Entity` fills in for every entity. */
  datatype Entity = Entity(id: string, kind: string, x: int, y: int, width: int, height: int)

  /** The entity `Parse_Entity` records when it finds no marker at all:
      its initial values, left untouched. */
  const Unfound := Entity("", "", 0, 0, 0, 0)

  const EntityKeys: seq<string> := ["id", "type", "x", "y", "width", "height"]

  /** The entity as the object `Parse_Entity` stores, its keys in the order
      it first sets them. */
  function ToObject(en: Entity): Obj
  {
    Table(EntityKeys, [Str(en.id), Str(en.kind), Num(en.x), Num(en.y), Num(en.width), Num(en.height)])
  }

  /** `Get_Entity_Dimensions` reads the four numeric fields and nothing else. */
  lemma DimensionsFromFields(e: Obj, x: int, y: int, width: int, height: int)
    requires NumberAt(e, "x") == x && NumberAt(e, "y") == y
    requires NumberAt(e, "width") == width && NumberAt(e, "height") == height
    ensures EntityDimensions(e) == Rectangle(x, y, x + width - 1, y + height - 1)
  {
  }

  /** Each field of the entity reads back from the stored object under its key. */
  lemma ToObjectFields(en: Entity)
    ensures Lookup(ToObject(en), "id") == Str(en.id) && Lookup(ToObject(en), "type") == Str(en.kind)
    ensures NumberAt(ToObject(en), "x") == en.x && NumberAt(ToObject(en), "y") == en.y
    ensures NumberAt(ToObject(en), "width") == en.width && NumberAt(ToObject(en), "height") == en.height
  {
    var e := ToObject(en);
    assert Distinct(e.keys);
    LookupDistinct(e, 0);
    LookupDistinct(e, 1);
    LookupDistinct(e, 2);
    LookupDistinct(e, 3);
    LookupDistinct(e, 4);
    LookupDistinct(e, 5);
  }

  /** What `Get_Entity_Dimensions` reports for a stored entity is its extent. */
  lemma ToObjectDimensions(en: Entity)
    ensures EntityDimensions(ToObject(en)) == Extent(en)
  {
    var e := ToObject(en);
    ToObjectFields(en);
    assert NumberAt(e, "x") == en.x && NumberAt(e, "y") == en.y;
    assert NumberAt(e, "width") == en.width && NumberAt(e, "height") == en.height;
    DimensionsFromFields(e, en.x, en.y, en.width, en.height);
  }

  /** The walker a marker dispatches to. */
  function Walk(g: Grid, w: nat, x: nat, y: nat): Result<Walked>
    requires IsGrid(g, w) && y < |g| && x < w && IsMarker(g[y][x])
  {
    var shape := ShapeOf(g[y][x]);
    if shape == Box then BoxWalk(g, w, x, y) else RunWalk(g, w, x, y, shape)
  }

  /** The cells a walk consumes, given the entity's rectangle. */
  function Consumed(d: Rectangle, shape: Shape): Region
    requires 0 <= d.left && 0 <= d.top && 0 <= d.right && 0 <= d.bottom
  {
    if shape == Box then Frame(d.left, d.top, d.right, d.bottom) else Segment(d.top, d.left, d.right)
  }

  /** An inclusive rectangle, as the support library's `sRectangle`. */
  datatype Rectangle = Rectangle(left: int, top: int, right: int, bottom: int)

  /** `Get_Entity_Dimensions`: the inclusive rectangle an entity covers. */
  function EntityDimensions(e: Obj): Rectangle
  {
    var left := NumberAt(e, "x");
    var top := NumberAt(e, "y");
    Rectangle(left, top, left + NumberAt(e, "width") - 1, top + NumberAt(e, "height") - 1)
  }

  /** The rectangle an entity spans from its position by its width and height. */
  function Extent(en: Entity): Rectangle
  {
    Rectangle(en.x, en.y, en.x + en.width - 1, en.y + en.height - 1)
  }

  /** The rectangle a walk from (`y`, `x`) measured, by its width and height. */
  function Measured(x: nat, y: nat, wk: Walked): Rectangle
  {
    Rectangle(x, y, x + wk.width - 1, y + wk.height - 1)
  }

  /** A successful walk measures at least its marker's cell, a run walk
      exactly one row, and it blanks exactly the cells of what it measured:
      the perimeter of a box, the single row of a run. */
  lemma WalkConsumes(g: Grid, w: nat, x: nat, y: nat)
    requires IsGrid(g, w) && y < |g| && x < w && IsMarker(g[y][x])
    requires Walk(g, w, x, y).Ok?
    ensures var wk := Walk(g, w, x, y).value;
      wk.width >= 1 && wk.height >= 1 && (ShapeOf(g[y][x]) != Box ==> wk.height == 1) &&
      wk.grid == Blanked(g, Consumed(Measured(x, y, wk), ShapeOf(g[y][x])))
  {
    var shape := ShapeOf(g[y][x]);
    if shape == Box {
      BoxMeasureSound(g, w, x, y);
    } else {
      var j := RunMeasure(g, w, x, y, shape).value;
    }
  }

  /** A successful walk blanks the marker it started on, and nothing but
      blanks: the grid keeps its shape and loses at least one marker. */
  lemma WalkRemovesMarker(g: Grid, w: nat, x: nat, y: nat)
    requires IsGrid(g, w) && y < |g| && x < w && IsMarker(g[y][x])
    requires Walk(g, w, x, y).Ok?
    ensures var h := Walk(g, w, x, y).value.grid;
      IsGrid(h, w) && |h| == |g| && MarkerCount(h) < MarkerCount(g)
  {
    var wk := Walk(g, w, x, y).value;
    WalkConsumes(g, w, x, y);
    var reg := Consumed(Measured(x, y, wk), ShapeOf(g[y][x]));
    assert InRegion(reg, y, x);
    BlankingRemovesMarker(g, w, reg, y, x);
    assert wk.grid == Blanked(g, reg);
  }

  /** The entity `Parse_Entity` records for the marker at (`y`, `x`), and
      the grid its walk leaves. The grid keeps its shape and loses at least
      one marker. */
  function Record(g: Grid, w: nat, x: nat, y: nat): (r: Result<(Entity, Grid)>)
    requires IsGrid(g, w) && y < |g| && x < w && IsMarker(g[y][x])
    ensures r.Ok? ==> IsGrid(r.value.1, w) && |r.value.1| == |g| && MarkerCount(r.value.1) < MarkerCount(g)
  {
    match Walk(g, w, x, y)
    case Failure(e) => Failure(e)
    case Ok(wk) =>
      WalkRemovesMarker(g, w, x, y);
      Ok((Entity(wk.id, TypeName(ShapeOf(g[y][x])), x, y, wk.width, wk.height), wk.grid))
  }

  /** The recorded entity sits at its marker with the marker's type, and
      the cells the walk blanked are those of its extent: the perimeter for
      a box, the single row for the others. */
  lemma RecordBlanksExtent(g: Grid, w: nat, x: nat, y: nat)
    requires IsGrid(g, w) && y < |g| && x < w && IsMarker(g[y][x])
    requires Record(g, w, x, y).Ok?
    ensures var (en, h) := Record(g, w, x, y).value;
      en.x == x && en.y == y && en.kind == TypeName(ShapeOf(g[y][x])) &&
      en.width >= 1 && en.height >= 1 &&
      h == Blanked(g, Consumed(Extent(en), ShapeOf(g[y][x])))
  {
    var wk := Walk(g, w, x, y).value;
    WalkConsumes(g, w, x, y);
    var en := Entity(wk.id, TypeName(ShapeOf(g[y][x])), x, y, wk.width, wk.height);
    assert Record(g, w, x, y) == Ok((en, wk.grid));
    assert Extent(en) == Measured(x, y, wk);
  }

  /** One call of `Parse_Entity`: the entity found first in row-major order,
      walked and recorded, and the grid the walk leaves; with no marker left,
      the initial entity and the grid unchanged. */
  function ScanStep(g: Grid, w: nat): (r: Result<(Entity, Grid)>)
    requires IsGrid(g, w)
    ensures r.Ok? ==> IsGrid(r.value.1, w) && |r.value.1| == |g|
    ensures r.Ok? && HasMarker(g) ==> MarkerCount(r.value.1) < MarkerCount(g)
    ensures !HasMarker(g) ==> r == Ok((Unfound, g))
  {
    match FirstMarker(g)
    case None => Ok((Unfound, g))
    case Some((y, x)) => Record(g, w, x, y)
  }

  /** The loop `while (Has_Entity()) Parse_Entity();`: the entity table it
      builds and the grid it leaves, or the first walker error. Each entity
      is stored under its id, replacing an earlier entity with that id. It
      terminates because every step removes a marker. */
  function ScanAll(g: Grid, w: nat, table: Hash<Obj>): Result<(Hash<Obj>, Grid)>
    requires IsGrid(g, w)
    decreases MarkerCount(g)
  {
    if FirstMarker(g).None? then Ok((table, g))
    else
      match ScanStep(g, w)
      case Failure(e) => Failure(e)
      case Ok((en, h)) => ScanAll(h, w, Set(table, en.id, ToObject(en)))
  }

  /** A scan that succeeds leaves no marker behind, keeps every entity key
      it started with in its place, and scanning what it leaves changes
      nothing more. */
  lemma {:induction false} ScanAllConsumesMarkers(g: Grid, w: nat, table: Hash<Obj>)
    requires IsGrid(g, w)
    requires ScanAll(g, w, table).Ok?
    ensures var (t, h) := ScanAll(g, w, table).value;
      IsGrid(h, w) && !HasMarker(h) && MarkerCount(h) == 0 &&
      table.keys <= t.keys &&
      ScanAll(h, w, t) == Ok((t, h))
    decreases MarkerCount(g)
  {
    if FirstMarker(g).None? {
      NoMarkerNoCount(g);
    } else {
      var (en, h) := ScanStep(g, w).value;
      ScanAllConsumesMarkers(h, w, Set(table, en.id, ToObject(en)));
      var (t, h') := ScanAll(h, w, Set(table, en.id, ToObject(en))).value;
      NoMarkerNoCount(h');
    }
  }

  /** The entity a step records sits where its first marker was, with the
      marker's type, and the cells the step blanked are those of the
      entity's extent. */
  lemma ScanStepEntity(g: Grid, w: nat)
    requires IsGrid(g, w) && HasMarker(g)
    requires ScanStep(g, w).Ok?
    ensures var (y, x) := FirstMarker(g).value;
      var (en, h) := ScanStep(g, w).value;
      en.x == x && en.y == y && en.kind == TypeName(ShapeOf(g[y][x])) &&
      en.width >= 1 && en.height >= 1 &&
      h == Blanked(g, Consumed(Extent(en), ShapeOf(g[y][x])))
  {
    var (y, x) := FirstMarker(g).value;
    RecordBlanksExtent(g, w, x, y);
  }
}
