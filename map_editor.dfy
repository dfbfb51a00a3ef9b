/** The map editor's data helpers: component initialisers, scrolling, the
    `key;value` encoding of an object in a two-column grid view, the sprite
    palette, rectangle parsing, starred sprite keys and clearing the map. */
module Editor {
  import opened Wrappers
  import opened Objects
  import opened Text
  import opened Scanner

  // ---------------------------------------------------------------------
  // Component initialisers.

  /** The keys `Init_Grid_View` writes, in order. */
  const GridViewKeys: seq<string> := ["grid-x", "grid-y", "scroll-x", "scroll-y", "text"]

  /** `Init_Grid_View`: a grid view must name its column count; it gets no
      selected cell, a scroll offset of zero and empty text. */
  function InitGridView(e: Obj, noValue: int): Result<Obj>
  {
    if !Has(e, "columns") then Failure(Error("No column count specified for grid view."))
    else Ok(Assign(e, GridViewKeys, [Num(noValue), Num(noValue), Num(0), Num(0), Str("")]))
  }

  /** The keys `Init_Toolbar` writes, in order. */
  const ToolbarKeys: seq<string> := ["scroll-x", "scroll-y", "text", "item-x", "item-y"]

  /** `Init_Toolbar`: a toolbar must name its column count; it gets a
      scroll offset of zero, empty text and no selected item. */
  function InitToolbar(e: Obj, noValue: int): Result<Obj>
  {
    if !Has(e, "columns") then Failure(Error("No column count specified for toolbar."))
    else Ok(Assign(e, ToolbarKeys, [Num(0), Num(0), Str(""), Num(noValue), Num(noValue)]))
  }

  /** A grid view initialises exactly when it has a column count; it then
      keeps its keys, the value of every key it does not write (its column
      count among them), has a scroll offset of zero, no selected cell and
      empty text. */
  lemma InitGridViewFields(e: Obj, noValue: int)
    ensures InitGridView(e, noValue).Ok? <==> Has(e, "columns")
    ensures InitGridView(e, noValue).Ok? ==>
      var r := InitGridView(e, noValue).value;
      e.keys <= r.keys && (forall k | k in GridViewKeys :: Has(r, k)) && Lookup(r, "columns") == Lookup(e, "columns") &&
      (forall k | k !in GridViewKeys :: Lookup(r, k) == Lookup(e, k)) &&
      Lookup(r, "grid-x") == Num(noValue) && Lookup(r, "grid-y") == Num(noValue) &&
      Lookup(r, "scroll-x") == Num(0) && Lookup(r, "scroll-y") == Num(0) &&
      Lookup(r, "text") == Str("")
  {
    var values := [Num(noValue), Num(noValue), Num(0), Num(0), Str("")];
    if Has(e, "columns") {
      var r := Assign(e, GridViewKeys, values);
      assert InitGridView(e, noValue) == Ok(r);
      assert Distinct(GridViewKeys);
      LookupAssignOther(e, GridViewKeys, values, "columns");
      forall k | k !in GridViewKeys
        ensures Lookup(r, k) == Lookup(e, k)
      {
        LookupAssignOther(e, GridViewKeys, values, k);
      }
      LookupAssignAt(e, GridViewKeys, values, 0);
      LookupAssignAt(e, GridViewKeys, values, 1);
      LookupAssignAt(e, GridViewKeys, values, 2);
      LookupAssignAt(e, GridViewKeys, values, 3);
      LookupAssignAt(e, GridViewKeys, values, 4);
      AssignHasAll(e, GridViewKeys, values);
    }
  }

  /** A toolbar initialises exactly when it has a column count; it then
      keeps its keys, the value of every key it does not write (its column
      count among them), has a scroll offset of zero, empty text and no
      selected item. */
  lemma InitToolbarFields(e: Obj, noValue: int)
    ensures InitToolbar(e, noValue).Ok? <==> Has(e, "columns")
    ensures InitToolbar(e, noValue).Ok? ==>
      var r := InitToolbar(e, noValue).value;
      e.keys <= r.keys && (forall k | k in ToolbarKeys :: Has(r, k)) && Lookup(r, "columns") == Lookup(e, "columns") &&
      (forall k | k !in ToolbarKeys :: Lookup(r, k) == Lookup(e, k)) &&
      Lookup(r, "scroll-x") == Num(0) && Lookup(r, "scroll-y") == Num(0) &&
      Lookup(r, "text") == Str("") &&
      Lookup(r, "item-x") == Num(noValue) && Lookup(r, "item-y") == Num(noValue)
  {
    var values := [Num(0), Num(0), Str(""), Num(noValue), Num(noValue)];
    if Has(e, "columns") {
      var r := Assign(e, ToolbarKeys, values);
      assert InitToolbar(e, noValue) == Ok(r);
      assert Distinct(ToolbarKeys);
      LookupAssignOther(e, ToolbarKeys, values, "columns");
      forall k | k !in ToolbarKeys
        ensures Lookup(r, k) == Lookup(e, k)
      {
        LookupAssignOther(e, ToolbarKeys, values, k);
      }
      LookupAssignAt(e, ToolbarKeys, values, 0);
      LookupAssignAt(e, ToolbarKeys, values, 1);
      LookupAssignAt(e, ToolbarKeys, values, 2);
      LookupAssignAt(e, ToolbarKeys, values, 3);
      LookupAssignAt(e, ToolbarKeys, values, 4);
      AssignHasAll(e, ToolbarKeys, values);
    }
  }

  // ---------------------------------------------------------------------
  // Scrolling.

  /** The signal codes `Scroll_Component` distinguishes. */
  datatype SignalCode = LeftKey | RightKey | UpKey | DownKey | OtherCode

  /** The step a code moves the scroll offsets by, as (x, y). */
  function Step(code: SignalCode): (int, int)
  {
    match code
    case LeftKey => (-1, 0)
    case RightKey => (1, 0)
    case UpKey => (0, -1)
    case DownKey => (0, 1)
    case OtherCode => (0, 0)
  }

  /** `v` with its number moved by `d`, as `.number++` and `.number--` do. */
  function Bump(v: Value, d: int): Value
  {
    v.(number := v.number + d)
  }

  /** `Scroll_Component`: both offsets must exist; an arrow key moves one
      offset by one cell, any other code changes nothing. */
  function Scroll(e: Obj, code: SignalCode): Result<Obj>
  {
    if !Has(e, "scroll-x") then Failure(Error("Scroll x coordinate missing."))
    else if !Has(e, "scroll-y") then Failure(Error("Scroll y coordinate missing."))
    else
      match code
      case LeftKey => Ok(Set(e, "scroll-x", Bump(Get(e, "scroll-x"), -1)))
      case RightKey => Ok(Set(e, "scroll-x", Bump(Get(e, "scroll-x"), 1)))
      case UpKey => Ok(Set(e, "scroll-y", Bump(Get(e, "scroll-y"), -1)))
      case DownKey => Ok(Set(e, "scroll-y", Bump(Get(e, "scroll-y"), 1)))
      case OtherCode => Ok(e)
  }

  /** Scrolling fails exactly when an offset is missing, with the message
      for the first one missing; otherwise it moves the offsets by the
      code's step and leaves the keys and every other value unchanged. */
  lemma ScrollMoves(e: Obj, code: SignalCode)
    ensures Scroll(e, code).Ok? <==> Has(e, "scroll-x") && Has(e, "scroll-y")
    ensures !Has(e, "scroll-x") ==> Scroll(e, code) == Failure(Error("Scroll x coordinate missing."))
    ensures Has(e, "scroll-x") && !Has(e, "scroll-y") ==> Scroll(e, code) == Failure(Error("Scroll y coordinate missing."))
    ensures Scroll(e, code).Ok? ==>
      var r := Scroll(e, code).value;
      r.keys == e.keys &&
      NumberAt(r, "scroll-x") == NumberAt(e, "scroll-x") + Step(code).0 &&
      NumberAt(r, "scroll-y") == NumberAt(e, "scroll-y") + Step(code).1 &&
      forall k | k != "scroll-x" && k != "scroll-y" :: Lookup(r, k) == Lookup(e, k)
  {
    if Has(e, "scroll-x") && Has(e, "scroll-y") {
      if code == LeftKey || code == RightKey {
        var v := Bump(Get(e, "scroll-x"), Step(code).0);
        assert Scroll(e, code) == Ok(Set(e, "scroll-x", v));
        LookupSet(e, "scroll-x", v, "scroll-y");
        forall k | k != "scroll-x" && k != "scroll-y" ensures Lookup(Set(e, "scroll-x", v), k) == Lookup(e, k) {
          LookupSet(e, "scroll-x", v, k);
        }
      } else if code == UpKey || code == DownKey {
        var v := Bump(Get(e, "scroll-y"), Step(code).1);
        assert Scroll(e, code) == Ok(Set(e, "scroll-y", v));
        LookupSet(e, "scroll-y", v, "scroll-x");
        forall k | k != "scroll-x" && k != "scroll-y" ensures Lookup(Set(e, "scroll-y", v), k) == Lookup(e, k) {
          LookupSet(e, "scroll-y", v, k);
        }
      }
    }
  }

  /** An arrow key followed by the opposite one gives back the component. */
  lemma ScrollRoundTrip(e: Obj)
    requires Has(e, "scroll-x") && Has(e, "scroll-y")
    ensures Scroll(e, LeftKey).Ok? && Scroll(Scroll(e, LeftKey).value, RightKey) == Ok(e)
    ensures Scroll(e, UpKey).Ok? && Scroll(Scroll(e, UpKey).value, DownKey) == Ok(e)
  {
    var vx := Get(e, "scroll-x");
    SetSet(e, "scroll-x", Bump(vx, -1), vx);
    SetSame(e, "scroll-x");
    var vy := Get(e, "scroll-y");
    SetSet(e, "scroll-y", Bump(vy, -1), vy);
    SetSame(e, "scroll-y");
  }

  /** A freshly initialised grid view scrolls from offset zero. */
  lemma ScrollAfterInit(e: Obj, noValue: int, code: SignalCode)
    requires Has(e, "columns")
    ensures var g := InitGridView(e, noValue);
      g.Ok? && Scroll(g.value, code).Ok? &&
      NumberAt(Scroll(g.value, code).value, "scroll-x") == Step(code).0 &&
      NumberAt(Scroll(g.value, code).value, "scroll-y") == Step(code).1
  {
    InitGridViewFields(e, noValue);
    var g := InitGridView(e, noValue).value;
    assert "scroll-x" in GridViewKeys && "scroll-y" in GridViewKeys;
    assert NumberAt(g, "scroll-x") == 0 && NumberAt(g, "scroll-y") == 0;
    ScrollMoves(g, code);
  }

  // ---------------------------------------------------------------------
  // An object shown in a two-column grid view as `key;value;key;value`.

  /** The object the alternating key and value items describe, each value
      a string, each key set in order. */
  function FromPairs(items: seq<string>): Obj
    decreases |items|
  {
    if |items| < 2 then Empty()
    else Set(FromPairs(items[..|items| - 2]), items[|items| - 2], Str(items[|items| - 1]))
  }

  /** `Load_Object_From_Grid_View`: the grid view must have two columns
      and an even number of items in its text; the object is rebuilt from
      the items. */
  function Loaded(gridView: Obj): Result<Obj>
  {
    if NumberAt(gridView, "columns") != 2 then Failure(Error("There needs to be two columns in grid view."))
    else
      var items := Split(Lookup(gridView, "text").text, ";");
      if |items| % 2 != 0 then Failure(Error("Data is not column aligned for object."))
      else Ok(FromPairs(items))
  }

  /** The object loaded one pair at a time, as the source's loop does. */
  method LoadObject(gridView: Obj) returns (r: Result<Obj>)
    ensures r == Loaded(gridView)
  {
    if NumberAt(gridView, "columns") != 2 {
      return Failure(Error("There needs to be two columns in grid view."));
    }
    var obj: Obj := Empty();
    var items := Split(Lookup(gridView, "text").text, ";");
    if |items| % 2 != 0 {
      return Failure(Error("Data is not column aligned for object."));
    }
    ghost var pairs := |items| / 2;
    assert |items| == 2 * pairs;
    var i := 0;
    ghost var j := 0;
    while i < |items|
      invariant 0 <= j <= pairs && i == 2 * j
      invariant obj == FromPairs(items[..i])
    {
      assert items[..i + 2][..i] == items[..i];
      obj := Set(obj, items[i], Str(items[i + 1]));
      i, j := i + 2, j + 1;
    }
    assert items[..i] == items;
    return Ok(obj);
  }

  /** `Convert_To_String` on a number; strings are left as they are. */
  function Stringified(v: Value, toText: int -> string): (s: Value)
    ensures s.kind == StringKind || v.kind != NumberKind
  {
    if v.kind == NumberKind then Value(StringKind, v.number, toText(v.number)) else v
  }

  /** The values of `o` after saving converted its numbers to strings. */
  function Converted(values: seq<Value>, toText: int -> string): (r: seq<Value>)
    ensures |r| == |values|
    ensures forall i | 0 <= i < |values| :: r[i] == Stringified(values[i], toText)
  {
    seq(|values|, i requires 0 <= i < |values| => Stringified(values[i], toText))
  }

  /** The items saving lists: each key followed by its value's text. */
  function SaveItems(keys: seq<string>, values: seq<Value>, toText: int -> string): (items: seq<string>)
    requires |keys| == |values|
    ensures |items| == 2 * |keys|
    decreases |keys|
  {
    if keys == [] then []
    else
      var n := |keys| - 1;
      SaveItems(keys[..n], values[..n], toText) + [keys[n], Stringified(values[n], toText).text]
  }

  /** `Save_Object_To_Grid_View`: the grid view must have two columns; it
      is initialised and its text becomes the `;`-joined items of the
      object, whose numbers are converted to strings in place. The result
      is the converted object and the grid view. */
  function Saved(obj: Obj, gridView: Obj, noValue: int, toText: int -> string): Result<(Obj, Obj)>
  {
    if NumberAt(gridView, "columns") != 2 then Failure(Error("There needs to be two columns in grid view."))
    else
      match InitGridView(gridView, noValue)
      case Failure(err) => Failure(err)
      case Ok(gv) =>
        var items := SaveItems(obj.keys, obj.values, toText);
        var converted: Obj := Table(obj.keys, Converted(obj.values, toText));
        Ok((converted, Set(gv, "text", Str(Join(items, ";")))))
  }

  /** One more property adds its key and its value's text. */
  lemma SaveItemsStep(keys: seq<string>, values: seq<Value>, toText: int -> string, i: nat)
    requires |keys| == |values| && i < |keys|
    ensures SaveItems(keys[..i + 1], values[..i + 1], toText) ==
      SaveItems(keys[..i], values[..i], toText) + [keys[i], Stringified(values[i], toText).text]
  {
    assert keys[..i + 1][..i] == keys[..i] && values[..i + 1][..i] == values[..i];
  }

  /** The loop of `Save_Object_To_Grid_View`: each key and its value's
      text listed in order, numbers converted to strings in place. */
  method SaveProperties(keys: seq<string>, values: seq<Value>, toText: int -> string)
      returns (converted: seq<Value>, items: seq<string>)
    requires |keys| == |values|
    ensures converted == Converted(values, toText)
    ensures items == SaveItems(keys, values, toText)
  {
    converted := values;
    items := [];
    var i := 0;
    while i < |keys|
      invariant 0 <= i <= |keys| && |converted| == |values|
      invariant items == SaveItems(keys[..i], values[..i], toText)
      invariant forall j | 0 <= j < |values| :: converted[j] == if j < i then Stringified(values[j], toText) else values[j]
    {
      SaveItemsStep(keys, values, toText, i);
      var key := keys[i];
      items := items + [key];
      var value := converted[i];
      if value.kind == NumberKind {
        value := Value(StringKind, value.number, toText(value.number));
        converted := converted[i := value];
        items := items + [value.text];
      } else if value.kind == StringKind {
        items := items + [value.text];
      }
      i := i + 1;
    }
    assert keys[..i] == keys && values[..i] == values;
  }

  /** Saving one property at a time, as the source does. */
  method SaveObject(obj: Obj, gridView: Obj, noValue: int, toText: int -> string) returns (r: Result<(Obj, Obj)>)
    ensures r == Saved(obj, gridView, noValue, toText)
  {
    if NumberAt(gridView, "columns") != 2 {
      return Failure(Error("There needs to be two columns in grid view."));
    }
    var init := InitGridView(gridView, noValue);
    if init.Failure? {
      return Failure(init.error);
    }
    var gv := init.value;
    var values, items := SaveProperties(obj.keys, obj.values, toText);
    var converted: Obj := Table(obj.keys, values);
    return Ok((converted, Set(gv, "text", Str(Join(items, ";")))));
  }

  /** Each value as a string value of its text, as loading reads it back. */
  function TextValues(values: seq<Value>, toText: int -> string): (r: seq<Value>)
    ensures |r| == |values|
    decreases |values|
  {
    if values == [] then []
    else
      var n := |values| - 1;
      TextValues(values[..n], toText) + [Str(Stringified(values[n], toText).text)]
  }

  /** `o` with each value replaced by a string value of its text. */
  function AsStrings(o: Obj, toText: int -> string): (r: Obj)
    ensures r.keys == o.keys
  {
    Table(o.keys, TextValues(o.values, toText))
  }

  /** Two more items add one more pair. */
  lemma FromPairsSnoc(init: seq<string>, k: string, v: string)
    ensures FromPairs(init + [k, v]) == Set(FromPairs(init), k, Str(v))
  {
    var items := init + [k, v];
    assert items[..|items| - 2] == init;
  }

  /** A new key is appended with its value. */
  lemma SetFresh(h: Obj, k: string, v: Value)
    requires k !in h.keys
    ensures Set(h, k, v) == Table(h.keys + [k], h.values + [v])
  {
  }

  /** With distinct keys, the pairs rebuild the keys in order, each with
      its text as a string value. */
  lemma {:induction false} FromSaveItems(keys: seq<string>, values: seq<Value>, toText: int -> string)
    requires |keys| == |values| && Distinct(keys)
    ensures FromPairs(SaveItems(keys, values, toText)) == Table(keys, TextValues(values, toText))
    decreases |keys|
  {
    if keys != [] {
      var n := |keys| - 1;
      var init := SaveItems(keys[..n], values[..n], toText);
      var text := Stringified(values[n], toText).text;
      assert Distinct(keys[..n]);
      FromSaveItems(keys[..n], values[..n], toText);
      var h: Obj := Table(keys[..n], TextValues(values[..n], toText));
      FromPairsSnoc(init, keys[n], text);
      assert keys[n] !in keys[..n];
      SetFresh(h, keys[n], Str(text));
      assert keys[..n] + [keys[n]] == keys;
    }
  }

  /** No item of a save holds `c` when no key and no value text does. */
  lemma {:induction false} SaveItemsFree(keys: seq<string>, values: seq<Value>, toText: int -> string, c: char)
    requires |keys| == |values|
    requires forall i | 0 <= i < |keys| :: c !in keys[i] && c !in Stringified(values[i], toText).text
    ensures FreeOf(SaveItems(keys, values, toText), c)
    decreases |keys|
  {
    if keys != [] {
      var n := |keys| - 1;
      SaveItemsFree(keys[..n], values[..n], toText, c);
      assert c !in keys[n] && c !in Stringified(values[n], toText).text;
    }
  }

  /** A save with two columns succeeds, keeps the column count and shows
      the joined items as the grid view's text. */
  lemma SavedShows(obj: Obj, gridView: Obj, noValue: int, toText: int -> string)
    requires NumberAt(gridView, "columns") == 2
    ensures Saved(obj, gridView, noValue, toText).Ok?
    ensures var shown := Saved(obj, gridView, noValue, toText).value.1;
      NumberAt(shown, "columns") == 2 &&
      Lookup(shown, "text").text == Join(SaveItems(obj.keys, obj.values, toText), ";")
  {
    InitGridViewFields(gridView, noValue);
    var gv := InitGridView(gridView, noValue).value;
    var text := Join(SaveItems(obj.keys, obj.values, toText), ";");
    LookupSet(gv, "text", Str(text), "columns");
  }

  /** Loading what was saved gives back the keys in order, each with its
      value as a string, when the object has at least one property, no key
      repeats and no key or value text holds the separator. */
  lemma SaveLoad(obj: Obj, gridView: Obj, noValue: int, toText: int -> string)
    requires NumberAt(gridView, "columns") == 2
    requires obj.keys != [] && Distinct(obj.keys)
    requires forall i | 0 <= i < |obj.keys| :: ';' !in obj.keys[i] && ';' !in Stringified(obj.values[i], toText).text
    ensures Saved(obj, gridView, noValue, toText).Ok?
    ensures Loaded(Saved(obj, gridView, noValue, toText).value.1) == Ok(AsStrings(obj, toText))
  {
    SavedShows(obj, gridView, noValue, toText);
    var shown := Saved(obj, gridView, noValue, toText).value.1;
    var items := SaveItems(obj.keys, obj.values, toText);
    assert Split(Lookup(shown, "text").text, ";") == items by {
      SaveItemsFree(obj.keys, obj.values, toText, ';');
      SplitJoin(items, ';');
    }
    assert |items| % 2 == 0 by {
      assert |items| == 2 * |obj.keys|;
    }
    FromSaveItems(obj.keys, obj.values, toText);
  }

  // ---------------------------------------------------------------------
  // Rectangles written as text.

  /** `Parse_Rectangle`: exactly four comma-separated numbers, read as
      left, top, right and bottom. */
  function ParseRectangle(text: string, toNumber: string -> Option<int>): Result<Rectangle>
  {
    var parts := Split(text, ",");
    if |parts| != 4 then Failure(Error("Rectangle is not formatted correctly."))
    else if toNumber(parts[0]).None? then Failure(NotANumber(parts[0]))
    else if toNumber(parts[1]).None? then Failure(NotANumber(parts[1]))
    else if toNumber(parts[2]).None? then Failure(NotANumber(parts[2]))
    else if toNumber(parts[3]).None? then Failure(NotANumber(parts[3]))
    else Ok(Rectangle(toNumber(parts[0]).value, toNumber(parts[1]).value, toNumber(parts[2]).value, toNumber(parts[3]).value))
  }

  /** A rectangle written as four comma-separated numbers. */
  function FormatRectangle(r: Rectangle, toText: int -> string): string
  {
    Join([toText(r.left), toText(r.top), toText(r.right), toText(r.bottom)], ",")
  }

  /** Parsing a written rectangle gives it back, when the number texts read
      back as their numbers and hold no comma. */
  lemma ParseFormatRectangle(r: Rectangle, toText: int -> string, toNumber: string -> Option<int>)
    requires forall n: int :: toNumber(toText(n)) == Some(n) && ',' !in toText(n)
    ensures ParseRectangle(FormatRectangle(r, toText), toNumber) == Ok(r)
  {
    var parts := [toText(r.left), toText(r.top), toText(r.right), toText(r.bottom)];
    assert FreeOf(parts, ',');
    SplitJoin(parts, ',');
  }

  /** The converse: an accepted text is four parts joined by commas that
      read, in order, as the rectangle's left, top, right and bottom. */
  lemma ParseRectangleSound(text: string, toNumber: string -> Option<int>)
    requires ParseRectangle(text, toNumber).Ok?
    ensures var r := ParseRectangle(text, toNumber).value;
      var parts := Split(text, ",");
      |parts| == 4 && Join(parts, ",") == text &&
      toNumber(parts[0]) == Some(r.left) && toNumber(parts[1]) == Some(r.top) &&
      toNumber(parts[2]) == Some(r.right) && toNumber(parts[3]) == Some(r.bottom)
  {
    JoinSplit(text, ",");
  }

  // ---------------------------------------------------------------------
  // Starred sprite keys.

  /** A key without its leading star, if it has one. */
  function Unstarred(k: string): (u: string)
    requires k != []
    ensures k[0] == '*' ==> k == ['*'] + u
    ensures k[0] != '*' ==> u == k
  {
    if k[0] == '*' then k[1..] else k
  }

  /** `Destar_Sprite`: every key must be non-empty; each key loses its
      leading star, and the values stay where they are. */
  function Destarred(sprite: Obj): (r: Result<Obj>)
    ensures r.Ok? <==> forall i | 0 <= i < |sprite.keys| :: sprite.keys[i] != []
    ensures r.Failure? ==> r.error == Error("Key is NULL.")
    ensures r.Ok? ==> |r.value.keys| == |sprite.keys| && r.value.values == sprite.values
    ensures r.Ok? ==> forall i | 0 <= i < |sprite.keys| :: r.value.keys[i] == Unstarred(sprite.keys[i])
  {
    if exists i | 0 <= i < |sprite.keys| :: sprite.keys[i] == [] then Failure(Error("Key is NULL."))
    else
      var t: Obj := Table(seq(|sprite.keys|, i requires 0 <= i < |sprite.keys| => Unstarred(sprite.keys[i])), sprite.values);
      Ok(t)
  }

  /** The keys rewritten one at a time, as the source's loop does. */
  method DestarSprite(sprite: Obj) returns (r: Result<Obj>)
    ensures r == Destarred(sprite)
  {
    var keys := sprite.keys;
    var i := 0;
    while i < |keys|
      invariant 0 <= i <= |keys| == |sprite.keys|
      invariant forall j | 0 <= j < i :: sprite.keys[j] != [] && keys[j] == Unstarred(sprite.keys[j])
      invariant forall j | i <= j < |keys| :: keys[j] == sprite.keys[j]
    {
      if |keys[i]| == 0 {
        return Failure(Error("Key is NULL."));
      }
      if keys[i][0] == '*' {
        keys := keys[i := keys[i][1..]];
      }
      i := i + 1;
    }
    var t: Obj := Table(keys, sprite.values);
    r := Ok(t);
    assert r.value == Destarred(sprite).value;
  }

  /** A sprite with no starred key is left as it is. */
  lemma DestarUnstarred(sprite: Obj)
    requires forall i | 0 <= i < |sprite.keys| :: sprite.keys[i] != [] && sprite.keys[i][0] != '*'
    ensures Destarred(sprite) == Ok(sprite)
  {
    assert Destarred(sprite).value.keys == sprite.keys;
  }

  // ---------------------------------------------------------------------
  // The editor's own state.

  /** The sprite palette's entries: each catalog sprite's name and icon;
      every sprite must have an icon. */
  function PaletteItems(names: seq<string>, sprites: seq<Obj>): (r: Result<seq<string>>)
    requires |names| == |sprites|
    ensures r.Ok? <==> forall i | 0 <= i < |sprites| :: Has(sprites[i], "icon")
    ensures r.Failure? ==> r.error == Error("Icon property missing in sprite.")
    ensures r.Ok? ==> (|r.value| == |names| &&
      forall i | 0 <= i < |names| :: r.value[i] == names[i] + ":" + Lookup(sprites[i], "icon").text)
    decreases |names|
  {
    if names == [] then Ok([])
    else
      var n := |names| - 1;
      match PaletteItems(names[..n], sprites[..n])
      case Failure(err) => Failure(err)
      case Ok(items) =>
        if !Has(sprites[n], "icon") then Failure(Error("Icon property missing in sprite."))
        else Ok(items + [names[n] + ":" + Lookup(sprites[n], "icon").text])
  }

  /** One more catalog sprite adds its entry, or fails without an icon. */
  lemma PaletteItemsStep(names: seq<string>, sprites: seq<Obj>, i: nat)
    requires |names| == |sprites| && i < |names|
    requires PaletteItems(names[..i], sprites[..i]).Ok?
    ensures PaletteItems(names[..i + 1], sprites[..i + 1]) ==
      if Has(sprites[i], "icon") then Ok(PaletteItems(names[..i], sprites[..i]).value + [names[i] + ":" + Lookup(sprites[i], "icon").text])
      else Failure(Error("Icon property missing in sprite."))
    ensures !Has(sprites[i], "icon") ==> PaletteItems(names, sprites).Failure?
  {
    assert names[..i + 1][..i] == names[..i] && sprites[..i + 1][..i] == sprites[..i];
  }

  /** `Update_Sprite_Palette`: the toolbar is initialised and its text
      lists the catalog's entries separated by `;`. */
  function Palette(toolbar: Obj, catalog: Hash<Obj>, noValue: int): Result<Obj>
  {
    match InitToolbar(toolbar, noValue)
    case Failure(err) => Failure(err)
    case Ok(tb) =>
      match PaletteItems(catalog.keys, catalog.values)
      case Failure(err) => Failure(err)
      case Ok(items) => Ok(Set(tb, "text", Str(Join(items, ";"))))
  }

  /** The palette text splits back into one entry per catalog sprite, when
      the catalog is not empty and no entry holds the separator. */
  lemma PaletteEntries(toolbar: Obj, catalog: Hash<Obj>, noValue: int)
    requires Palette(toolbar, catalog, noValue).Ok?
    requires catalog.keys != []
    requires forall i | 0 <= i < |catalog.keys| :: ';' !in catalog.keys[i] + ":" + Lookup(catalog.values[i], "icon").text
    ensures var entries := Split(Lookup(Palette(toolbar, catalog, noValue).value, "text").text, ";");
      |entries| == |catalog.keys| &&
      forall i | 0 <= i < |entries| :: entries[i] == catalog.keys[i] + ":" + Lookup(catalog.values[i], "icon").text
  {
    var items := PaletteItems(catalog.keys, catalog.values).value;
    assert FreeOf(items, ';');
    SplitJoin(items, ';');
  }

  /** The names of the sprite layers, bottom to top. */
  const LayerNames: seq<string> := ["background", "platform", "character", "foreground", "overlay"]

  /** The editor's sprite catalog, its layers of placed sprites, the map's
      meta data and the current selection. */
  class MapEditor {
    var catalog: Hash<Obj>
    var spriteLayers: Hash<seq<Obj>>
    var metaData: Obj
    var selLayer: string
    var selSprite: int
    /** The library's marker for "no value", which this model takes as given. */
    const noValue: int

    /** The layers and meta data an editor starts with. */
    constructor(noValue: int)
      ensures this.noValue == noValue && catalog.keys == []
      ensures spriteLayers == Table(LayerNames, [[], [], [], [], []])
      ensures metaData == Table(["background", "music"], [Str(""), Str("")])
      ensures selLayer == "background" && selSprite == noValue
    {
      this.noValue := noValue;
      catalog := Empty();
      spriteLayers := Table(LayerNames, [[], [], [], [], []]);
      metaData := Table(["background", "music"], [Str(""), Str("")]);
      selLayer := "background";
      selSprite := noValue;
    }

    /** `Clear_Map`: the selection returns to the background layer, the
      meta data is emptied and every layer loses its sprites; the layers
      themselves and the catalog stay. */
    method ClearMap()
      modifies this
      ensures selLayer == "background" && selSprite == noValue && metaData.keys == []
      ensures spriteLayers.keys == old(spriteLayers.keys)
      ensures forall i | 0 <= i < |spriteLayers.values| :: spriteLayers.values[i] == []
      ensures catalog == old(catalog)
    {
      selLayer := "background";
      selSprite := noValue;
      metaData := Empty();
      var i := 0;
      while i < |spriteLayers.keys|
        invariant 0 <= i <= |spriteLayers.keys|
        invariant spriteLayers.keys == old(spriteLayers.keys) && catalog == old(catalog)
        invariant selLayer == "background" && selSprite == noValue && metaData.keys == []
        invariant forall j | 0 <= j < i :: spriteLayers.values[j] == []
      {
        spriteLayers := Table(spriteLayers.keys, spriteLayers.values[i := []]);
        i := i + 1;
      }
    }

    /** The palette built one catalog entry at a time, as the source's loop does. */
    method UpdateSpritePalette(toolbar: Obj) returns (r: Result<Obj>)
      ensures r == Palette(toolbar, catalog, noValue)
    {
      var init := InitToolbar(toolbar, noValue);
      if init.Failure? {
        return Failure(init.error);
      }
      var items: seq<string> := [];
      var i := 0;
      while i < |catalog.keys|
        invariant 0 <= i <= |catalog.keys|
        invariant PaletteItems(catalog.keys[..i], catalog.values[..i]) == Ok(items)
      {
        var name := catalog.keys[i];
        var sprite := catalog.values[i];
        PaletteItemsStep(catalog.keys, catalog.values, i);
        if !Has(sprite, "icon") {
          return Failure(Error("Icon property missing in sprite."));
        }
        items := items + [name + ":" + Lookup(sprite, "icon").text];
        i := i + 1;
      }
      assert catalog.keys[..i] == catalog.keys && catalog.values[..i] == catalog.values;
      return Ok(Set(init.value, "text", Str(Join(items, ";"))));
    }
  }
}
