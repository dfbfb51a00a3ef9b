# Map editor layout parser — a Dafny model

This project models two parts of the map editor's C++ source, `Map_Editor.cpp`.

The first part is `cLayout`. It reads a text layout into a character grid and then removes the drawn components from the grid one at a time. There are four kinds of component:

- boxes, drawn as `+id---+` outlines with `|` sides;
- fields `[id]`;
- panels `{id}`;
- buttons `(id)`.

Each component found becomes an entry in the layout's component table. The table is a hash from id to object, with the fields `id`, `type`, `x`, `y`, `width` and `height`. After the grid comes a list of property lines of the form `id->name=value,name=value`. Each line is applied to a component that already exists. A value that reads as a number is stored as a number, and any other value as text.

The second part is the data helpers of `cMap_Editor`:

- initialising grid views and toolbars;
- loading an object from a grid view's `;`-joined text, and saving it back;
- scrolling with the arrow keys;
- building the sprite palette text;
- parsing a rectangle;
- clearing the map;
- removing the leading `*` from sprite property keys.

Modules, one per file:

- `Wrappers` (wrappers.dfy): `Option`, `Result` and the error value. An `Error(message)` carries the message the source throws, word for word.
- `Text` (text.dfy): the library's text splitter and `Join`. Splitting is on a literal delimiter, and splitting the empty text gives one empty item.
- `Objects` (objects.dfy): the library's `cValue` and `cHash`/`tObject`.
  - A hash is two parallel sequences, keys and values, in insertion order.
  - `Set` overwrites an existing key or appends a new one.
  - Reading a missing key gives the number 0.
- `Grids` (grids.dfy): the grid as a sequence of rows, identifier characters, scanning along a row or column, and the first marker in reading order.
- `Walkers` (walkers.dfy): what each component walker measures, as functions of the grid.
- `Scanner` (scanner.dfy): one `Parse_Entity` step, and repeating it until no marker is left, as functions of the grid.
- `Properties` (properties.dfy): `Parse_Properties` as a function of the component table.
- `Layouts` (layout.dfy): the imperative `cLayout` class.
  - The grid is a `char` `array2` that the walkers blank cell by cell.
  - Each method is proved equal to the functions above.
- `Editor` (map_editor.dfy): the `cMap_Editor` helpers. Its map state is a class.

Some calls go into library code that is not part of this model. They are replaced by parameters:

- `Text_To_Number` becomes `toNumber: string -> Option<int>`, where `None` stands for the thrown error;
- the number-to-text conversion of `cValue::Convert_To_String` becomes `toText: int -> string`;
- `NO_VALUE_FOUND` becomes `noValue`.

## Model

| member | source | states |
|---|---|---|
| Grids.IsIdentifier | Map_Editor.cpp:580-582 | an identifier letter is never a marker, a blank, an edge character or a closing bracket, so walkers can tell the two apart |
| Grids.FirstMarker | Map_Editor.cpp:193-196 | the first marker cell in row-major order: none exactly when the grid has no marker, otherwise a marker with no marker before it |
| Grids.FirstMarkerAt | Map_Editor.cpp:193-196 | any marker with no marker before it in reading order is the one found |
| Grids.Blanked | Map_Editor.cpp:262-352 | blanking a region keeps the grid's shape, turns every cell in the region to ' ' and leaves every other cell as it was |
| Grids.MarkerCountShrinks | Map_Editor.cpp:149-151 | turning markers into non-markers never adds markers, and removing one strictly lowers the count, so the entity loop ends |
| Grids.BlankingRemovesMarker | Map_Editor.cpp:149-151 | blanking a region that holds a marker strictly lowers the marker count |
| Text.JoinSplit | Map_Editor.cpp:1037-1074 | joining the pieces that a split produced gives back the original text |
| Text.SplitJoin | Map_Editor.cpp:1037-1074 | splitting a join of items that do not contain the delimiter gives back the items |
| Objects.Set | Map_Editor.cpp:246 | after setting a key, the key reads as the new value; the keys are unchanged for an existing key, and a new key is appended at the end |
| Objects.LookupSet | Map_Editor.cpp:246 | setting one key changes what that key reads as and no other key |
| Objects.LookupAssignAt | Map_Editor.cpp:793-798 | setting several distinct keys in turn makes each one read as its own value |
| Objects.SetDistinct | Map_Editor.cpp:246 | setting a key keeps the keys free of duplicates |
| Walkers.ShapeOf | Map_Editor.cpp:196-238 | '+' starts a box, and '[', '{' and '(' start the three run components |
| Walkers.RunMeasure | Map_Editor.cpp:360-469 | a field, panel or button that is accepted ends at its closing bracket, with only identifier letters and blanks before it |
| Walkers.RunMeasureCloses | Map_Editor.cpp:367-382 | a run of identifier letters and blanks followed by the closing bracket is accepted, ending there |
| Walkers.RunMeasureStray | Map_Editor.cpp:383-385 | any other character before the closing bracket gives "Not a valid field." (or panel, or button) |
| Walkers.RunMeasureTruncated | Map_Editor.cpp:388-391 | a run that reaches the grid's edge gives "Truncated field." (or panel, or button) |
| Walkers.IdentifiersKeep | Map_Editor.cpp:376-378 | the collected id keeps only identifier letters and is exactly the text when every cell is an identifier letter |
| Walkers.WalkTo | Map_Editor.cpp:264-309 | a right or down edge walk that is accepted stops at a '+' after cells of the edge's own kind; it fails only with the truncated or invalid message it was given |
| Walkers.WalkToTruncated | Map_Editor.cpp:286-288 | an edge whose every cell up to the grid's edge is accepted gives the truncated message, "Truncated box. (width)" or "(height)" |
| Walkers.WalkToInvalid | Map_Editor.cpp:280-282 | an edge that reaches an unaccepted cell other than '+' gives the invalid message, "Not a valid box. (right)" or "(down)" |
| Walkers.WalkToCorner | Map_Editor.cpp:264-309 | an edge of the right kind that ends in '+' is accepted at that corner |
| Walkers.LeftWalkAsWritten | Map_Editor.cpp:311-331 | the bottom edge walk as written: it reaches a '+' at the box's own column, or (only for a box in column 0) it runs off the left edge with the result -1 |
| Walkers.LeftWalkToCorner | Map_Editor.cpp:311-331 | a bottom edge of '-' ending in '+' at the box's column is accepted |
| Walkers.UpWalkTop | Map_Editor.cpp:332-352 | a left side walk that is accepted ends at the top corner's row |
| Walkers.UpWalkAccepts | Map_Editor.cpp:332-352 | the left side walk is accepted exactly when every cell between the corners is '|' |
| Walkers.BoxMeasure | Map_Editor.cpp:254-353 | an accepted box's right and bottom corners lie inside the grid, right of and below its top-left corner |
| Walkers.BoxMeasureComplete | Map_Editor.cpp:254-353 | every well-formed outline (identifier top edge, '|' sides, '-' bottom, '+' corners) is accepted with its own corners |
| Walkers.BoxMeasureSound | Map_Editor.cpp:254-353 | every accepted box is a well-formed outline |
| Walkers.SkewedBottomRejected | Map_Editor.cpp:311-331 | a bottom edge that ends at a '+' other than the box's column gives "Not a valid box. (width mismatch)" |
| Walkers.SkewedLeftSideRejected | Map_Editor.cpp:332-352 | a left side that is cut off by a blank below the top gives "Not a valid box. (height mismatch)" |
| Walkers.StrayBottomRejected | Map_Editor.cpp:313-325 | a bottom edge that meets a character other than '-' or '+' before any corner gives "Not a valid box. (left)" |
| Walkers.StrayLeftSideRejected | Map_Editor.cpp:334-346 | with the bottom edge reaching the box's own corner, a left side that meets a character other than '|' or a blank gives "Not a valid box. (up)" |
| Walkers.RunOffRejected | Map_Editor.cpp:311-352 | for a box in column 0 whose bottom row is all '-' up to its right corner, the as-written left walk returns -1, and the corrected walker rejects the box with "Not a valid box. (left)" for every such grid, without reading column -1 |
| Walkers.CornerlessBoxLeavesGrid | Map_Editor.cpp:311-352 | a concrete box in column 0 with no bottom-left '+': the as-written walk leaves the grid, and the model rejects it |
| Scanner.ToObjectFields | Map_Editor.cpp:186-200 | a recorded entity object holds its id, type, x, y, width and height |
| Scanner.ToObjectDimensions | Map_Editor.cpp:566-573 | the rectangle of a recorded entity is the extent it was measured with |
| Scanner.WalkConsumes | Map_Editor.cpp:254-469 | an accepted walk measures at least one cell each way (one row for a run) and blanks exactly the cells it consumed |
| Scanner.Record | Map_Editor.cpp:185-247 | recording an entity keeps the grid's shape and strictly lowers its marker count |
| Scanner.RecordBlanksExtent | Map_Editor.cpp:185-247 | the recorded entity starts at its marker, carries its marker's type, and its consumed cells are exactly the ones blanked |
| Scanner.ScanStep | Map_Editor.cpp:185-247 | a grid with no marker yields the empty entity and the grid unchanged; otherwise an accepted step lowers the marker count |
| Scanner.ScanStepEntity | Map_Editor.cpp:185-247 | an accepted step records the first marker in reading order |
| Scanner.ScanAllConsumesMarkers | Map_Editor.cpp:149-151 | once the entity loop succeeds no marker is left, the table keeps every earlier key, and scanning again changes nothing |
| Properties.ApplyItems | Map_Editor.cpp:484-500 | applying a property list keeps every key the object had |
| Properties.ItemsWritten | Map_Editor.cpp:484-500 | what the item loop leaves in the entity, even when it stops early: it keeps every key, and when the list is accepted it is the applied entity |
| Properties.ItemsWrittenStops | Map_Editor.cpp:484-500 | after the first malformed item, later items change neither the error nor what was written |
| Properties.ApplyItemsReads | Map_Editor.cpp:484-500 | after a property list, each key reads as its last assignment in the list (a number when it reads as one, text otherwise), or as before when it is not assigned |
| Properties.ApplyItemsFails | Map_Editor.cpp:487-499 | a property list is accepted exactly when every item has the form name=value; otherwise it gives "Property is missing value." |
| Properties.ApplyLine | Map_Editor.cpp:478-509 | a property line never adds or removes a component |
| Properties.ApplyLineOutcome | Map_Editor.cpp:478-509 | the line's three error cases with their messages, and on success only the named component changes |
| Properties.ApplyLines | Map_Editor.cpp:476-511 | the property lines never add or remove a component |
| Properties.LineWritten | Map_Editor.cpp:478-509 | what one line leaves in the table, even when it fails: the same components, and the accepted line's table when it is accepted |
| Properties.LinesWritten | Map_Editor.cpp:476-511 | what the line loop leaves in the table, even when it stops early: the same components, and the parsed table when every line is accepted |
| Properties.ApplyLinesStops | Map_Editor.cpp:476-511 | the first failing line ends the parse with that line's error, and the lines after it write nothing |
| Properties.LaterLineWins | Map_Editor.cpp:476-511 | when two lines set the same property of one component, the later one wins |
| Properties.LineParts | Map_Editor.cpp:478-495 | a line id->name=value sets that property of that component; the name and value may contain '-' (such as `scroll-x` or `-5`), but not '>', ',' or '=' |
| Layouts.Overlay | Map_Editor.cpp:127-136 | copying the lines onto the grid keeps the grid's shape |
| Layouts.OverlayRows | Map_Editor.cpp:127-136 | each row becomes the first width characters of its line; a shorter line keeps the rest of the old row |
| Layouts.LayoutParseClears | Map_Editor.cpp:143-153 | a layout that parses leaves no marker in the grid and keeps every component that was already there |
| Layouts.Layout.constructor | Map_Editor.cpp:72-94 | the grid has pixel width / cell width columns and pixel height / cell height rows, all blank, and the component table starts empty |
| Layouts.Layout.ClearGrid | Map_Editor.cpp:114-120 | every cell becomes ' ' |
| Layouts.Layout.ParseGrid | Map_Editor.cpp:127-136 | the grid becomes the overlay of the lines onto the old grid |
| Layouts.Layout.HasEntity | Map_Editor.cpp:167-179 | true exactly when some cell holds a marker |
| Layouts.Layout.FindMarker | Map_Editor.cpp:193-196 | returns the first marker in reading order, as the scan loops meet it |
| Layouts.Layout.ParseEntity | Map_Editor.cpp:185-247 | the entity and the new grid are those of one scan step; the entity is set in the table under its id; a failure gives the step's error and leaves the table alone; cells only ever become blank |
| Layouts.Layout.ParseRun | Map_Editor.cpp:360-469 | walks a field, panel or button in place with the same outcome, id, size and blanked grid as the run walk |
| Layouts.Layout.WalkRun | Map_Editor.cpp:366-391 | the run loop's outcome is the run measure; the id is the identifier letters before the closer; exactly the run's cells are blanked |
| Layouts.Layout.RunCells | Map_Editor.cpp:367-387 | the loop consumes identifier letters and blanks, collecting the letters, and stops at the first other cell or at the edge |
| Layouts.Layout.ParseBox | Map_Editor.cpp:254-353 | walks a box in place with the same outcome, id, size and blanked grid as the box walk |
| Layouts.Layout.WalkBox | Map_Editor.cpp:262-352 | the four edge walks give the box measure; on success exactly the outline is blanked and the id is the top edge between the corners |
| Layouts.Layout.DownAndBack | Map_Editor.cpp:289-352 | the right side walk is followed by the return along the bottom and up the left side |
| Layouts.Layout.ReturnWalk | Map_Editor.cpp:311-352 | the bottom and left side walks, with the width and height checks |
| Layouts.Layout.WalkRight | Map_Editor.cpp:263-288 | the top edge walk over identifier letters to the top-right '+', with its id and width |
| Layouts.Layout.WalkDown | Map_Editor.cpp:289-310 | the right side walk over '|' to the bottom-right '+' |
| Layouts.Layout.WalkLeft | Map_Editor.cpp:311-328 | the bottom edge walk over '-' to a '+', exactly as written |
| Layouts.Layout.WalkUp | Map_Editor.cpp:332-352 | the left side walk over '|' up to the blanked top corner, with the height check |
| Layouts.Layout.ClimbBars | Map_Editor.cpp:334-349 | the up loop blanks the '|' run above the bottom corner and stops at the first other cell |
| Layouts.Layout.ParseProperties | Map_Editor.cpp:476-511 | the table becomes the result of applying the lines, and the first error is reported; after an error the table holds the assignments made before it; the table's keys never change |
| Layouts.Layout.ParseItems | Map_Editor.cpp:484-500 | one line's property list applied to its component, or "Property is missing value." with the items before the malformed one written |
| Layouts.Layout.ParseLayout | Map_Editor.cpp:143-153 | overlays the grid lines, parses entities until no marker is left, then applies the property lines, with the same result as the layout function |
| Editor.InitGridViewFields | Map_Editor.cpp:792-799 | fails exactly when "columns" is missing; otherwise it keeps every key and the value of every key it does not write, and sets grid-x and grid-y to the no-value marker, scroll-x and scroll-y to 0, and text to "" |
| Editor.InitToolbarFields | Map_Editor.cpp:938-945 | fails exactly when "columns" is missing; otherwise it keeps every key and the value of every key it does not write, and sets scroll-x and scroll-y to 0, text to "", and item-x and item-y to the no-value marker |
| Editor.ScrollMoves | Map_Editor.cpp:1098-1118 | the two missing-coordinate errors; otherwise the arrow keys move scroll-x and scroll-y by one and change nothing else |
| Editor.ScrollRoundTrip | Map_Editor.cpp:1098-1118 | left then right, or up then down, gives back the same object |
| Editor.ScrollAfterInit | Map_Editor.cpp:792-799 | a freshly initialised grid view scrolls from (0, 0) |
| Editor.LoadObject | Map_Editor.cpp:1037-1048 | loading gives the load function's result: the two-column check, the even-count check, and key/value pairs set in order |
| Editor.SaveProperties | Map_Editor.cpp:1060-1072 | the save loop turns numbers into text in place and lists each key followed by its text |
| Editor.SaveObject | Map_Editor.cpp:1056-1074 | saving gives the save function's result |
| Editor.SavedShows | Map_Editor.cpp:1056-1074 | saving to a two-column grid view succeeds, and its text is the key/value items joined by ';' |
| Editor.FromSaveItems | Map_Editor.cpp:1037-1074 | loading the items saved from an object with distinct keys rebuilds it with text values |
| Editor.SaveLoad | Map_Editor.cpp:1037-1074 | loading what was saved gives back the object, each value as text, when no key or value contains ';' |
| Editor.ParseRectangleSound | Map_Editor.cpp:1183-1192 | an accepted text is four parts joined by ',' that read, in order, as the rectangle's left, top, right and bottom |
| Editor.ParseFormatRectangle | Map_Editor.cpp:1183-1192 | a rectangle written as four numbers separated by ',' parses back to itself |
| Editor.Unstarred | Map_Editor.cpp:1242-1244 | a key starting with '*' loses exactly that star; any other key is unchanged |
| Editor.Destarred | Map_Editor.cpp:1238-1246 | fails with "Key is NULL." exactly when some key is empty; otherwise every key is unstarred and the values are unchanged |
| Editor.DestarSprite | Map_Editor.cpp:1238-1246 | the loop computes the destarred object |
| Editor.DestarUnstarred | Map_Editor.cpp:1238-1246 | destarring a sprite whose keys have no star changes nothing |
| Editor.PaletteItems | Map_Editor.cpp:1083-1089 | fails exactly when some sprite has no icon; otherwise one "name:icon" entry per catalog sprite, in catalog order |
| Editor.PaletteEntries | Map_Editor.cpp:1080-1091 | splitting the palette text on ';' gives back one "name:icon" entry per catalog sprite |
| Editor.MapEditor.constructor | Map_Editor.cpp:601-610 | five empty sprite layers in order, background and music metadata set to "", background layer selected, no sprite selected |
| Editor.MapEditor.ClearMap | Map_Editor.cpp:1223-1232 | the background layer is selected, no sprite is selected, the metadata is emptied, and every layer is emptied while the layer names stay |
| Editor.MapEditor.UpdateSpritePalette | Map_Editor.cpp:1080-1091 | the toolbar is initialised and its text becomes the palette of the catalog |

## Left out

- File and configuration reading: `cFile` and `cConfig` are not part of this model.
  - The layout lines and the grid and cell sizes are parameters.
  - `Layouts.Layout.ParseGrid` and `ParseLayout` require at least `height` lines, because what `cFile::Get_Line` returns past the end of the file is not known here.
- Layouts.Layout.constructor: requires non-zero cell sizes, since the division by zero at `Map_Editor.cpp:87-88` is undefined. It takes the grid size in pixels instead of reading the config. It does not call `Parse_Layout`; `ParseLayout` is a separate call.
- Rendering, mouse and keyboard dispatch, and the `On_*` hooks are I/O and are not modelled. This covers `Render`, `On_Component_Init`, `On_Init`, the `Render_*` and `On_*_Click` methods, `Select_Sprite` and `Update_Levels`. So are the component initialisers that `Parse_Layout` runs after the properties (`Map_Editor.cpp:155-160`).
- `Load_Catalog`, `Load_Map` and `Save_Map` read and write files, and are not modelled.
- `cLayout::Parse_Entity` and the walkers throw part way through a walk. The model states only what a failed walk keeps: cells only ever become blank, and the component table is unchanged. It does not say which cells were blanked before the error.
- Editor.LoadObject: on the even-count error the model returns only the error. The source has already cleared the object at `Map_Editor.cpp:1039`, and the model does not state that.
- Editor.DestarSprite: on the "Key is NULL." error the model returns only the error. The source has already destarred the keys before the empty one.
- Editor.MapEditor.UpdateSpritePalette: on the missing-icon error the model returns only the error. The source has already initialised the toolbar at `Map_Editor.cpp:1081`.
- Reading a key with `tObject::operator[]` adds the key when it is missing, as `grid_view["columns"]` at `Map_Editor.cpp:1038` does. The model reads a missing key as the number 0 and does not add it.
- In-place updates of a `tObject` are modelled as functions that return the new object. This covers `Init_Grid_View`, `Init_Toolbar`, `Scroll_Component`, `Destar_Sprite` and loading into an object.
- `Editor.MapEditor.constructor` models only the editor's own fields. The `layer` component check and the setting of its text (`Map_Editor.cpp:611-612`) need the parsed layout, which is built by the `Layouts` module.
- `cValue` has only the number and text kinds here. `Save_Object_To_Grid_View` adds only the key of a value of any other kind, and that case has no counterpart in this model.
- Editor.SaveLoad: requires at least one key. An empty object saves as "", which splits into one item, so loading it fails the even-count check instead of giving an empty object.
- Number-to-text and text-to-number conversion are parameters. Their formats, and the fact that they are inverses, are assumptions of the lemmas that need them (`Editor.ParseFormatRectangle`).
- Integer width: grid coordinates and scroll offsets are unbounded integers. No overflow is modelled.
- The walkers' loops are split into helper methods (`RunCells`, `ClimbBars`, `WalkRight`, `WalkDown`, `WalkLeft`, `WalkUp`). They blank the same cells in the same order as the source's single functions.

## Findings

| source | as written | input that shows it | evidently intended | confidence | as-written member | corrected member |
|---|---|---|---|---|---|---|
| Map_Editor.cpp:311-352 | the bottom edge walk of `Parse_Box` runs left while cells are '-', with no check that it stopped at a '+'; it can leave column 0 with `pos_x == -1`, the width check still passes, and the up walk then reads column -1, outside the grid | a three-row grid whose top row is `+ab+`, whose middle row has a bar in its last column only, and whose bottom row is `---+`: a box in column 0 with no bottom-left '+' | reject the box as "Not a valid box. (left)" when the bottom edge runs off the grid | not executed | Walkers.LeftWalkAsWritten | Walkers.BoxMeasure |
