/** The property grammar that follows the grid block of a layout file:
    one line `id->key=value,key=value` per entity, applied to entities the
    grid already defined. Splitting is on the literal delimiters `->`, `,`
    and `=`, with no trimming and no escaping. */
module Properties {
  import opened Wrappers
  import opened Objects
  import opened Text

  /** How a property value is stored: as a number when the number parser
      accepts the text, otherwise as the text itself. */
  function ToValue(text: string, toNumber: string -> Option<int>): Value
  {
    match toNumber(text)
    case Some(n) => Num(n)
    case None => Str(text)
  }

  /** One `key=value` item written into entity `e`. */
  function ApplyItem(e: Obj, item: string, toNumber: string -> Option<int>): Result<Obj>
  {
    var prop := Split(item, "=");
    if |prop| != 2 then Failure(Error("Property is missing value."))
    else Ok(Set(e, prop[0], ToValue(prop[1], toNumber)))
  }

  /** The items of one line written into entity `e` in order, stopping at
      the first malformed item. The entity's keys only grow, at the end. */
  function ApplyItems(e: Obj, items: seq<string>, toNumber: string -> Option<int>): (r: Result<Obj>)
    ensures r.Ok? ==> e.keys <= r.value.keys
    decreases |items|
  {
    if items == [] then Ok(e)
    else
      match ApplyItems(e, items[..|items| - 1], toNumber)
      case Failure(err) => Failure(err)
      case Ok(e') => ApplyItem(e', items[|items| - 1], toNumber)
  }

  /** The entity as the in-place writing leaves it, whether or not it
      stops early: the items written in order up to the first malformed
      one, which ends the writing with the items before it kept. When every
      item is well formed this is the applied entity. */
  function ItemsWritten(e: Obj, items: seq<string>, toNumber: string -> Option<int>): (r: Obj)
    ensures e.keys <= r.keys
    ensures ApplyItems(e, items, toNumber).Ok? ==> r == ApplyItems(e, items, toNumber).value
    decreases |items|
  {
    if items == [] then e
    else
      var init := items[..|items| - 1];
      var before := ItemsWritten(e, init, toNumber);
      if ApplyItems(e, init, toNumber).Failure? then before
      else
        match ApplyItem(before, items[|items| - 1], toNumber)
        case Failure(_) => before
        case Ok(e') => e'
  }

  /** Once a prefix of the items fails, the items after it change neither
      the outcome nor what is written. */
  lemma {:induction false} ItemsWrittenStops(e: Obj, items: seq<string>, n: nat, toNumber: string -> Option<int>)
    requires n <= |items|
    requires ApplyItems(e, items[..n], toNumber).Failure?
    ensures ApplyItems(e, items, toNumber) == ApplyItems(e, items[..n], toNumber)
    ensures ItemsWritten(e, items, toNumber) == ItemsWritten(e, items[..n], toNumber)
    decreases |items|
  {
    if n < |items| {
      var init := items[..|items| - 1];
      assert init[..n] == items[..n];
      ItemsWrittenStops(e, init, n, toNumber);
    } else {
      assert items[..n] == items;
    }
  }

  /** The text last assigned to `k` by the items, if any item assigns it. */
  function Assigned(items: seq<string>, k: string): Option<string>
    decreases |items|
  {
    if items == [] then None
    else
      var prop := Split(items[|items| - 1], "=");
      if |prop| == 2 && prop[0] == k then Some(prop[1])
      else Assigned(items[..|items| - 1], k)
  }

  /** After a successful application every key reads as the value its last
      assignment gave it, and a key no item names reads as before; the keys
      present are the old ones and the assigned ones. */
  lemma {:induction false} ApplyItemsReads(e: Obj, items: seq<string>, toNumber: string -> Option<int>, k: string)
    requires ApplyItems(e, items, toNumber).Ok?
    ensures var r := ApplyItems(e, items, toNumber).value;
      (Has(r, k) <==> Has(e, k) || Assigned(items, k).Some?) &&
      Lookup(r, k) == match Assigned(items, k)
                      case Some(v) => ToValue(v, toNumber)
                      case None => Lookup(e, k)
    decreases |items|
  {
    if items != [] {
      var init := items[..|items| - 1];
      ApplyItemsReads(e, init, toNumber, k);
      var prop := Split(items[|items| - 1], "=");
      LookupSet(ApplyItems(e, init, toNumber).value, prop[0], ToValue(prop[1], toNumber), k);
    }
  }

  /** An item that splits into exactly a key and a value. */
  predicate IsAssignment(item: string)
  {
    |Split(item, "=")| == 2
  }

  /** Applying the items succeeds exactly when every item is an
      assignment, and otherwise fails with the missing-value error. */
  lemma {:induction false} ApplyItemsFails(e: Obj, items: seq<string>, toNumber: string -> Option<int>)
    ensures ApplyItems(e, items, toNumber).Ok? <==> forall i | 0 <= i < |items| :: IsAssignment(items[i])
    ensures ApplyItems(e, items, toNumber).Failure? ==> ApplyItems(e, items, toNumber).error == Error("Property is missing value.")
    decreases |items|
  {
    if items != [] {
      var n := |items| - 1;
      var init := items[..n];
      ApplyItemsFails(e, init, toNumber);
      assert forall i | 0 <= i < n :: init[i] == items[i];
      if (forall i | 0 <= i < n :: IsAssignment(items[i])) && IsAssignment(items[n]) {
        assert forall i | 0 <= i < |items| :: IsAssignment(items[i]) by {
          forall i | 0 <= i < |items| ensures IsAssignment(items[i]) {
            if i < n {
              assert IsAssignment(init[i]);
            }
          }
        }
      }
    }
  }

  /** One property line applied to the entity table. */
  function ApplyLine(table: Hash<Obj>, line: string, toNumber: string -> Option<int>): (r: Result<Hash<Obj>>)
    ensures r.Ok? ==> r.value.keys == table.keys
  {
    var pair := Split(line, "->");
    if |pair| != 2 then Failure(Error("Entity ID is missing properties."))
    else if !Has(table, pair[0]) then Failure(Error("Entity " + pair[0] + " is not defined."))
    else
      match ApplyItems(Get(table, pair[0]), Split(pair[1], ","), toNumber)
      case Failure(err) => Failure(err)
      case Ok(e) => Ok(Set(table, pair[0], e))
  }

  /** The property lines applied in order, stopping at the first error.
      No line adds or removes an entity. */
  function ApplyLines(table: Hash<Obj>, lines: seq<string>, toNumber: string -> Option<int>): (r: Result<Hash<Obj>>)
    ensures r.Ok? ==> r.value.keys == table.keys
    decreases |lines|
  {
    if lines == [] then Ok(table)
    else
      match ApplyLines(table, lines[..|lines| - 1], toNumber)
      case Failure(err) => Failure(err)
      case Ok(t) => ApplyLine(t, lines[|lines| - 1], toNumber)
  }

  /** One line as the in-place parse leaves the table, whether or not the
      line is accepted: a line with no single `->` or naming an unknown
      entity changes nothing, and otherwise the named entity receives its
      items up to the first malformed one. */
  function LineWritten(table: Hash<Obj>, line: string, toNumber: string -> Option<int>): (r: Hash<Obj>)
    ensures r.keys == table.keys
    ensures ApplyLine(table, line, toNumber).Ok? ==> r == ApplyLine(table, line, toNumber).value
  {
    var pair := Split(line, "->");
    if |pair| != 2 || !Has(table, pair[0]) then table
    else Set(table, pair[0], ItemsWritten(Get(table, pair[0]), Split(pair[1], ","), toNumber))
  }

  /** The table as the in-place parse leaves it, whether or not it stops
      early: the lines written in order up to and including the first one
      that fails, that one as far as it got. When every line is accepted
      this is the parsed table. */
  function LinesWritten(table: Hash<Obj>, lines: seq<string>, toNumber: string -> Option<int>): (r: Hash<Obj>)
    ensures r.keys == table.keys
    ensures ApplyLines(table, lines, toNumber).Ok? ==> r == ApplyLines(table, lines, toNumber).value
    decreases |lines|
  {
    if lines == [] then table
    else
      var init := lines[..|lines| - 1];
      var before := LinesWritten(table, init, toNumber);
      if ApplyLines(table, init, toNumber).Failure? then before
      else LineWritten(before, lines[|lines| - 1], toNumber)
  }

  /** The three ways a line is rejected, each with its own message, and
      what an accepted line does: the named entity receives its items and
      every other entity is left as it was. */
  lemma ApplyLineOutcome(table: Hash<Obj>, line: string, toNumber: string -> Option<int>)
    ensures var pair := Split(line, "->");
      var r := ApplyLine(table, line, toNumber);
      (|pair| != 2 ==> r == Failure(Error("Entity ID is missing properties."))) &&
      (|pair| == 2 && !Has(table, pair[0]) ==> r == Failure(Error("Entity " + pair[0] + " is not defined."))) &&
      (|pair| == 2 && Has(table, pair[0]) ==>
        var items := ApplyItems(Get(table, pair[0]), Split(pair[1], ","), toNumber);
        (items.Failure? ==> r == Failure(Error("Property is missing value."))) &&
        (items.Ok? ==> (r.Ok? && Get(r.value, pair[0]) == items.value &&
          forall k | k != pair[0] && Has(table, k) :: Get(r.value, k) == Get(table, k))))
  {
    var pair := Split(line, "->");
    if |pair| == 2 && Has(table, pair[0]) {
      var items := ApplyItems(Get(table, pair[0]), Split(pair[1], ","), toNumber);
      ApplyItemsFails(Get(table, pair[0]), Split(pair[1], ","), toNumber);
      if items.Ok? {
        forall k | k != pair[0] && Has(table, k)
          ensures Get(ApplyLine(table, line, toNumber).value, k) == Get(table, k)
        {
          SetOther(table, pair[0], items.value, k);
        }
      }
    }
  }

  /** Parsing stops at the first line that fails: whatever lines follow it,
      the whole block fails with that line's error, and they write nothing. */
  lemma {:induction false} ApplyLinesStops(table: Hash<Obj>, lines: seq<string>, n: nat, toNumber: string -> Option<int>)
    requires n <= |lines|
    requires ApplyLines(table, lines[..n], toNumber).Failure?
    ensures ApplyLines(table, lines, toNumber) == ApplyLines(table, lines[..n], toNumber)
    ensures LinesWritten(table, lines, toNumber) == LinesWritten(table, lines[..n], toNumber)
    decreases |lines|
  {
    if n < |lines| {
      var init := lines[..|lines| - 1];
      assert init[..n] == lines[..n];
      ApplyLinesStops(table, init, n, toNumber);
    } else {
      assert lines[..n] == lines;
    }
  }

  /** Two successful lines for the same entity that both assign key `k`:
      the value of the later line is the one that stays. */
  lemma LaterLineWins(table: Hash<Obj>, first: string, second: string, k: string, v: string, toNumber: string -> Option<int>)
    requires ApplyLines(table, [first, second], toNumber).Ok?
    requires |Split(first, "->")| == 2 && |Split(second, "->")| == 2
    requires Split(first, "->")[0] == Split(second, "->")[0]
    requires Assigned(Split(Split(second, "->")[1], ","), k) == Some(v)
    ensures var id := Split(second, "->")[0];
      var r := ApplyLines(table, [first, second], toNumber).value;
      Has(r, id) && Lookup(Get(r, id), k) == ToValue(v, toNumber)
  {
    assert [first, second][..1] == [first];
    assert [first][..0] == [];
    assert ApplyLines(table, [first], toNumber) == ApplyLine(table, first, toNumber);
    var t := ApplyLine(table, first, toNumber).value;
    var pair := Split(second, "->");
    var items := Split(pair[1], ",");
    assert ApplyLines(table, [first, second], toNumber) == ApplyLine(t, second, toNumber);
    ApplyItemsReads(Get(t, pair[0]), items, toNumber, k);
  }

  /** A well-formed single-item line `id->k=v` sets key `k` of entity `id`
      to the value of `v`. The id is made of identifier letters, so it holds
      no `-`; the key and value may hold `-` (a name such as `scroll-x`, a
      value such as `-5`) but none of `>`, `,` and `=`. */
  lemma LineParts(table: Hash<Obj>, id: string, k: string, v: string, toNumber: string -> Option<int>)
    requires Has(table, id) && '-' !in id
    requires '>' !in k && ',' !in k && '=' !in k
    requires '>' !in v && ',' !in v && '=' !in v
    ensures var r := ApplyLine(table, id + "->" + k + "=" + v, toNumber);
      r.Ok? && Has(r.value, id) && Lookup(Get(r.value, id), k) == ToValue(v, toNumber)
  {
    var item := k + "=" + v;
    var line := id + "->" + item;
    assert line == id + "->" + k + "=" + v;
    ArrowSplit(id, item);
    assert Split(item, ",") == [item] by {
      SplitFree(item, ',');
    }
    assert Split(item, "=") == [k, v] by {
      assert item == k + ['='] + v;
      SplitAtFirst(k, '=', v);
      SplitFree(v, '=');
    }
    var e := Get(table, id);
    assert ApplyItems(e, [item], toNumber) == Ok(Set(e, k, ToValue(v, toNumber))) by {
      assert [item][..0] == [];
    }
  }

  /** Splitting `a->b` on `->` when `a` holds no `-` and `b` no `>`. */
  lemma ArrowSplit(a: string, b: string)
    requires '-' !in a && '>' !in b
    ensures Split(a + "->" + b, "->") == [a, b]
  {
    ArrowSplitAt(a, b);
    NoArrow(b);
  }

  lemma {:induction false} ArrowSplitAt(a: string, b: string)
    requires '-' !in a
    ensures Split(a + "->" + b, "->") == [a] + Split(b, "->")
    decreases |a|
  {
    var s := a + "->" + b;
    if a == [] {
      assert s[..2] == "->";
      assert s[2..] == b;
    } else {
      assert s[..2] != "->" by { assert s[0] == a[0]; }
      assert s[1..] == a[1..] + "->" + b;
      ArrowSplitAt(a[1..], b);
      assert [a[0]] + a[1..] == a;
    }
  }

  lemma {:induction false} NoArrow(b: string)
    requires '>' !in b
    ensures Split(b, "->") == [b]
    decreases |b|
  {
    if |b| >= 2 {
      assert b[..2] != "->" by { assert b[1] == b[..2][1]; }
      NoArrow(b[1..]);
      assert [b[0]] + b[1..] == b;
    }
  }
}
