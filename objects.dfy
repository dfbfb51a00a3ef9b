/** The support library's dynamic values (`cValue`) and its insertion-ordered
    hash (`cHash`), of which an object (`tObject`) is the string-to-value
    instance. */
module Objects {
  import opened Wrappers

  datatype Kind = NumberKind | StringKind

  /** A dynamic value: its type tag and both payload fields, so that code
      which bumps `.number` or rewrites `.string` is modelled literally. */
  datatype Value = Value(kind: Kind, number: int, text: string)

  function Num(n: int): Value { Value(NumberKind, n, "") }

  function Str(s: string): Value { Value(StringKind, 0, s) }

  /** What a key that is not present reads as. */
  const Unset: Value := Value(NumberKind, 0, "")

  /** A hash keeps its keys and values in two parallel arrays, in insertion order. */
  datatype Table<V> = Table(keys: seq<string>, values: seq<V>)

  type Hash<V> = t: Table<V> | |t.keys| == |t.values| witness Table([], [])

  type Obj = Hash<Value>

  function Empty<V>(): (h: Hash<V>)
    ensures h.keys == []
  {
    Table([], [])
  }

  /** Position of the first occurrence of `k`, or `|keys|` when absent. */
  function IndexOf(keys: seq<string>, k: string): (i: nat)
    ensures i <= |keys|
  {
    if keys == [] then 0
    else if keys[0] == k then 0
    else 1 + IndexOf(keys[1..], k)
  }

  /** The index found is that of the first occurrence, and it is in range
      exactly when the key occurs. */
  lemma {:induction false} IndexOfFirst(keys: seq<string>, k: string)
    ensures IndexOf(keys, k) < |keys| <==> k in keys
    ensures IndexOf(keys, k) < |keys| ==> keys[IndexOf(keys, k)] == k
    ensures forall j | 0 <= j < IndexOf(keys, k) :: keys[j] != k
  {
    if keys != [] && keys[0] != k {
      IndexOfFirst(keys[1..], k);
      assert k in keys <==> k in keys[1..] by {
        assert keys == [keys[0]] + keys[1..];
      }
    }
  }

  predicate Has<V>(h: Hash<V>, k: string)
  {
    k in h.keys
  }

  function Get<V>(h: Hash<V>, k: string): V
    requires Has(h, k)
  {
    IndexOfFirst(h.keys, k);
    h.values[IndexOf(h.keys, k)]
  }

  /** Reads a key the way `object[key]` does: a missing key reads as `Unset`. */
  function Lookup(o: Obj, k: string): Value
  {
    if Has(o, k) then Get(o, k) else Unset
  }

  function NumberAt(o: Obj, k: string): int
  {
    Lookup(o, k).number
  }

  /** `hash[key] = value`: overwrites the entry of an existing key in place,
      and appends a new key at the end. */
  function Set<V>(h: Hash<V>, k: string, v: V): (r: Hash<V>)
    ensures Has(r, k) && Get(r, k) == v
    ensures r.keys == if Has(h, k) then h.keys else h.keys + [k]
    ensures !Has(h, k) ==> r.values == h.values + [v]
  {
    var i := IndexOf(h.keys, k);
    IndexOfFirst(h.keys, k);
    if i < |h.keys| then
      Table(h.keys, h.values[i := v])
    else
      var r: Hash<V> := Table(h.keys + [k], h.values + [v]);
      assert IndexOf(r.keys, k) == |h.keys| by {
        IndexOfFirst(r.keys, k);
      }
      r
  }

  /** Setting one key leaves every other key's presence and value alone. */
  lemma SetOther<V>(h: Hash<V>, k: string, v: V, k': string)
    requires k' != k
    ensures Has(Set(h, k, v), k') == Has(h, k')
    ensures Has(h, k') ==> Get(Set(h, k, v), k') == Get(h, k')
  {
    IndexOfFirst(h.keys, k);
    if Has(h, k') {
      IndexOfFirst(h.keys, k');
      if !Has(h, k) {
        IndexOfAppend(h.keys, k, k');
      }
    }
  }

  /** Reading a key after a write: the value written under that key, and
      what was there before under any other. */
  lemma LookupSet(h: Obj, k: string, v: Value, k': string)
    ensures Lookup(Set(h, k, v), k') == if k' == k then v else Lookup(h, k')
  {
    if k' != k {
      SetOther(h, k, v, k');
    }
  }

  /** The keys written in order, each with the value beside it, as a run
      of `object[key] = value` statements does. */
  function Assign(h: Obj, keys: seq<string>, values: seq<Value>): (r: Obj)
    requires |keys| == |values|
    ensures h.keys <= r.keys
    decreases |keys|
  {
    if keys == [] then h
    else
      var n := |keys| - 1;
      Set(Assign(h, keys[..n], values[..n]), keys[n], values[n])
  }

  /** A run of writes leaves a key it does not write reading as before. */
  lemma {:induction false} LookupAssignOther(h: Obj, keys: seq<string>, values: seq<Value>, k: string)
    requires |keys| == |values| && k !in keys
    ensures Lookup(Assign(h, keys, values), k) == Lookup(h, k)
    decreases |keys|
  {
    if keys != [] {
      var n := |keys| - 1;
      assert k !in keys[..n];
      LookupAssignOther(h, keys[..n], values[..n], k);
      LookupSet(Assign(h, keys[..n], values[..n]), keys[n], values[n], k);
    }
  }

  /** After a run of writes every key written is present. */
  lemma {:induction false} AssignHas(h: Obj, keys: seq<string>, values: seq<Value>, i: nat)
    requires |keys| == |values| && i < |keys|
    ensures Has(Assign(h, keys, values), keys[i])
    decreases |keys|
  {
    var n := |keys| - 1;
    if i < n {
      AssignHas(h, keys[..n], values[..n], i);
      if keys[i] != keys[n] {
        SetOther(Assign(h, keys[..n], values[..n]), keys[n], values[n], keys[i]);
      }
    }
  }

  /** After a run of writes every key written is present, all at once. */
  lemma AssignHasAll(h: Obj, keys: seq<string>, values: seq<Value>)
    requires |keys| == |values|
    ensures forall k | k in keys :: Has(Assign(h, keys, values), k)
  {
    forall i | 0 <= i < |keys| ensures Has(Assign(h, keys, values), keys[i]) {
      AssignHas(h, keys, values, i);
    }
  }

  /** After a run of writes to distinct keys, each key reads as the value
      written to it. */
  lemma {:induction false} LookupAssignAt(h: Obj, keys: seq<string>, values: seq<Value>, i: nat)
    requires |keys| == |values| && Distinct(keys) && i < |keys|
    ensures Lookup(Assign(h, keys, values), keys[i]) == values[i]
    decreases |keys|
  {
    var n := |keys| - 1;
    LookupSet(Assign(h, keys[..n], values[..n]), keys[n], values[n], keys[i]);
    if i < n {
      LookupAssignAt(h, keys[..n], values[..n], i);
    }
  }

  lemma {:induction false} IndexOfAppend(keys: seq<string>, k: string, k': string)
    requires k' in keys
    ensures IndexOf(keys + [k], k') == IndexOf(keys, k')
  {
    if keys[0] != k' {
      assert (keys + [k])[1..] == keys[1..] + [k];
      IndexOfAppend(keys[1..], k, k');
    }
  }

  /** No key occurs twice. */
  predicate Distinct(keys: seq<string>)
  {
    forall i, j | 0 <= i < j < |keys| :: keys[i] != keys[j]
  }

  /** With distinct keys, each key reads back the value stored beside it. */
  lemma LookupDistinct(h: Obj, i: nat)
    requires Distinct(h.keys) && i < |h.keys|
    ensures Lookup(h, h.keys[i]) == h.values[i]
  {
    IndexOfFirst(h.keys, h.keys[i]);
    var n := IndexOf(h.keys, h.keys[i]);
    assert n == i;
  }

  /** Setting a key twice keeps only the later value, and setting a key to
      the value it already has changes nothing. */
  lemma SetSet<V>(h: Hash<V>, k: string, v: V, v': V)
    ensures Set(Set(h, k, v), k, v') == Set(h, k, v')
  {
  }

  lemma SetSame<V>(h: Hash<V>, k: string)
    requires Has(h, k)
    ensures Set(h, k, Get(h, k)) == h
  {
  }

  /** Setting preserves the absence of duplicate keys. */
  lemma SetDistinct<V>(h: Hash<V>, k: string, v: V)
    requires Distinct(h.keys)
    ensures Distinct(Set(h, k, v).keys)
  {
  }
}
