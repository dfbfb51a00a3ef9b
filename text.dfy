/** The text helpers the layout code borrows from its support library:
    splitting a text on a literal delimiter and joining items with one. */
module Text {

  /** Splits `s` at every leftmost non-overlapping occurrence of `d`.
      No trimming is done; a text without `d` is one item, and the empty
      text is one empty item. */
  function Split(s: string, d: string): (parts: seq<string>)
    requires d != []
    ensures |parts| >= 1
    decreases |s|
  {
    if |s| < |d| then [s]
    else if s[..|d|] == d then [""] + Split(s[|d|..], d)
    else
      var rest := Split(s[1..], d);
      [[s[0]] + rest[0]] + rest[1..]
  }

  /** Joins the items with `d` between consecutive items. */
  function Join(items: seq<string>, d: string): string
  {
    if items == [] then ""
    else if |items| == 1 then items[0]
    else items[0] + d + Join(items[1..], d)
  }

  /** No item contains the character `c`. */
  predicate FreeOf(items: seq<string>, c: char)
  {
    forall i | 0 <= i < |items| :: c !in items[i]
  }

  lemma JoinCons(x: string, rest: seq<string>, d: string)
    requires rest != []
    ensures Join([x] + rest, d) == x + d + Join(rest, d)
  {
    assert ([x] + rest)[1..] == rest;
  }

  /** Joining the pieces of a split gives back the text. */
  lemma {:induction false} JoinSplit(s: string, d: string)
    requires d != []
    ensures Join(Split(s, d), d) == s
    decreases |s|
  {
    if |s| < |d| {
    } else if s[..|d|] == d {
      var rest := Split(s[|d|..], d);
      assert Split(s, d) == [""] + rest;
      JoinSplit(s[|d|..], d);
      JoinCons("", rest, d);
      assert s == s[..|d|] + s[|d|..];
    } else {
      var rest := Split(s[1..], d);
      assert Split(s, d) == [[s[0]] + rest[0]] + rest[1..];
      JoinSplit(s[1..], d);
      JoinTail(s, rest, d);
    }
  }

  lemma JoinTail(s: string, rest: seq<string>, d: string)
    requires s != [] && rest != []
    requires Join(rest, d) == s[1..]
    ensures Join([[s[0]] + rest[0]] + rest[1..], d) == s
  {
    assert s == [s[0]] + s[1..];
    if |rest| == 1 {
      assert [[s[0]] + rest[0]] + rest[1..] == [[s[0]] + rest[0]];
    } else {
      JoinCons([s[0]] + rest[0], rest[1..], d);
      JoinCons(rest[0], rest[1..], d);
      assert rest == [rest[0]] + rest[1..];
    }
  }

  lemma {:induction false} SplitFree(a: string, c: char)
    requires c !in a
    ensures Split(a, [c]) == [a]
    decreases |a|
  {
    if a != [] {
      assert a[..1] != [c] by { assert a[..1][0] == a[0]; }
      SplitFree(a[1..], c);
      assert [a[0]] + a[1..] == a;
    }
  }

  lemma {:induction false} SplitAtFirst(a: string, c: char, rest: string)
    requires c !in a
    ensures Split(a + [c] + rest, [c]) == [a] + Split(rest, [c])
    decreases |a|
  {
    var s := a + [c] + rest;
    if a == [] {
      assert s[..1] == [c];
      assert s[1..] == rest;
    } else {
      assert s[..1] != [c] by { assert s[..1][0] == a[0]; }
      assert s[1..] == a[1..] + [c] + rest;
      SplitAtFirst(a[1..], c, rest);
      assert [a[0]] + a[1..] == a;
    }
  }

  /** Splitting a join on a one-character delimiter gives back the items,
      provided there is at least one item and no item holds the delimiter. */
  lemma {:induction false} SplitJoin(items: seq<string>, c: char)
    requires items != []
    requires FreeOf(items, c)
    ensures Split(Join(items, [c]), [c]) == items
    decreases |items|
  {
    if |items| == 1 {
      SplitFree(items[0], c);
    } else {
      assert c !in items[0];
      SplitAtFirst(items[0], c, Join(items[1..], [c]));
      SplitJoin(items[1..], c);
      assert [items[0]] + items[1..] == items;
    }
  }
}
