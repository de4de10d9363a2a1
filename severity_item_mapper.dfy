/** A model of the JDT UI's SeverityItemMapper: a table from a resource path to the
    viewer item (or items) that show that resource, used to refresh the items' icons
    when problem severities change.

    The path type `K`, the element data type `D` and the image type `Img` are left
    abstract. An SWT item is a heap object with a disposed flag, its attached data
    and its current image; the label provider's `getImage` is a function value. */
module ViewSupport {

  datatype Option<T> = None | Some(value: T)

  /** An SWT `Item` as the mapper sees it. `None` stands for a Java `null`. */
  class Item<D, Img> {
    var disposed: bool
    var data: Option<D>
    var image: Option<Img>
  }

  /** What a path maps to: the Java code stores either one `Item` or an `ArrayList`
      of items under the same key and tells them apart with `instanceof`. */
  datatype Entry<D, Img> = Single(item: Item<D, Img>) | Many(items: seq<Item<D, Img>>)

  type Table<K, D, Img> = map<K, Entry<D, Img>>

  /** The items an entry holds, in list order. */
  function ItemsOf<D, Img>(e: Entry<D, Img>): seq<Item<D, Img>>
  {
    match e
    case Single(x) => [x]
    case Many(s) => s
  }

  /** The test `removeFromMap` applies to each list element: the item is live, and its
      data is null or equals the element (a null element never equals non-null data). */
  predicate Matches<D(==), Img>(x: Item<D, Img>, element: Option<D>)
    reads x
  {
    !x.disposed && (x.data.None? || x.data == element)
  }

  /** The index of the first item of `s` that matches `element`, or `|s|` if none does. */
  function FirstMatch<D(==), Img>(s: seq<Item<D, Img>>, element: Option<D>): (k: nat)
    reads s
    ensures k <= |s|
    ensures k < |s| ==> Matches(s[k], element)
    ensures forall j :: 0 <= j < k ==> !Matches(s[j], element)
  {
    if s == [] then 0
    else if Matches(s[0], element) then 0
    else 1 + FirstMatch(s[1..], element)
  }

  /** Java's `List.remove(Object)` on a list of items: drops the first occurrence of `x`
      (SWT items do not override `equals`, so this is reference identity). */
  function RemoveFirstOccurrence<T(==)>(s: seq<T>, x: T): (r: seq<T>)
    ensures x in s ==> |r| == |s| - 1 && multiset(r) == multiset(s) - multiset{x}
    ensures x !in s ==> r == s
  {
    if s == [] then []
    else
      assert s == [s[0]] + s[1..];
      if s[0] == x then s[1..]
      else [s[0]] + RemoveFirstOccurrence(s[1..], x)
  }

  /** The list `removeFromMap` leaves behind: `s` without its first matching item. */
  function WithoutFirstMatch<D(==), Img>(s: seq<Item<D, Img>>, element: Option<D>): seq<Item<D, Img>>
    reads s
  {
    var k := FirstMatch(s, element);
    if k < |s| then s[..k] + s[k + 1..] else s
  }

  /** The table after `addToMap(path, x)`. */
  function Added<K, D, Img>(t: Table<K, D, Img>, path: K, x: Item<D, Img>): Table<K, D, Img>
  {
    if path !in t then t[path := Single(x)]
    else match t[path]
      case Single(y) => t[path := Many([y, x])]
      case Many(s) => t[path := Many(s + [x])]
  }

  /** The table after `removeFromMap(path, element)`. */
  function Removed<K, D(==), Img>(t: Table<K, D, Img>, path: K, element: Option<D>): Table<K, D, Img>
    reads if path in t then ItemsOf(t[path]) else []
  {
    if path !in t then t
    else match t[path]
      case Single(_) => t - {path}
      case Many(s) => t[path := Many(WithoutFirstMatch(s, element))]
  }

  /** The image `refreshIcon` leaves on an item with the given state. */
  function NewImage<D, Img>(disposed: bool, data: Option<D>, image: Option<Img>,
                            getImage: Option<D> -> Option<Img>): Option<Img>
  {
    if disposed then image
    else match getImage(data)
      case Some(img) => Some(img)
      case None => image
  }

  /** Every item that table `t` maps under one of `paths`. */
  ghost function MappedUnder<K, D, Img>(t: Table<K, D, Img>, paths: seq<K>): set<Item<D, Img>>
  {
    if paths == [] then {}
    else
      var last := paths[|paths| - 1];
      MappedUnder(t, paths[..|paths| - 1]) + if last in t then set x | x in ItemsOf(t[last]) else {}
  }

  /** An item under a path is under every path sequence that holds that path. */
  lemma {:induction false} MappedUnderHas<K, D, Img>(t: Table<K, D, Img>, paths: seq<K>, i: nat, x: Item<D, Img>)
    requires i < |paths| && paths[i] in t && x in ItemsOf(t[paths[i]])
    ensures x in MappedUnder(t, paths)
  {
    if i < |paths| - 1 {
      MappedUnderHas(t, paths[..|paths| - 1], i, x);
    }
  }

  /** Each item under `paths` comes from the entry of one of them. */
  lemma {:induction false} MappedUnderFrom<K, D, Img>(t: Table<K, D, Img>, paths: seq<K>, x: Item<D, Img>) returns (i: nat)
    requires x in MappedUnder(t, paths)
    ensures i < |paths| && paths[i] in t && x in ItemsOf(t[paths[i]])
  {
    var last := paths[|paths| - 1];
    if last in t && x in ItemsOf(t[last]) {
      i := |paths| - 1;
    } else {
      i := MappedUnderFrom(t, paths[..|paths| - 1], x);
    }
  }

  class SeverityItemMapper<K(==), D(==), Img> {
    var pathToItem: Table<K, D, Img>

    constructor ()
      ensures pathToItem == map[]
    {
      pathToItem := map[];
    }

    /** Updates the icons of all live items mapped under the changed paths; the table
        itself and every item's disposed flag and data stay as they were. */
    method SeveritiesChanged(changed: seq<K>, getImage: Option<D> -> Option<Img>)
      modifies MappedUnder(pathToItem, changed)
      ensures pathToItem == old(pathToItem)
      ensures forall x :: x in old(MappedUnder(pathToItem, changed)) ==> old(allocated(x))
      ensures forall x :: x in old(MappedUnder(pathToItem, changed)) ==>
        x.disposed == old(x.disposed) && x.data == old(x.data) &&
        x.image == NewImage(old(x.disposed), old(x.data), old(x.image), getImage)
    {
      var table := pathToItem;
      ghost var all := old(MappedUnder(pathToItem, changed));
      ghost var touched: set<Item<D, Img>> := {};
      forall x | x in all ensures old(allocated(x)) {
        var i := MappedUnderFrom(table, changed, x);
      }
      var n := 0;
      while n < |changed|
        invariant 0 <= n <= |changed|
        invariant forall x :: x in all ==> old(allocated(x))
        invariant touched == MappedUnder(table, changed[..n])
        invariant forall x :: x in all ==> x.disposed == old(x.disposed) && x.data == old(x.data)
        invariant forall x :: x in all ==>
          x.image == if x in touched then NewImage(old(x.disposed), old(x.data), old(x.image), getImage)
                     else old(x.image)
      {
        var curr := changed[n];
        assert changed[..n + 1][..n] == changed[..n];
        if curr !in table {
          // not mapped
        } else {
          match table[curr] {
            case Single(x) =>
              MappedUnderHas(table, changed, n, x);
              RefreshIcon(x, getImage);
              touched := touched + {x};
            case Many(list) =>
              for i := 0 to |list|
                invariant forall x :: x in all ==> old(allocated(x))
                invariant touched == MappedUnder(table, changed[..n]) + set x | x in list[..i]
                invariant forall x :: x in all ==> x.disposed == old(x.disposed) && x.data == old(x.data)
                invariant forall x :: x in all ==>
                  x.image == if x in touched then NewImage(old(x.disposed), old(x.data), old(x.image), getImage)
                             else old(x.image)
              {
                MappedUnderHas(table, changed, n, list[i]);
                assert list[..i + 1] == list[..i] + [list[i]];
                RefreshIcon(list[i], getImage);
                touched := touched + {list[i]};
              }
              assert list[..|list|] == list;
          }
        }
        n := n + 1;
      }
      assert changed[..n] == changed;
    }

    /** Sets the item's image to the provider's image for its data, unless the item is
        disposed or the provider has no image for it. */
    method RefreshIcon(x: Item<D, Img>, getImage: Option<D> -> Option<Img>)
      modifies x`image
      ensures x.image == NewImage(x.disposed, x.data, old(x.image), getImage)
    {
      if !x.disposed {
        var data := x.data;
        var image := getImage(data);
        if image.Some? {
          x.image := image;
        }
      }
    }

    /** Maps `path` to `x` as well as to whatever it already mapped to. */
    method AddToMap(path: K, x: Item<D, Img>)
      modifies this
      ensures pathToItem == Added(old(pathToItem), path, x)
    {
      if path !in pathToItem {
        pathToItem := pathToItem[path := Single(x)];
      } else {
        match pathToItem[path] {
          case Single(existing) =>
            var list := [existing, x];
            pathToItem := pathToItem[path := Many(list)];
          case Many(list) =>
            pathToItem := pathToItem[path := Many(list + [x])];
        }
      }
    }

    /** Removes the item for `element` from the entry under `path`: a single item goes
        whatever `element` is; from a list, the first live item whose data is null or
        equals `element`. */
    method RemoveFromMap(path: K, element: Option<D>)
      modifies this
      ensures pathToItem == Removed(old(pathToItem), path, element)
    {
      if path !in pathToItem {
        return;
      }
      var existing := pathToItem[path];
      if existing.Single? {
        pathToItem := pathToItem - {path};
      } else {
        var list := existing.items;
        ghost var after := pathToItem[path := Many(WithoutFirstMatch(list, element))];
        assert Removed(pathToItem, path, element) == after;
        var i := 0;
        while i < |list|
          invariant 0 <= i <= |list|
          invariant pathToItem == old(pathToItem)
          invariant forall j :: 0 <= j < i ==> !Matches(list[j], element)
        {
          var x := list[i];
          if !x.disposed {
            var data := x.data;
            if data.None? || data == element {
              RemoveAtFirstMatch(list, element, i);
              pathToItem := pathToItem[path := Many(RemoveFirstOccurrence(list, x))];
              assert pathToItem == after;
              break;
            }
          }
          i := i + 1;
        }
        if i == |list| {
          assert WithoutFirstMatch(list, element) == list;
          assert pathToItem == after;
        }
      }
    }

    /** Forgets every mapping. */
    method ClearMap()
      modifies this
      ensures pathToItem == map[]
    {
      pathToItem := map[];
    }
  }

  /** Removing the first occurrence of the first matching item removes exactly that
      index: an earlier occurrence of the same item would have matched first. */
  lemma RemoveAtFirstMatch<D, Img>(s: seq<Item<D, Img>>, element: Option<D>, i: nat)
    requires i < |s| && Matches(s[i], element)
    requires forall j :: 0 <= j < i ==> !Matches(s[j], element)
    ensures FirstMatch(s, element) == i
    ensures RemoveFirstOccurrence(s, s[i]) == s[..i] + s[i + 1..] == WithoutFirstMatch(s, element)
  {
    assert s[i] !in s[..i];
    RemoveFirstOccurrenceAt(s, s[i], i);
  }

  /** `List.remove(Object)` drops index `i` when `i` holds the first occurrence. */
  lemma {:induction false} RemoveFirstOccurrenceAt<T>(s: seq<T>, x: T, i: nat)
    requires i < |s| && s[i] == x && x !in s[..i]
    ensures RemoveFirstOccurrence(s, x) == s[..i] + s[i + 1..]
  {
    if i > 0 {
      assert s[1..][..i - 1] == s[1..i];
      RemoveFirstOccurrenceAt(s[1..], x, i - 1);
      assert [s[0]] + s[1..i] == s[..i];
    }
  }

  /** `addToMap` appends: the entry under `path` holds the old items followed by `x`;
      it is a single item exactly when `path` was unmapped; no other key changes. */
  lemma AddAppends<K, D, Img>(t: Table<K, D, Img>, path: K, x: Item<D, Img>)
    ensures path in Added(t, path, x)
    ensures ItemsOf(Added(t, path, x)[path]) == (if path in t then ItemsOf(t[path]) else []) + [x]
    ensures Added(t, path, x)[path].Single? <==> path !in t
    ensures forall q :: q != path ==> (q in Added(t, path, x) <==> q in t)
    ensures forall q :: q != path && q in t ==> Added(t, path, x)[q] == t[q]
  {
  }

  /** `removeFromMap` on an unmapped path leaves the table as it is. */
  lemma RemoveUnmapped<K, D, Img>(t: Table<K, D, Img>, path: K, element: Option<D>)
    requires path !in t
    ensures Removed(t, path, element) == t
  {
  }

  /** `removeFromMap` on a single entry deletes the key without looking at `element`. */
  lemma RemoveSingle<K, D, Img>(t: Table<K, D, Img>, path: K, element: Option<D>, other: Option<D>)
    requires path in t && t[path].Single?
    ensures path !in Removed(t, path, element)
    ensures Removed(t, path, element).Keys == t.Keys - {path}
    ensures Removed(t, path, element) == Removed(t, path, other)
  {
  }

  /** `removeFromMap` touches no key but `path`. */
  lemma RemoveChangesOnlyPath<K, D, Img>(t: Table<K, D, Img>, path: K, element: Option<D>)
    ensures forall q :: q != path ==> (q in Removed(t, path, element) <==> q in t)
    ensures forall q :: q != path && q in t ==> Removed(t, path, element)[q] == t[q]
  {
  }

  /** From a list entry, `removeFromMap` removes the first live item whose data is null
      or equals `element`, keeps the rest in order, and leaves the list unchanged when
      no item qualifies. The key stays mapped to a list even when it becomes short. */
  lemma RemoveFromList<K, D, Img>(t: Table<K, D, Img>, path: K, element: Option<D>)
    requires path in t && t[path].Many?
    ensures path in Removed(t, path, element) && Removed(t, path, element)[path].Many?
    ensures (forall j :: 0 <= j < |t[path].items| ==> !Matches(t[path].items[j], element)) ==>
      Removed(t, path, element)[path] == t[path]
    ensures forall k ::
      (0 <= k < |t[path].items| && Matches(t[path].items[k], element) &&
       forall j :: 0 <= j < k ==> !Matches(t[path].items[j], element)) ==>
      Removed(t, path, element)[path].items == t[path].items[..k] + t[path].items[k + 1..]
  {
    var s := t[path].items;
    forall k | 0 <= k < |s| && Matches(s[k], element) && (forall j :: 0 <= j < k ==> !Matches(s[j], element))
      ensures Removed(t, path, element)[path].items == s[..k] + s[k + 1..]
    {
      RemoveAtFirstMatch(s, element, k);
    }
  }

  /** From a list entry, `removeFromMap` removes at most one item, and exactly one when
      some item qualifies; the remaining items are a sub-multiset of the old ones. */
  lemma RemoveAtMostOne<K, D, Img>(t: Table<K, D, Img>, path: K, element: Option<D>)
    requires path in t && t[path].Many?
    ensures var s, r := t[path].items, Removed(t, path, element)[path].items;
      multiset(r) <= multiset(s) &&
      (|r| == |s| - 1 <==> exists j :: 0 <= j < |s| && Matches(s[j], element)) &&
      (|r| == |s| <==> forall j :: 0 <= j < |s| ==> !Matches(s[j], element))
  {
    var s := t[path].items;
    var k := FirstMatch(s, element);
    if k < |s| {
      assert s == s[..k] + [s[k]] + s[k + 1..];
      assert multiset(s) == multiset(s[..k] + s[k + 1..]) + multiset{s[k]};
    }
  }

  /** Adding an item to an unmapped path and removing it again restores the table. */
  lemma AddThenRemoveUnmapped<K, D, Img>(t: Table<K, D, Img>, path: K, x: Item<D, Img>, element: Option<D>)
    requires path !in t
    ensures Removed(Added(t, path, x), path, element) == t
  {
  }

  /** Appending a qualifying item to a list in which nothing else qualifies, then
      removing by the same element, restores the table. */
  lemma AddThenRemoveList<K, D, Img>(t: Table<K, D, Img>, path: K, x: Item<D, Img>, element: Option<D>)
    requires path in t && t[path].Many?
    requires forall j :: 0 <= j < |t[path].items| ==> !Matches(t[path].items[j], element)
    requires Matches(x, element)
    ensures Removed(Added(t, path, x), path, element) == t
  {
    var s := t[path].items;
    var a := Added(t, path, x);
    assert a == t[path := Many(s + [x])];
    assert (s + [x])[|s|] == x;
    RemoveAtFirstMatch(s + [x], element, |s|);
    assert (s + [x])[..|s|] + (s + [x])[|s| + 1..] == s;
    assert Removed(a, path, element) == a[path := Many(s)];
    assert a[path := Many(s)] == t;
  }

  /** A single entry that receives a second item never turns back into a single entry,
      whatever is removed afterwards. */
  lemma NoCollapseAfterPromotion<K, D, Img>(t: Table<K, D, Img>, path: K, x: Item<D, Img>, element: Option<D>)
    requires path in t && t[path].Single?
    ensures path in Removed(Added(t, path, x), path, element)
    ensures Removed(Added(t, path, x), path, element)[path].Many?
    ensures 1 <= |Removed(Added(t, path, x), path, element)[path].items| <= 2
  {
    RemoveAtMostOne(Added(t, path, x), path, element);
  }

  /** Refreshing an icon twice leaves the same image as refreshing it once, so a path
      listed twice or an item mapped under two changed paths is harmless. */
  lemma RefreshIdempotent<D, Img>(disposed: bool, data: Option<D>, image: Option<Img>,
                                  getImage: Option<D> -> Option<Img>)
    ensures NewImage(disposed, data, NewImage(disposed, data, image, getImage), getImage)
         == NewImage(disposed, data, image, getImage)
  {
  }

  /** `refreshIcon` only ever replaces the image with a non-null provider image of a
      live item; otherwise the image stays. */
  lemma RefreshKeepsOrSets<D, Img>(disposed: bool, data: Option<D>, image: Option<Img>,
                                   getImage: Option<D> -> Option<Img>)
    ensures disposed || getImage(data).None? ==> NewImage(disposed, data, image, getImage) == image
    ensures !disposed && getImage(data).Some? ==> NewImage(disposed, data, image, getImage) == getImage(data)
  {
  }
}
