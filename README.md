# SeverityItemMapper, modelled in Dafny

The JDT UI keeps, for viewers that decorate elements with problem-severity icons, a
table from a resource's full path to the viewer item that shows it. Several items may
show the same resource, so the table's value is either one item or a list of items.
When problem markers change, `severitiesChanged` is handed the changed paths and
recomputes the icon of every live item mapped under them through the viewer's label
provider. `addToMap`, `removeFromMap` and `clearMap` maintain the table.

The model (`severity_item_mapper.dfy`, module `ViewSupport`) has:

- `Item`: a class for an SWT item with its `disposed` flag, attached `data` and
  current `image` (`None` stands for Java's `null`);
- `Entry`: `Single(item)` or `Many(items)`, replacing the untyped `Object` values
  that the Java code tells apart with `instanceof`;
- `SeverityItemMapper`: a class whose field `pathToItem` is the table, with the
  five operations as methods, each proved against a specification function on the
  table value (`Added`, `Removed`, `NewImage`, `MappedUnder`);
- lemmas stating what those functions promise.

The path type, the data type and the image type are type parameters. The resource is
replaced by its full path, which the caller passes. `ILabelProvider.getImage` is a
function value from (possibly null) data to an optional image. The element passed to
`removeFromMap` is an `Option`, and "data equals element" is value equality, with
a null element never equal to non-null data. `List.remove(Object)` is modelled as
removing the first occurrence by reference (`RemoveFirstOccurrence`), since SWT items
do not override `equals`. A lemma shows this removes exactly the index the loop found.

## Model

| member | source | states |
|---|---|---|
| ViewSupport.SeverityItemMapper.constructor | org.eclipse.jdt.ui/ui/org/eclipse/jdt/internal/ui/viewsupport/SeverityItemMapper.java:20-22 | a new mapper has an empty table |
| ViewSupport.SeverityItemMapper.SeveritiesChanged | org.eclipse.jdt.ui/ui/org/eclipse/jdt/internal/ui/viewsupport/SeverityItemMapper.java:28-44 | the table is unchanged; every item mapped under a changed path keeps its disposed flag and data and ends with the image one refresh gives it from its state on entry; unmapped paths are skipped; no other object is modified |
| ViewSupport.SeverityItemMapper.RefreshIcon | org.eclipse.jdt.ui/ui/org/eclipse/jdt/internal/ui/viewsupport/SeverityItemMapper.java:46-54 | only the item's image may change, and it becomes the provider's image for the item's data when the item is live and that image is non-null, else stays |
| ViewSupport.SeverityItemMapper.AddToMap | org.eclipse.jdt.ui/ui/org/eclipse/jdt/internal/ui/viewsupport/SeverityItemMapper.java:61-75 | the new table is `Added` of the old one |
| ViewSupport.SeverityItemMapper.RemoveFromMap | org.eclipse.jdt.ui/ui/org/eclipse/jdt/internal/ui/viewsupport/SeverityItemMapper.java:81-100 | the new table is `Removed` of the old one; the loop over the list stops at the first live item whose data is null or equals the element |
| ViewSupport.SeverityItemMapper.ClearMap | org.eclipse.jdt.ui/ui/org/eclipse/jdt/internal/ui/viewsupport/SeverityItemMapper.java:105-107 | the table has no keys |
| ViewSupport.FirstMatch | org.eclipse.jdt.ui/ui/org/eclipse/jdt/internal/ui/viewsupport/SeverityItemMapper.java:89-97 | the index found is the first item that is live and whose data is null or equals the element; every earlier item fails the test; it is the length of the list when no item passes |
| ViewSupport.RemoveFirstOccurrence | org.eclipse.jdt.ui/ui/org/eclipse/jdt/internal/ui/viewsupport/SeverityItemMapper.java:94 | `list.remove(item)`: when the item occurs, the list loses exactly one copy of it (length minus one, multiset minus the item); otherwise it is unchanged |
| ViewSupport.RemoveFirstOccurrenceAt | org.eclipse.jdt.ui/ui/org/eclipse/jdt/internal/ui/viewsupport/SeverityItemMapper.java:94 | when index i holds the first occurrence of the item, `list.remove(item)` removes exactly index i |
| ViewSupport.RemoveAtFirstMatch | org.eclipse.jdt.ui/ui/org/eclipse/jdt/internal/ui/viewsupport/SeverityItemMapper.java:89-96 | when index i is the first qualifying item, `FirstMatch` is i and `list.remove(list.get(i))` yields the list without index i, since an earlier copy of the same item would have qualified first |
| ViewSupport.AddAppends | org.eclipse.jdt.ui/ui/org/eclipse/jdt/internal/ui/viewsupport/SeverityItemMapper.java:61-75 | after adding, the path's items are its old items (none if unmapped) followed by the new item; the entry is single exactly when the path was unmapped; every other key and value is unchanged |
| ViewSupport.RemoveUnmapped | org.eclipse.jdt.ui/ui/org/eclipse/jdt/internal/ui/viewsupport/SeverityItemMapper.java:82-84 | removing under an unmapped path leaves the table as it was |
| ViewSupport.RemoveSingle | org.eclipse.jdt.ui/ui/org/eclipse/jdt/internal/ui/viewsupport/SeverityItemMapper.java:85-86 | removing under a path mapped to a single item deletes that key and only it, and the result does not depend on the element |
| ViewSupport.RemoveChangesOnlyPath | org.eclipse.jdt.ui/ui/org/eclipse/jdt/internal/ui/viewsupport/SeverityItemMapper.java:81-100 | removal changes no key other than the given path, neither its presence nor its value |
| ViewSupport.RemoveFromList | org.eclipse.jdt.ui/ui/org/eclipse/jdt/internal/ui/viewsupport/SeverityItemMapper.java:87-99 | on a list entry the key stays mapped to a list; the list is unchanged when no item qualifies; otherwise it is the old list without its first qualifying item, the rest in order |
| ViewSupport.RemoveAtMostOne | org.eclipse.jdt.ui/ui/org/eclipse/jdt/internal/ui/viewsupport/SeverityItemMapper.java:89-98 | on a list entry the new list is a sub-multiset of the old one, exactly one shorter when some item qualifies and of equal length when none does |
| ViewSupport.AddThenRemoveUnmapped | org.eclipse.jdt.ui/ui/org/eclipse/jdt/internal/ui/viewsupport/SeverityItemMapper.java:61-86 | adding an item under an unmapped path and then removing under it restores the table, whatever the element |
| ViewSupport.AddThenRemoveList | org.eclipse.jdt.ui/ui/org/eclipse/jdt/internal/ui/viewsupport/SeverityItemMapper.java:71-98 | appending a qualifying item to a list in which nothing qualifies, then removing by that element, restores the table |
| ViewSupport.NoCollapseAfterPromotion | org.eclipse.jdt.ui/ui/org/eclipse/jdt/internal/ui/viewsupport/SeverityItemMapper.java:66-98 | once a single entry has been promoted to a list, a removal leaves a list of one or two items, never a single entry again |
| ViewSupport.RefreshIdempotent | org.eclipse.jdt.ui/ui/org/eclipse/jdt/internal/ui/viewsupport/SeverityItemMapper.java:46-54 | refreshing an icon twice gives the same image as once, so a path listed twice or an item under two changed paths is refreshed consistently |
| ViewSupport.RefreshKeepsOrSets | org.eclipse.jdt.ui/ui/org/eclipse/jdt/internal/ui/viewsupport/SeverityItemMapper.java:46-54 | a disposed item, or one whose data has no provider image, keeps its image; a live item with a provider image gets that image |

## Left out

- The SWT rendering of items and images, and the requirement that `severitiesChanged` run on the UI thread: threading is not modelled.
- `IResource.getFullPath()` and `IPath` equality: the caller supplies the path, and paths are compared by value.
- The label provider's implementation: `getImage` is an arbitrary total function of the item's data.
- A `null` item passed to `addToMap`, and non-`IPath` or `null` elements in the changed collection: the model's items and paths are never null, so the Java behaviour for these (a `null` mapping read back as unmapped, a `ClassCastException` or `NullPointerException`) is not modelled.
- The identity of the `ArrayList` stored under a key: the list is a sequence value written back into the table. The list never leaves the mapper, so no caller can observe the difference.
- The iteration order of the changed collection: it is given as a sequence, and the postcondition of `SeveritiesChanged` does not depend on its order or on repeated paths.
- `HashMap` capacity, hashing and the `ArrayList(2)` initial capacity have no observable effect and are not modelled.
