# ShellGenericContainer, modelled in Dafny

`ShellGenericContainer` is a desktop-shell widget. Scripts supply its layout
through signals, because the scripting binding cannot override the toolkit's
virtual functions. The container keeps three pieces of state of its own:

- the ordered list of its children;
- a skip-paint set of actors that paint and pick leave out;
- for each size request, a reference-counted measurement record
  (`ShellGenericContainerAllocation`) that the signal handlers fill in.

The model is one module, `GenericContainer`, in `generic_container.dfy`:

- `ShellGenericContainer` is a class with fields `children: seq<Actor>` and
  `skipPaint: set<Actor>`. `Actor` is an empty class, because the container
  only compares actors by identity.
- `Allocation` is a class with `minSize`, `naturalSize`, `refcount` and a
  `live` flag that turns false when the record is freed.
- Paint, pick and allocate return the trace of what they do: the parent
  class's call first, then one `PaintChild` event per painted child, or the
  `allocate` emission.
- A size request is modelled as follows. Signal emission becomes the
  `handlers` parameter: a function from the adjusted extent to the
  handlers' steps on the record, in emission order. A step writes the
  minimum size, writes the natural size, takes a reference or drops one.
  The theme node's border and padding adjustment, and the content box, are
  function parameters too. Sizes are only copied, never computed, so
  `gfloat` is modelled as `real`. A caller's out-pointer is a nullable
  `FloatSlot`.

Behaviour of the code that the model keeps, and that a reader might not
expect:

- `set_skip_paint` accepts any actor, not only children.
- Removing a child does not take it out of the skip-paint set.
- So `get_n_skip_paint` counts every actor ever skipped and not yet
  unskipped. After `remove_all` the count is unchanged, although nothing is
  left to skip. `SkipCountVersusPaint` states the exact relation.
- `pick` paints the visible children (it calls the paint function on them,
  not pick), so its child events are exactly those of `paint`.
- When both out-pointers of a size request point to the same location, the
  natural size is written last and wins.

## Model

| member | source | states |
|---|---|---|
| `GenericContainer.ShellGenericContainer.constructor` | src/shell-generic-container.c:343-349 | a new container has no children and an empty skip-paint set |
| `GenericContainer.ShellGenericContainer.AddActor` | src/shell-generic-container.c:275-282 | the new child is appended, so list order is insertion order; the list stays free of duplicates |
| `GenericContainer.ShellGenericContainer.RemoveActor` | src/shell-generic-container.c:284-291 | the new list is `Without` of the old one (the child spliced out, the others in their order, by `WithoutIsSplice`; a non-child leaves it as it was), and the skip-paint set is not touched |
| `GenericContainer.Without` | src/shell-generic-container.c:284-291 | removing a child shortens the list by one and takes exactly that one actor out of its multiset; removing a non-member changes nothing |
| `GenericContainer.WithoutIsSplice` | src/shell-generic-container.c:284-291 | removing a child splices it out at its first occurrence: the children before and after it stay, in their order, so list order is insertion order minus removed children |
| `GenericContainer.WithoutKeepsNoDuplicates` | src/shell-generic-container.c:284-291 | removal keeps the list free of duplicates |
| `GenericContainer.ShellGenericContainer.GetNSkipPaint` | src/shell-generic-container.c:166-170 | the count is the size of the skip-paint set |
| `GenericContainer.ShellGenericContainer.SetSkipPaint` | src/shell-generic-container.c:181-196 | the new skip set is `SkipAfter` of the old one; the child list is outside the frame and does not change |
| `GenericContainer.SkipAfter` | src/shell-generic-container.c:188-195 | afterwards the child is in the set exactly when asked to be skipped, and no other actor's membership changes |
| `GenericContainer.SkipAfterIdempotent` | src/shell-generic-container.c:188-190 | asking for the state the child is already in leaves the set as it was |
| `GenericContainer.SkipAfterCount` | src/shell-generic-container.c:166-170 | a real toggle changes the count by exactly +1 or -1; a no-op toggle leaves it |
| `GenericContainer.SkipThenPaint` | src/shell-generic-container.c:192-195 | skipping an unskipped child and then unskipping it restores the set and its count |
| `GenericContainer.Visible` | src/shell-generic-container.c:129-137 | the visited actors are children not in the skip set, every child not in the skip set is visited, and no more are visited than there are children |
| `GenericContainer.VisibleAppend` | src/shell-generic-container.c:129-137 | walking a list piece by piece visits the pieces' visible children in order |
| `GenericContainer.VisibleCount` | src/shell-generic-container.c:133-136 | a skipped actor is visited zero times; any other as often as it occurs in the list |
| `GenericContainer.PaintedOnce` | src/shell-generic-container.c:129-137 | in a list without duplicates, each unskipped child is painted exactly once and every other actor never |
| `GenericContainer.VisibleKeepsOrder` | src/shell-generic-container.c:129-137 | two unskipped children are painted in their list order |
| `GenericContainer.NothingSkipped` | src/shell-generic-container.c:129-137 | with an empty skip set every child is painted, in list order |
| `GenericContainer.PaintedPlusSkipped` | src/shell-generic-container.c:129-137 | the children painted plus the skipped children make up all children |
| `GenericContainer.SkipCountVersusPaint` | src/shell-generic-container.c:166-170 | painted plus the skip count equals the number of children when only children are skipped, and is never less |
| `GenericContainer.PaintEventsAt` | src/shell-generic-container.c:136 | the k-th child event paints the k-th visible child |
| `GenericContainer.ShellGenericContainer.Paint` | src/shell-generic-container.c:121-138 | the parent paints first, then exactly the visible children, in list order |
| `GenericContainer.ShellGenericContainer.Pick` | src/shell-generic-container.c:140-158 | the parent picks first, then the same child sequence as paint |
| `GenericContainer.ShellGenericContainer.RemoveAll` | src/shell-generic-container.c:204-219 | one removal per child present at entry, in list order, through the ordinary remove; the list is empty afterwards |
| `GenericContainer.ShellGenericContainer.Allocate` | src/shell-generic-container.c:62-77 | the parent allocates the given box first, then "allocate" is emitted with the content box and the same flags |
| `GenericContainer.Allocation.constructor` | src/shell-generic-container.c:85 | a zero-filled record: both sizes 0 and refcount 0, not yet freed |
| `GenericContainer.Allocation.Ref` | src/shell-generic-container.c:48-53 | refcount goes up by one and the record itself is returned |
| `GenericContainer.Allocation.Unref` | src/shell-generic-container.c:55-60 | refcount goes down by one and the record is freed exactly when it reaches zero |
| `GenericContainer.Allocation.Emit` | src/shell-generic-container.c:91-92 | after emission each size field holds the last value a handler wrote, and the refcount moved by the handlers' references taken minus dropped |
| `GenericContainer.Measure` | src/shell-generic-container.c:85-97 | a fresh record with refcount 1; after emission its fields are copied to the out-locations that are given; the final unref frees it exactly when the handlers' references balance |
| `GenericContainer.ShellGenericContainer.GetPreferredWidth` | src/shell-generic-container.c:79-98 | handlers see the adjusted height; the reported minimum and natural widths are the last ones written (0 if none); the record is freed iff the handlers' references balance |
| `GenericContainer.ShellGenericContainer.GetPreferredHeight` | src/shell-generic-container.c:100-119 | the same for heights, with the width adjusted |
| `GenericContainer.LastMinIsLastWrite` | src/shell-generic-container.c:93-94 | the reported minimum is the value of the last handler write to it |
| `GenericContainer.LastMinUnwritten` | src/shell-generic-container.c:85-94 | with no handler writing a minimum, the zero from the allocation is reported |
| `GenericContainer.LastNaturalIsLastWrite` | src/shell-generic-container.c:95-96 | the reported natural size is the value of the last handler write to it |
| `GenericContainer.LastNaturalUnwritten` | src/shell-generic-container.c:85-96 | with no handler writing a natural size, the zero from the allocation is reported |
| `GenericContainer.NetRefsAppend` | src/shell-generic-container.c:48-60 | reference counts of successive handlers add up, so handlers that each drop what they take leave the record to be freed by the container |
| `GenericContainer.OneHandlerReports` | src/shell-generic-container.c:91-97 | one handler that writes min then natural makes the request report exactly those two values, and it takes no references |

## Left out

- The theme node's box arithmetic (`st_theme_node_adjust_for_height`,
  `st_theme_node_adjust_for_width`, `st_theme_node_get_content_box`) is a
  call into the style library on floating-point values. It enters the model
  as a function parameter.
- Signal registration and the signal machinery (`g_signal_new`,
  `g_signal_emit`, the boxed-type registration at lines 245-270 and
  351-362) are library plumbing. An emission is modelled only through the
  handlers' steps on the record, or as a trace event for "allocate".
- The model assumes that handlers act only on the record. A handler that
  re-enters the container (adds children, toggles skip-paint) during a size
  request is not modelled.
- Handlers must never drop the container's own reference to the record.
  Freeing it during emission would make the later reads a use after free,
  which the model does not give a meaning to. This is the `KeepsAlive`
  precondition.
- GenericContainer.ShellGenericContainer.RemoveAll: each removal takes out
  only its own child. The C code walks the live list with a cursor that it
  advances before each removal; list changes that a removal's side effects
  make (another child removed or appended by a handler of the removal) are
  not modelled, nor what the cursor would then read.
- The parent class's `allocate`, `paint` and `pick`, and painting a child,
  are calls into the toolkit. They appear only as trace events.
- The `_st_container_*` helpers behind add, remove, foreach, raise, lower and
  sort-by-depth are not part of this model. The model assumes that add
  appends and that remove takes the first occurrence out. It also assumes a
  child is never added twice, because an actor has one parent. Foreach,
  raise, lower and sort-by-depth are left out, since their algorithms are
  not shown.
- Slice allocation and `finalize` release memory only. Freeing is modelled
  as the record's `live` flag.
- GenericContainer.Allocation.Ref: the reference count is unbounded. The
  field's declared width is in a header that is not part of this model, and
  wrap-around would need billions of live references.
- js/ui/sessionMode.js is a static configuration table. Its constructor
  depends on helpers that are not part of this model, so it is left out.
