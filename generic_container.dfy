/** A model of ShellGenericContainer: a toolkit container that forwards its
    size requests and allocation to signal handlers, keeps its own ordered
    list of children, and keeps a set of children that paint and pick skip.

    Sizes are copied, never computed, so the toolkit's gfloat values are
    modelled as `real`. The theme node's border and padding arithmetic, the
    parent class's behaviour and the signal handlers themselves are outside
    the container; they enter the model as parameters and as trace events. */
module GenericContainer {

  /** A toolkit actor. The container only compares actors by identity. */
  class Actor { }

  newtype Byte = x: int | 0 <= x < 256

  /** The colour handed to pick. */
  datatype Color = Color(red: Byte, green: Byte, blue: Byte, alpha: Byte)

  /** A box in the parent's coordinates: top-left and bottom-right corners. */
  datatype ActorBox = ActorBox(x1: real, y1: real, x2: real, y2: real)

  /** The toolkit's allocation flags, passed through untouched. */
  type AllocationFlags = nat

  /** What the container does, in order, during paint, pick and allocate. */
  datatype Event =
    | ParentPaint
    | ParentPick(color: Color)
    | ParentAllocate(box: ActorBox, flags: AllocationFlags)
    | EmitAllocate(contentBox: ActorBox, flags: AllocationFlags)
    | PaintChild(child: Actor)

  // ---------------------------------------------------------------------
  // Children and the skip-paint set
  // ---------------------------------------------------------------------

  ghost predicate NoDuplicates(s: seq<Actor>)
  {
    forall i, j :: 0 <= i < j < |s| ==> s[i] != s[j]
  }

  /** The children that paint and pick visit: those not in `skip`, in list order. */
  function Visible(children: seq<Actor>, skip: set<Actor>): (r: seq<Actor>)
    ensures |r| <= |children|
    ensures forall k :: 0 <= k < |r| ==> r[k] in children && r[k] !in skip
    ensures forall k :: 0 <= k < |children| && children[k] !in skip ==> children[k] in r
  {
    if children == [] then []
    else (if children[0] in skip then [] else [children[0]]) + Visible(children[1..], skip)
  }

  /** One paint event per actor, in the same order. */
  function PaintEvents(painted: seq<Actor>): (r: seq<Event>)
    ensures |r| == |painted|
  {
    if painted == [] then []
    else PaintEvents(painted[..|painted| - 1]) + [PaintChild(painted[|painted| - 1])]
  }

  /** The skip-paint set after `child` has been asked to be skipped (`skip`) or painted. */
  function SkipAfter(skipPaint: set<Actor>, child: Actor, skip: bool): (r: set<Actor>)
    ensures child in r <==> skip
    ensures r - {child} == skipPaint - {child}
  {
    if skip then skipPaint + {child} else skipPaint - {child}
  }

  /** The actors in a list. */
  function ElementsOf(s: seq<Actor>): (r: set<Actor>)
    ensures forall k :: 0 <= k < |s| ==> s[k] in r
  {
    set k | 0 <= k < |s| :: s[k]
  }

  /** `s` with the first occurrence of `x` taken out. */
  function Without(s: seq<Actor>, x: Actor): (r: seq<Actor>)
    ensures x in s ==> |r| == |s| - 1
    ensures x !in s ==> r == s
    ensures multiset(r) == multiset(s) - multiset{x}
  {
    if s == [] then []
    else if s[0] == x then assert s == [s[0]] + s[1..]; s[1..]
    else assert s == [s[0]] + s[1..]; [s[0]] + Without(s[1..], x)
  }

  // ---------------------------------------------------------------------
  // Signal handlers for the size requests, and the measurement record
  // ---------------------------------------------------------------------

  /** What a handler of get-preferred-width or get-preferred-height does to
      the shared record, in emission order. */
  datatype HandlerStep =
    | SetMinSize(size: real)
    | SetNaturalSize(size: real)
    | TakeRef
    | DropRef

  /** The minimum size left in the record by `steps`, starting from `init`. */
  function LastMin(steps: seq<HandlerStep>, init: real): real
  {
    if steps == [] then init
    else match steps[|steps| - 1]
      case SetMinSize(v) => v
      case _ => LastMin(steps[..|steps| - 1], init)
  }

  /** The natural size left in the record by `steps`, starting from `init`. */
  function LastNatural(steps: seq<HandlerStep>, init: real): real
  {
    if steps == [] then init
    else match steps[|steps| - 1]
      case SetNaturalSize(v) => v
      case _ => LastNatural(steps[..|steps| - 1], init)
  }

  /** References taken minus references dropped by `steps`. */
  function NetRefs(steps: seq<HandlerStep>): int
  {
    if steps == [] then 0
    else NetRefs(steps[..|steps| - 1]) + RefDelta(steps[|steps| - 1])
  }

  function RefDelta(step: HandlerStep): int
  {
    match step
    case TakeRef => 1
    case DropRef => -1
    case _ => 0
  }

  /** Handlers only drop references they took: starting from `count`
      references, no DropRef ever releases the last one. */
  ghost predicate KeepsAlive(steps: seq<HandlerStep>, count: int)
  {
    forall i :: 0 <= i < |steps| && steps[i].DropRef? ==> count + NetRefs(steps[..i]) >= 2
  }

  /** ShellGenericContainerAllocation: a reference-counted record shared with
      the handlers of one size request. `live` is false once it is freed. */
  class Allocation {
    var minSize: real
    var naturalSize: real
    var refcount: nat
    var live: bool

    /** A zero-filled slice. */
    constructor ()
      ensures minSize == 0.0 && naturalSize == 0.0 && refcount == 0 && live
    {
      minSize, naturalSize, refcount, live := 0.0, 0.0, 0, true;
    }

    method Ref() returns (r: Allocation)
      requires live
      modifies this`refcount
      ensures r == this && refcount == old(refcount) + 1
    {
      refcount := refcount + 1;
      r := this;
    }

    method Unref()
      requires live && refcount >= 1
      modifies this`refcount, this`live
      ensures refcount == old(refcount) - 1
      ensures live <==> refcount != 0
    {
      refcount := refcount - 1;
      if refcount == 0 {
        live := false;
      }
    }

    /** The handlers of one emission act on the record, one step at a time. */
    method Emit(steps: seq<HandlerStep>)
      requires live && refcount >= 1 && KeepsAlive(steps, refcount)
      modifies this
      ensures live && refcount >= 1
      ensures minSize == LastMin(steps, old(minSize))
      ensures naturalSize == LastNatural(steps, old(naturalSize))
      ensures refcount == old(refcount) + NetRefs(steps)
    {
      var i := 0;
      while i < |steps|
        invariant 0 <= i <= |steps|
        invariant live && refcount >= 1
        invariant minSize == LastMin(steps[..i], old(minSize))
        invariant naturalSize == LastNatural(steps[..i], old(naturalSize))
        invariant refcount == old(refcount) + NetRefs(steps[..i])
      {
        assert steps[..i + 1][..i] == steps[..i];
        match steps[i] {
          case SetMinSize(v) => minSize := v;
          case SetNaturalSize(v) => naturalSize := v;
          case TakeRef => var _ := Ref();
          case DropRef => Unref();
        }
        i := i + 1;
      }
      assert steps[..i] == steps;
    }
  }

  /** A caller's gfloat out-location. */
  class FloatSlot {
    var value: real
  }

  /** The shared body of the two size requests: a fresh record with one
      reference, the emission, the copy to whichever out-locations are given,
      and the container's own unref. */
  method Measure(extent: real, handlers: real -> seq<HandlerStep>,
                 minP: FloatSlot?, naturalP: FloatSlot?) returns (ghost record: Allocation)
    requires KeepsAlive(handlers(extent), 1)
    modifies minP, naturalP
    ensures fresh(record)
    ensures naturalP != null ==> naturalP.value == LastNatural(handlers(extent), 0.0)
    ensures minP != null && minP != naturalP ==> minP.value == LastMin(handlers(extent), 0.0)
    ensures record.minSize == LastMin(handlers(extent), 0.0)
    ensures record.naturalSize == LastNatural(handlers(extent), 0.0)
    ensures record.refcount == NetRefs(handlers(extent))
    ensures record.live <==> NetRefs(handlers(extent)) != 0
  {
    var alloc := new Allocation();
    alloc.refcount := 1;
    alloc.Emit(handlers(extent));
    if minP != null {
      minP.value := alloc.minSize;
    }
    if naturalP != null {
      naturalP.value := alloc.naturalSize;
    }
    alloc.Unref();
    record := alloc;
  }

  // ---------------------------------------------------------------------
  // The container
  // ---------------------------------------------------------------------

  class ShellGenericContainer {
    var children: seq<Actor>
    var skipPaint: set<Actor>

    /** An actor has at most one parent, so it is at most once in the list. */
    ghost predicate Valid()
      reads this
    {
      NoDuplicates(children)
    }

    constructor ()
      ensures Valid() && children == [] && skipPaint == {}
    {
      children, skipPaint := [], {};
    }

    /** Container add: the new child goes to the end of the list. */
    method AddActor(actor: Actor)
      requires Valid() && actor !in children
      modifies this`children
      ensures Valid() && children == old(children) + [actor]
    {
      children := children + [actor];
    }

    /** Container remove: the child leaves the list, the others keep their order
        (`WithoutIsSplice`); an actor that is not a child leaves the list as it
        was. The skip-paint set is not touched. */
    method RemoveActor(actor: Actor)
      requires Valid()
      modifies this`children
      ensures Valid() && children == Without(old(children), actor)
    {
      WithoutKeepsNoDuplicates(children, actor);
      children := Without(children, actor);
    }

    method GetNSkipPaint() returns (n: nat)
      ensures n == |skipPaint|
    {
      n := |skipPaint|;
    }

    method SetSkipPaint(child: Actor, skip: bool)
      modifies this`skipPaint
      ensures skipPaint == SkipAfter(old(skipPaint), child, skip)
    {
      var currentlySkipping := child in skipPaint;
      if skip == currentlySkipping {
        return;
      }
      if !skip {
        skipPaint := skipPaint - {child};
      } else {
        skipPaint := skipPaint + {child};
      }
    }

    /** Paint: the parent class paints first, then every child that is not
        skipped, in list order. */
    method Paint() returns (trace: seq<Event>)
      ensures trace == [ParentPaint] + PaintEvents(Visible(children, skipPaint))
    {
      trace := [ParentPaint];
      ghost var painted: seq<Actor> := [];
      for i := 0 to |children|
        invariant painted == Visible(children[..i], skipPaint)
        invariant trace == [ParentPaint] + PaintEvents(painted)
      {
        var child := children[i];
        VisiblePrefix(children, i, skipPaint);
        if child !in skipPaint {
          PaintEventsSnoc(painted, child);
          painted := painted + [child];
          trace := trace + [PaintChild(child)];
        }
      }
      assert children[..|children|] == children;
    }

    /** Pick: the parent class picks first, then the same children as paint
        are painted, in the same order. */
    method Pick(color: Color) returns (trace: seq<Event>)
      ensures trace == [ParentPick(color)] + PaintEvents(Visible(children, skipPaint))
    {
      trace := [ParentPick(color)];
      ghost var painted: seq<Actor> := [];
      for i := 0 to |children|
        invariant painted == Visible(children[..i], skipPaint)
        invariant trace == [ParentPick(color)] + PaintEvents(painted)
      {
        var child := children[i];
        VisiblePrefix(children, i, skipPaint);
        if child !in skipPaint {
          PaintEventsSnoc(painted, child);
          painted := painted + [child];
          trace := trace + [PaintChild(child)];
        }
      }
      assert children[..|children|] == children;
    }

    /** Remove every child through the ordinary remove, one at a time, with a
        cursor over the live list that is advanced before each removal. Each
        removal takes out only its own child, so the cursor's remaining nodes
        are exactly the live list. */
    method RemoveAll() returns (removed: seq<Actor>)
      requires Valid()
      modifies this`children
      ensures Valid() && children == []
      ensures removed == old(children)
    {
      var rest := children;  // the cursor: the nodes from it to the end of the list
      removed := [];
      while rest != []
        invariant Valid()
        invariant children == rest
        invariant removed + rest == old(children)
        decreases |rest|
      {
        var child := rest[0];
        rest := rest[1..];
        RemoveActor(child);
        removed := removed + [child];
      }
    }

    /** Allocate: the parent class allocates the whole box, then the handlers
        of "allocate" receive the content box and the flags. */
    method Allocate(box: ActorBox, flags: AllocationFlags,
                    contentBoxOf: ActorBox -> ActorBox) returns (trace: seq<Event>)
      ensures |trace| == 2
      ensures trace[0] == ParentAllocate(box, flags)
      ensures trace[1] == EmitAllocate(contentBoxOf(box), flags)
    {
      trace := [ParentAllocate(box, flags)];
      var contentBox := contentBoxOf(box);
      trace := trace + [EmitAllocate(contentBox, flags)];
    }

    /** get_preferred_width: the height offered is first adjusted for the
        theme's border and padding, and the handlers see the adjusted value. */
    method GetPreferredWidth(forHeight: real, adjustForHeight: real -> real,
                             handlers: real -> seq<HandlerStep>,
                             minWidthP: FloatSlot?, naturalWidthP: FloatSlot?)
      returns (ghost record: Allocation)
      requires KeepsAlive(handlers(adjustForHeight(forHeight)), 1)
      modifies minWidthP, naturalWidthP
      ensures fresh(record)
      ensures naturalWidthP != null ==>
        naturalWidthP.value == LastNatural(handlers(adjustForHeight(forHeight)), 0.0)
      ensures minWidthP != null && minWidthP != naturalWidthP ==>
        minWidthP.value == LastMin(handlers(adjustForHeight(forHeight)), 0.0)
      ensures record.live <==> NetRefs(handlers(adjustForHeight(forHeight))) != 0
    {
      var height := adjustForHeight(forHeight);
      record := Measure(height, handlers, minWidthP, naturalWidthP);
    }

    /** get_preferred_height: the same protocol with the axes swapped. */
    method GetPreferredHeight(forWidth: real, adjustForWidth: real -> real,
                              handlers: real -> seq<HandlerStep>,
                              minHeightP: FloatSlot?, naturalHeightP: FloatSlot?)
      returns (ghost record: Allocation)
      requires KeepsAlive(handlers(adjustForWidth(forWidth)), 1)
      modifies minHeightP, naturalHeightP
      ensures fresh(record)
      ensures naturalHeightP != null ==>
        naturalHeightP.value == LastNatural(handlers(adjustForWidth(forWidth)), 0.0)
      ensures minHeightP != null && minHeightP != naturalHeightP ==>
        minHeightP.value == LastMin(handlers(adjustForWidth(forWidth)), 0.0)
      ensures record.live <==> NetRefs(handlers(adjustForWidth(forWidth))) != 0
    {
      var width := adjustForWidth(forWidth);
      record := Measure(width, handlers, minHeightP, naturalHeightP);
    }
  }

  // ---------------------------------------------------------------------
  // Lemmas: traversal
  // ---------------------------------------------------------------------

  /** One more child of the list: visited after the earlier ones, unless skipped. */
  lemma VisiblePrefix(children: seq<Actor>, i: nat, skip: set<Actor>)
    requires i < |children|
    ensures Visible(children[..i + 1], skip) ==
      Visible(children[..i], skip) + if children[i] in skip then [] else [children[i]]
  {
    assert children[..i + 1] == children[..i] + [children[i]];
    VisibleAppend(children[..i], [children[i]], skip);
    assert [children[i]][1..] == [];
  }

  lemma PaintEventsSnoc(painted: seq<Actor>, child: Actor)
    ensures PaintEvents(painted + [child]) == PaintEvents(painted) + [PaintChild(child)]
  {
  }

  /** The k-th paint event paints the k-th visited actor. */
  lemma {:induction false} PaintEventsAt(painted: seq<Actor>, k: nat)
    requires k < |painted|
    ensures PaintEvents(painted)[k] == PaintChild(painted[k])
  {
    var n := |painted| - 1;
    if k < n {
      PaintEventsAt(painted[..n], k);
    }
  }

  /** Visiting a list piece by piece visits the pieces in order. */
  lemma {:induction false} VisibleAppend(a: seq<Actor>, b: seq<Actor>, skip: set<Actor>)
    ensures Visible(a + b, skip) == Visible(a, skip) + Visible(b, skip)
  {
    if a == [] {
      assert a + b == b;
    } else {
      assert (a + b)[0] == a[0];
      assert (a + b)[1..] == a[1..] + b;
      VisibleAppend(a[1..], b, skip);
    }
  }

  /** A skipped actor is visited zero times; any other actor as often as it
      is in the list. */
  lemma {:induction false} VisibleCount(children: seq<Actor>, skip: set<Actor>, x: Actor)
    ensures multiset(Visible(children, skip))[x] == if x in skip then 0 else multiset(children)[x]
  {
    if children != [] {
      VisibleCount(children[1..], skip, x);
      assert children == [children[0]] + children[1..];
    }
  }

  lemma {:induction false} NoDuplicatesCount(s: seq<Actor>, x: Actor)
    requires NoDuplicates(s)
    ensures multiset(s)[x] == if x in s then 1 else 0
  {
    if s != [] {
      assert s == [s[0]] + s[1..];
      assert NoDuplicates(s[1..]) by {
        forall i, j | 0 <= i < j < |s[1..]| ensures s[1..][i] != s[1..][j] {
          assert s[1..][i] == s[i + 1] && s[1..][j] == s[j + 1];
        }
      }
      NoDuplicatesCount(s[1..], x);
      if s[0] == x {
        assert x !in s[1..] by {
          forall k | 0 <= k < |s[1..]| ensures s[1..][k] != x {
            assert s[1..][k] == s[k + 1];
          }
        }
      }
    }
  }

  lemma NoDuplicatesTail(s: seq<Actor>)
    requires NoDuplicates(s) && s != []
    ensures NoDuplicates(s[1..]) && s[0] !in s[1..]
  {
  }

  lemma NoDuplicatesCons(a: Actor, w: seq<Actor>)
    requires NoDuplicates(w) && a !in w
    ensures NoDuplicates([a] + w)
  {
  }

  /** Removing a child splices it out at its first occurrence: the children
      before it and after it stay, in their order. */
  lemma {:induction false} WithoutIsSplice(s: seq<Actor>, x: Actor, i: nat)
    requires i < |s| && s[i] == x && x !in s[..i]
    ensures Without(s, x) == s[..i] + s[i + 1..]
  {
    if i > 0 {
      assert s[0] != x by { assert s[..i][0] == s[0]; }
      assert s[1..][..i - 1] == s[..i][1..];
      WithoutIsSplice(s[1..], x, i - 1);
      assert s[..i] == [s[0]] + s[1..][..i - 1];
      assert s[i + 1..] == s[1..][i..];
    }
  }

  /** Removing a child keeps the list free of duplicates. */
  lemma {:induction false} WithoutKeepsNoDuplicates(s: seq<Actor>, x: Actor)
    requires NoDuplicates(s)
    ensures NoDuplicates(Without(s, x))
  {
    if s != [] {
      NoDuplicatesTail(s);
      if s[0] != x {
        WithoutKeepsNoDuplicates(s[1..], x);
        var w := Without(s[1..], x);
        assert multiset(s[1..])[s[0]] == 0;
        assert multiset(w)[s[0]] == 0;
        NoDuplicatesCons(s[0], w);
      }
    }
  }

  /** In a container's list, paint visits each child that is not skipped
      exactly once and each skipped actor never. */
  lemma PaintedOnce(children: seq<Actor>, skip: set<Actor>, x: Actor)
    requires NoDuplicates(children)
    ensures multiset(Visible(children, skip))[x] == if x in children && x !in skip then 1 else 0
  {
    VisibleCount(children, skip, x);
    NoDuplicatesCount(children, x);
  }

  /** Two visible children are visited in their list order. */
  lemma {:induction false} VisibleKeepsOrder(children: seq<Actor>, skip: set<Actor>, i: nat, j: nat)
    requires i < j < |children|
    requires children[i] !in skip && children[j] !in skip
    ensures exists p, q :: (0 <= p < q < |Visible(children, skip)| &&
      Visible(children, skip)[p] == children[i] && Visible(children, skip)[q] == children[j])
  {
    var rest := Visible(children[1..], skip);
    assert children[j] == children[1..][j - 1];
    var v := Visible(children, skip);
    if i == 0 {
      assert children[1..][j - 1] !in skip;
      assert children[j] in rest;
      var q' :| 0 <= q' < |rest| && rest[q'] == children[j];
      assert v == [children[0]] + rest;
      assert 0 < q' + 1 < |v| && v[0] == children[i] && v[q' + 1] == children[j];
    } else {
      assert children[i] == children[1..][i - 1];
      VisibleKeepsOrder(children[1..], skip, i - 1, j - 1);
      var p', q' :| 0 <= p' < q' < |rest| && rest[p'] == children[i] && rest[q'] == children[j];
      var d := if children[0] in skip then 0 else 1;
      assert v == (if children[0] in skip then [] else [children[0]]) + rest;
      assert 0 <= p' + d < q' + d < |v| && v[p' + d] == children[i] && v[q' + d] == children[j];
    }
  }

  lemma ElementsOfCons(s: seq<Actor>)
    requires s != []
    ensures ElementsOf(s) == {s[0]} + ElementsOf(s[1..])
  {
  }

  /** Every child is either painted or skipped: the number painted plus the
      number of skipped children is the number of children. */
  lemma {:induction false} PaintedPlusSkipped(children: seq<Actor>, skip: set<Actor>)
    requires NoDuplicates(children)
    ensures |Visible(children, skip)| + |skip * ElementsOf(children)| == |children|
  {
    if children == [] {
      assert ElementsOf(children) == {};
    } else {
      var a, t := children[0], children[1..];
      NoDuplicatesTail(children);
      PaintedPlusSkipped(t, skip);
      ElementsOfCons(children);
      var rest := skip * ElementsOf(t);
      assert a !in rest;
      assert |Visible(children, skip)| == |Visible(t, skip)| + if a in skip then 0 else 1;
      if a in skip {
        assert skip * ElementsOf(children) == rest + {a};
      } else {
        assert skip * ElementsOf(children) == rest;
      }
    }
  }

  /** The skip-paint count plus the number painted is the number of children
      as long as only children are skipped; an actor that is skipped but not
      (or no longer) a child makes the count larger. */
  lemma SkipCountVersusPaint(children: seq<Actor>, skip: set<Actor>)
    requires NoDuplicates(children)
    ensures skip <= ElementsOf(children) ==> |Visible(children, skip)| + |skip| == |children|
    ensures |Visible(children, skip)| + |skip| >= |children|
  {
    PaintedPlusSkipped(children, skip);
    var inside, outside := skip * ElementsOf(children), skip - ElementsOf(children);
    assert skip == inside + outside && inside * outside == {};
    assert |skip| == |inside| + |outside|;
    if skip <= ElementsOf(children) {
      assert skip * ElementsOf(children) == skip;
    }
  }

  /** With nothing skipped, every child is visited, in list order. */
  lemma {:induction false} NothingSkipped(children: seq<Actor>)
    ensures Visible(children, {}) == children
  {
    if children != [] {
      NothingSkipped(children[1..]);
      assert children == [children[0]] + children[1..];
    }
  }

  // ---------------------------------------------------------------------
  // Lemmas: the skip-paint set
  // ---------------------------------------------------------------------

  /** Asking for the state a child is already in changes nothing. */
  lemma SkipAfterIdempotent(skipPaint: set<Actor>, child: Actor, skip: bool)
    requires (child in skipPaint) == skip
    ensures SkipAfter(skipPaint, child, skip) == skipPaint
  {
  }

  /** A real toggle changes the count by exactly one; no toggle leaves it. */
  lemma SkipAfterCount(skipPaint: set<Actor>, child: Actor, skip: bool)
    ensures |SkipAfter(skipPaint, child, skip)| ==
      if (child in skipPaint) == skip then |skipPaint|
      else if skip then |skipPaint| + 1
      else |skipPaint| - 1
  {
  }

  /** Skipping a painted child and then painting it again restores the set. */
  lemma SkipThenPaint(skipPaint: set<Actor>, child: Actor)
    requires child !in skipPaint
    ensures SkipAfter(SkipAfter(skipPaint, child, true), child, false) == skipPaint
    ensures |SkipAfter(skipPaint, child, true)| == |skipPaint| + 1
  {
  }

  // ---------------------------------------------------------------------
  // Lemmas: the measurement record
  // ---------------------------------------------------------------------

  /** The reported minimum is the last one a handler wrote, or the initial
      value if no handler wrote one. */
  lemma {:induction false} LastMinIsLastWrite(steps: seq<HandlerStep>, init: real, k: nat)
    requires k < |steps| && steps[k].SetMinSize?
    requires forall j :: k < j < |steps| ==> !steps[j].SetMinSize?
    ensures LastMin(steps, init) == steps[k].size
  {
    var n := |steps| - 1;
    if k < n {
      assert !steps[n].SetMinSize?;
      var front := steps[..n];
      assert front[k] == steps[k];
      forall j | k < j < |front| ensures !front[j].SetMinSize? {
        assert front[j] == steps[j];
      }
      LastMinIsLastWrite(front, init, k);
    }
  }

  lemma {:induction false} LastMinUnwritten(steps: seq<HandlerStep>, init: real)
    requires forall j :: 0 <= j < |steps| ==> !steps[j].SetMinSize?
    ensures LastMin(steps, init) == init
  {
    if steps != [] {
      var front := steps[..|steps| - 1];
      assert !steps[|steps| - 1].SetMinSize?;
      forall j | 0 <= j < |front| ensures !front[j].SetMinSize? {
        assert front[j] == steps[j];
      }
      LastMinUnwritten(front, init);
    }
  }

  /** The reported natural size is the last one a handler wrote. */
  lemma {:induction false} LastNaturalIsLastWrite(steps: seq<HandlerStep>, init: real, k: nat)
    requires k < |steps| && steps[k].SetNaturalSize?
    requires forall j :: k < j < |steps| ==> !steps[j].SetNaturalSize?
    ensures LastNatural(steps, init) == steps[k].size
  {
    var n := |steps| - 1;
    if k < n {
      assert !steps[n].SetNaturalSize?;
      var front := steps[..n];
      assert front[k] == steps[k];
      forall j | k < j < |front| ensures !front[j].SetNaturalSize? {
        assert front[j] == steps[j];
      }
      LastNaturalIsLastWrite(front, init, k);
    }
  }

  lemma {:induction false} LastNaturalUnwritten(steps: seq<HandlerStep>, init: real)
    requires forall j :: 0 <= j < |steps| ==> !steps[j].SetNaturalSize?
    ensures LastNatural(steps, init) == init
  {
    if steps != [] {
      var front := steps[..|steps| - 1];
      assert !steps[|steps| - 1].SetNaturalSize?;
      forall j | 0 <= j < |front| ensures !front[j].SetNaturalSize? {
        assert front[j] == steps[j];
      }
      LastNaturalUnwritten(front, init);
    }
  }

  /** Each handler's references add up: handlers that each drop what they
      take leave the count where it was. */
  lemma {:induction false} NetRefsAppend(a: seq<HandlerStep>, b: seq<HandlerStep>)
    ensures NetRefs(a + b) == NetRefs(a) + NetRefs(b)
  {
    if b == [] {
      assert a + b == a;
    } else {
      var n := |b| - 1;
      assert (a + b)[..|a + b| - 1] == a + b[..n];
      assert (a + b)[|a + b| - 1] == b[n];
      NetRefsAppend(a, b[..n]);
    }
  }

  /** One handler that writes a minimum and then a natural size: the request
      reports exactly those values, whatever extent it was given. */
  lemma OneHandlerReports(min: real, natural: real)
    ensures LastMin([SetMinSize(min), SetNaturalSize(natural)], 0.0) == min
    ensures LastNatural([SetMinSize(min), SetNaturalSize(natural)], 0.0) == natural
    ensures NetRefs([SetMinSize(min), SetNaturalSize(natural)]) == 0
  {
    var steps := [SetMinSize(min), SetNaturalSize(natural)];
    assert steps[..1] == [SetMinSize(min)];
    assert steps[..1][..0] == [];
    assert NetRefs(steps[..1]) == 0;
  }
}
