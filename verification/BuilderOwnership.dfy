/**
 Who deletes the raw arrow::ArrayBuilder?

 Every GArrowArrayBuilder wrapper carries a reference count, a raw pointer and a
 have_ownership flag.  Raw builders form trees; the tree is freed by one `delete` of its
 root.  Child wrappers are made lazily by getters and kept in the slots of their parent.
 This module gives the wrapper heap as a value, the operations on it as functions, and
 proves what every legal run of a client keeps.  BuilderRuntime does the same work by
 updating fields in place.
 */
module BuilderOwnership {
  import opened Common

  /** The element types whose wrappers have slots; every other type is a Leaf. */
  datatype BuilderType =
    | Leaf
    | List(element: BuilderType)
    | LargeList(element: BuilderType)
    | Struct(fieldTypes: seq<BuilderType>)
    | Map(keyType: BuilderType, itemType: BuilderType)

  /** The address of a raw builder: its tree, and the way to it from the root. */
  datatype RawRef = RawRef(tree: nat, path: seq<nat>) {
    /** True when deleting this node also frees n. */
    predicate Frees(n: RawRef) {
      tree == n.tree && path <= n.path
    }
  }

  type Handle = nat

  /** A wrapper object.  `value` is used by list, large list and map, `key` and `item` by
      map, `fields` by struct. */
  datatype Wrapper = Wrapper(
    kind: BuilderType,
    refs: nat,
    raw: Option<RawRef>,
    haveOwnership: bool,
    value: Option<Handle>,
    key: Option<Handle>,
    item: Option<Handle>,
    fields: seq<Handle>)
  {
    /** The single-builder slots, in the order in which dispose releases them. */
    function Singles(): seq<Handle> {
      ToSeq(key) + ToSeq(item) + ToSeq(value)
    }

    function Slots(): seq<Handle> {
      Singles() + fields
    }

    function Emptied(): Wrapper {
      this.(value := None, key := None, item := None, fields := [])
    }
  }

  function ToSeq(o: Option<Handle>): seq<Handle> {
    match o
    case None => []
    case Some(h) => [h]
  }

  /** All wrappers that exist, the references clients hold, the wrapper each raw tree was
      first handed to, and the log of `delete` calls on non-null pointers.  `fault` is set
      by an access to a wrapper that no longer exists. */
  datatype Heap = Heap(
    live: map<Handle, Wrapper>,
    next: Handle,
    roots: seq<Handle>,
    deletes: seq<RawRef>,
    held: multiset<Handle>,
    fault: bool)
  {
    function Put(w: Handle, o: Wrapper): Heap {
      this.(live := live[w := o])
    }
  }

  const EMPTY_HEAP := Heap(map[], 0, [], [], multiset{}, false)

  /** Handles grow with time, so a child wrapper is always younger than its parent. */
  ghost predicate Ordered(h: Heap) {
    && (forall w <- h.live :: w < h.next)
    && (forall p, c | p in h.live && c in h.live[p].Slots() :: p < c < h.next)
  }

  // ---------------------------------------------------------------- unref, dispose, finalize

  /** What unref, dispose and finalize may touch: wrappers from `lo` on, and the log. */
  ghost predicate Frame(h: Heap, r: Heap, lo: Handle) {
    && Ordered(r)
    && r.next == h.next && r.roots == h.roots && r.held == h.held && h.deletes <= r.deletes
    && r.live.Keys <= h.live.Keys
    && (forall w | w in h.live && w < lo :: w in r.live && r.live[w] == h.live[w])
  }

  /** g_object_unref: the last reference runs dispose, then finalize. */
  function Unref(h: Heap, w: Handle): (r: Heap)
    requires Ordered(h) && w < h.next
    ensures Frame(h, r, w)
    decreases h.next - w, 1, 0
  {
    if w !in h.live then h.(fault := true)
    else if h.live[w].refs > 1 then Decrement(h, w)
    else
      // Nothing that dispose reaches can take a new reference to w, so the decrement that
      // follows it always arrives at zero.
      Finalize(Dispose(h, w), w)
  }

  function Decrement(h: Heap, w: Handle): (r: Heap)
    requires Ordered(h) && w in h.live && h.live[w].refs > 1
    ensures Frame(h, r, w)
  {
    var o := h.live[w];
    var r := h.Put(w, o.(refs := o.refs - 1));
    assert forall p <- r.live :: r.live[p].Slots() == h.live[p].Slots();
    r
  }

  /** The dispose of list, large list, map and struct builders: forget the slots, then
      unref what was in them; the struct dispose first nulls each child's raw pointer. */
  function Dispose(h: Heap, w: Handle): (r: Heap)
    requires Ordered(h) && w in h.live
    ensures Frame(h, r, w)
    ensures w in r.live && r.live[w] == h.live[w].Emptied()
    decreases h.next - w, 0, 1, 0
  {
    var o := h.live[w];
    var e := h.Put(w, o.Emptied());
    assert o.Emptied().Slots() == [];
    assert forall c <- o.Singles() :: c in o.Slots();
    assert forall c <- o.fields :: c in o.Slots();
    var s := UnrefAll(e, w, o.Singles(), false);
    UnrefAll(s, w, o.fields, true)
  }

  function UnrefAll(h: Heap, lo: Handle, cs: seq<Handle>, nullRaw: bool): (r: Heap)
    requires Ordered(h)
    requires lo < h.next && forall c <- cs :: lo < c < h.next
    ensures Frame(h, r, lo + 1)
    decreases h.next - lo, 0, 0, |cs|
  {
    if cs == [] then h
    else
      assert cs[0] in cs && forall c <- cs[1..] :: c in cs;
      var n := if nullRaw then NullRaw(h, cs[0]) else h;
      UnrefAll(Unref(n, cs[0]), lo, cs[1..], nullRaw)
  }

  /** field_builder_priv->array_builder = nullptr. */
  function NullRaw(h: Heap, c: Handle): (r: Heap)
    requires Ordered(h)
    ensures Frame(h, r, c)
  {
    if c !in h.live then h.(fault := true)
    else
      var r := h.Put(c, h.live[c].(raw := None));
      assert forall p <- r.live :: r.live[p].Slots() == h.live[p].Slots();
      r
  }

  /** garrow_array_builder_finalize: delete the raw builder if this wrapper owns one. */
  function Finalize(h: Heap, w: Handle): (r: Heap)
    requires Ordered(h) && w in h.live
    ensures Frame(h, r, w)
  {
    var o := h.live[w];
    h.(live := h.live - {w},
       deletes := if o.haveOwnership && o.raw.Some? then h.deletes + [o.raw.value] else h.deletes)
  }

  // ---------------------------------------------------------------- the invariant

  ghost predicate InSlotOf(h: Heap, p: Handle, c: Handle) {
    p in h.live && c in h.live[p].Slots()
  }

  ghost predicate InFieldsOf(h: Heap, p: Handle, c: Handle) {
    p in h.live && c in h.live[p].fields
  }

  ghost predicate Slotted(h: Heap, c: Handle) {
    exists p :: InSlotOf(h, p, c)
  }

  /** The references to w that somebody will still give back: those of clients, those of
      the C call stack (`pending`), and the one of the slot that holds w. */
  ghost function Claims(h: Heap, w: Handle, pending: multiset<Handle>): nat {
    h.held[w] + pending[w] + if Slotted(h, w) then 1 else 0
  }

  ghost predicate SlotsSound(h: Heap) {
    && (forall p, c | InSlotOf(h, p, c) :: c in h.live)
    && (forall p, q, c | InSlotOf(h, p, c) && InSlotOf(h, q, c) :: p == q)
    && (forall p <- h.live :: NoDuplicates(h.live[p].Slots()))
  }

  ghost predicate Balanced(h: Heap, pending: multiset<Handle>) {
    && (forall w | w in h.held || w in pending :: w in h.live)
    && (forall w <- h.live :: h.live[w].refs == Claims(h, w, pending) > 0)
  }

  ghost predicate IsRoot(o: Wrapper) {
    o.raw.Some? && o.raw.value.path == []
  }

  /** Each tree is either not deleted and owned by its first wrapper, or deleted once. */
  ghost predicate TreesSound(h: Heap) {
    && (forall t | 0 <= t < |h.roots| :: h.roots[t] in h.live ==>
          && h.live[h.roots[t]].raw == Some(RawRef(t, [])) && h.live[h.roots[t]].haveOwnership
          && RawRef(t, []) !in h.deletes)
    && (forall t | 0 <= t < |h.roots| :: h.roots[t] !in h.live ==> RawRef(t, []) in h.deletes)
    && (forall d <- h.deletes :: d.path == [] && d.tree < |h.roots|)
    && (forall w <- h.live :: h.live[w].raw.Some? ==> h.live[w].raw.value.tree < |h.roots|)
    && (forall w <- h.live :: IsRoot(h.live[w]) ==> h.roots[h.live[w].raw.value.tree] == w)
    && (forall t | 0 <= t < |h.roots| :: h.roots[t] < h.next)
    && NoDuplicates(h.deletes)
  }

  /** An owning wrapper with a raw pointer is a root, or a struct wrapper that lists it will
      null the pointer first.  `limbo` holds the children a struct dispose is about to null. */
  ghost predicate OwnersSound(h: Heap, limbo: set<Handle>) {
    && (forall w <- h.live :: h.live[w].haveOwnership && h.live[w].raw.Some? ==>
          h.live[w].raw.value.path == [] || w in limbo || exists p :: InFieldsOf(h, p, w))
    && (forall w <- h.live :: h.live[w].raw.Some? && (w in limbo || Slotted(h, w)) ==>
          h.live[w].raw.value.path != [])
  }

  ghost predicate Inv(h: Heap, pending: multiset<Handle>, limbo: set<Handle>) {
    && !h.fault
    && Ordered(h)
    && SlotsSound(h)
    && Balanced(h, pending)
    && TreesSound(h)
    && OwnersSound(h, limbo)
    && (forall w <- limbo :: w in pending && !Slotted(h, w))
  }

  // ---------------------------------------------------------------- unref keeps it

  /** A step that keeps every slot keeps who is in whose slot. */
  lemma SameShape(h: Heap, r: Heap)
    requires h.live.Keys == r.live.Keys
    requires forall p <- h.live :: r.live[p].Slots() == h.live[p].Slots() && r.live[p].fields == h.live[p].fields
    ensures forall p, c :: InSlotOf(h, p, c) <==> InSlotOf(r, p, c)
    ensures forall p, c :: InFieldsOf(h, p, c) <==> InFieldsOf(r, p, c)
    ensures forall c :: Slotted(h, c) <==> Slotted(r, c)
    ensures SlotsSound(h) ==> SlotsSound(r)
  {
    forall c ensures Slotted(h, c) <==> Slotted(r, c) {
      if Slotted(h, c) { var p :| InSlotOf(h, p, c); assert InSlotOf(r, p, c); }
      if Slotted(r, c) { var p :| InSlotOf(r, p, c); assert InSlotOf(h, p, c); }
    }
  }

  /** Owners stay sound when slots stay, pointers stay or are nulled, and limbo only loses
      wrappers whose pointer is nulled. */
  lemma SameOwners(h: Heap, r: Heap, limbo: set<Handle>, limbo': set<Handle>)
    requires OwnersSound(h, limbo)
    requires h.live.Keys == r.live.Keys && limbo' <= limbo
    requires forall p, c :: InFieldsOf(h, p, c) <==> InFieldsOf(r, p, c)
    requires forall c :: Slotted(h, c) <==> Slotted(r, c)
    requires forall w <- h.live :: r.live[w].haveOwnership == h.live[w].haveOwnership
    requires forall w <- h.live :: r.live[w].raw == h.live[w].raw || r.live[w].raw == None
    requires forall w <- h.live :: w in limbo && w !in limbo' ==> r.live[w].raw == None
    ensures OwnersSound(r, limbo')
  {
    forall w | w in r.live && r.live[w].haveOwnership && r.live[w].raw.Some? && r.live[w].raw.value.path != []
      ensures w in limbo' || exists p :: InFieldsOf(r, p, w)
    {
      if w !in limbo' {
        var p :| InFieldsOf(h, p, w);
        assert InFieldsOf(r, p, w);
      }
    }
  }

  lemma SameTrees(h: Heap, r: Heap)
    requires TreesSound(h)
    requires h.live.Keys == r.live.Keys && r.roots == h.roots && r.deletes == h.deletes && r.next == h.next
    requires forall w <- h.live :: r.live[w].haveOwnership == h.live[w].haveOwnership
    requires forall w <- h.live :: r.live[w].raw == h.live[w].raw || (r.live[w].raw == None && !IsRoot(h.live[w]))
    ensures TreesSound(r)
  {
  }

  /** A step that only moves references: counts change together with the claims. */
  ghost predicate Recounted(h: Heap, r: Heap, pending: multiset<Handle>, pending': multiset<Handle>) {
    && r.live.Keys == h.live.Keys
    && r.next == h.next && r.roots == h.roots && r.deletes == h.deletes && r.fault == h.fault
    && (forall w <- h.live :: r.live[w] == h.live[w].(refs := r.live[w].refs))
    && (forall w | w in r.held || w in pending' :: w in h.live)
    && (forall w <- h.live :: r.live[w].refs > 0)
    && (forall w <- h.live ::
          r.live[w].refs - r.held[w] - pending'[w] == h.live[w].refs - h.held[w] - pending[w])
  }

  lemma Recount(h: Heap, r: Heap, pending: multiset<Handle>, pending': multiset<Handle>, limbo: set<Handle>)
    requires Inv(h, pending, limbo) && Recounted(h, r, pending, pending')
    requires forall w <- limbo :: w in pending'
    ensures Inv(r, pending', limbo)
  {
    assert forall p <- h.live :: r.live[p].Slots() == h.live[p].Slots();
    SameShape(h, r);
    SameOwners(h, r, limbo, limbo);
    SameTrees(h, r);
    forall w <- r.live ensures r.live[w].refs == Claims(r, w, pending') > 0 {
      assert h.live[w].refs == Claims(h, w, pending);
    }
  }

  lemma DecrementKeeps(h: Heap, w: Handle, pending: multiset<Handle>, limbo: set<Handle>)
    requires Inv(h, pending + multiset{w}, limbo) && w !in limbo
    requires w in h.live && h.live[w].refs > 1
    ensures Inv(Decrement(h, w), pending, limbo)
  {
    DecrementRecounts(h, w, pending);
    Recount(h, Decrement(h, w), pending + multiset{w}, pending, limbo);
  }

  lemma DecrementRecounts(h: Heap, w: Handle, pending: multiset<Handle>)
    requires Ordered(h) && Balanced(h, pending + multiset{w}) && w in h.live && h.live[w].refs > 1
    ensures Recounted(h, Decrement(h, w), pending + multiset{w}, pending)
  {
  }

  lemma SameBalanced(h: Heap, r: Heap, pending: multiset<Handle>)
    requires Balanced(h, pending) && r.live.Keys == h.live.Keys && r.held == h.held
    requires forall w <- h.live :: r.live[w].refs == h.live[w].refs
    requires forall c :: Slotted(h, c) <==> Slotted(r, c)
    ensures Balanced(r, pending)
  {
    forall w <- r.live ensures r.live[w].refs == Claims(r, w, pending) > 0 {
      assert h.live[w].refs == Claims(h, w, pending);
    }
  }

  lemma NullRawShape(h: Heap, c: Handle)
    requires Ordered(h) && SlotsSound(h) && c in h.live
    ensures var r := NullRaw(h, c);
      && Ordered(r) && SlotsSound(r) && r.live.Keys == h.live.Keys
      && (forall p <- h.live :: r.live[p] == if p == c then h.live[p].(raw := None) else h.live[p])
      && (forall p, x :: InFieldsOf(h, p, x) <==> InFieldsOf(r, p, x))
      && (forall x :: Slotted(h, x) <==> Slotted(r, x))
  {
    SameShape(h, NullRaw(h, c));
  }

  lemma NullRawKeeps(h: Heap, c: Handle, pending: multiset<Handle>, limbo: set<Handle>)
    requires Inv(h, pending, limbo) && c in limbo
    ensures Inv(NullRaw(h, c), pending, limbo - {c})
  {
    var r := NullRaw(h, c);
    assert c in h.live;
    NullRawShape(h, c);
    SameOwners(h, r, limbo, limbo - {c});
    SameTrees(h, r);
    SameBalanced(h, r, pending);
  }

  /** Removing a wrapper that has no slots and is in no slot changes no other slot. */
  lemma FinalizeShape(h: Heap, w: Handle)
    requires Ordered(h) && SlotsSound(h)
    requires w in h.live && h.live[w].Slots() == [] && !Slotted(h, w)
    ensures forall p, c :: InSlotOf(h, p, c) <==> InSlotOf(Finalize(h, w), p, c)
    ensures forall p, c :: InFieldsOf(h, p, c) <==> InFieldsOf(Finalize(h, w), p, c)
    ensures forall c :: Slotted(h, c) <==> Slotted(Finalize(h, w), c)
    ensures SlotsSound(Finalize(h, w))
  {
    var r := Finalize(h, w);
    assert h.live[w].fields == [];
    forall c ensures Slotted(h, c) <==> Slotted(r, c) {
      if Slotted(h, c) { var p :| InSlotOf(h, p, c); assert InSlotOf(r, p, c); }
      if Slotted(r, c) { var p :| InSlotOf(r, p, c); assert InSlotOf(h, p, c); }
    }
    forall p, c | InSlotOf(r, p, c) ensures c in r.live {
      assert InSlotOf(h, p, c);
    }
  }

  /** The only pointer that finalize can delete is that of a root. */
  lemma FinalizeDeletesRoot(h: Heap, w: Handle, limbo: set<Handle>)
    requires Ordered(h) && TreesSound(h) && OwnersSound(h, limbo)
    requires w in h.live && !Slotted(h, w) && w !in limbo
    ensures TreesSound(Finalize(h, w))
  {
    var o := h.live[w];
    if o.haveOwnership && o.raw.Some? {
      if p :| InFieldsOf(h, p, w) {
        assert InSlotOf(h, p, w);
      }
      assert IsRoot(o);
      assert h.roots[o.raw.value.tree] == w;
    }
  }

  lemma FinalizeKeeps(h: Heap, w: Handle, pending: multiset<Handle>, limbo: set<Handle>)
    requires Inv(h, pending + multiset{w}, limbo) && w !in limbo
    requires w in h.live && h.live[w].refs == 1 && h.live[w].Slots() == []
    ensures Inv(Finalize(h, w), pending, limbo)
  {
    var r := Finalize(h, w);
    assert !Slotted(h, w) && h.held[w] == 0 && pending[w] == 0;
    FinalizeShape(h, w);
    FinalizeDeletesRoot(h, w, limbo);
    FinalizeBalanced(h, w, pending);
    FinalizeOwners(h, w, limbo);
  }

  lemma FinalizeBalanced(h: Heap, w: Handle, pending: multiset<Handle>)
    requires Ordered(h) && SlotsSound(h) && Balanced(h, pending + multiset{w})
    requires w in h.live && h.live[w].refs == 1 && h.live[w].Slots() == []
    ensures Balanced(Finalize(h, w), pending)
  {
    var r := Finalize(h, w);
    assert h.live[w].refs == Claims(h, w, pending + multiset{w});
    FinalizeShape(h, w);
    forall x <- r.live ensures r.live[x].refs == Claims(r, x, pending) > 0 {
      assert h.live[x].refs == Claims(h, x, pending + multiset{w});
    }
  }

  lemma FinalizeOwners(h: Heap, w: Handle, limbo: set<Handle>)
    requires Ordered(h) && SlotsSound(h) && OwnersSound(h, limbo)
    requires w in h.live && h.live[w].Slots() == [] && !Slotted(h, w)
    ensures OwnersSound(Finalize(h, w), limbo)
  {
    FinalizeShape(h, w);
    var r := Finalize(h, w);
    forall x | x in r.live && r.live[x].haveOwnership && r.live[x].raw.Some? && r.live[x].raw.value.path != []
      ensures x in limbo || exists p :: InFieldsOf(r, p, x)
    {
      if x !in limbo {
        var p :| InFieldsOf(h, p, x);
        assert InFieldsOf(r, p, x);
      }
    }
  }

  lemma {:induction false} CountDistinct<T>(s: seq<T>, x: T)
    requires NoDuplicates(s)
    ensures multiset(s)[x] == if x in s then 1 else 0
  {
    if s == [] {
    } else {
      assert s == [s[0]] + s[1..];
      CountDistinct(s[1..], x);
    }
  }

  /** Emptying w's slots unslots exactly what was in them. */
  lemma EmptyShape(h: Heap, w: Handle)
    requires Ordered(h) && SlotsSound(h) && w in h.live
    ensures var e := h.Put(w, h.live[w].Emptied());
      && Ordered(e) && SlotsSound(e)
      && (forall p, c :: InSlotOf(e, p, c) <==> InSlotOf(h, p, c) && p != w)
      && (forall p, c :: InFieldsOf(e, p, c) <==> InFieldsOf(h, p, c) && p != w)
      && (forall c :: Slotted(e, c) <==> Slotted(h, c) && c !in h.live[w].Slots())
  {
    var o := h.live[w];
    var e := h.Put(w, o.Emptied());
    assert o.Emptied().Slots() == [];
    forall c ensures Slotted(e, c) <==> Slotted(h, c) && c !in o.Slots() {
      if Slotted(e, c) {
        var p :| InSlotOf(e, p, c);
        assert InSlotOf(h, p, c);
        assert c in o.Slots() ==> InSlotOf(h, w, c);
      }
      if Slotted(h, c) && c !in o.Slots() { var p :| InSlotOf(h, p, c); assert InSlotOf(e, p, c); }
    }
    forall p, q, c | InSlotOf(e, p, c) && InSlotOf(e, q, c) ensures p == q && c in e.live {
      assert InSlotOf(h, p, c) && InSlotOf(h, q, c);
    }
  }

  ghost function Elements<T>(s: seq<T>): set<T> {
    set x | x in s
  }

  lemma EmptyKeeps(h: Heap, w: Handle, pending: multiset<Handle>, limbo: set<Handle>)
    requires Inv(h, pending, limbo) && w in h.live
    ensures Inv(h.Put(w, h.live[w].Emptied()),
                pending + multiset(h.live[w].Slots()),
                limbo + Elements(h.live[w].fields))
  {
    EmptyShape(h, w);
    SameTrees(h, h.Put(w, h.live[w].Emptied()));
    EmptyOwners(h, w, limbo);
    EmptyBalanced(h, w, pending);
    EmptyLimbo(h, w, pending, limbo);
  }

  lemma EmptyLimbo(h: Heap, w: Handle, pending: multiset<Handle>, limbo: set<Handle>)
    requires Ordered(h) && SlotsSound(h) && w in h.live
    requires forall x <- limbo :: x in pending && !Slotted(h, x)
    ensures forall x <- limbo + Elements(h.live[w].fields) ::
      x in pending + multiset(h.live[w].Slots()) && !Slotted(h.Put(w, h.live[w].Emptied()), x)
  {
    EmptyShape(h, w);
    SlotsPending(h, w);
    assert forall x <- h.live[w].fields :: x in h.live[w].Slots();
  }

  lemma EmptyBalanced(h: Heap, w: Handle, pending: multiset<Handle>)
    requires Ordered(h) && SlotsSound(h) && Balanced(h, pending) && w in h.live
    ensures Balanced(h.Put(w, h.live[w].Emptied()), pending + multiset(h.live[w].Slots()))
  {
    var o := h.live[w];
    var e := h.Put(w, o.Emptied());
    var pending' := pending + multiset(o.Slots());
    forall x <- e.live ensures e.live[x].refs == Claims(e, x, pending') > 0 {
      EmptyClaims(h, w, pending, x);
      assert h.live[x].refs == Claims(h, x, pending);
    }
    SlotsPending(h, w);
  }

  lemma EmptyClaims(h: Heap, w: Handle, pending: multiset<Handle>, x: Handle)
    requires Ordered(h) && SlotsSound(h) && w in h.live
    ensures Claims(h.Put(w, h.live[w].Emptied()), x, pending + multiset(h.live[w].Slots())) == Claims(h, x, pending)
  {
    EmptyShape(h, w);
    CountDistinct(h.live[w].Slots(), x);
    assert x in h.live[w].Slots() ==> InSlotOf(h, w, x);
  }

  lemma SlotsPending(h: Heap, w: Handle)
    requires SlotsSound(h) && w in h.live
    ensures forall x :: x in multiset(h.live[w].Slots()) <==> InSlotOf(h, w, x)
    ensures forall x | x in h.live[w].fields :: x in multiset(h.live[w].Slots())
  {
    var o := h.live[w];
    forall x ensures x in multiset(o.Slots()) <==> x in o.Slots() {
      CountDistinct(o.Slots(), x);
    }
    assert forall x <- o.fields :: x in o.Slots();
  }

  lemma EmptyOwners(h: Heap, w: Handle, limbo: set<Handle>)
    requires Ordered(h) && SlotsSound(h) && OwnersSound(h, limbo) && w in h.live
    ensures OwnersSound(h.Put(w, h.live[w].Emptied()), limbo + Elements(h.live[w].fields))
  {
    var o := h.live[w];
    var e := h.Put(w, o.Emptied());
    EmptyShape(h, w);
    forall x | x in e.live && e.live[x].haveOwnership && e.live[x].raw.Some? && e.live[x].raw.value.path != []
      ensures x in limbo + Elements(o.fields) || exists p :: InFieldsOf(e, p, x)
    {
      if x !in limbo + Elements(o.fields) {
        var p :| InFieldsOf(h, p, x);
        assert InFieldsOf(e, p, x);
      }
    }
    assert forall x <- o.fields :: InSlotOf(h, w, x);
  }

  lemma {:induction false} UnrefKeeps(h: Heap, w: Handle, pending: multiset<Handle>, limbo: set<Handle>)
    requires Inv(h, pending + multiset{w}, limbo) && w !in limbo
    ensures w < h.next && Inv(Unref(h, w), pending, limbo)
    decreases h.next - w, 1, 0
  {
    assert w in pending + multiset{w};
    if h.live[w].refs > 1 {
      DecrementKeeps(h, w, pending, limbo);
    } else {
      DisposeKeeps(h, w, pending + multiset{w}, limbo);
      LastUnrefKeeps(h, w, pending, limbo);
    }
  }

  lemma EmptiedSlots(o: Wrapper)
    ensures o.Emptied().Slots() == [] && o.Emptied().refs == o.refs
  {
  }

  lemma LastUnrefKeeps(h: Heap, w: Handle, pending: multiset<Handle>, limbo: set<Handle>)
    requires Ordered(h) && w in h.live && h.live[w].refs == 1 && w !in limbo
    requires Inv(Dispose(h, w), pending + multiset{w}, limbo)
    ensures w < h.next && Inv(Unref(h, w), pending, limbo)
  {
    EmptiedSlots(h.live[w]);
    FinalizeKeeps(Dispose(h, w), w, pending, limbo);
  }

  lemma {:induction false} DisposeKeeps(h: Heap, w: Handle, pending: multiset<Handle>, limbo: set<Handle>)
    requires Inv(h, pending, limbo) && w in h.live
    ensures Inv(Dispose(h, w), pending, limbo)
    decreases h.next - w, 0, 1, 0
  {
    var o := h.live[w];
    var e := h.Put(w, o.Emptied());
    EmptyKeeps(h, w, pending, limbo);
    SlotsApart(h, w, pending, limbo);
    var limbo' := limbo + Elements(o.fields);
    var pending' := pending + multiset(o.fields);
    assert pending + multiset(o.Slots()) == pending' + multiset(o.Singles());
    UnrefAllKeeps(e, w, o.Singles(), false, pending', limbo');
    UnrefAllKeeps(UnrefAll(e, w, o.Singles(), false), w, o.fields, true, pending, limbo);
  }

  /** What sits in w's slots is distinct, younger than w, and not in limbo. */
  lemma SlotsApart(h: Heap, w: Handle, pending: multiset<Handle>, limbo: set<Handle>)
    requires Inv(h, pending, limbo) && w in h.live
    ensures var o := h.live[w];
      && NoDuplicates(o.Singles()) && NoDuplicates(o.fields)
      && (forall c <- o.Singles() :: w < c < h.next && c !in limbo + Elements(o.fields))
      && (forall c <- o.fields :: w < c < h.next && c !in limbo)
  {
    var o := h.live[w];
    forall c | c in o.Singles() || c in o.fields ensures w < c < h.next && c !in limbo {
      assert InSlotOf(h, w, c);
    }
    var n := |o.Singles()|;
    assert forall i | 0 <= i < n :: o.Slots()[i] == o.Singles()[i];
    assert forall i | 0 <= i < |o.fields| :: o.Slots()[n + i] == o.fields[i];
  }

  lemma {:induction false} UnrefAllKeeps(h: Heap, lo: Handle, cs: seq<Handle>, nullRaw: bool,
                                         pending: multiset<Handle>, limbo: set<Handle>)
    requires lo < h.next && forall c <- cs :: lo < c < h.next && c !in limbo
    requires NoDuplicates(cs)
    requires Inv(h, pending + multiset(cs), if nullRaw then limbo + Elements(cs) else limbo)
    ensures Inv(UnrefAll(h, lo, cs, nullRaw), pending, limbo)
    decreases h.next - lo, 0, 0, |cs|
  {
    if cs == [] {
      assert pending + multiset(cs) == pending && limbo + Elements(cs) == limbo;
    } else {
      var c, rest := cs[0], cs[1..];
      HeadAndRest(cs, pending, limbo);
      if nullRaw {
        NullRawKeeps(h, c, pending + multiset(cs), limbo + Elements(cs));
        UnrefKeeps(NullRaw(h, c), c, pending + multiset(rest), limbo + Elements(rest));
      } else {
        UnrefKeeps(h, c, pending + multiset(rest), limbo);
      }
      UnrefAllKeeps(Unref(if nullRaw then NullRaw(h, c) else h, c), lo, rest, nullRaw, pending, limbo);
    }
  }

  lemma HeadAndRest(cs: seq<Handle>, pending: multiset<Handle>, limbo: set<Handle>)
    requires cs != [] && NoDuplicates(cs) && forall c <- cs :: c !in limbo
    ensures cs[0] in cs && cs[0] !in cs[1..] && NoDuplicates(cs[1..])
    ensures forall x <- cs[1..] :: x in cs
    ensures pending + multiset(cs) == pending + multiset(cs[1..]) + multiset{cs[0]}
    ensures limbo + Elements(cs) - {cs[0]} == limbo + Elements(cs[1..])
    ensures cs[0] in limbo + Elements(cs) && cs[0] !in limbo + Elements(cs[1..])
  {
    assert cs == [cs[0]] + cs[1..];
    assert forall i | 0 <= i < |cs| - 1 :: cs[1..][i] == cs[i + 1];
    assert cs[0] !in limbo;
  }

  // ---------------------------------------------------------------- client operations

  function FreshWrapper(kind: BuilderType, raw: RawRef, haveOwnership: bool): Wrapper {
    Wrapper(kind, 1, Some(raw), haveOwnership, None, None, None, [])
  }

  /** w becomes o, whose slots now also hold the new wrappers `kids`. */
  function Attach(h: Heap, w: Handle, o: Wrapper, kids: seq<Wrapper>): Heap {
    h.(live := AddAll(h.live, h.next, kids)[w := o], next := h.next + |kids|)
  }

  function AddAll(live: map<Handle, Wrapper>, next: Handle, kids: seq<Wrapper>): (r: map<Handle, Wrapper>)
    ensures forall c :: c in r <==> c in live || next <= c < next + |kids|
    ensures forall c | c in r :: r[c] == if next <= c < next + |kids| then kids[c - next] else live[c]
    decreases kids
  {
    if kids == [] then live
    else AddAll(live[next := kids[0]], next + 1, kids[1..])
  }

  function Below(raw: RawRef, steps: seq<nat>): RawRef {
    RawRef(raw.tree, raw.path + steps)
  }

  /** garrow_*_array_builder_new: a fresh raw tree, owned by the wrapper the client gets. */
  function New(h: Heap, kind: BuilderType): Heap {
    h.(live := h.live[h.next := FreshWrapper(kind, RawRef(|h.roots|, []), true)],
       next := h.next + 1,
       roots := h.roots + [h.next],
       held := h.held + multiset{h.next})
  }

  /** A raw pointer that may be followed: not nulled, and its tree not deleted. */
  predicate Usable(h: Heap, w: Handle) {
    w in h.live && h.live[w].raw.Some? && RawRef(h.live[w].raw.value.tree, []) !in h.deletes
  }

  /** get_value_builder of list, large list and map. */
  function GetValue(h: Heap, w: Handle): Heap
    requires w in h.live && (h.live[w].value.None? ==> Usable(h, w))
    requires h.live[w].kind.List? || h.live[w].kind.LargeList? || h.live[w].kind.Map?
  {
    var o := h.live[w];
    if o.value.Some? then h
    else
      Attach(h, w, o.(value := Some(h.next)), [ValueChild(o)])
  }

  function ValueChild(o: Wrapper): Wrapper
    requires (o.kind.List? || o.kind.LargeList? || o.kind.Map?) && o.raw.Some?
  {
    match o.kind
    case List(e) => FreshWrapper(e, Below(o.raw.value, [0]), false)
    case LargeList(e) => FreshWrapper(e, Below(o.raw.value, [0]), false)
    case Map(k, i) => FreshWrapper(Struct([k, i]), Below(o.raw.value, [0, 0]), false)
  }

  /** The key builder wraps the same raw node as field 0 of the map's value builder. */
  function KeyChild(o: Wrapper): Wrapper
    requires o.kind.Map? && o.raw.Some?
  {
    FreshWrapper(o.kind.keyType, Below(o.raw.value, [0, 0, 0]), false)
  }

  /** The item builder wraps the same raw node as field 1 of the map's value builder. */
  function ItemChild(o: Wrapper): Wrapper
    requires o.kind.Map? && o.raw.Some?
  {
    FreshWrapper(o.kind.itemType, Below(o.raw.value, [0, 0, 1]), false)
  }

  /** get_key_builder. */
  function GetKey(h: Heap, w: Handle): Heap
    requires w in h.live && h.live[w].kind.Map? && (h.live[w].key.None? ==> Usable(h, w))
  {
    var o := h.live[w];
    if o.key.Some? then h
    else Attach(h, w, o.(key := Some(h.next)), [KeyChild(o)])
  }

  /** get_item_builder. */
  function GetItem(h: Heap, w: Handle): Heap
    requires w in h.live && h.live[w].kind.Map? && (h.live[w].item.None? ==> Usable(h, w))
  {
    var o := h.live[w];
    if o.item.Some? then h
    else Attach(h, w, o.(item := Some(h.next)), [ItemChild(o)])
  }

  function Range(lo: Handle, n: nat): (r: seq<Handle>)
    ensures |r| == n && forall i | 0 <= i < n :: r[i] == lo + i
    ensures forall x :: x in r <==> lo <= x < lo + n
  {
    if n == 0 then [] else Range(lo, n - 1) + [lo + n - 1]
  }

  function FieldWrappers(o: Wrapper): seq<Wrapper>
    requires o.kind.Struct? && o.raw.Some?
  {
    seq(|o.kind.fieldTypes|, i requires 0 <= i < |o.kind.fieldTypes| =>
      FreshWrapper(o.kind.fieldTypes[i], Below(o.raw.value, [i]), true))
  }

  /** get_field_builders: the children keep have_ownership. */
  function GetFields(h: Heap, w: Handle): Heap
    requires w in h.live && h.live[w].kind.Struct? && (h.live[w].fields == [] ==> Usable(h, w))
  {
    var o := h.live[w];
    if o.fields != [] then h
    else Attach(h, w, o.(fields := Range(h.next, |o.kind.fieldTypes|)), FieldWrappers(o))
  }

  function Increment(h: Heap, w: Handle): (r: Heap)
    requires w in h.live
    ensures Ordered(h) ==> Ordered(r)
  {
    var o := h.live[w];
    var r := h.Put(w, o.(refs := o.refs + 1));
    assert forall p <- r.live :: r.live[p].Slots() == h.live[p].Slots();
    r
  }

  /** A client's g_object_ref. */
  function Ref(h: Heap, w: Handle): Heap
    requires w in h.live
  {
    Increment(h, w).(held := h.held + multiset{w})
  }

  /** A client's g_object_unref of a reference it holds. */
  function Release(h: Heap, w: Handle): Heap
    requires Ordered(h) && w < h.next
  {
    Unref(h.(held := h.held - multiset{w}), w)
  }

  /** g_object_run_dispose: dispose under a temporary reference. */
  function RunDispose(h: Heap, w: Handle): Heap
    requires Ordered(h) && w in h.live
  {
    Unref(Dispose(Increment(h, w), w), w)
  }

  lemma NewSlots(h: Heap, kind: BuilderType)
    requires Ordered(h)
    ensures var r := New(h, kind);
      && r.live[h.next].Slots() == []
      && (forall p, c :: InSlotOf(h, p, c) <==> InSlotOf(r, p, c))
      && (forall p, c :: InFieldsOf(h, p, c) <==> InFieldsOf(r, p, c))
      && (forall c :: Slotted(h, c) <==> Slotted(r, c))
  {
    var r := New(h, kind);
    assert r.live[h.next].Slots() == [];
    forall c ensures Slotted(h, c) <==> Slotted(r, c) {
      if Slotted(h, c) { var p :| InSlotOf(h, p, c); assert InSlotOf(r, p, c); }
      if Slotted(r, c) { var p :| InSlotOf(r, p, c); assert InSlotOf(h, p, c); }
    }
  }

  lemma NewOrdered(h: Heap, kind: BuilderType)
    requires Ordered(h)
    ensures Ordered(New(h, kind))
  {
    NewSlots(h, kind);
  }

  lemma NewShape(h: Heap, kind: BuilderType)
    requires Ordered(h) && SlotsSound(h)
    ensures SlotsSound(New(h, kind)) && !Slotted(New(h, kind), h.next)
  {
    var r := New(h, kind);
    NewSlots(h, kind);
    forall p, q, c | InSlotOf(r, p, c) && InSlotOf(r, q, c) ensures p == q && c in r.live {
      assert InSlotOf(h, p, c) && InSlotOf(h, q, c);
    }
    forall p <- r.live ensures NoDuplicates(r.live[p].Slots()) {
      assert p != h.next ==> r.live[p] == h.live[p];
    }
  }

  lemma NewTrees(h: Heap, kind: BuilderType)
    requires Ordered(h) && TreesSound(h)
    ensures TreesSound(New(h, kind))
  {
    var r := New(h, kind);
    forall t | 0 <= t < |r.roots|
      ensures r.roots[t] in r.live ==>
        r.live[r.roots[t]].raw == Some(RawRef(t, [])) && r.live[r.roots[t]].haveOwnership && RawRef(t, []) !in r.deletes
      ensures r.roots[t] !in r.live ==> RawRef(t, []) in r.deletes
    {
      if t < |h.roots| { assert r.roots[t] == h.roots[t]; }
    }
  }

  /** Old wrappers keep their claims; each new one has its single reference claimed. */
  lemma GrowBalanced(h: Heap, r: Heap)
    requires Balanced(h, multiset{})
    requires h.live.Keys <= r.live.Keys
    requires forall w <- h.live :: r.live[w].refs == h.live[w].refs && r.held[w] == h.held[w]
    requires forall w <- h.live :: Slotted(r, w) <==> Slotted(h, w)
    requires forall w <- r.held :: w in r.live
    requires forall w | w in r.live && w !in h.live :: r.live[w].refs == 1 == Claims(r, w, multiset{})
    ensures Balanced(r, multiset{})
  {
    forall w <- h.live ensures Claims(r, w, multiset{}) == Claims(h, w, multiset{}) {}
  }

  lemma GrowOwners(h: Heap, r: Heap)
    requires OwnersSound(h, {})
    requires h.live.Keys <= r.live.Keys
    requires forall w <- h.live :: r.live[w].raw == h.live[w].raw && r.live[w].haveOwnership == h.live[w].haveOwnership
    requires forall p, c | InFieldsOf(h, p, c) :: InFieldsOf(r, p, c)
    requires forall w <- h.live :: Slotted(r, w) <==> Slotted(h, w)
    requires forall w | w in r.live && w !in h.live ::
      && r.live[w].raw.Some?
      && (r.live[w].raw.value.path == [] <==> !Slotted(r, w))
      && (r.live[w].haveOwnership && Slotted(r, w) ==> exists p :: InFieldsOf(r, p, w))
    ensures OwnersSound(r, {})
  {
    forall w | w in h.live && h.live[w].haveOwnership && h.live[w].raw.Some? && h.live[w].raw.value.path != []
      ensures exists p :: InFieldsOf(r, p, w)
    {
      var p :| InFieldsOf(h, p, w);
      assert InFieldsOf(r, p, w);
    }
  }

  lemma NewKeeps(h: Heap, kind: BuilderType)
    requires Inv(h, multiset{}, {})
    ensures Inv(New(h, kind), multiset{}, {})
  {
    var r := New(h, kind);
    NewSlots(h, kind);
    NewOrdered(h, kind);
    NewShape(h, kind);
    NewTrees(h, kind);
    NewBalanced(h, kind);
    GrowOwners(h, r);
  }

  lemma NewBalanced(h: Heap, kind: BuilderType)
    requires Ordered(h) && SlotsSound(h) && Balanced(h, multiset{})
    ensures Balanced(New(h, kind), multiset{})
  {
    NewSlots(h, kind);
    NewShape(h, kind);
    assert h.next !in h.held;
    GrowBalanced(h, New(h, kind));
  }

  lemma RefKeeps(h: Heap, w: Handle)
    requires Inv(h, multiset{}, {}) && w in h.live
    ensures Inv(Ref(h, w), multiset{}, {})
  {
    RefRecounts(h, w);
    Recount(h, Ref(h, w), multiset{}, multiset{}, {});
  }

  lemma RefRecounts(h: Heap, w: Handle)
    requires Balanced(h, multiset{}) && w in h.live
    ensures Recounted(h, Ref(h, w), multiset{}, multiset{})
  {
  }

  lemma ReleaseKeeps(h: Heap, w: Handle)
    requires Inv(h, multiset{}, {}) && w in h.held
    ensures Inv(Release(h, w), multiset{}, {})
  {
    var g := h.(held := h.held - multiset{w});
    Recount(h, g, multiset{}, multiset{w}, {});
    assert multiset{} + multiset{w} == multiset{w};
    UnrefKeeps(g, w, multiset{}, {});
  }

  lemma IncrementKeeps(h: Heap, w: Handle)
    requires Inv(h, multiset{}, {}) && w in h.live
    ensures Inv(Increment(h, w), multiset{w}, {})
  {
    IncrementRecounts(h, w);
    Recount(h, Increment(h, w), multiset{}, multiset{w}, {});
  }

  lemma IncrementRecounts(h: Heap, w: Handle)
    requires Balanced(h, multiset{}) && w in h.live
    ensures Recounted(h, Increment(h, w), multiset{}, multiset{w})
  {
  }

  lemma RunDisposeKeeps(h: Heap, w: Handle)
    requires Inv(h, multiset{}, {}) && w in h.live
    ensures Inv(RunDispose(h, w), multiset{}, {})
  {
    var g := Increment(h, w);
    IncrementKeeps(h, w);
    DisposeKeeps(g, w, multiset{w}, {});
    assert multiset{} + multiset{w} == multiset{w};
    UnrefKeeps(Dispose(g, w), w, multiset{}, {});
  }

  // Getters: w's slots grow from o.Slots() to o'.Slots() by exactly the new handles.

  ghost predicate Grows(h: Heap, w: Handle, o': Wrapper, kids: seq<Wrapper>) {
    && w in h.live
    && (var o := h.live[w];
        && o'.raw == o.raw && o'.haveOwnership == o.haveOwnership && o'.refs == o.refs
        && o.raw.Some?
        && NoDuplicates(o'.Slots())
        && (forall c :: c in o'.Slots() <==> c in o.Slots() || h.next <= c < h.next + |kids|)
        && (forall c <- o.fields :: c in o'.fields)
        && (forall i | 0 <= i < |kids| ::
              && kids[i].refs == 1 && kids[i].Slots() == [] && kids[i].raw.Some?
              && kids[i].raw.value.tree == o.raw.value.tree && kids[i].raw.value.path != []
              && (kids[i].haveOwnership ==> h.next + i in o'.fields)))
  }

  /** What Attach does, read off its result. */
  ghost predicate Attached(h: Heap, r: Heap, w: Handle, o': Wrapper, kids: seq<Wrapper>) {
    && w in h.live && w < h.next
    && r == h.(live := r.live, next := h.next + |kids|)
    && (forall c :: c in r.live <==> c in h.live || h.next <= c < r.next)
    && (forall c <- h.live :: r.live[c] == if c == w then o' else h.live[c])
    && (forall c: Handle | h.next <= c < r.next :: r.live[c] == kids[c - h.next])
  }

  lemma AttachAttaches(h: Heap, w: Handle, o': Wrapper, kids: seq<Wrapper>)
    requires w in h.live && (forall c <- h.live :: c < h.next)
    ensures Attached(h, Attach(h, w, o', kids), w, o', kids)
  {
  }

  lemma AttachShape(h: Heap, r: Heap, w: Handle, o': Wrapper, kids: seq<Wrapper>)
    requires Ordered(h) && SlotsSound(h) && Grows(h, w, o', kids) && Attached(h, r, w, o', kids)
    ensures Ordered(r) && SlotsSound(r)
    ensures forall p, c: Handle :: InSlotOf(r, p, c) <==> InSlotOf(h, p, c) || (p == w && h.next <= c < r.next)
    ensures forall p, c | InFieldsOf(h, p, c) :: InFieldsOf(r, p, c)
    ensures forall c: Handle :: Slotted(r, c) <==> Slotted(h, c) || h.next <= c < r.next
  {
    forall p, c: Handle ensures InSlotOf(r, p, c) <==> InSlotOf(h, p, c) || (p == w && h.next <= c < r.next) {
      if p in r.live && p !in h.live { assert r.live[p].Slots() == []; }
    }
    forall c: Handle ensures Slotted(r, c) <==> Slotted(h, c) || h.next <= c < r.next {
      if Slotted(h, c) { var p :| InSlotOf(h, p, c); assert InSlotOf(r, p, c); }
      if h.next <= c < r.next { assert InSlotOf(r, w, c); }
      if Slotted(r, c) { var p :| InSlotOf(r, p, c); assert InSlotOf(h, p, c) || h.next <= c < r.next; }
    }
    forall p: Handle, q: Handle, c: Handle | InSlotOf(r, p, c) && InSlotOf(r, q, c)
      ensures p == q && c in r.live && p < c < r.next
    {
      assert InSlotOf(h, p, c) || p == w;
      assert InSlotOf(h, q, c) || q == w;
    }
    forall p <- r.live ensures NoDuplicates(r.live[p].Slots()) {
      if p !in h.live { assert r.live[p].Slots() == []; }
    }
  }

  lemma AttachBalanced(h: Heap, r: Heap, w: Handle, o': Wrapper, kids: seq<Wrapper>)
    requires Ordered(h) && SlotsSound(h) && Balanced(h, multiset{})
    requires Grows(h, w, o', kids) && Attached(h, r, w, o', kids)
    ensures Balanced(r, multiset{})
  {
    AttachShape(h, r, w, o', kids);
    GrowBalanced(h, r);
  }

  lemma AttachOwners(h: Heap, r: Heap, w: Handle, o': Wrapper, kids: seq<Wrapper>)
    requires Ordered(h) && SlotsSound(h) && OwnersSound(h, {})
    requires Grows(h, w, o', kids) && Attached(h, r, w, o', kids)
    ensures OwnersSound(r, {})
  {
    AttachShape(h, r, w, o', kids);
    forall c | c in r.live && c !in h.live && r.live[c].haveOwnership ensures InFieldsOf(r, w, c) {
      assert r.live[c] == kids[c - h.next];
    }
    GrowOwners(h, r);
  }

  lemma AttachTrees(h: Heap, r: Heap, w: Handle, o': Wrapper, kids: seq<Wrapper>)
    requires Ordered(h) && TreesSound(h) && Grows(h, w, o', kids) && Attached(h, r, w, o', kids)
    ensures TreesSound(r)
  {
    forall c <- r.live
      ensures r.live[c].raw.Some? ==> r.live[c].raw.value.tree < |r.roots|
      ensures IsRoot(r.live[c]) ==> c in h.live && IsRoot(h.live[c])
    {
      if c !in h.live { assert r.live[c] == kids[c - h.next]; }
    }
  }

  lemma AttachKeeps(h: Heap, w: Handle, o': Wrapper, kids: seq<Wrapper>)
    requires Inv(h, multiset{}, {}) && Grows(h, w, o', kids)
    ensures Inv(Attach(h, w, o', kids), multiset{}, {})
  {
    var r := Attach(h, w, o', kids);
    AttachAttaches(h, w, o', kids);
    AttachShape(h, r, w, o', kids);
    AttachTrees(h, r, w, o', kids);
    AttachBalanced(h, r, w, o', kids);
    AttachOwners(h, r, w, o', kids);
  }

  /** One more handle in the middle of the slots. */
  lemma GetterKeeps(h: Heap, w: Handle, o': Wrapper, child: Wrapper, before: seq<Handle>, after: seq<Handle>)
    requires Inv(h, multiset{}, {}) && Usable(h, w)
    requires var o := h.live[w];
      && o'.raw == o.raw && o'.haveOwnership == o.haveOwnership && o'.refs == o.refs && o'.fields == o.fields
      && o.Slots() == before + after && o'.Slots() == before + [h.next] + after
      && child.refs == 1 && child.Slots() == [] && !child.haveOwnership
      && child.raw.Some? && child.raw.value.tree == o.raw.value.tree && child.raw.value.path != []
    ensures Inv(Attach(h, w, o', [child]), multiset{}, {})
  {
    var o := h.live[w];
    assert forall c <- o.Slots() :: InSlotOf(h, w, c);
    assert h.next !in before + after;
    InsertDistinct(before, h.next, after);
    AttachKeeps(h, w, o', [child]);
  }

  lemma InsertDistinct<T>(before: seq<T>, x: T, after: seq<T>)
    requires NoDuplicates(before + after) && x !in before + after
    ensures NoDuplicates(before + [x] + after)
    ensures forall c :: c in before + [x] + after <==> c in before + after || c == x
  {
    var s, s' := before + after, before + [x] + after;
    assert forall i | 0 <= i < |s'| :: i != |before| ==> s'[i] == s[if i < |before| then i else i - 1];
    assert x == s'[|before|];
    assert forall i | 0 <= i < |s| :: s[i] == s'[if i < |before| then i else i + 1];
  }

  lemma RegroupSlots<T>(a: seq<T>, b: seq<T>, c: seq<T>, d: seq<T>)
    ensures a + b + c + d == a + (b + (c + d)) == a + b + (c + d)
    ensures a == [] ==> a + (b + (c + d)) == b + (c + d)
    ensures b == [] ==> a + b + (c + d) == a + (c + d)
    ensures [] + a + (b + (c + d)) == a + (b + (c + d))
  {
  }

  lemma GetValueKeeps(h: Heap, w: Handle)
    requires Inv(h, multiset{}, {}) && w in h.live && (h.live[w].value.None? ==> Usable(h, w))
    requires h.live[w].kind.List? || h.live[w].kind.LargeList? || h.live[w].kind.Map?
    ensures Inv(GetValue(h, w), multiset{}, {})
  {
    var o := h.live[w];
    if o.value.None? {
      var before := ToSeq(o.key) + ToSeq(o.item);
      var o' := o.(value := Some(h.next));
      assert o.Slots() == before + o.fields && o'.Slots() == before + [h.next] + o.fields;
      GetterKeeps(h, w, o', ValueChild(o), before, o.fields);
    }
  }

  lemma GetKeyKeeps(h: Heap, w: Handle)
    requires Inv(h, multiset{}, {}) && w in h.live && h.live[w].kind.Map? && (h.live[w].key.None? ==> Usable(h, w))
    ensures Inv(GetKey(h, w), multiset{}, {})
  {
    var o := h.live[w];
    if o.key.None? {
      var after := ToSeq(o.item) + (ToSeq(o.value) + o.fields);
      var o' := o.(key := Some(h.next));
      RegroupSlots([], ToSeq(o.item), ToSeq(o.value), o.fields);
      RegroupSlots([h.next], ToSeq(o.item), ToSeq(o.value), o.fields);
      GetterKeeps(h, w, o', KeyChild(o), [], after);
    }
  }

  lemma GetItemKeeps(h: Heap, w: Handle)
    requires Inv(h, multiset{}, {}) && w in h.live && h.live[w].kind.Map? && (h.live[w].item.None? ==> Usable(h, w))
    ensures Inv(GetItem(h, w), multiset{}, {})
  {
    var o := h.live[w];
    if o.item.None? {
      var after := ToSeq(o.value) + o.fields;
      var o' := o.(item := Some(h.next));
      RegroupSlots(ToSeq(o.key), [], ToSeq(o.value), o.fields);
      RegroupSlots(ToSeq(o.key), [h.next], ToSeq(o.value), o.fields);
      GetterKeeps(h, w, o', ItemChild(o), ToSeq(o.key), after);
    }
  }

  lemma GetFieldsKeeps(h: Heap, w: Handle)
    requires Inv(h, multiset{}, {}) && w in h.live && h.live[w].kind.Struct?
    requires h.live[w].fields == [] ==> Usable(h, w)
    ensures Inv(GetFields(h, w), multiset{}, {})
  {
    var o := h.live[w];
    if o.fields == [] {
      FieldsGrow(h, w);
      AttachKeeps(h, w, o.(fields := Range(h.next, |o.kind.fieldTypes|)), FieldWrappers(o));
    }
  }

  lemma FieldsGrow(h: Heap, w: Handle)
    requires Ordered(h) && SlotsSound(h)
    requires w in h.live && h.live[w].kind.Struct? && h.live[w].fields == [] && h.live[w].raw.Some?
    ensures var o := h.live[w];
      Grows(h, w, o.(fields := Range(h.next, |o.kind.fieldTypes|)), FieldWrappers(o))
  {
    var o := h.live[w];
    var n := |o.kind.fieldTypes|;
    var fields := Range(h.next, n);
    var o' := o.(fields := fields);
    assert o.Slots() == o.Singles();
    assert o'.Slots() == o.Slots() + fields;
    assert forall c <- o.Slots() :: c < h.next;
    AppendRange(o.Slots(), h.next, n);
    InConcat(o.Slots(), fields);
    FreshFields(o);
  }

  lemma InConcat<T>(a: seq<T>, b: seq<T>)
    ensures forall c :: c in a + b <==> c in a || c in b
  {
  }

  lemma FreshFields(o: Wrapper)
    requires o.kind.Struct? && o.raw.Some?
    ensures |FieldWrappers(o)| == |o.kind.fieldTypes|
    ensures forall i | 0 <= i < |o.kind.fieldTypes| ::
      var kid := FieldWrappers(o)[i];
      && kid.refs == 1 && kid.Slots() == [] && kid.raw.Some?
      && kid.raw.value.tree == o.raw.value.tree && kid.raw.value.path != []
  {
    forall i | 0 <= i < |o.kind.fieldTypes| ensures FieldWrappers(o)[i].Slots() == [] {
      assert FieldWrappers(o)[i].Singles() == [];
    }
  }

  lemma AppendRange(s: seq<Handle>, lo: Handle, n: nat)
    requires NoDuplicates(s) && forall x <- s :: x < lo
    ensures NoDuplicates(s + Range(lo, n))
  {
    assert forall i | 0 <= i < |s| :: s[i] in s;
  }

  // ---------------------------------------------------------------- runs

  /** What a client may do, in any order and any number of times. */
  datatype Op =
    | Create(kind: BuilderType)
    | AskValue(w: Handle)
    | AskKey(w: Handle)
    | AskItem(w: Handle)
    | AskFields(w: Handle)
    | Hold(w: Handle)
    | GiveBack(w: Handle)
    | Discard(w: Handle)

  /** Clients name existing wrappers, give back only references they hold, and make a getter
      follow a raw pointer only while it is usable. */
  predicate Legal(h: Heap, op: Op) {
    match op
    case Create(_) => true
    case AskValue(w) =>
      && w in h.live && (h.live[w].value.None? ==> Usable(h, w))
      && (h.live[w].kind.List? || h.live[w].kind.LargeList? || h.live[w].kind.Map?)
    case AskKey(w) => w in h.live && h.live[w].kind.Map? && (h.live[w].key.None? ==> Usable(h, w))
    case AskItem(w) => w in h.live && h.live[w].kind.Map? && (h.live[w].item.None? ==> Usable(h, w))
    case AskFields(w) => w in h.live && h.live[w].kind.Struct? && (h.live[w].fields == [] ==> Usable(h, w))
    case Hold(w) => w in h.live
    case GiveBack(w) => w in h.held && w < h.next
    case Discard(w) => w in h.live
  }

  function Step(h: Heap, op: Op): Heap
    requires Ordered(h) && Legal(h, op)
  {
    match op
    case Create(kind) => New(h, kind)
    case AskValue(w) => GetValue(h, w)
    case AskKey(w) => GetKey(h, w)
    case AskItem(w) => GetItem(h, w)
    case AskFields(w) => GetFields(h, w)
    case Hold(w) => Ref(h, w)
    case GiveBack(w) => Release(h, w)
    case Discard(w) => RunDispose(h, w)
  }

  lemma StepKeeps(h: Heap, op: Op)
    requires Inv(h, multiset{}, {}) && Legal(h, op)
    ensures Inv(Step(h, op), multiset{}, {})
  {
    match op
    case Create(kind) => NewKeeps(h, kind);
    case AskValue(w) => GetValueKeeps(h, w);
    case AskKey(w) => GetKeyKeeps(h, w);
    case AskItem(w) => GetItemKeeps(h, w);
    case AskFields(w) => GetFieldsKeeps(h, w);
    case Hold(w) => RefKeeps(h, w);
    case GiveBack(w) => ReleaseKeeps(h, w);
    case Discard(w) => RunDisposeKeeps(h, w);
  }

  /** What a call does to the references that clients hold. */
  lemma StepHeld(h: Heap, op: Op)
    requires Ordered(h) && Legal(h, op)
    ensures Step(h, op).held == match op
      case Create(_) => h.held + multiset{h.next}
      case Hold(w) => h.held + multiset{w}
      case GiveBack(w) => h.held - multiset{w}
      case _ => h.held
  {
  }

  /** Giving back one of several references leaves the wrapper with one reference less, and frees
      and deletes nothing. */
  lemma GiveBackOneOfSeveral(h: Heap, w: Handle)
    requires Inv(h, multiset{}, {}) && h.held[w] > 1 && Legal(h, GiveBack(w))
    ensures var r := Step(h, GiveBack(w));
      && r.live.Keys == h.live.Keys && r.deletes == h.deletes
      && w in r.live && r.live[w] == h.live[w].(refs := h.live[w].refs - 1)
  {
    assert h.live[w].refs == Claims(h, w, multiset{});
  }

  /** Giving back the last reference to a wrapper that is in no slot frees it. */
  lemma GiveBackLast(h: Heap, w: Handle)
    requires Inv(h, multiset{}, {}) && h.held[w] == 1 && !Slotted(h, w) && Legal(h, GiveBack(w))
    ensures w !in Step(h, GiveBack(w)).live
  {
    assert h.live[w].refs == Claims(h, w, multiset{}) == 1;
  }

  /** Taking a reference adds one to the count of that wrapper and touches nothing else. */
  lemma HoldAddsOne(h: Heap, w: Handle)
    requires Ordered(h) && Legal(h, Hold(w))
    ensures var r := Step(h, Hold(w));
      && r.live == h.live[w := h.live[w].(refs := h.live[w].refs + 1)]
      && r.deletes == h.deletes && r.roots == h.roots && r.next == h.next
  {
  }

  /** Taking a reference and giving it back changes nothing. */
  lemma HoldThenGiveBack(h: Heap, w: Handle)
    requires Inv(h, multiset{}, {}) && w in h.held
    ensures Legal(h, Hold(w)) && Ordered(Step(h, Hold(w))) && Legal(Step(h, Hold(w)), GiveBack(w))
    ensures Step(Step(h, Hold(w)), GiveBack(w)) == h
  {
    assert w in h.live && h.live[w].refs > 0;
    MayGiveBack(h, w);
    RefThenRelease(h, w);
  }

  lemma MayGiveBack(h: Heap, w: Handle)
    requires Ordered(h) && w in h.live
    ensures Ordered(Ref(h, w)) && Legal(Ref(h, w), GiveBack(w))
  {
  }

  lemma IncrementThenUnref(h: Heap, w: Handle)
    requires Ordered(h) && w in h.live && h.live[w].refs > 0
    ensures Unref(Increment(h, w), w) == h
  {
    assert Increment(h, w).live[w := h.live[w]] == h.live;
  }

  lemma RefThenRelease(h: Heap, w: Handle)
    requires Ordered(h) && w in h.live && h.live[w].refs > 0 && Ordered(Ref(h, w))
    ensures Release(Ref(h, w), w) == h
  {
    assert h.held + multiset{w} - multiset{w} == h.held;
    assert Ref(h, w).(held := h.held) == Increment(h, w);
    IncrementThenUnref(h, w);
  }

  /** A dispose by a client empties the slots of the wrapper and keeps the rest of it. */
  lemma DiscardEmpties(h: Heap, w: Handle)
    requires Inv(h, multiset{}, {}) && w in h.live
    ensures var r := Step(h, Discard(w));
      w in r.live && r.live[w] == h.live[w].Emptied()
  {
    assert h.live[w].refs > 0;
    RunDisposeEmpties(h, w);
  }

  lemma RunDisposeEmpties(h: Heap, w: Handle)
    requires Ordered(h) && w in h.live && h.live[w].refs > 0
    ensures w in RunDispose(h, w).live && RunDispose(h, w).live[w] == h.live[w].Emptied()
  {
    var g := Increment(h, w);
    EmptiedTwice(h.live[w]);
    UnrefShared(Dispose(g, w), w);
  }

  lemma UnrefShared(h: Heap, w: Handle)
    requires Ordered(h) && w in h.live && h.live[w].refs > 1
    ensures w in Unref(h, w).live && Unref(h, w).live[w] == h.live[w].(refs := h.live[w].refs - 1)
  {
  }

  lemma EmptiedTwice(o: Wrapper)
    ensures var e := o.(refs := o.refs + 1).Emptied();
      e.refs == o.refs + 1 && e.(refs := e.refs - 1) == o.Emptied()
  {
  }

  /** What a client may do with a builder it holds while the builder's tree lives: every call that
      its kind of builder has. */
  lemma ClientMay(h: Heap, w: Handle)
    requires Inv(h, multiset{}, {}) && w in h.held
    ensures Legal(h, Hold(w)) && Legal(h, GiveBack(w)) && Legal(h, Discard(w))
    ensures h.live[w].raw.Some? && h.roots[h.live[w].raw.value.tree] in h.live ==>
      && (h.live[w].kind.List? || h.live[w].kind.LargeList? || h.live[w].kind.Map? ==> Legal(h, AskValue(w)))
      && (h.live[w].kind.Map? ==> Legal(h, AskKey(w)) && Legal(h, AskItem(w)))
      && (h.live[w].kind.Struct? ==> Legal(h, AskFields(w)))
  {
    assert w in h.live;
  }

  /** A raw pointer may be followed exactly while the first wrapper of its tree lives. */
  lemma UsableWhileRootLives(h: Heap, w: Handle)
    requires Inv(h, multiset{}, {}) && w in h.live && h.live[w].raw.Some?
    ensures h.live[w].raw.value.tree < |h.roots|
    ensures Usable(h, w) <==> h.roots[h.live[w].raw.value.tree] in h.live
  {
  }

  // ---------------------------------------------------------------- the raw tree

  /** The type of the raw builder below one of type `kind`, as Arrow builds them: a list has its
      values, a struct its fields, and a map a list of structs of key and item. */
  function TypeBelow(kind: BuilderType, steps: seq<nat>): Option<BuilderType>
    decreases |steps|
  {
    if steps == [] then Some(kind)
    else match kind
      case Leaf => None
      case List(e) => if steps[0] == 0 then TypeBelow(e, steps[1..]) else None
      case LargeList(e) => if steps[0] == 0 then TypeBelow(e, steps[1..]) else None
      case Struct(fs) => if steps[0] < |fs| then TypeBelow(fs[steps[0]], steps[1..]) else None
      case Map(k, i) => if steps[0] == 0 then TypeBelow(List(Struct([k, i])), steps[1..]) else None
  }

  /** The child wraps the raw builder `steps` below its parent's, which has the child's type. */
  ghost predicate WrapsBelow(o: Wrapper, child: Wrapper, steps: seq<nat>) {
    && o.raw.Some? && child.raw == Some(Below(o.raw.value, steps)) && TypeBelow(o.kind, steps) == Some(child.kind)
  }

  /** The value builder of a list wraps its values, that of a map its entries. */
  lemma ValueChildWraps(o: Wrapper)
    requires (o.kind.List? || o.kind.LargeList? || o.kind.Map?) && o.raw.Some?
    ensures WrapsBelow(o, ValueChild(o), if o.kind.Map? then [0, 0] else [0])
    ensures !ValueChild(o).haveOwnership
  {
    assert [0, 0][1..] == [0] && [0][1..] == [];
    assert forall kind :: TypeBelow(kind, []) == Some(kind);
  }

  /** Field builder i of a struct wraps its i-th field. */
  lemma FieldWraps(o: Wrapper, i: nat)
    requires o.kind.Struct? && o.raw.Some? && i < |o.kind.fieldTypes|
    ensures |FieldWrappers(o)| == |o.kind.fieldTypes|
    ensures WrapsBelow(o, FieldWrappers(o)[i], [i]) && FieldWrappers(o)[i].haveOwnership
  {
    assert [i][1..] == [];
  }

  /** The key and item builders of a map wrap the fields of its entries. */
  lemma KeyAndItemWrap(o: Wrapper)
    requires o.kind.Map? && o.raw.Some?
    ensures WrapsBelow(o, KeyChild(o), [0, 0, 0]) && WrapsBelow(o, ItemChild(o), [0, 0, 1])
    ensures !KeyChild(o).haveOwnership && !ItemChild(o).haveOwnership
  {
    var e := Struct([o.kind.keyType, o.kind.itemType]);
    assert [0, 0, 0][1..] == [0, 0] && [0, 0][1..] == [0] && [0][1..] == [];
    assert [0, 0, 1][1..] == [0, 1] && [0, 1][1..] == [1] && [1][1..] == [];
    assert TypeBelow(e, [0]) == Some(o.kind.keyType) && TypeBelow(e, [1]) == Some(o.kind.itemType);
    assert TypeBelow(List(e), [0, 0]) == TypeBelow(e, [0]) && TypeBelow(List(e), [0, 1]) == TypeBelow(e, [1]);
  }

  /** A run: illegal operations are not performed, so every legal run is one of these. */
  ghost function Run(h: Heap, ops: seq<Op>): (r: Heap)
    requires Inv(h, multiset{}, {})
    ensures Inv(r, multiset{}, {})
    decreases ops
  {
    if ops == [] then h
    else if Legal(h, ops[0]) then
      StepKeeps(h, ops[0]);
      Run(Step(h, ops[0]), ops[1..])
    else Run(h, ops[1..])
  }

  lemma RunNext(h: Heap, ops: seq<Op>, i: nat)
    requires Inv(h, multiset{}, {}) && i < |ops|
    ensures Legal(h, ops[i]) ==> Inv(Step(h, ops[i]), multiset{}, {})
    ensures Run(h, ops[i..]) == if Legal(h, ops[i]) then Run(Step(h, ops[i]), ops[i + 1..]) else Run(h, ops[i + 1..])
  {
    var rest := ops[i..];
    assert rest != [] && rest[0] == ops[i] && rest[1..] == ops[i + 1..];
    if Legal(h, ops[i]) {
      StepKeeps(h, ops[i]);
    }
  }

  /** How often the `delete` calls so far have freed the raw builder n. */
  function Deletions(deletes: seq<RawRef>, n: RawRef): nat {
    if deletes == [] then 0
    else (if deletes[0].Frees(n) then 1 else 0) + Deletions(deletes[1..], n)
  }

  lemma {:induction false} DeletionsOfDistinctRoots(deletes: seq<RawRef>, n: RawRef)
    requires NoDuplicates(deletes) && forall d <- deletes :: d.path == []
    ensures Deletions(deletes, n) == if RawRef(n.tree, []) in deletes then 1 else 0
  {
    if deletes == [] {
    } else {
      var rest := deletes[1..];
      assert forall i | 0 <= i < |rest| :: rest[i] == deletes[i + 1];
      assert forall d <- rest :: d in deletes;
      assert deletes == [deletes[0]] + rest;
      assert deletes[0] !in rest;
      DeletionsOfDistinctRoots(rest, n);
      assert deletes[0].Frees(n) <==> deletes[0] == RawRef(n.tree, []);
    }
  }

  /** With no client reference left, no wrapper is left: the oldest one would have neither
      a slot nor a client to hold it. */
  lemma {:induction false} NoneHeldNoneLive(h: Heap, w: Handle)
    requires Inv(h, multiset{}, {}) && h.held == multiset{}
    ensures w !in h.live
    decreases w
  {
    if w in h.live {
      assert Slotted(h, w);
      var p :| InSlotOf(h, p, w);
      NoneHeldNoneLive(h, p);
    }
  }

  /** No freed wrapper was touched, every raw builder has been deleted at most once, its tree has
      been deleted exactly when the tree's first wrapper is gone, and pointers into a tree whose
      first wrapper lives are usable. */
  ghost predicate DeletedOnce(h: Heap) {
    && !h.fault
    && (forall n: RawRef :: Deletions(h.deletes, n) <= 1)
    && (forall n: RawRef | n.tree < |h.roots| :: Deletions(h.deletes, n) == 1 <==> h.roots[n.tree] !in h.live)
    && (forall w <- h.live :: h.live[w].raw.Some? ==> h.live[w].raw.value.tree < |h.roots|)
    && (forall w | w in h.live && h.live[w].raw.Some? && h.roots[h.live[w].raw.value.tree] in h.live :: Usable(h, w))
  }

  /** No wrapper remains and every raw builder has been deleted exactly once. */
  ghost predicate AllDeleted(h: Heap) {
    h.live == map[] && forall n: RawRef | n.tree < |h.roots| :: Deletions(h.deletes, n) == 1
  }

  lemma InvMeansDeletedOnce(h: Heap)
    requires !h.fault && TreesSound(h)
    ensures DeletedOnce(h)
  {
    forall n: RawRef ensures Deletions(h.deletes, n) == if RawRef(n.tree, []) in h.deletes then 1 else 0 {
      DeletionsOfDistinctRoots(h.deletes, n);
    }
  }

  lemma NoneHeldAllDeleted(h: Heap)
    requires Inv(h, multiset{}, {}) && h.held == multiset{}
    ensures AllDeleted(h)
  {
    forall w ensures w !in h.live { NoneHeldNoneLive(h, w); }
    InvMeansDeletedOnce(h);
  }

  lemma EmptyHeapInv()
    ensures Inv(EMPTY_HEAP, multiset{}, {})
  {
  }

  /** The heap after a run that began with no builder. */
  ghost function AfterRun(ops: seq<Op>): (h: Heap)
    ensures Inv(h, multiset{}, {})
  {
    EmptyHeapInv();
    Run(EMPTY_HEAP, ops)
  }

  /** On every run nothing is deleted twice, and nothing stays once clients hold no reference. */
  lemma EveryRunDeletesOnce(ops: seq<Op>)
    ensures DeletedOnce(AfterRun(ops))
    ensures AfterRun(ops).held == multiset{} ==> AllDeleted(AfterRun(ops))
  {
    var h := AfterRun(ops);
    InvMeansDeletedOnce(h);
    if h.held == multiset{} {
      NoneHeldAllDeleted(h);
    }
  }

  /** A step deletes exactly the trees whose first wrapper it finalizes, and nothing else. */
  lemma StepDeletesWithRoot(h: Heap, op: Op, t: nat)
    requires Inv(h, multiset{}, {}) && Legal(h, op) && t < |h.roots|
    ensures var r := Step(h, op);
      && h.deletes <= r.deletes && h.roots <= r.roots
      && ((RawRef(t, []) in r.deletes && RawRef(t, []) !in h.deletes)
          <==> (h.roots[t] in h.live && h.roots[t] !in r.live))
  {
    StepKeeps(h, op);
    var r := Step(h, op);
    assert h.deletes <= r.deletes;
    assert h.roots <= r.roots;
    assert r.roots[t] == h.roots[t];
  }

  /** Giving back every held reference, in the given order. */
  ghost function GiveBackAll(h: Heap, order: seq<Handle>): (r: Heap)
    requires Inv(h, multiset{}, {}) && multiset(order) == h.held
    ensures Inv(r, multiset{}, {}) && r.roots == h.roots && r.held == multiset{}
    decreases order
  {
    if order == [] then h
    else
      FirstAndRest(order);
      ReleaseKeeps(h, order[0]);
      GiveBackAll(Release(h, order[0]), order[1..])
  }

  lemma FirstAndRest(order: seq<Handle>)
    requires order != []
    ensures order[0] in multiset(order) && multiset(order[1..]) == multiset(order) - multiset{order[0]}
  {
    assert order == [order[0]] + order[1..];
  }

  /** Whatever a run left behind, giving back every held reference, in any order, frees it. */
  lemma GivingBackFreesAll(ops: seq<Op>, order: seq<Handle>)
    requires multiset(order) == AfterRun(ops).held
    ensures AllDeleted(GiveBackAll(AfterRun(ops), order))
    ensures GiveBackAll(AfterRun(ops), order).roots == AfterRun(ops).roots
  {
    NoneHeldAllDeleted(GiveBackAll(AfterRun(ops), order));
  }

  // ---------------------------------------------------------------- aliasing

  ghost predicate Bounded(h: Heap) {
    forall w <- h.live :: w < h.next
  }

  lemma GetKeyGives(h: Heap, w: Handle)
    requires Bounded(h) && Legal(h, AskKey(w)) && h.live[w].key.None?
    ensures Attached(h, GetKey(h, w), w, h.live[w].(key := Some(h.next)), [KeyChild(h.live[w])])
  {
    AttachAttaches(h, w, h.live[w].(key := Some(h.next)), [KeyChild(h.live[w])]);
  }

  lemma GetItemGives(h: Heap, w: Handle)
    requires Bounded(h) && Legal(h, AskItem(w)) && h.live[w].item.None?
    ensures Attached(h, GetItem(h, w), w, h.live[w].(item := Some(h.next)), [ItemChild(h.live[w])])
  {
    AttachAttaches(h, w, h.live[w].(item := Some(h.next)), [ItemChild(h.live[w])]);
  }

  lemma GetValueGives(h: Heap, w: Handle)
    requires Bounded(h) && Legal(h, AskValue(w)) && h.live[w].value.None?
    ensures Attached(h, GetValue(h, w), w, h.live[w].(value := Some(h.next)), [ValueChild(h.live[w])])
  {
    AttachAttaches(h, w, h.live[w].(value := Some(h.next)), [ValueChild(h.live[w])]);
  }

  lemma GetFieldsGives(h: Heap, w: Handle)
    requires Bounded(h) && Legal(h, AskFields(w)) && h.live[w].fields == []
    ensures var o := h.live[w];
      Attached(h, GetFields(h, w), w, o.(fields := Range(h.next, |o.kind.fieldTypes|)), FieldWrappers(o))
  {
    var o := h.live[w];
    AttachAttaches(h, w, o.(fields := Range(h.next, |o.kind.fieldTypes|)), FieldWrappers(o));
  }

  /** The first call of the value getter fills the slot with a wrapper of the raw builder that holds
      the values. */
  lemma AskValueWraps(h: Heap, w: Handle)
    requires Bounded(h) && Legal(h, AskValue(w)) && h.live[w].value.None?
    ensures var o, r := h.live[w], GetValue(h, w);
      && w in r.live && r.live[w] == o.(value := Some(h.next)) && h.next in r.live
      && WrapsBelow(o, r.live[h.next], if o.kind.Map? then [0, 0] else [0]) && !r.live[h.next].haveOwnership
  {
    GetValueGives(h, w);
    ValueChildWraps(h.live[w]);
  }

  /** The first call of the field getter lists one wrapper for each field, in field order. */
  lemma AskFieldsWrap(h: Heap, w: Handle, i: nat)
    requires Bounded(h) && Legal(h, AskFields(w)) && h.live[w].fields == []
    requires i < |h.live[w].kind.fieldTypes|
    ensures var o, r := h.live[w], GetFields(h, w);
      && w in r.live && |r.live[w].fields| == |o.kind.fieldTypes|
      && r.live[w].fields[i] in r.live
      && WrapsBelow(o, r.live[r.live[w].fields[i]], [i]) && r.live[r.live[w].fields[i]].haveOwnership
  {
    GetFieldsGives(h, w);
    FieldWraps(h.live[w], i);
  }

  /** The two wrappers below the value builder of the map wrapper o. */
  lemma EntryFields(o: Wrapper, next: Handle)
    requires o.kind.Map? && o.raw.Some?
    ensures var v := ValueChild(o);
      && v.kind.Struct? && v.raw.Some? && v.fields == [] && !v.haveOwnership && |v.kind.fieldTypes| == 2
      && FieldWrappers(v) == [KeyChild(o).(haveOwnership := true), ItemChild(o).(haveOwnership := true)]
      && Range(next, 2) == [next, next + 1]
  {
    var path := o.raw.value.path;
    assert path + [0, 0] + [0] == path + [0, 0, 0];
    assert path + [0, 0] + [1] == path + [0, 0, 1];
  }

  lemma KeyIsNotItem(o: Wrapper)
    requires o.kind.Map? && o.raw.Some?
    ensures KeyChild(o).raw != ItemChild(o).raw
  {
    var path := o.raw.value.path;
    assert (path + [0, 0, 0])[|path| + 2] != (path + [0, 0, 1])[|path| + 2];
  }

  /** The wrappers from n on are the key, item and value builders of w and the two fields of the
      value builder. */
  ghost predicate Wired(h: Heap, w: Handle, n: Handle) {
    && w in h.live && h.live[w].key == Some(n) && h.live[w].item == Some(n + 1) && h.live[w].value == Some(n + 2)
    && n + 2 in h.live && h.live[n + 2].fields == [n + 3, n + 4] && !h.live[n + 2].haveOwnership
  }

  /** Two wrappers of one raw node, the first marked as owning it. */
  ghost predicate Shares(h: Heap, owner: Handle, other: Handle) {
    && owner in h.live && h.live[owner].raw.Some? && h.live[owner].haveOwnership
    && other in h.live && h.live[other].raw == h.live[owner].raw && !h.live[other].haveOwnership
  }

  ghost predicate Aliased(h: Heap, w: Handle, n: Handle) {
    Wired(h, w, n) && Shares(h, n + 3, n) && Shares(h, n + 4, n + 1) && h.live[n + 3].raw != h.live[n + 4].raw
  }

  /** After a child was attached to w, w is as usable as before. */
  lemma AttachedUsable(h: Heap, r: Heap, w: Handle, o': Wrapper, child: Wrapper)
    requires Bounded(h) && Usable(h, w) && Attached(h, r, w, o', [child]) && o'.raw == h.live[w].raw
    ensures Bounded(r) && Usable(r, w) && r.live[w] == o'
    ensures h.next in r.live && r.live[h.next] == child
    ensures child.raw.Some? && child.raw.value.tree == o'.raw.value.tree ==> Usable(r, h.next)
  {
  }

  lemma KeyStep(h: Heap, w: Handle)
    requires Bounded(h) && Usable(h, w) && h.live[w].kind.Map? && h.live[w].key.None?
    ensures var k, o := GetKey(h, w), h.live[w];
      && Attached(h, k, w, o.(key := Some(h.next)), [KeyChild(o)])
      && Bounded(k) && Usable(k, w) && k.live[w] == o.(key := Some(h.next))
  {
    var o := h.live[w];
    GetKeyGives(h, w);
    AttachedUsable(h, GetKey(h, w), w, o.(key := Some(h.next)), KeyChild(o));
  }

  lemma ItemStep(h: Heap, w: Handle)
    requires Bounded(h) && Usable(h, w) && h.live[w].kind.Map? && h.live[w].item.None?
    ensures var i, o := GetItem(h, w), h.live[w];
      && Attached(h, i, w, o.(item := Some(h.next)), [ItemChild(o)])
      && Bounded(i) && Usable(i, w) && i.live[w] == o.(item := Some(h.next))
  {
    var o := h.live[w];
    GetItemGives(h, w);
    AttachedUsable(h, GetItem(h, w), w, o.(item := Some(h.next)), ItemChild(o));
  }

  lemma ValueStep(h: Heap, w: Handle)
    requires Bounded(h) && Usable(h, w) && h.live[w].kind.Map? && h.live[w].value.None?
    ensures var g, o := GetValue(h, w), h.live[w];
      && Attached(h, g, w, o.(value := Some(h.next)), [ValueChild(o)])
      && Bounded(g) && Usable(g, h.next) && g.live[h.next] == ValueChild(o)
  {
    var o := h.live[w];
    GetValueGives(h, w);
    AttachedUsable(h, GetValue(h, w), w, o.(value := Some(h.next)), ValueChild(o));
  }

  /** The heap after a client has asked a map for its key, item and value builders, and the value
      builder for its fields. */
  function AskAll(h: Heap, w: Handle): (r: Heap)
    requires Bounded(h) && Usable(h, w) && h.live[w].kind.Map?
    requires h.live[w].key.None? && h.live[w].item.None? && h.live[w].value.None?
  {
    KeyStep(h, w);
    var k := GetKey(h, w);
    ItemStep(k, w);
    var i := GetItem(k, w);
    ValueStep(i, w);
    var g := GetValue(i, w);
    GetFields(g, i.next)
  }

  /** Then the key builder and field 0 are two wrappers of one raw node, and so are the item
      builder and field 1; only the fields are marked as owning. */
  lemma MapKeyAndItemAliased(h: Heap, w: Handle)
    requires Bounded(h) && Usable(h, w) && h.live[w].kind.Map?
    requires h.live[w].key.None? && h.live[w].item.None? && h.live[w].value.None?
    ensures Aliased(AskAll(h, w), w, h.next)
  {
    var o := h.live[w];
    var k := GetKey(h, w);
    KeyStep(h, w);
    var i := GetItem(k, w);
    ItemStep(k, w);
    SameMap(o, k.live[w]);
    var g := GetValue(i, w);
    ValueStep(i, w);
    SameMap(o, i.live[w]);
    FieldsOfEntries(g, AskAll(h, w), i.next, o);
    AliasedBy(h, k, i, g, AskAll(h, w), w, o);
  }

  lemma FieldsOfEntries(g: Heap, r: Heap, v: Handle, o: Wrapper)
    requires o.kind.Map? && o.raw.Some?
    requires Bounded(g) && v in g.live && g.live[v] == ValueChild(o)
    requires Legal(g, AskFields(v)) && r == GetFields(g, v)
    ensures Attached(g, r, v, ValueChild(o).(fields := [g.next, g.next + 1]),
                     [KeyChild(o).(haveOwnership := true), ItemChild(o).(haveOwnership := true)])
  {
    EntryFields(o, g.next);
    GetFieldsGives(g, v);
  }

  /** The heap before the fields are asked for. */
  lemma EntriesAsked(h: Heap, k: Heap, i: Heap, g: Heap, w: Handle, o: Wrapper)
    requires w in h.live && h.live[w] == o && o.kind.Map? && o.raw.Some?
    requires Attached(h, k, w, o.(key := Some(h.next)), [KeyChild(o)])
    requires Attached(k, i, w, k.live[w].(item := Some(k.next)), [ItemChild(o)])
    requires Attached(i, g, w, i.live[w].(value := Some(i.next)), [ValueChild(o)])
    ensures k.next == h.next + 1 && i.next == h.next + 2 && g.next == h.next + 3 && w < h.next
    ensures w in g.live && g.live[w] == o.(key := Some(h.next), item := Some(k.next), value := Some(i.next))
    ensures h.next in g.live && g.live[h.next] == KeyChild(o)
    ensures k.next in g.live && g.live[k.next] == ItemChild(o)
  {
    assert i.live[h.next] == KeyChild(o);
  }

  lemma AliasedBy(h: Heap, k: Heap, i: Heap, g: Heap, r: Heap, w: Handle, o: Wrapper)
    requires w in h.live && h.live[w] == o && o.kind.Map? && o.raw.Some?
    requires Attached(h, k, w, o.(key := Some(h.next)), [KeyChild(o)])
    requires Attached(k, i, w, k.live[w].(item := Some(k.next)), [ItemChild(o)])
    requires Attached(i, g, w, i.live[w].(value := Some(i.next)), [ValueChild(o)])
    requires Attached(g, r, i.next, ValueChild(o).(fields := [g.next, g.next + 1]),
                      [KeyChild(o).(haveOwnership := true), ItemChild(o).(haveOwnership := true)])
    ensures Aliased(r, w, h.next)
  {
    EntriesAsked(h, k, i, g, w, o);
    FieldsAliased(h.next, g, r, w, i.next, o);
  }

  lemma FieldsAliased(n: Handle, g: Heap, r: Heap, w: Handle, v: Handle, o: Wrapper)
    requires o.kind.Map? && o.raw.Some? && w < n && v == n + 2 && g.next == n + 3
    requires w in g.live && g.live[w] == o.(key := Some(n), item := Some(n + 1), value := Some(n + 2))
    requires n in g.live && g.live[n] == KeyChild(o)
    requires n + 1 in g.live && g.live[n + 1] == ItemChild(o)
    requires Attached(g, r, v, ValueChild(o).(fields := [g.next, g.next + 1]),
                      [KeyChild(o).(haveOwnership := true), ItemChild(o).(haveOwnership := true)])
    ensures Aliased(r, w, n)
  {
    KeyIsNotItem(o);
    assert r.live[n + 3] == KeyChild(o).(haveOwnership := true);
    assert r.live[n + 4] == ItemChild(o).(haveOwnership := true);
  }

  lemma SameMap(o: Wrapper, o': Wrapper)
    requires o.kind.Map? && o.raw.Some? && o'.kind == o.kind && o'.raw == o.raw
    ensures KeyChild(o') == KeyChild(o) && ItemChild(o') == ItemChild(o) && ValueChild(o') == ValueChild(o)
  {
  }
}
