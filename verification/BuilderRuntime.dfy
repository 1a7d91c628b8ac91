/**
 The wrapper code of array-builder.cpp, updating the object heap in place.  Each method is
 proved to do what the function of the same purpose in BuilderOwnership does, so every
 sequence of client calls keeps the invariant proved there.
 */
module BuilderRuntime {
  import opened Common
  import opened BuilderOwnership

  class Runtime {
    var live: map<Handle, Wrapper>
    var next: Handle
    var roots: seq<Handle>
    var deletes: seq<RawRef>
    var held: multiset<Handle>
    var fault: bool

    ghost function View(): Heap
      reads this
    {
      Heap(live, next, roots, deletes, held, fault)
    }

    /** Between client calls nothing is in flight. */
    ghost predicate Valid()
      reads this
    {
      Inv(View(), multiset{}, {})
    }

    constructor ()
      ensures Valid() && View() == EMPTY_HEAP
    {
      live, next, roots, deletes, held, fault := map[], 0, [], [], multiset{}, false;
    }

    // ---------------------------------------------------------------- GObject

    method UnrefObject(w: Handle)
      requires Ordered(View()) && w < next
      modifies this
      ensures View() == Unref(old(View()), w)
      decreases next - w, 1, 0
    {
      if w !in live {
        fault := true;
      } else if live[w].refs > 1 {
        live := live[w := live[w].(refs := live[w].refs - 1)];
      } else {
        DisposeObject(w);
        FinalizeObject(w);
      }
    }

    /** The dispose functions, in their own order: each slot is released and then cleared, and the
        fields are released one after the other before the list is cleared. */
    method DisposeObject(w: Handle)
      requires Ordered(View()) && w in live
      modifies this
      ensures View() == Dispose(old(View()), w)
      decreases next - w, 0, 1, 0
    {
      ghost var h := View();
      var o := live[w];
      DisposeStart(h, w);
      SinglesYounger(o, w, next);
      ghost var e := h.Put(w, o.Emptied());
      UnrefAllConcat(e, w, ToSeq(o.key), ToSeq(o.item), false);
      UnrefAllConcat(e, w, ToSeq(o.key) + ToSeq(o.item), ToSeq(o.value), false);
      ReleaseKey(w, o.Emptied());
      ReleaseItem(w, o.Emptied());
      ReleaseValue(w, o.Emptied());
      ReleaseFields(w, o.Emptied());
      PutSame(View(), w);
    }

    method ReleaseKey(w: Handle, ghost e: Wrapper)
      requires Ordered(View()) && w in live && e.Slots() == []
      modifies this
      ensures next == old(next) && Ordered(View()) && w in live && live[w] == old(live[w]).(key := None)
      ensures Ordered(old(View().Put(w, e))) && forall c <- ToSeq(old(live[w].key)) :: w < c < next
      ensures View().Put(w, e) == UnrefAll(old(View().Put(w, e)), w, ToSeq(old(live[w].key)), false)
      decreases next - w, 0, 0, 1
    {
      ghost var h, o := View(), live[w];
      SlotYounger(h, w, e);
      UnrefSlot(w, live[w].key);
      live := live[w := live[w].(key := None)];
      ReleasedApart(h, w, ToSeq(o.key), false, o.(key := None), e);
    }

    method ReleaseItem(w: Handle, ghost e: Wrapper)
      requires Ordered(View()) && w in live && e.Slots() == []
      modifies this
      ensures next == old(next) && Ordered(View()) && w in live && live[w] == old(live[w]).(item := None)
      ensures Ordered(old(View().Put(w, e))) && forall c <- ToSeq(old(live[w].item)) :: w < c < next
      ensures View().Put(w, e) == UnrefAll(old(View().Put(w, e)), w, ToSeq(old(live[w].item)), false)
      decreases next - w, 0, 0, 1
    {
      ghost var h, o := View(), live[w];
      SlotYounger(h, w, e);
      UnrefSlot(w, live[w].item);
      live := live[w := live[w].(item := None)];
      ReleasedApart(h, w, ToSeq(o.item), false, o.(item := None), e);
    }

    method ReleaseValue(w: Handle, ghost e: Wrapper)
      requires Ordered(View()) && w in live && e.Slots() == []
      modifies this
      ensures next == old(next) && Ordered(View()) && w in live && live[w] == old(live[w]).(value := None)
      ensures Ordered(old(View().Put(w, e))) && forall c <- ToSeq(old(live[w].value)) :: w < c < next
      ensures View().Put(w, e) == UnrefAll(old(View().Put(w, e)), w, ToSeq(old(live[w].value)), false)
      decreases next - w, 0, 0, 1
    {
      ghost var h, o := View(), live[w];
      SlotYounger(h, w, e);
      UnrefSlot(w, live[w].value);
      live := live[w := live[w].(value := None)];
      ReleasedApart(h, w, ToSeq(o.value), false, o.(value := None), e);
    }

    method ReleaseFields(w: Handle, ghost e: Wrapper)
      requires Ordered(View()) && w in live && e.Slots() == []
      modifies this
      ensures next == old(next) && w in live && live[w] == old(live[w]).(fields := [])
      ensures Ordered(old(View().Put(w, e))) && forall c <- old(live[w].fields) :: w < c < next
      ensures View().Put(w, e) == UnrefAll(old(View().Put(w, e)), w, old(live[w].fields), true)
      decreases next - w, 0, 0, 2
    {
      ghost var h, o := View(), live[w];
      SlotYounger(h, w, e);
      DisposeFields(w, live[w].fields);
      live := live[w := live[w].(fields := [])];
      ReleasedApart(h, w, o.fields, true, o.(fields := []), e);
    }

    /** The loop of the struct dispose. */
    method DisposeFields(w: Handle, fields: seq<Handle>)
      requires Ordered(View()) && w < next && forall c <- fields :: w < c < next
      modifies this
      ensures View() == UnrefAll(old(View()), w, fields, true)
      decreases next - w, 0, 0, 1
    {
      ghost var s := View();
      var i := 0;
      while i < |fields|
        invariant 0 <= i <= |fields|
        invariant next == s.next && Ordered(View())
        invariant forall c <- fields[..i] :: w < c < s.next
        invariant View() == UnrefAll(s, w, fields[..i], true)
      {
        assert fields[i] in fields && fields[..i + 1] == fields[..i] + [fields[i]];
        UnrefAllSnoc(s, w, fields[..i], fields[i], fields[..i + 1]);
        DisposeField(w, fields[i]);
        i := i + 1;
      }
      assert fields[..i] == fields;
    }

    method DisposeField(w: Handle, field: Handle)
      requires Ordered(View()) && w < field < next
      modifies this
      ensures View() == UnrefAll(old(View()), w, [field], true)
      decreases next - w, 0, 0, 0
    {
      assert [field][1..] == [];
      if field !in live {
        fault := true;
      } else {
        live := live[field := live[field].(raw := None)];
      }
      assert View() == NullRaw(old(View()), field);
      UnrefObject(field);
    }

    method UnrefSlot(w: Handle, slot: Option<Handle>)
      requires Ordered(View()) && w < next && (slot.Some? ==> w < slot.value < next)
      modifies this
      ensures View() == UnrefAll(old(View()), w, ToSeq(slot), false)
      decreases next - w, 0, 0, 0
    {
      if slot.Some? {
        UnrefObject(slot.value);
      }
    }

    method FinalizeObject(w: Handle)
      requires Ordered(View()) && w in live
      modifies this
      ensures View() == Finalize(old(View()), w)
    {
      var o := live[w];
      if o.haveOwnership && o.raw.Some? {
        deletes := deletes + [o.raw.value];
      }
      live := live - {w};
    }

    /** garrow_array_builder_new_raw; init sets have_ownership. */
    method NewRaw(kind: BuilderType, raw: RawRef) returns (w: Handle)
      modifies this`live, this`next
      ensures w == old(next) && next == w + 1
      ensures live == old(live)[w := FreshWrapper(kind, raw, true)]
    {
      w := next;
      live := live[w := FreshWrapper(kind, raw, true)];
      next := next + 1;
    }

    method ReleaseOwnership(w: Handle)
      requires w in live
      modifies this`live
      ensures live == old(live)[w := old(live)[w].(haveOwnership := false)]
    {
      live := live[w := live[w].(haveOwnership := false)];
    }

    // ---------------------------------------------------------------- what clients call

    method CreateBuilder(kind: BuilderType) returns (w: Handle)
      modifies this
      ensures View() == New(old(View()), kind) && w == old(next)
    {
      var tree := |roots|;
      w := NewRaw(kind, RawRef(tree, []));
      roots := roots + [w];
      held := held + multiset{w};
    }

    method GetValueBuilder(w: Handle) returns (v: Handle)
      requires Ordered(View()) && Legal(View(), AskValue(w))
      modifies this
      ensures View() == GetValue(old(View()), w)
      ensures w in live && live[w].value == Some(v)
    {
      assert w < next;
      if live[w].value.None? {
        var child := ValueChild(live[w]);
        var c := NewRaw(child.kind, child.raw.value);
        live := live[w := live[w].(value := Some(c))];
        ReleaseOwnership(c);
        AttachOne(old(View()), w, live[w], child);
      }
      v := live[w].value.value;
    }

    method GetKeyBuilder(w: Handle) returns (k: Handle)
      requires Ordered(View()) && Legal(View(), AskKey(w))
      modifies this
      ensures View() == GetKey(old(View()), w)
      ensures w in live && live[w].key == Some(k)
    {
      assert w < next;
      if live[w].key.None? {
        var kind, raw := live[w].kind.keyType, Below(live[w].raw.value, [0, 0, 0]);
        var c := NewRaw(kind, raw);
        live := live[w := live[w].(key := Some(c))];
        ReleaseOwnership(c);
        AttachOne(old(View()), w, live[w], FreshWrapper(kind, raw, false));
      }
      k := live[w].key.value;
    }

    method GetItemBuilder(w: Handle) returns (i: Handle)
      requires Ordered(View()) && Legal(View(), AskItem(w))
      modifies this
      ensures View() == GetItem(old(View()), w)
      ensures w in live && live[w].item == Some(i)
    {
      assert w < next;
      if live[w].item.None? {
        var kind, raw := live[w].kind.itemType, Below(live[w].raw.value, [0, 0, 1]);
        var c := NewRaw(kind, raw);
        live := live[w := live[w].(item := Some(c))];
        ReleaseOwnership(c);
        AttachOne(old(View()), w, live[w], FreshWrapper(kind, raw, false));
      }
      i := live[w].item.value;
    }

    method GetFieldBuilders(w: Handle) returns (fields: seq<Handle>)
      requires Ordered(View()) && Legal(View(), AskFields(w))
      modifies this
      ensures View() == GetFields(old(View()), w)
      ensures w in live && fields == live[w].fields
    {
      assert w < next;
      if live[w].fields == [] {
        var o := live[w];
        var list := NewFieldWrappers(o);
        live := live[w := o.(fields := list)];
      }
      fields := live[w].fields;
    }

    /** One wrapper for each field; the list is built by prepending and then reversed. */
    method NewFieldWrappers(o: Wrapper) returns (fields: seq<Handle>)
      requires o.kind.Struct? && o.raw.Some?
      modifies this`live, this`next
      ensures fields == Range(old(next), |o.kind.fieldTypes|)
      ensures live == AddAll(old(live), old(next), FieldWrappers(o))
      ensures next == old(next) + |o.kind.fieldTypes|
    {
      ghost var live0, next0 := live, next;
      var list: seq<Handle> := [];
      var i := 0;
      while i < |o.kind.fieldTypes|
        invariant 0 <= i <= |o.kind.fieldTypes|
        invariant live == FieldsAdded(live0, next0, o, i)
        invariant next == next0 + i
        invariant Reversed(list) == Range(next0, i)
      {
        FieldAdded(live0, next0, o, i);
        var field := NewRaw(o.kind.fieldTypes[i], Below(o.raw.value, [i]));
        ReversedCons(field, list);
        list := [field] + list;
        i := i + 1;
      }
      AllFieldsAdded(live0, next0, o);
      fields := Reversed(list);
    }

    /** g_object_ref by a client. */
    method HoldBuilder(w: Handle)
      requires Ordered(View()) && Legal(View(), Hold(w))
      modifies this
      ensures View() == Ref(old(View()), w)
    {
      live := live[w := live[w].(refs := live[w].refs + 1)];
      held := held + multiset{w};
    }

    /** g_object_unref by a client. */
    method GiveBackBuilder(w: Handle)
      requires Ordered(View()) && Legal(View(), GiveBack(w))
      modifies this
      ensures View() == Release(old(View()), w)
    {
      held := held - multiset{w};
      UnrefObject(w);
    }

    /** g_object_run_dispose by a client. */
    method DiscardBuilder(w: Handle)
      requires Ordered(View()) && Legal(View(), Discard(w))
      modifies this
      ensures View() == RunDispose(old(View()), w)
    {
      live := live[w := live[w].(refs := live[w].refs + 1)];
      assert View() == Increment(old(View()), w);
      DisposeObject(w);
      UnrefObject(w);
    }

    /** One client call. */
    method Perform(op: Op)
      requires Valid() && Legal(View(), op)
      modifies this
      ensures Valid() && View() == Step(old(View()), op)
    {
      StepKeeps(View(), op);
      match op
      case Create(kind) => var _ := CreateBuilder(kind);
      case AskValue(w) => var _ := GetValueBuilder(w);
      case AskKey(w) => var _ := GetKeyBuilder(w);
      case AskItem(w) => var _ := GetItemBuilder(w);
      case AskFields(w) => var _ := GetFieldBuilders(w);
      case Hold(w) => HoldBuilder(w);
      case GiveBack(w) => GiveBackBuilder(w);
      case Discard(w) => DiscardBuilder(w);
    }

    /** A client program: the calls that are legal are made, in order. */
    method PerformAll(ops: seq<Op>)
      requires Valid()
      modifies this
      ensures Valid() && View() == Run(old(View()), ops)
    {
      var i := 0;
      while i < |ops|
        invariant 0 <= i <= |ops|
        invariant Valid() && Run(View(), ops[i..]) == Run(old(View()), ops)
      {
        RunNext(View(), ops, i);
        if Legal(Heap(live, next, roots, deletes, held, fault), ops[i]) {
          Perform(ops[i]);
        }
        i := i + 1;
      }
    }
  }

  /** The wrappers after the first i fields were wrapped. */
  ghost function FieldsAdded(live: map<Handle, Wrapper>, next: Handle, o: Wrapper, i: nat): map<Handle, Wrapper>
    requires o.kind.Struct? && o.raw.Some? && i <= |o.kind.fieldTypes|
  {
    AddAll(live, next, FieldWrappers(o)[..i])
  }

  lemma FieldAdded(live: map<Handle, Wrapper>, next: Handle, o: Wrapper, i: nat)
    requires o.kind.Struct? && o.raw.Some? && i < |o.kind.fieldTypes|
    ensures FieldsAdded(live, next, o, i + 1)
         == FieldsAdded(live, next, o, i)[next + i := FreshWrapper(o.kind.fieldTypes[i], Below(o.raw.value, [i]), true)]
    ensures Range(next, i + 1) == Range(next, i) + [next + i]
  {
    AddAllSnoc(live, next, FieldWrappers(o), i);
  }

  lemma AllFieldsAdded(live: map<Handle, Wrapper>, next: Handle, o: Wrapper)
    requires o.kind.Struct? && o.raw.Some?
    ensures FieldsAdded(live, next, o, 0) == live
    ensures FieldsAdded(live, next, o, |o.kind.fieldTypes|) == AddAll(live, next, FieldWrappers(o))
  {
    assert FieldWrappers(o)[..|o.kind.fieldTypes|] == FieldWrappers(o);
  }

  lemma AddAllSnoc(live: map<Handle, Wrapper>, next: Handle, kids: seq<Wrapper>, i: nat)
    requires i < |kids|
    ensures AddAll(live, next, kids[..i + 1]) == AddAll(live, next, kids[..i])[next + i := kids[i]]
  {
    var more, less := AddAll(live, next, kids[..i + 1]), AddAll(live, next, kids[..i]);
    var last := next + i;
    forall c | c in more ensures (c in less || c == last) && more[c] == if c == last then kids[i] else less[c] {
    }
    forall c | c in less || c == last ensures c in more {
    }
  }

  lemma AttachOne(h: Heap, w: Handle, o: Wrapper, child: Wrapper)
    requires w in h.live && w < h.next
    ensures Attach(h, w, o, [child]) == h.(live := h.live[w := o][h.next := child], next := h.next + 1)
  {
    assert AddAll(h.live, h.next, [child]) == h.live[h.next := child];
  }

  lemma DisposeStart(h: Heap, w: Handle)
    requires Ordered(h) && w in h.live
    ensures var o := h.live[w];
      && Ordered(h.Put(w, o.Emptied()))
      && (forall c | c in o.Singles() || c in o.fields :: w < c < h.next)
  {
    var o := h.live[w];
    assert o.Emptied().Slots() == [];
    assert forall c | c in o.Singles() || c in o.fields :: c in o.Slots();
  }

  // ---------------------------------------------------------------- what dispose does not look at

  lemma PutSame(h: Heap, w: Handle)
    requires w in h.live
    ensures h.Put(w, h.live[w]) == h
  {
  }

  /** The slots of w hold younger wrappers, and w may be emptied. */
  lemma SlotYounger(h: Heap, w: Handle, e: Wrapper)
    requires Ordered(h) && w in h.live && e.Slots() == []
    ensures var o := h.live[w];
      && (forall c <- ToSeq(o.key) :: w < c < h.next) && (forall c <- ToSeq(o.item) :: w < c < h.next)
      && (forall c <- ToSeq(o.value) :: w < c < h.next) && (forall c <- o.fields :: w < c < h.next)
      && (o.key.Some? ==> w < o.key.value < h.next) && (o.item.Some? ==> w < o.item.value < h.next)
      && (o.value.Some? ==> w < o.value.value < h.next)
      && Ordered(h.Put(w, e))
  {
    var o := h.live[w];
    assert o.key.Some? ==> o.key.value in ToSeq(o.key);
    assert o.item.Some? ==> o.item.value in ToSeq(o.item);
    assert o.value.Some? ==> o.value.value in ToSeq(o.value);
    assert forall c | c in ToSeq(o.key) || c in ToSeq(o.item) || c in ToSeq(o.value) || c in o.fields :: c in o.Slots();
  }

  /** What a release of younger wrappers does, does not depend on the wrapper w. */
  lemma ReleasedApart(h: Heap, w: Handle, cs: seq<Handle>, nullRaw: bool, o: Wrapper, e: Wrapper)
    requires Ordered(h) && w in h.live && Ordered(h.Put(w, e))
    requires (forall c <- cs :: w < c < h.next) && forall c <- o.Slots() :: c in h.live[w].Slots()
    ensures w in UnrefAll(h, w, cs, nullRaw).live && Ordered(UnrefAll(h, w, cs, nullRaw).Put(w, o))
    ensures UnrefAll(h, w, cs, nullRaw).Put(w, o).Put(w, e) == UnrefAll(h.Put(w, e), w, cs, nullRaw)
  {
    PutUnrefAll(h, w, e, w, cs, nullRaw);
    PutTwice(UnrefAll(h, w, cs, nullRaw), w, o, e);
    PutOrdered(UnrefAll(h, w, cs, nullRaw), w, o);
  }

  lemma PutTwice(h: Heap, w: Handle, o: Wrapper, e: Wrapper)
    ensures h.Put(w, o).Put(w, e) == h.Put(w, e)
  {
  }

  lemma PutOrdered(h: Heap, w: Handle, o: Wrapper)
    requires Ordered(h) && w in h.live && forall c <- o.Slots() :: c in h.live[w].Slots()
    ensures Ordered(h.Put(w, o))
  {
  }

  lemma PutNullRaw(h: Heap, w: Handle, o: Wrapper, c: Handle)
    requires Ordered(h) && Ordered(h.Put(w, o)) && w in h.live && w < c
    ensures NullRaw(h.Put(w, o), c) == NullRaw(h, c).Put(w, o)
  {
    if c in h.live {
      PutPut(h, w, o, c, h.live[c].(raw := None));
    }
  }

  lemma PutDecrement(h: Heap, w: Handle, o: Wrapper, c: Handle)
    requires Ordered(h) && Ordered(h.Put(w, o)) && w in h.live && w < c && c in h.live && h.live[c].refs > 1
    ensures Decrement(h.Put(w, o), c) == Decrement(h, c).Put(w, o)
  {
    PutPut(h, w, o, c, h.live[c].(refs := h.live[c].refs - 1));
  }

  lemma PutFinalize(h: Heap, w: Handle, o: Wrapper, c: Handle)
    requires Ordered(h) && Ordered(h.Put(w, o)) && w in h.live && w < c && c in h.live
    ensures Finalize(h.Put(w, o), c) == Finalize(h, c).Put(w, o)
  {
  }

  lemma PutPut(h: Heap, w: Handle, o: Wrapper, c: Handle, o': Wrapper)
    requires w != c
    ensures h.Put(w, o).Put(c, o') == h.Put(c, o').Put(w, o)
  {
  }

  /** An unref of c reads and writes only c and younger wrappers. */
  lemma {:induction false} PutUnref(h: Heap, w: Handle, o: Wrapper, c: Handle)
    requires Ordered(h) && Ordered(h.Put(w, o)) && w in h.live && w < c < h.next
    ensures Unref(h.Put(w, o), c) == Unref(h, c).Put(w, o)
    decreases h.next - c, 1, 0
  {
    if c !in h.live {
    } else if h.live[c].refs > 1 {
      PutDecrement(h, w, o, c);
    } else {
      PutDispose(h, w, o, c);
      PutFinalize(Dispose(h, c), w, o, c);
    }
  }

  lemma {:induction false} PutDispose(h: Heap, w: Handle, o: Wrapper, c: Handle)
    requires Ordered(h) && Ordered(h.Put(w, o)) && w in h.live && w < c && c in h.live
    ensures Dispose(h.Put(w, o), c) == Dispose(h, c).Put(w, o)
    decreases h.next - c, 0, 1, 0
  {
    var oc := h.live[c];
    var e := h.Put(c, oc.Emptied());
    DisposeStart(h, c);
    DisposeStart(h.Put(w, o), c);
    PutPut(h, w, o, c, oc.Emptied());
    PutUnrefAll(e, w, o, c, oc.Singles(), false);
    PutUnrefAll(UnrefAll(e, c, oc.Singles(), false), w, o, c, oc.fields, true);
  }

  lemma {:induction false} PutUnrefAll(h: Heap, w: Handle, o: Wrapper, lo: Handle, cs: seq<Handle>, nullRaw: bool)
    requires Ordered(h) && Ordered(h.Put(w, o)) && w in h.live && w <= lo < h.next
    requires forall c <- cs :: lo < c < h.next
    ensures UnrefAll(h.Put(w, o), lo, cs, nullRaw) == UnrefAll(h, lo, cs, nullRaw).Put(w, o)
    decreases h.next - lo, 0, 0, |cs|
  {
    if cs != [] {
      var c := cs[0];
      assert c in cs && forall x <- cs[1..] :: x in cs;
      var n := if nullRaw then NullRaw(h, c) else h;
      PutNullRaw(h, w, o, c);
      PutUnref(n, w, o, c);
      PutUnrefAll(Unref(n, c), w, o, lo, cs[1..], nullRaw);
    }
  }

  lemma SinglesYounger(o: Wrapper, lo: Handle, hi: Handle)
    requires forall c <- o.Singles() :: lo < c < hi
    ensures o.key.Some? ==> lo < o.key.value < hi
    ensures o.item.Some? ==> lo < o.item.value < hi
    ensures o.value.Some? ==> lo < o.value.value < hi
  {
    assert o.key.Some? ==> o.key.value in o.Singles();
    assert o.item.Some? ==> o.item.value in o.Singles();
    assert o.value.Some? ==> o.value.value in o.Singles();
  }

  lemma UnrefAllSnoc(h: Heap, lo: Handle, front: seq<Handle>, c: Handle, all: seq<Handle>)
    requires Ordered(h) && lo < h.next && all == front + [c]
    requires (forall x <- front :: lo < x < h.next) && lo < c < h.next
    ensures forall x <- all :: lo < x < h.next
    ensures UnrefAll(h, lo, all, true) == UnrefAll(UnrefAll(h, lo, front, true), lo, [c], true)
  {
    UnrefAllConcat(h, lo, front, [c], true);
  }

  lemma {:induction false} UnrefAllConcat(h: Heap, lo: Handle, a: seq<Handle>, b: seq<Handle>, nullRaw: bool)
    requires Ordered(h)
    requires lo < h.next && (forall c <- a :: lo < c < h.next) && (forall c <- b :: lo < c < h.next)
    ensures UnrefAll(h, lo, a + b, nullRaw) == UnrefAll(UnrefAll(h, lo, a, nullRaw), lo, b, nullRaw)
    decreases |a|
  {
    if a == [] {
      assert a + b == b;
    } else {
      assert a[0] in a && forall c <- a[1..] :: c in a;
      assert (a + b)[0] == a[0] && (a + b)[1..] == a[1..] + b;
      var n := if nullRaw then NullRaw(h, a[0]) else h;
      UnrefAllConcat(Unref(n, a[0]), lo, a[1..], b, nullRaw);
    }
  }
}
