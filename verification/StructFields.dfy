/**
 c_glib/arrow-glib/composite-array.cpp: the field cache of struct and union arrays.  Fields
 are taken from the constructor or wrapped lazily, handed out by index with a new
 reference, and dropped by dispose.
 */
module StructFields {
  import opened Common

  const TWO31: int := 0x8000_0000
  const TWO32: int := 0x1_0000_0000

  type gint = x: int | -TWO31 <= x < TWO31
  type guint = x: int | 0 <= x < TWO32

  /** The conversions between gint and guint that C inserts. */
  function ToUnsigned(i: gint): guint {
    i % TWO32
  }

  function ToSigned(u: guint): gint {
    if u < TWO31 then u else u - TWO32
  }

  /** `i += len` with a guint len: added as unsigned numbers, and stored back as a gint. */
  function AddLength(i: gint, len: guint): gint {
    ToSigned((ToUnsigned(i) + len) % TWO32)
  }

  /** The index computation of get_field; None stands for NULL. */
  function FieldIndex(i: gint, len: guint): Option<gint> {
    var j := if i < 0 then AddLength(i, len) else i;
    if j < 0 then None
    else if j >= ToSigned(len) then None
    else Some(j)
  }

  /** What negative indices are meant to do. */
  function Indexed(i: int, len: nat): Option<int> {
    if 0 <= i < len then Some(i)
    else if 0 - len <= i < 0 then Some(i + len)
    else None
  }

  /** An index means the field that it counts from the front, or from behind the last. */
  lemma IndexedMeans(i: int, len: nat, j: int)
    ensures Indexed(i, len) == Some(j) <==> 0 <= j < len && (i == j || i == j - len)
    ensures Indexed(i, len) == None <==> i < 0 - len || i >= len
  {
  }

  /** For every length that fits a gint, every index selects the field it should. */
  lemma FieldIndexIsRight(i: gint, len: guint)
    requires len < TWO31
    ensures FieldIndex(i, len) == Indexed(i, len)
  {
  }

  /** Beyond that every index gives NULL, so the bound is exact. */
  lemma FieldIndexBound(len: guint)
    ensures len >= TWO31 ==> forall i: gint :: FieldIndex(i, len) == None
    ensures (forall i: gint :: FieldIndex(i, len) == Indexed(i, len)) <==> len < TWO31
  {
    if len >= TWO31 {
      assert FieldIndex(0, len) == None && Indexed(0, len) == Some(0);
    }
  }

  // ---------------------------------------------------------------- the cache

  type Handle = int
  /** The underlying arrow::Array of a field. */
  type Raw = int

  /** Every wrapper that exists has as many references as are claimed, and none is claimed that
      does not exist. */
  ghost predicate Balanced(refs: map<Handle, int>, claims: multiset<Handle>) {
    && (forall h <- claims :: h in refs)
    && (forall h <- refs :: refs[h] == claims[h] > 0)
  }

  function Added(refs: map<Handle, int>, h: Handle): map<Handle, int>
    requires h in refs
  {
    refs[h := refs[h] + 1]
  }

  /** The last unref frees the wrapper. */
  function Dropped(refs: map<Handle, int>, h: Handle): map<Handle, int>
    requires h in refs
  {
    if refs[h] > 1 then refs[h := refs[h] - 1] else refs - {h}
  }

  lemma AddedBalanced(refs: map<Handle, int>, claims: multiset<Handle>, h: Handle)
    requires Balanced(refs, claims) && h in refs
    ensures Balanced(Added(refs, h), claims + multiset{h})
  {
  }

  lemma DroppedBalanced(refs: map<Handle, int>, claims: multiset<Handle>, h: Handle)
    requires Balanced(refs, claims + multiset{h})
    ensures h in refs && Balanced(Dropped(refs, h), claims)
  {
    assert h in claims + multiset{h};
  }

  lemma NewBalanced(refs: map<Handle, int>, claims: multiset<Handle>, h: Handle)
    requires Balanced(refs, claims) && h !in refs
    ensures Balanced(refs[h := 1], claims + multiset{h})
  {
    assert h !in claims;
  }

  lemma OneMore(base: multiset<Handle>, s: seq<Handle>, i: nat)
    requires i < |s|
    ensures base + multiset(s[..i + 1]) == base + multiset(s[..i]) + multiset{s[i]}
  {
    assert s[..i + 1] == s[..i] + [s[i]];
  }

  lemma OneLess(base: multiset<Handle>, s: seq<Handle>, i: nat)
    requires i < |s|
    ensures base + multiset(s[i..]) == base + multiset(s[i + 1..]) + multiset{s[i]}
  {
    assert s[i..] == [s[i]] + s[i + 1..];
  }

  lemma Prepended(p: seq<Handle>, s: seq<Handle>, i: nat)
    requires i < |s| && Reversed(p) == s[..i]
    ensures Reversed([s[i]] + p) == s[..i + 1]
  {
    assert ([s[i]] + p)[1..] == p;
  }

  lemma Whole(base: multiset<Handle>, s: seq<Handle>)
    ensures base + multiset(s[..|s|]) == base + multiset(s[0..]) == base + multiset(s)
    ensures base + multiset(s[..0]) == base + multiset(s[|s|..]) == base
  {
    assert s[..|s|] == s && s[0..] == s;
  }

  lemma Snoc(base: multiset<Handle>, s: seq<Handle>, h: Handle)
    ensures base + multiset(s + [h]) == base + multiset(s) + multiset{h}
  {
  }

  lemma Swap(a: multiset<Handle>, b: multiset<Handle>, c: multiset<Handle>)
    ensures a + b + c == a + c + b
  {
  }

  lemma PutBack(a: multiset<Handle>, b: multiset<Handle>, h: Handle)
    requires h in a
    ensures a + b == a - multiset{h} + b + multiset{h}
  {
  }

  lemma ClaimedExists(refs: map<Handle, int>, claims: multiset<Handle>, h: Handle)
    requires Balanced(refs, claims) && h in claims
    ensures h in refs
  {
  }

  lemma CachedExists(refs: map<Handle, int>, held: multiset<Handle>, cache: seq<Handle>, k: nat)
    requires k < |cache| && Balanced(refs, held + multiset(cache))
    ensures cache[k] in refs
  {
    assert multiset(cache)[cache[k]] > 0;
    ClaimedExists(refs, held + multiset(cache), cache[k]);
  }

  /** A struct or union array, with the field wrappers around it.  `held` counts the references
      that everybody else holds, other caches included. */
  class CompositeArray {
    const arrays: seq<Raw>
    var fields: Option<seq<Handle>>
    var refs: map<Handle, int>
    var wraps: map<Handle, Raw>
    var next: Handle
    ghost var held: multiset<Handle>

    ghost function Cached(): multiset<Handle>
      reads this`fields
    {
      if fields.Some? then multiset(fields.value) else multiset{}
    }

    /** Every wrapper's count is the references held elsewhere plus those of the cache, and the
        cache lists the fields in the order of the underlying array. */
    ghost predicate Valid()
      reads this
    {
      && |arrays| < TWO31
      && Balanced(refs, held + Cached())
      && Known()
      && (fields.Some? ==> |fields.value| == |arrays| && InOrder(fields.value))
    }

    /** Every wrapper that exists wraps something, and no new one has been used before. */
    ghost predicate Known()
      reads this`refs, this`wraps, this`next
    {
      refs.Keys <= wraps.Keys && (forall h <- wraps :: h < next)
    }

    /** `cache` wraps the first fields of the underlying array. */
    ghost predicate InOrder(cache: seq<Handle>)
      reads this`wraps
    {
      |cache| <= |arrays| && forall k | 0 <= k < |cache| :: cache[k] in wraps && wraps[cache[k]] == arrays[k]
    }

    /** garrow_struct_array_new and the union constructors: the cache takes a reference to each
        given field. */
    constructor New(given: seq<Handle>, refs: map<Handle, int>, wraps: map<Handle, Raw>, next: Handle,
                    ghost held: multiset<Handle>)
      requires |given| < TWO31 && refs.Keys <= wraps.Keys && (forall h <- wraps :: h < next)
      requires forall k | 0 <= k < |given| :: given[k] in refs
      requires Balanced(refs, held)
      ensures Valid() && fields == Some(given) && this.held == held && this.wraps == wraps
      ensures |arrays| == |given| && forall k | 0 <= k < |given| :: arrays[k] == wraps[given[k]]
    {
      this.arrays := seq(|given|, k requires 0 <= k < |given| => wraps[given[k]]);
      this.fields := None;
      this.refs, this.wraps, this.next, this.held := refs, wraps, next, held;
      new;
      RefEach(given, held);
      fields := Some(given);
    }

    /** g_object_ref on each element of a list. */
    method RefEach(list: seq<Handle>, ghost claims: multiset<Handle>)
      requires Balanced(refs, claims) && forall k | 0 <= k < |list| :: list[k] in refs
      modifies this`refs
      ensures Balanced(refs, claims + multiset(list)) && refs.Keys == old(refs.Keys)
    {
      var i := 0;
      Whole(claims, list);
      while i < |list|
        invariant 0 <= i <= |list| && refs.Keys == old(refs.Keys)
        invariant Balanced(refs, claims + multiset(list[..i]))
      {
        OneMore(claims, list, i);
        AddedBalanced(refs, claims + multiset(list[..i]), list[i]);
        refs := Added(refs, list[i]);
        i := i + 1;
      }
    }

    /** g_ptr_array_free with g_object_unref as its free function. */
    method UnrefEach(list: seq<Handle>, ghost claims: multiset<Handle>)
      requires Balanced(refs, claims + multiset(list))
      modifies this`refs
      ensures Balanced(refs, claims) && refs.Keys <= old(refs.Keys)
    {
      var i := 0;
      Whole(claims, list);
      while i < |list|
        invariant 0 <= i <= |list| && refs.Keys <= old(refs.Keys)
        invariant Balanced(refs, claims + multiset(list[i..]))
      {
        OneLess(claims, list, i);
        DroppedBalanced(refs, claims + multiset(list[i + 1..]), list[i]);
        refs := Dropped(refs, list[i]);
        i := i + 1;
      }
    }

    /** garrow_array_new_raw for one field; the caller gets the only reference. */
    method NewWrapper(raw: Raw, ghost claims: multiset<Handle>) returns (h: Handle)
      requires Balanced(refs, claims) && Known()
      modifies this`refs, this`wraps, this`next
      ensures h == old(next) && h !in old(wraps) && wraps == old(wraps)[h := raw]
      ensures Balanced(refs, claims + multiset{h}) && Known()
    {
      h := next;
      NewBalanced(refs, claims, h);
      refs, wraps, next := refs[h := 1], wraps[h := raw], next + 1;
    }

    /** garrow_struct_array_get_fields_internal. */
    method FillCache()
      requires Valid()
      modifies this`fields, this`refs, this`wraps, this`next
      ensures Valid() && fields.Some?
      ensures old(fields.Some?) ==> fields == old(fields) && refs == old(refs) && wraps == old(wraps)
    {
      if fields.None? {
        var cache := WrapEach(held + Cached());
        assert Cached() == multiset{};
        fields := Some(cache);
      }
    }

    method WrapEach(ghost claims: multiset<Handle>) returns (cache: seq<Handle>)
      requires Balanced(refs, claims) && Known()
      modifies this`refs, this`wraps, this`next
      ensures Balanced(refs, claims + multiset(cache)) && Known()
      ensures |cache| == |arrays| && InOrder(cache)
    {
      cache := [];
      var i := 0;
      while i < |arrays|
        invariant 0 <= i <= |arrays| && |cache| == i
        invariant Balanced(refs, claims + multiset(cache)) && Known()
        invariant InOrder(cache)
      {
        var h := NewWrapper(arrays[i], claims + multiset(cache));
        Snoc(claims, cache, h);
        cache := cache + [h];
        i := i + 1;
      }
    }

    /** garrow_struct_array_get_field and garrow_union_array_get_field. */
    method GetField(i: gint) returns (r: Option<Handle>)
      requires Valid()
      modifies this
      ensures Valid() && fields.Some? && (old(fields.Some?) ==> fields == old(fields))
      ensures r.Some? <==> Indexed(i, |arrays|).Some?
      ensures r == None ==> held == old(held)
      ensures r.Some? ==> held == old(held) + multiset{r.value}
      ensures r.Some? ==> var j := Indexed(i, |arrays|).value;
        0 <= j < |arrays| && r.value == fields.value[j] && r.value in wraps && wraps[r.value] == arrays[j]
    {
      FillCache();
      FieldIndexIsRight(i, |fields.value|);
      var j := i;
      if j < 0 {
        j := AddLength(j, |fields.value|);
      }
      if j < 0 {
        return None;
      }
      if j >= ToSigned(|fields.value|) {
        return None;
      }
      var field := fields.value[j];
      CachedExists(refs, held, fields.value, j);
      TakeRef(field);
      return Some(field);
    }

    /** g_object_ref on behalf of a caller. */
    method TakeRef(h: Handle)
      requires Valid() && h in refs
      modifies this`refs, this`held
      ensures Valid() && held == old(held) + multiset{h} && refs == Added(old(refs), h)
    {
      AddedBalanced(refs, held + Cached(), h);
      Swap(held, Cached(), multiset{h});
      refs := Added(refs, h);
      held := held + multiset{h};
    }

    /** g_object_unref of a held reference. */
    method GiveBack(h: Handle)
      requires Valid() && h in held
      modifies this`refs, this`held
      ensures Valid() && held == old(held) - multiset{h}
    {
      PutBack(held, Cached(), h);
      DroppedBalanced(refs, held - multiset{h} + Cached(), h);
      refs := Dropped(refs, h);
      held := held - multiset{h};
    }

    /** garrow_struct_array_get_fields: the list is built by prepending and then reversed. */
    method GetFields() returns (list: seq<Handle>)
      requires Valid()
      modifies this
      ensures Valid() && fields == Some(list) && (old(fields.Some?) ==> fields == old(fields))
      ensures held == old(held) + multiset(list)
    {
      FillCache();
      var cache := fields.value;
      forall k | 0 <= k < |cache| ensures cache[k] in refs { CachedExists(refs, held, cache, k); }
      list := RefAndReverse(cache, held + multiset(cache));
      Swap(held, multiset(cache), multiset(cache));
      held := held + multiset(cache);
    }

    method RefAndReverse(cache: seq<Handle>, ghost claims: multiset<Handle>) returns (list: seq<Handle>)
      requires Balanced(refs, claims) && forall k | 0 <= k < |cache| :: cache[k] in refs
      modifies this`refs
      ensures list == cache
      ensures Balanced(refs, claims + multiset(cache)) && refs.Keys == old(refs.Keys)
    {
      var prepended: seq<Handle> := [];
      var i := 0;
      Whole(claims, cache);
      while i < |cache|
        invariant 0 <= i <= |cache| && refs.Keys == old(refs.Keys)
        invariant Reversed(prepended) == cache[..i]
        invariant Balanced(refs, claims + multiset(cache[..i]))
      {
        OneMore(claims, cache, i);
        AddedBalanced(refs, claims + multiset(cache[..i]), cache[i]);
        refs := Added(refs, cache[i]);
        Prepended(prepended, cache, i);
        prepended := [cache[i]] + prepended;
        i := i + 1;
      }
      list := Reversed(prepended);
    }

    /** The dispose of struct and union arrays. */
    method Dispose()
      requires Valid()
      modifies this`fields, this`refs
      ensures Valid() && fields == None
    {
      if fields.Some? {
        UnrefEach(fields.value, held);
        fields := None;
        assert held + Cached() == held;
      }
    }
  }
}
