/**
 bench_local.cc: object identifiers, the phases that create, fill, seal, release and fetch the
 objects, and the flat buffers they are copied from and to.  The Plasma store is a small
 contract; ARROW_CHECK_OK aborts, so a refused call ends the run.
 */
module PlasmaBench {
  import opened Common

  type Id = string
  type Bytes = seq<byte>

  // ---------------------------------------------------------------- identifiers

  const ID_BITS := 20

  function Pow2(w: nat): (p: int)
    ensures p > 0
  {
    if w == 0 then 1 else 2 * Pow2(w - 1)
  }

  /** std::bitset<w>(i).to_string(): the low w bits of i, the highest first. */
  function Bits(i: nat, w: nat): (s: string)
    ensures |s| == w
  {
    if w == 0 then "" else Bits(i / 2, w - 1) + [if i % 2 == 1 then '1' else '0']
  }

  /** The number that a string of binary digits denotes. */
  function Denoted(s: string): nat {
    if s == "" then 0
    else 2 * Denoted(s[..|s| - 1]) + (if s[|s| - 1] == '1' then 1 else 0)
  }

  function IdOf(i: nat): Id {
    Bits(i, ID_BITS)
  }

  lemma HalfModulo(i: nat, p: int)
    requires p > 0
    ensures i % (2 * p) == 2 * ((i / 2) % p) + i % 2
  {
    var q, r := (i / 2) / p, (i / 2) % p;
    assert i == 2 * (q * p + r) + i % 2;
    assert i == q * (2 * p) + (2 * r + i % 2);
    Remainder(i, 2 * p, q, 2 * r + i % 2);
  }

  lemma NoMultiple(d: int, m: int)
    requires -m < d * m < m
    ensures d == 0
  {
    assert d >= 1 ==> (d - 1) * m >= 0;
    assert d <= -1 ==> (-1 - d) * m >= 0;
  }

  lemma Remainder(i: int, m: int, q: int, r: int)
    requires m > 0 && i == q * m + r && 0 <= r < m
    ensures i % m == r
  {
    var q', r' := i / m, i % m;
    Difference(q, q', m);
    NoMultiple(q - q', m);
  }

  /** Reading an identifier back gives the low bits of its index. */
  lemma {:induction false} BitsDenote(i: nat, w: nat)
    ensures Denoted(Bits(i, w)) == i % Pow2(w)
  {
    if w > 0 {
      BitsDenote(i / 2, w - 1);
      assert Bits(i, w)[..w - 1] == Bits(i / 2, w - 1);
      HalfModulo(i, Pow2(w - 1));
    }
  }

  /** Every string of binary digits is the identifier of the number it denotes. */
  lemma {:induction false} DenotedBits(s: string)
    requires forall c <- s :: c == '0' || c == '1'
    ensures Bits(Denoted(s), |s|) == s && Denoted(s) < Pow2(|s|)
  {
    if s != "" {
      var t := s[..|s| - 1];
      forall c <- t ensures c == '0' || c == '1' {
        assert c in s;
      }
      DenotedBits(t);
      assert s[|s| - 1] in s;
      assert Denoted(s) / 2 == Denoted(t);
      assert s == t + [s[|s| - 1]];
    }
  }

  lemma IdSpace()
    ensures Pow2(ID_BITS) == 1_048_576
  {
    assert Pow2(5) == 32;
    assert Pow2(10) == 1024;
    assert Pow2(15) == 32768;
  }

  /** Two indices share an identifier exactly when they agree in the bits that it keeps. */
  lemma SameId(i: nat, j: nat, w: nat)
    ensures Bits(i, w) == Bits(j, w) <==> i % Pow2(w) == j % Pow2(w)
  {
    BitsDenote(i, w);
    BitsDenote(j, w);
    if i % Pow2(w) == j % Pow2(w) {
      SameBits(i, j, w);
    }
  }

  lemma {:induction false} SameBits(i: nat, j: nat, w: nat)
    requires i % Pow2(w) == j % Pow2(w)
    ensures Bits(i, w) == Bits(j, w)
  {
    if w > 0 {
      HalfModulo(i, Pow2(w - 1));
      HalfModulo(j, Pow2(w - 1));
      SameBits(i / 2, j / 2, w - 1);
    }
  }

  function Ids(n: nat): (ids: seq<Id>)
    ensures |ids| == n
  {
    seq(n, i requires 0 <= i => IdOf(i))
  }

  lemma Wraps(i: nat, p: int)
    requires p > 0
    ensures (i + p) % p == i % p && (i < p ==> i % p == i)
  {
    Difference(i / p + 1, i / p, p);
    Remainder(i + p, p, i / p + 1, i % p);
    if i < p {
      Remainder(i, p, 0, i);
    }
  }

  lemma BitsDistinct(ids: seq<Id>, w: nat)
    requires forall k | 0 <= k < |ids| :: ids[k] == Bits(k, w)
    ensures NoDuplicates(ids) <==> |ids| <= Pow2(w)
  {
    var p := Pow2(w);
    if |ids| <= p {
      forall a, b | 0 <= a < b < |ids| ensures ids[a] != ids[b] {
        SameId(a, b, w);
        Wraps(a, p);
        Wraps(b, p);
      }
    } else {
      Wraps(0, p);
      SameId(0, p, w);
      assert ids[0] == ids[p];
    }
  }

  /** The identifiers of a run are distinct exactly up to 2^20 objects. */
  lemma IdsDistinct(n: nat)
    ensures NoDuplicates(Ids(n)) <==> n <= 1_048_576
  {
    BitsDistinct(Ids(n), ID_BITS);
    IdSpace();
  }

  /** The loop in main that fills object_ids. */
  method MakeIds(n: nat) returns (objectIds: array<Id>)
    ensures fresh(objectIds) && objectIds[..] == Ids(n)
  {
    objectIds := new Id[n];
    var i := 0;
    while i < n
      invariant 0 <= i <= n
      invariant forall k | 0 <= k < i :: objectIds[k] == IdOf(k)
    {
      objectIds[i] := IdOf(i);
      i := i + 1;
    }
  }

  // ---------------------------------------------------------------- traces

  datatype Action = Create | Write | Seal | Release | Get
  datatype Call = Call(action: Action, id: Id)

  /** One phase: the same call for every identifier, in order. */
  function Phase(a: Action, ids: seq<Id>): (t: seq<Call>)
    ensures |t| == |ids|
  {
    seq(|ids|, i requires 0 <= i < |ids| => Call(a, ids[i]))
  }

  function CreatePhases(ids: seq<Id>): seq<Call> {
    Phase(Create, ids) + Phase(Write, ids) + Phase(Seal, ids) + Phase(Release, ids)
  }

  function GetPhases(ids: seq<Id>): seq<Call> {
    Phase(Get, ids) + Phase(Release, ids)
  }

  /** What happened to one object. */
  function On(trace: seq<Call>, id: Id): seq<Action> {
    if trace == [] then []
    else (if trace[0].id == id then [trace[0].action] else []) + On(trace[1..], id)
  }

  lemma {:induction false} OnConcat(t: seq<Call>, u: seq<Call>, id: Id)
    ensures On(t + u, id) == On(t, id) + On(u, id)
  {
    if t == [] {
      assert t + u == u;
    } else {
      assert (t + u)[1..] == t[1..] + u;
      OnConcat(t[1..], u, id);
      var first := if t[0].id == id then [t[0].action] else [];
      Regroup(first, On(t[1..], id), On(u, id));
    }
  }

  lemma {:induction false} OnPhase(a: Action, ids: seq<Id>, id: Id)
    requires NoDuplicates(ids)
    ensures On(Phase(a, ids), id) == if id in ids then [a] else []
  {
    if ids != [] {
      var rest := ids[1..];
      assert Phase(a, ids)[1..] == Phase(a, rest);
      assert forall x, y | 0 <= x < y < |rest| :: rest[x] == ids[x + 1] && rest[y] == ids[y + 1];
      OnPhase(a, rest, id);
      assert ids == [ids[0]] + rest;
      if ids[0] == id {
        assert id !in rest;
      }
    }
  }

  /** Although the phases interleave the objects, each one goes through its own life cycle. */
  lemma LifeOf(ids: seq<Id>, id: Id)
    requires NoDuplicates(ids)
    ensures On(CreatePhases(ids) + GetPhases(ids), id)
         == if id in ids then [Create, Write, Seal, Release, Get, Release] else []
  {
    CreationOf(ids, id);
    OnPhase(Get, ids, id);
    OnPhase(Release, ids, id);
    OnConcat(Phase(Get, ids), Phase(Release, ids), id);
    OnConcat(CreatePhases(ids), GetPhases(ids), id);
  }

  lemma CreationOf(ids: seq<Id>, id: Id)
    requires NoDuplicates(ids)
    ensures On(CreatePhases(ids), id) == if id in ids then [Create, Write, Seal, Release] else []
  {
    OnPhase(Create, ids, id);
    OnPhase(Write, ids, id);
    OnPhase(Seal, ids, id);
    OnPhase(Release, ids, id);
    OnConcat(Phase(Create, ids), Phase(Write, ids), id);
    OnConcat(Phase(Create, ids) + Phase(Write, ids), Phase(Seal, ids), id);
    OnConcat(Phase(Create, ids) + Phase(Write, ids) + Phase(Seal, ids), Phase(Release, ids), id);
  }

  lemma PhaseStep(before: seq<Call>, a: Action, ids: seq<Id>, i: nat)
    requires i < |ids|
    ensures before + Phase(a, ids[..i + 1]) == before + Phase(a, ids[..i]) + [Call(a, ids[i])]
  {
  }

  /** A run that stopped among its Create calls. */
  ghost predicate StoppedCreating(before: seq<Call>, after: seq<Call>, ids: seq<Id>) {
    exists k :: 0 <= k <= |ids| && after == before + Phase(Create, ids[..k])
  }

  lemma PhaseEnds(before: seq<Call>, a: Action, ids: seq<Id>)
    ensures before + Phase(a, ids[..0]) == before
    ensures before + Phase(a, ids[..|ids|]) == before + Phase(a, ids)
  {
    assert ids[..|ids|] == ids;
  }

  // ---------------------------------------------------------------- the store

  datatype Object = Object(data: Bytes, sealed: bool, refs: int)

  /** Objects lo up to hi of the run hold their blocks and are in the given state. */
  ghost predicate Held(objects: map<Id, Object>, ids: seq<Id>, blocks: seq<Bytes>, lo: nat, hi: nat,
                       sealed: bool, refs: int)
  {
    hi <= |ids| == |blocks|
    && forall k | lo <= k < hi :: ids[k] in objects && objects[ids[k]] == Object(blocks[k], sealed, refs)
  }

  /** Objects that are not of the run stay as they were. */
  ghost predicate Kept(before: map<Id, Object>, after: map<Id, Object>, ids: seq<Id>) {
    forall id <- before | id !in ids :: id in after && after[id] == before[id]
  }

  ghost predicate Absent(objects: map<Id, Object>, ids: seq<Id>) {
    forall k | 0 <= k < |ids| :: ids[k] !in objects
  }

  lemma Advance(objects: map<Id, Object>, ids: seq<Id>, i: nat, was: seq<Bytes>, s: bool, r: int,
                now: seq<Bytes>, s': bool, r': int)
    requires i < |ids| && NoDuplicates(ids)
    requires Held(objects, ids, was, i, |ids|, s, r) && Held(objects, ids, now, 0, i, s', r')
    ensures ids[i] in objects && objects[ids[i]] == Object(was[i], s, r)
    ensures Held(objects[ids[i] := Object(now[i], s', r')], ids, was, i + 1, |ids|, s, r)
    ensures Held(objects[ids[i] := Object(now[i], s', r')], ids, now, 0, i + 1, s', r')
  {
  }

  lemma KeptStep(before: map<Id, Object>, after: map<Id, Object>, ids: seq<Id>, i: nat, o: Object)
    requires i < |ids| && Kept(before, after, ids)
    ensures Kept(before, after[ids[i] := o], ids)
  {
    assert ids[i] in ids;
  }

  /** The first i identifiers are distinct, were not there before, and have objects now. */
  ghost predicate Creating(before: map<Id, Object>, now: map<Id, Object>, ids: seq<Id>, raw: seq<Bytes>, i: nat,
                           size: nat)
  {
    && |raw| == i <= |ids|
    && (forall k | 0 <= k < i :: |raw[k]| == size && ids[k] !in before)
    && (forall k | 0 <= k < i :: ids[k] in now && now[ids[k]] == Object(raw[k], false, 1))
    && (forall a, b | 0 <= a < b < i :: ids[a] != ids[b])
    && (forall id <- now :: id in before || exists k :: 0 <= k < i && ids[k] == id)
    && (forall id <- before :: id in now && now[id] == before[id])
  }

  lemma CreatingStep(before: map<Id, Object>, now: map<Id, Object>, ids: seq<Id>, raw: seq<Bytes>, i: nat,
                     size: nat, data: Bytes)
    requires Creating(before, now, ids, raw, i, size) && i < |ids| && ids[i] !in now && |data| == size
    ensures Creating(before, now[ids[i] := Object(data, false, 1)], ids, raw + [data], i + 1, size)
  {
    var next, raw' := now[ids[i] := Object(data, false, 1)], raw + [data];
    forall id <- next ensures id in before || exists k :: 0 <= k < i + 1 && ids[k] == id {
      if id == ids[i] {
        assert 0 <= i < i + 1;
      }
    }
  }

  lemma CreatingFails(before: map<Id, Object>, now: map<Id, Object>, ids: seq<Id>, raw: seq<Bytes>, i: nat, size: nat)
    requires Creating(before, now, ids, raw, i, size) && i < |ids| && ids[i] in now
    ensures !(NoDuplicates(ids) && Absent(before, ids)) && Kept(before, now, ids)
  {
  }

  lemma CreatingEnds(before: map<Id, Object>, now: map<Id, Object>, ids: seq<Id>, raw: seq<Bytes>, size: nat)
    requires Creating(before, now, ids, raw, |ids|, size)
    ensures NoDuplicates(ids) && Absent(before, ids) && Held(now, ids, raw, 0, |ids|, false, 1)
    ensures Kept(before, now, ids) && ids[..|ids|] == ids
  {
  }

  class Store {
    var objects: map<Id, Object>
    ghost var trace: seq<Call>

    constructor (objects: map<Id, Object>)
      ensures this.objects == objects && trace == []
    {
      this.objects, trace := objects, [];
    }

    /** A new object is unsealed, referenced once, and its contents are not initialised. */
    method CreateObject(id: Id, size: nat) returns (ok: bool)
      modifies this
      ensures trace == old(trace) + [Call(Create, id)]
      ensures ok <==> id !in old(objects)
      ensures !ok ==> objects == old(objects)
      ensures ok ==> id in objects && objects == old(objects)[id := objects[id]]
      ensures ok ==> |objects[id].data| == size && !objects[id].sealed && objects[id].refs == 1
    {
      trace := trace + [Call(Create, id)];
      ok := id !in objects;
      if ok {
        objects := objects[id := Object(seq(size, _ => 0), false, 1)];
      }
    }

    /** memcpy into the buffer that Create returned. */
    method WriteObject(id: Id, bytes: Bytes)
      requires id in objects && !objects[id].sealed && |bytes| == |objects[id].data|
      modifies this
      ensures trace == old(trace) + [Call(Write, id)]
      ensures objects == old(objects[id := Object(bytes, false, objects[id].refs)])
    {
      trace := trace + [Call(Write, id)];
      objects := objects[id := Object(bytes, false, objects[id].refs)];
    }

    method SealObject(id: Id) returns (ok: bool)
      modifies this
      ensures trace == old(trace) + [Call(Seal, id)]
      ensures ok <==> id in old(objects) && !old(objects)[id].sealed
      ensures !ok ==> objects == old(objects)
      ensures ok ==> objects == old(objects[id := Object(objects[id].data, true, objects[id].refs)])
    {
      trace := trace + [Call(Seal, id)];
      ok := id in objects && !objects[id].sealed;
      if ok {
        objects := objects[id := Object(objects[id].data, true, objects[id].refs)];
      }
    }

    method ReleaseObject(id: Id) returns (ok: bool)
      modifies this
      ensures trace == old(trace) + [Call(Release, id)]
      ensures ok <==> id in old(objects) && old(objects)[id].refs > 0
      ensures !ok ==> objects == old(objects)
      ensures ok ==> objects == old(objects[id := Object(objects[id].data, objects[id].sealed, objects[id].refs - 1)])
    {
      trace := trace + [Call(Release, id)];
      ok := id in objects && objects[id].refs > 0;
      if ok {
        objects := objects[id := Object(objects[id].data, objects[id].sealed, objects[id].refs - 1)];
      }
    }

    /** One entry of Get with a timeout of 0: no buffer unless the object is sealed. */
    method GetObject(id: Id) returns (buffer: Option<Bytes>)
      modifies this
      ensures trace == old(trace) + [Call(Get, id)]
      ensures buffer.Some? <==> id in old(objects) && old(objects)[id].sealed
      ensures buffer.None? ==> objects == old(objects)
      ensures buffer.Some? ==> buffer.value == old(objects)[id].data
      ensures buffer.Some? ==> objects == old(objects[id := Object(objects[id].data, true, objects[id].refs + 1)])
    {
      trace := trace + [Call(Get, id)];
      if id in objects && objects[id].sealed {
        buffer := Some(objects[id].data);
        objects := objects[id := Object(objects[id].data, true, objects[id].refs + 1)];
      } else {
        buffer := None;
      }
    }

    // -------------------------------------------------------------- phases

    /** The first loop of CreateObjects.  It stops at the first identifier that exists. */
    method CreateAll(ids: seq<Id>, size: nat) returns (ok: bool, ghost raw: seq<Bytes>)
      modifies this
      ensures ok <==> NoDuplicates(ids) && Absent(old(objects), ids)
      ensures ok ==> trace == old(trace) + Phase(Create, ids)
      ensures !ok ==> StoppedCreating(old(trace), trace, ids)
      ensures ok ==> Held(objects, ids, raw, 0, |ids|, false, 1) && forall k | 0 <= k < |raw| :: |raw[k]| == size
      ensures Kept(old(objects), objects, ids)
    {
      raw := [];
      PhaseEnds(trace, Create, ids);
      ghost var before := objects;
      var i := 0;
      while i < |ids|
        invariant 0 <= i <= |ids|
        invariant Creating(before, objects, ids, raw, i, size)
        invariant trace == old(trace) + Phase(Create, ids[..i])
      {
        ghost var now := objects;
        ok := CreateObject(ids[i], size);
        PhaseStep(old(trace), Create, ids, i);
        if !ok {
          CreatingFails(before, now, ids, raw, i, size);
          return false, raw;
        }
        CreatingStep(before, now, ids, raw, i, size, objects[ids[i]].data);
        raw := raw + [objects[ids[i]].data];
        i := i + 1;
      }
      CreatingEnds(before, objects, ids, raw, size);
      ok := true;
    }

    /** The second loop: data[i] gets the i-th slice of the flat buffer. */
    method WriteAll(ids: seq<Id>, size: nat, randData: array<byte>, ghost raw: seq<Bytes>, ghost blocks: seq<Bytes>)
      requires NoDuplicates(ids) && Held(objects, ids, raw, 0, |ids|, false, 1)
      requires forall k | 0 <= k < |raw| :: |raw[k]| == size
      requires randData.Length == |ids| * size && blocks == Blocks(randData[..], |ids|, size)
      modifies this
      ensures Held(objects, ids, blocks, 0, |ids|, false, 1) && Kept(old(objects), objects, ids)
      ensures trace == old(trace) + Phase(Write, ids)
    {
      PhaseEnds(trace, Write, ids);
      var i := 0;
      while i < |ids|
        invariant 0 <= i <= |ids|
        invariant Held(objects, ids, raw, i, |ids|, false, 1) && Held(objects, ids, blocks, 0, i, false, 1)
        invariant Kept(old(objects), objects, ids)
        invariant trace == old(trace) + Phase(Write, ids[..i])
      {
        Advance(objects, ids, i, raw, false, 1, blocks, false, 1);
        KeptStep(old(objects), objects, ids, i, Object(blocks[i], false, 1));
        PhaseStep(old(trace), Write, ids, i);
        assert |raw[i]| == size;
        var slice := SliceOf(randData, |ids|, size, i);
        WriteObject(ids[i], slice);
        i := i + 1;
      }
    }

    method SealAll(ids: seq<Id>, ghost blocks: seq<Bytes>) returns (ok: bool)
      requires NoDuplicates(ids) && Held(objects, ids, blocks, 0, |ids|, false, 1)
      modifies this
      ensures ok && Held(objects, ids, blocks, 0, |ids|, true, 1) && Kept(old(objects), objects, ids)
      ensures trace == old(trace) + Phase(Seal, ids)
    {
      PhaseEnds(trace, Seal, ids);
      var i := 0;
      while i < |ids|
        invariant 0 <= i <= |ids|
        invariant Held(objects, ids, blocks, i, |ids|, false, 1) && Held(objects, ids, blocks, 0, i, true, 1)
        invariant Kept(old(objects), objects, ids)
        invariant trace == old(trace) + Phase(Seal, ids[..i])
      {
        Advance(objects, ids, i, blocks, false, 1, blocks, true, 1);
        KeptStep(old(objects), objects, ids, i, Object(blocks[i], true, 1));
        PhaseStep(old(trace), Seal, ids, i);
        ok := SealObject(ids[i]);
        if !ok {
          return;
        }
        i := i + 1;
      }
      ok := true;
    }

    method ReleaseAll(ids: seq<Id>, ghost blocks: seq<Bytes>) returns (ok: bool)
      requires NoDuplicates(ids) && Held(objects, ids, blocks, 0, |ids|, true, 1)
      modifies this
      ensures ok && Held(objects, ids, blocks, 0, |ids|, true, 0) && Kept(old(objects), objects, ids)
      ensures trace == old(trace) + Phase(Release, ids)
    {
      PhaseEnds(trace, Release, ids);
      var i := 0;
      while i < |ids|
        invariant 0 <= i <= |ids|
        invariant Held(objects, ids, blocks, i, |ids|, true, 1) && Held(objects, ids, blocks, 0, i, true, 0)
        invariant Kept(old(objects), objects, ids)
        invariant trace == old(trace) + Phase(Release, ids[..i])
      {
        Advance(objects, ids, i, blocks, true, 1, blocks, true, 0);
        KeptStep(old(objects), objects, ids, i, Object(blocks[i], true, 0));
        PhaseStep(old(trace), Release, ids, i);
        ok := ReleaseObject(ids[i]);
        if !ok {
          return;
        }
        i := i + 1;
      }
      ok := true;
    }

    /** client.Get for all identifiers at once. */
    method GetAll(ids: seq<Id>, ghost blocks: seq<Bytes>) returns (buffers: seq<Bytes>, ok: bool)
      requires NoDuplicates(ids) && Held(objects, ids, blocks, 0, |ids|, true, 0)
      modifies this
      ensures ok && buffers == blocks
      ensures Held(objects, ids, blocks, 0, |ids|, true, 1) && Kept(old(objects), objects, ids)
      ensures trace == old(trace) + Phase(Get, ids)
    {
      PhaseEnds(trace, Get, ids);
      buffers := [];
      var i := 0;
      while i < |ids|
        invariant 0 <= i <= |ids| && |buffers| == i
        invariant Held(objects, ids, blocks, i, |ids|, true, 0) && Held(objects, ids, blocks, 0, i, true, 1)
        invariant Kept(old(objects), objects, ids)
        invariant forall k | 0 <= k < i :: buffers[k] == blocks[k]
        invariant trace == old(trace) + Phase(Get, ids[..i])
      {
        Advance(objects, ids, i, blocks, true, 0, blocks, true, 1);
        KeptStep(old(objects), objects, ids, i, Object(blocks[i], true, 1));
        PhaseStep(old(trace), Get, ids, i);
        var buffer := GetObject(ids[i]);
        if buffer.None? {
          return buffers, false;
        }
        buffers := buffers + [buffer.value];
        i := i + 1;
      }
      ok := true;
    }

    /** CreateObjects, with the random bytes given in the order in which they are drawn. */
    method CreateObjects(ids: seq<Id>, size: nat, random: Bytes) returns (ok: bool)
      requires |random| == |ids| * size
      modifies this
      ensures ok <==> NoDuplicates(ids) && Absent(old(objects), ids)
      ensures ok ==> Held(objects, ids, Blocks(random, |ids|, size), 0, |ids|, true, 0)
      ensures Kept(old(objects), objects, ids)
      ensures ok ==> trace == old(trace) + CreatePhases(ids)
      ensures !ok ==> StoppedCreating(old(trace), trace, ids)
    {
      var randData := FillRandom(|ids|, size, random);
      ghost var blocks := Blocks(random, |ids|, size);
      ghost var raw;
      ok, raw := CreateAll(ids, size);
      if !ok {
        return;
      }
      ghost var t1 := trace;
      WriteAll(ids, size, randData, raw, blocks);
      ok := SealAll(ids, blocks);
      ok := ReleaseAll(ids, blocks);
      Phases(old(trace), Phase(Create, ids), Phase(Write, ids), Phase(Seal, ids), Phase(Release, ids));
    }

    /** GetObjects, without the final Evict. */
    method GetObjects(ids: seq<Id>, size: nat, ghost blocks: seq<Bytes>) returns (ok: bool, result: array<byte>)
      requires NoDuplicates(ids) && Held(objects, ids, blocks, 0, |ids|, true, 0)
      requires forall k | 0 <= k < |blocks| :: |blocks[k]| == size
      modifies this
      ensures ok && fresh(result) && result.Length == |ids| * size
      ensures Blocks(result[..], |ids|, size) == blocks
      ensures Held(objects, ids, blocks, 0, |ids|, true, 0) && Kept(old(objects), objects, ids)
      ensures trace == old(trace) + GetPhases(ids)
    {
      var buffers;
      buffers, ok := GetAll(ids, blocks);
      result := Gather(buffers, size);
      ok := ReleaseAll(ids, blocks);
      Regroup(old(trace), Phase(Get, ids), Phase(Release, ids));
    }
  }

  lemma Phases(t: seq<Call>, a: seq<Call>, b: seq<Call>, c: seq<Call>, d: seq<Call>)
    ensures t + a + b + c + d == t + (a + b + c + d)
  {
  }

  // ---------------------------------------------------------------- flat buffers

  lemma InRange(i: nat, n: nat, size: nat)
    requires i < n
    ensures i * size + size == (i + 1) * size <= n * size
  {
    Difference(i + 1, i, size);
    Difference(n, i + 1, size);
    NonNegative(n - (i + 1), size);
  }

  function Block(flat: Bytes, n: nat, size: nat, i: nat): (b: Bytes)
    requires |flat| == n * size && i < n
    ensures |b| == size
  {
    InRange(i, n, size);
    flat[i * size..i * size + size]
  }

  /** The flat buffer cut into its objects. */
  function Blocks(flat: Bytes, n: nat, size: nat): (b: seq<Bytes>)
    requires |flat| == n * size
    ensures |b| == n && forall k | 0 <= k < n :: |b[k]| == size
  {
    seq(n, i requires 0 <= i < n => Block(flat, n, size, i))
  }

  /** The `size` bytes at rand_data + i*size. */
  method SliceOf(randData: array<byte>, n: nat, size: nat, i: nat) returns (b: Bytes)
    requires randData.Length == n * size && i < n
    ensures b == Blocks(randData[..], n, size)[i]
  {
    InRange(i, n, size);
    b := randData[i * size..i * size + size];
  }

  lemma CellOf(p: nat, n: nat, size: nat)
    requires p < n * size
    ensures size > 0 && p / size < n && p == p / size * size + p % size
  {
    assert size == 0 ==> n * size == 0;
    var q := p / size;
    Difference(q, n, size);
    assert q >= n ==> (q - n) * size >= 0;
  }

  /** Nothing is lost by cutting: cell i*size+j runs over the whole buffer. */
  lemma BlocksDetermine(a: Bytes, b: Bytes, n: nat, size: nat)
    requires |a| == |b| == n * size
    ensures Blocks(a, n, size) == Blocks(b, n, size) <==> a == b
  {
    if Blocks(a, n, size) == Blocks(b, n, size) {
      forall p | 0 <= p < n * size ensures a[p] == b[p] {
        CellOf(p, n, size);
        SameCell(a, b, n, size, p / size, p % size);
      }
    }
  }

  lemma SameCell(a: Bytes, b: Bytes, n: nat, size: nat, i: nat, j: nat)
    requires |a| == |b| == n * size && i < n && j < size
    requires Blocks(a, n, size) == Blocks(b, n, size)
    ensures i * size + j < n * size && a[i * size + j] == b[i * size + j]
  {
    InRange(i, n, size);
    assert Blocks(a, n, size)[i] == Block(a, n, size, i) && Blocks(b, n, size)[i] == Block(b, n, size, i);
    assert Block(a, n, size, i)[j] == Block(b, n, size, i)[j];
  }

  /** The nested loops that fill rand_data visit every cell, in the order of the buffer. */
  method FillRandom(n: nat, size: nat, random: Bytes) returns (randData: array<byte>)
    requires |random| == n * size
    ensures fresh(randData) && randData[..] == random
  {
    randData := new byte[n * size];
    var drawn := 0;
    var i := 0;
    while i < n
      invariant 0 <= i <= n && drawn == i * size <= n * size
      invariant randData[..drawn] == random[..drawn]
    {
      InRange(i, n, size);
      var j := 0;
      while j < size
        invariant 0 <= j <= size && drawn == i * size + j <= n * size
        invariant randData[..drawn] == random[..drawn]
      {
        randData[i * size + j] := random[drawn];
        j, drawn := j + 1, drawn + 1;
      }
      i := i + 1;
    }
  }

  /** The copying loop of GetObjects. */
  method Gather(buffers: seq<Bytes>, size: nat) returns (result: array<byte>)
    requires forall k | 0 <= k < |buffers| :: |buffers[k]| == size
    ensures fresh(result) && result.Length == |buffers| * size
    ensures Blocks(result[..], |buffers|, size) == buffers
  {
    var n := |buffers|;
    result := new byte[n * size];
    var i := 0;
    while i < n
      invariant 0 <= i <= n
      invariant forall k | 0 <= k < i :: Block(result[..], n, size, k) == buffers[k]
    {
      InRange(i, n, size);
      ghost var before := result[..];
      CopyBytes(result, i * size, buffers[i]);
      forall k | 0 <= k <= i ensures Block(result[..], n, size, k) == buffers[k] {
        CopyKeeps(before, result[..], n, size, i, buffers[i], k);
      }
      i := i + 1;
    }
  }

  lemma CopyKeeps(before: Bytes, after: Bytes, n: nat, size: nat, i: nat, b: Bytes, k: nat)
    requires |before| == |after| == n * size && k <= i < n && |b| == size
    requires i * size + size <= n * size
    requires after == before[..i * size] + b + before[i * size + size..]
    ensures Block(after, n, size, k) == if k == i then b else Block(before, n, size, k)
  {
    InRange(k, n, size);
    if k < i {
      InRange(k, i, size);
    }
  }

  // ---------------------------------------------------------------- the run

  /** main, from the identifiers to the results. */
  method Run(store: Store, n: nat, size: nat, random: Bytes) returns (ok: bool, result: Bytes)
    requires |random| == n * size
    modifies store
    ensures ok <==> n <= 1_048_576 && forall i | 0 <= i < n :: IdOf(i) !in old(store.objects)
    ensures ok ==> result == random
    ensures ok ==> store.trace == old(store.trace) + (CreatePhases(Ids(n)) + GetPhases(Ids(n)))
    ensures !ok ==> StoppedCreating(old(store.trace), store.trace, Ids(n))
    ensures ok ==> Held(store.objects, Ids(n), Blocks(random, n, size), 0, n, true, 0)
    ensures Kept(old(store.objects), store.objects, Ids(n))
  {
    var objectIds := MakeIds(n);
    var ids := objectIds[..];
    IdsDistinct(n);
    AbsentIds(store.objects, n);
    ok := store.CreateObjects(ids, size, random);
    if !ok {
      return false, [];
    }
    ghost var blocks := Blocks(random, n, size);
    var fetched;
    ok, fetched := store.GetObjects(ids, size, blocks);
    result := fetched[..];
    BlocksDetermine(result, random, n, size);
    Regroup(old(store.trace), CreatePhases(ids), GetPhases(ids));
  }

  lemma AbsentIds(objects: map<Id, Object>, n: nat)
    ensures Absent(objects, Ids(n)) <==> forall i | 0 <= i < n :: IdOf(i) !in objects
  {
    if Absent(objects, Ids(n)) {
      forall i | 0 <= i < n ensures IdOf(i) !in objects {
        assert Ids(n)[i] == IdOf(i);
      }
    }
  }

  /** The calls of a complete run, seen by any one object. */
  lemma EveryObjectLives(n: nat, id: Id)
    requires n <= 1_048_576
    ensures On(CreatePhases(Ids(n)) + GetPhases(Ids(n)), id)
         == if exists i :: 0 <= i < n && id == IdOf(i) then [Create, Write, Seal, Release, Get, Release] else []
  {
    IdsDistinct(n);
    LifeOf(Ids(n), id);
    if i :| 0 <= i < n && id == IdOf(i) {
      assert Ids(n)[i] == id;
    }
  }
}
