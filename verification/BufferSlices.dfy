/**
 c_glib/arrow-glib/buffer.cpp: slices of buffers share memory, and garrow_mutable_buffer_set_data
 writes through them.  A slice may itself be sliced, so a write reaches the root memory at
 the sum of the offsets on the way.
 */
module BufferSlices {
  import opened Common

  /** memory with `data` written at `at`. */
  function Written(memory: seq<byte>, at: nat, data: seq<byte>): (r: seq<byte>)
    requires at + |data| <= |memory|
    ensures |r| == |memory|
  {
    memory[..at] + data + memory[at + |data|..]
  }

  /** The memory after a write that may have been rejected. */
  function Maybe(memory: seq<byte>, accepted: bool, at: nat, data: seq<byte>): (r: seq<byte>)
    requires accepted ==> at + |data| <= |memory|
    ensures |r| == |memory|
  {
    if accepted then Written(memory, at, data) else memory
  }

  /** `size` bytes of memory from `offset` on. */
  function Window(memory: seq<byte>, offset: nat, size: nat): (r: seq<byte>)
    requires offset + size <= |memory|
    ensures |r| == size
  {
    memory[offset..offset + size]
  }

  class Buffer {
    const memory: array<byte>
    const offset: nat
    const size: nat
    const parent: Buffer?

    /** The buffer lies in its memory, and a slice lies in its parent. */
    ghost predicate Valid()
    {
      && offset + size <= memory.Length
      && (parent != null ==>
            memory == parent.memory && parent.offset <= offset && offset + size <= parent.offset + parent.size)
    }

    /** The whole memory that the buffer is a part of. */
    ghost function Memory(): (m: seq<byte>)
      reads memory
      ensures |m| == memory.Length
    {
      memory[..]
    }

    /** What a reader of the buffer sees. */
    ghost function Data(): seq<byte>
      requires Valid()
      reads memory
    {
      Window(Memory(), offset, size)
    }

    /** garrow_mutable_buffer_new: a root buffer over memory it does not own. */
    constructor (memory: array<byte>)
      ensures Valid() && this.memory == memory && offset == 0 && size == memory.Length && parent == null
    {
      this.memory := memory;
      offset := 0;
      size := memory.Length;
      parent := null;
    }

    /** garrow_buffer_new_raw_parent. */
    constructor Slice(of: Buffer, at: nat, length: nat)
      requires of.Valid() && at + length <= of.size
      ensures Valid() && memory == of.memory && offset == of.offset + at && size == length && parent == of
      ensures Data() == Window(of.Data(), at, length)
    {
      memory := of.memory;
      offset := of.offset + at;
      size := length;
      parent := of;
    }

    /** garrow_mutable_buffer_set_data.  Only the end of the range is checked, so `at` may be negative
        as long as the write begins inside the memory. */
    method SetData(at: int, data: seq<byte>) returns (ok: bool)
      requires Valid() && at + |data| <= INT64_MAX && 0 <= offset + at
      modifies memory
      ensures ok <==> at + |data| <= size
      ensures Memory() == Maybe(old(Memory()), ok, offset + at, data)
    {
      if at + |data| > size {
        return false;
      }
      CopyBytes(memory, offset + at, data);
      return true;
    }
  }

  // ---------------------------------------------------------------- chains of slices

  /** One call of garrow_mutable_buffer_slice. */
  datatype Step = Step(at: nat, length: nat)

  function TotalOffset(steps: seq<Step>): nat {
    if steps == [] then 0 else steps[0].at + TotalOffset(steps[1..])
  }

  /** The steps stay inside what they slice. */
  predicate InRange(size: nat, steps: seq<Step>) {
    steps == [] || (steps[0].at + steps[0].length <= size && InRange(steps[0].length, steps[1..]))
  }

  function LastLength(size: nat, steps: seq<Step>): nat
    decreases steps
  {
    if steps == [] then size else LastLength(steps[0].length, steps[1..])
  }

  lemma {:induction false} ChainInRange(size: nat, steps: seq<Step>)
    requires InRange(size, steps)
    ensures TotalOffset(steps) + LastLength(size, steps) <= size
  {
    if steps == [] {
    } else {
      ChainInRange(steps[0].length, steps[1..]);
    }
  }

  /** Slicing again and again equals one slice at the summed offset. */
  method SliceAll(buffer: Buffer, steps: seq<Step>) returns (b: Buffer)
    requires buffer.Valid() && InRange(buffer.size, steps)
    ensures b.Valid() && b.memory == buffer.memory
    ensures b.offset == buffer.offset + TotalOffset(steps) && b.size == LastLength(buffer.size, steps)
    ensures TotalOffset(steps) + b.size <= buffer.size
    ensures b.Data() == Window(buffer.Data(), TotalOffset(steps), b.size)
  {
    b := buffer;
    var i := 0;
    ChainInRange(buffer.size, steps);
    while i < |steps|
      invariant 0 <= i <= |steps|
      invariant b.Valid() && b.memory == buffer.memory && InRange(b.size, steps[i..])
      invariant b.offset + TotalOffset(steps[i..]) == buffer.offset + TotalOffset(steps)
      invariant LastLength(b.size, steps[i..]) == LastLength(buffer.size, steps)
    {
      assert steps[i..][0] == steps[i] && steps[i..][1..] == steps[i + 1..];
      b := new Buffer.Slice(b, steps[i].at, steps[i].length);
      i := i + 1;
    }
    SliceOfSlice(buffer.Memory(), buffer.offset, buffer.size, TotalOffset(steps), b.size);
  }

  lemma SliceOfSlice(memory: seq<byte>, offset: nat, size: nat, at: nat, length: nat)
    requires offset + size <= |memory| && at + length <= size
    ensures Window(memory, offset + at, length) == Window(Window(memory, offset, size), at, length)
  {
    var inner := Window(memory, offset, size);
    var once, twice := Window(memory, offset + at, length), Window(inner, at, length);
    forall k | 0 <= k < length ensures once[k] == twice[k] {
      assert twice[k] == inner[at + k];
    }
  }

  // ---------------------------------------------------------------- what others see

  /** After a write, a window shows the new byte exactly where the two overlap. */
  lemma OverlapIsSeen(memory: seq<byte>, at: nat, data: seq<byte>, offset: nat, size: nat, k: nat)
    requires at + |data| <= |memory| && offset + size <= |memory| && k < size
    ensures Window(Written(memory, at, data), offset, size)[k]
      == if at <= offset + k < at + |data| then data[offset + k - at] else Window(memory, offset, size)[k]
  {
    var now := Written(memory, at, data);
    assert Window(now, offset, size)[k] == now[offset + k];
    WrittenAt(memory, at, data, offset + k);
  }

  /** A write inside a window, seen through it. */
  lemma WriteThroughWindow(memory: seq<byte>, offset: nat, size: nat, p: nat, at: nat, data: seq<byte>)
    requires offset + size <= |memory| && at + |data| <= size && p == offset + at
    ensures Window(Written(memory, p, data), offset, size) == Written(Window(memory, offset, size), at, data)
  {
  }

  /** Two memories that agree outside a window. */
  ghost predicate SameOutside(a: seq<byte>, b: seq<byte>, offset: nat, size: nat) {
    |a| == |b| && forall p | 0 <= p < |a| && !(offset <= p < offset + size) :: a[p] == b[p]
  }

  lemma WriteInside(memory: seq<byte>, offset: nat, size: nat, p: nat, data: seq<byte>)
    requires offset + size <= |memory| && offset <= p && p + |data| <= offset + size
    ensures SameOutside(memory, Written(memory, p, data), offset, size)
  {
  }

  lemma NotWritten(memory: seq<byte>, offset: nat, size: nat, at: int, data: seq<byte>)
    requires offset + size <= |memory| && at + |data| <= size && 0 <= offset + at && at < 0 && data != []
    requires memory[offset + at] != data[0]
    ensures !SameOutside(memory, Written(memory, offset + at, data), offset, size)
  {
    WrittenAt(memory, offset + at, data, offset + at);
  }

  /** A write that the size check accepts stays inside the buffer, whatever the memory holds,
      exactly when its offset is not negative or there is nothing to write. */
  lemma AcceptedStaysInside(length: nat, offset: nat, size: nat, at: int, data: seq<byte>)
    requires offset + size <= length && at + |data| <= size && 0 <= offset + at
    ensures (forall memory: seq<byte> | |memory| == length ::
               SameOutside(memory, Written(memory, offset + at, data), offset, size))
      <==> at >= 0 || data == []
  {
    if at >= 0 {
      forall memory: seq<byte> | |memory| == length
        ensures SameOutside(memory, Written(memory, offset + at, data), offset, size)
      {
        WriteInside(memory, offset, size, offset + at, data);
      }
    } else if data == [] {
      forall memory: seq<byte> | |memory| == length
        ensures SameOutside(memory, Written(memory, offset + at, data), offset, size)
      {
        assert Written(memory, offset + at, data) == memory;
      }
    } else {
      var memory := seq(length, _ => data[0] + 1);
      NotWritten(memory, offset, size, at, data);
    }
  }

  /** The byte that a write of `data` at `at` puts at place p. */
  function Put(at: nat, data: seq<byte>, p: nat): Option<byte> {
    if at <= p < at + |data| then Some(data[p - at]) else None
  }

  lemma WrittenAt(memory: seq<byte>, at: nat, data: seq<byte>, p: nat)
    requires at + |data| <= |memory| && p < |memory|
    ensures Written(memory, at, data)[p] == if Put(at, data, p).Some? then Put(at, data, p).value else memory[p]
  {
  }

  /** `now` is what a slice at `offset` shows after `data` was written at `at`, where the whole
      was `was`: the data on the overlap, and otherwise the old bytes. */
  ghost predicate Sees(was: seq<byte>, now: seq<byte>, offset: nat, at: nat, data: seq<byte>) {
    && offset + |now| <= |was|
    && forall k | 0 <= k < |now| ::
         now[k] == if at <= offset + k < at + |data| then data[offset + k - at] else was[offset + k]
  }

  lemma SeesOverlap(memory: seq<byte>, base: nat, size: nat, p: nat, at: nat, data: seq<byte>,
                    q: nat, offset: nat, length: nat)
    requires base + size <= |memory| && at + |data| <= size && offset + length <= size
    requires p == base + at && q == base + offset
    ensures Sees(Window(memory, base, size), Window(Written(memory, p, data), q, length), offset, at, data)
  {
    var was, now := Window(memory, base, size), Window(Written(memory, p, data), q, length);
    forall k | 0 <= k < |now|
      ensures now[k] == if at <= offset + k < at + |data| then data[offset + k - at] else was[offset + k]
    {
      OverlapIsSeen(memory, p, data, q, length, k);
    }
  }

  /** What a slice shows and what stays after a write that may have been rejected. */
  lemma WriteShows(before: seq<byte>, after: seq<byte>, ok: bool, base: nat, size: nat, p: nat, at: nat,
                   data: seq<byte>, q: nat, offset: nat, length: nat)
    requires base + size <= |before| && offset + length <= size && (ok ==> at + |data| <= size)
    requires p == base + at && q == base + offset
    requires after == Maybe(before, ok, p, data)
    ensures ShowsWrite(ok, Window(before, base, size), Window(after, q, length), offset, at, data)
    ensures SameOutside(before, after, base, size)
  {
    if ok {
      SeesOverlap(before, base, size, p, at, data, q, offset, length);
      WriteInside(before, base, size, p, data);
    } else {
      SliceOfSlice(before, base, size, offset, length);
    }
  }

  /** A slice shows an accepted write on the overlap, and a rejected one not at all. */
  ghost predicate ShowsWrite(ok: bool, was: seq<byte>, now: seq<byte>, offset: nat, at: nat, data: seq<byte>) {
    if ok then Sees(was, now, offset, at, data) else Sees(was, now, offset, at, [])
  }

  /** Two slices, each reached by its own chain of slices from one root; a write through the
      first is seen by the second exactly on the overlap, and the memory outside the root buffer
      stays as it was. */
  method WriteSeenBy(root: Buffer, sa: seq<Step>, sb: seq<Step>, at: nat, data: seq<byte>)
    returns (a: Buffer, b: Buffer, ok: bool)
    requires root.Valid() && InRange(root.size, sa) && InRange(root.size, sb) && at + |data| <= INT64_MAX
    modifies root.memory
    ensures a.Valid() && a.memory == root.memory && a.size == LastLength(root.size, sa)
    ensures b.Valid() && b.memory == root.memory && b.size == LastLength(root.size, sb)
    ensures ok <==> at + |data| <= a.size
    ensures ShowsWrite(ok, old(root.Data()), b.Data(), TotalOffset(sb), TotalOffset(sa) + at, data)
    ensures !ok ==> root.Memory() == old(root.Memory())
    ensures SameOutside(old(root.Memory()), root.Memory(), root.offset, root.size)
  {
    a := SliceAll(root, sa);
    b := SliceAll(root, sb);
    ok := WriteSeen(root, a, b, TotalOffset(sa), TotalOffset(sb), at, data);
  }

  /** The same for two buffers that lie in the root at the offsets oa and ob. */
  method WriteSeen(root: Buffer, a: Buffer, b: Buffer, ghost oa: nat, ghost ob: nat, at: nat, data: seq<byte>)
    returns (ok: bool)
    requires root.Valid() && a.Valid() && b.Valid() && a.memory == b.memory == root.memory
    requires a.offset == root.offset + oa && oa + a.size <= root.size
    requires b.offset == root.offset + ob && ob + b.size <= root.size
    requires at + |data| <= INT64_MAX
    modifies root.memory
    ensures ok <==> at + |data| <= a.size
    ensures ShowsWrite(ok, old(root.Data()), b.Data(), ob, oa + at, data)
    ensures !ok ==> root.Memory() == old(root.Memory())
    ensures SameOutside(old(root.Memory()), root.Memory(), root.offset, root.size)
  {
    ghost var before := root.Memory();
    ok := a.SetData(at, data);
    assert root.Memory() == a.Memory() == b.Memory();
    WriteShows(before, root.Memory(), ok, root.offset, root.size, a.offset + at, oa + at, data, b.offset, ob, b.size);
  }

  /** Writing through a slice is writing through its parent at the shifted place: both show the
      write in their contents, and the memory around the slice is unchanged. */
  method WriteIntoParent(slice: Buffer, at: nat, data: seq<byte>) returns (ok: bool)
    requires slice.Valid() && slice.parent != null && slice.parent.Valid() && at + |data| <= INT64_MAX
    modifies slice.memory
    ensures slice.parent.offset <= slice.offset && slice.offset + slice.size <= slice.parent.offset + slice.parent.size
    ensures ok <==> at + |data| <= slice.size
    ensures slice.parent.Data()
         == Maybe(old(slice.parent.Data()), ok, slice.offset - slice.parent.offset + at, data)
    ensures slice.Data() == Maybe(old(slice.Data()), ok, at, data)
    ensures SameOutside(old(slice.Memory()), slice.Memory(), slice.offset, slice.size)
  {
    ghost var before, parent, p := slice.Memory(), slice.parent, slice.offset + at;
    ok := slice.SetData(at, data);
    MaybeThroughWindow(before, ok, slice.offset, slice.size, p, at, data);
    MaybeThroughWindow(before, ok, parent.offset, parent.size, p, slice.offset - parent.offset + at, data);
    if ok {
      WriteInside(before, slice.offset, slice.size, p, data);
    }
  }

  lemma MaybeThroughWindow(memory: seq<byte>, ok: bool, offset: nat, size: nat, p: nat, at: nat, data: seq<byte>)
    requires offset + size <= |memory| && (ok ==> at + |data| <= size) && p == offset + at
    ensures Window(Maybe(memory, ok, p, data), offset, size) == Maybe(Window(memory, offset, size), ok, at, data)
  {
    if ok {
      WriteThroughWindow(memory, offset, size, p, at, data);
    }
  }

  /** The places that both writes reach get the same byte from both. */
  ghost predicate AgreeOnOverlap(at: nat, data: seq<byte>, at': nat, data': seq<byte>) {
    forall p: nat | Put(at, data, p).Some? && Put(at', data', p).Some? :: Put(at, data, p) == Put(at', data', p)
  }

  ghost predicate MayExchange(ok: bool, at: nat, data: seq<byte>, ok': bool, at': nat, data': seq<byte>) {
    ok && ok' ==> AgreeOnOverlap(at, data, at', data')
  }

  /** Two writes may be exchanged exactly when they agree on their overlap. */
  lemma WritesCommute(memory: seq<byte>, at: nat, data: seq<byte>, at': nat, data': seq<byte>)
    requires at + |data| <= |memory| && at' + |data'| <= |memory|
    ensures Written(Written(memory, at, data), at', data') == Written(Written(memory, at', data'), at, data)
      <==> AgreeOnOverlap(at, data, at', data')
  {
    var a := Written(Written(memory, at, data), at', data');
    var b := Written(Written(memory, at', data'), at, data);
    forall p: nat | p < |memory|
      ensures a[p] == b[p] <==>
        (Put(at, data, p).Some? && Put(at', data', p).Some? ==> Put(at, data, p) == Put(at', data', p))
    {
      WrittenAt(memory, at, data, p);
      WrittenAt(Written(memory, at, data), at', data', p);
      WrittenAt(memory, at', data', p);
      WrittenAt(Written(memory, at', data'), at, data, p);
    }
    if a == b {
      forall p: nat | Put(at, data, p).Some? && Put(at', data', p).Some?
        ensures Put(at, data, p) == Put(at', data', p)
      {
        assert a[p] == b[p];
      }
    }
  }

  lemma ShiftedOverlap(shift: nat, at: nat, p: nat, data: seq<byte>, at': nat, p': nat, data': seq<byte>)
    requires p == shift + at && p' == shift + at'
    ensures AgreeOnOverlap(p, data, p', data') <==> AgreeOnOverlap(at, data, at', data')
  {
    forall k: nat
      ensures Put(at, data, k) == Put(p, data, shift + k) && Put(at', data', k) == Put(p', data', shift + k)
    {
    }
    forall q: nat | q >= shift
      ensures Put(p, data, q) == Put(at, data, q - shift) && Put(p', data', q) == Put(at', data', q - shift)
    {
    }
  }

  /** Two writes through chains of slices from one root, the first before the second. */
  method WriteBoth(root: Buffer, sa: seq<Step>, sb: seq<Step>, at: nat, data: seq<byte>, at': nat, data': seq<byte>,
                   ghost p: nat, ghost p': nat, ghost before: seq<byte>)
    returns (ok: bool, ok': bool)
    requires root.Memory() == before && root.Valid() && InRange(root.size, sa) && InRange(root.size, sb)
    requires at + |data| <= INT64_MAX && at' + |data'| <= INT64_MAX
    requires p == root.offset + TotalOffset(sa) + at && p' == root.offset + TotalOffset(sb) + at'
    modifies root.memory
    ensures ok <==> at + |data| <= LastLength(root.size, sa)
    ensures ok' <==> at' + |data'| <= LastLength(root.size, sb)
    ensures ok ==> p + |data| <= root.memory.Length
    ensures ok' ==> p' + |data'| <= root.memory.Length
    ensures root.Memory() == Maybe(Maybe(before, ok, p, data), ok', p', data')
  {
    var a := SliceAll(root, sa);
    var b := SliceAll(root, sb);
    ok, ok' := WriteTwo(a, b, at, data, at', data', p, p');
  }

  method WriteTwo(a: Buffer, b: Buffer, at: nat, data: seq<byte>, at': nat, data': seq<byte>,
                  ghost p: nat, ghost p': nat)
    returns (ok: bool, ok': bool)
    requires a.Valid() && b.Valid() && a.memory == b.memory
    requires at + |data| <= INT64_MAX && at' + |data'| <= INT64_MAX
    requires p == a.offset + at && p' == b.offset + at'
    modifies a.memory
    ensures ok <==> at + |data| <= a.size
    ensures ok' <==> at' + |data'| <= b.size
    ensures ok ==> p + |data| <= a.memory.Length
    ensures ok' ==> p' + |data'| <= a.memory.Length
    ensures a.Memory() == Maybe(Maybe(old(a.Memory()), ok, p, data), ok', p', data')
  {
    ok := a.SetData(at, data);
    assert b.Memory() == a.Memory();
    ok' := b.SetData(at', data');
    assert a.Memory() == b.Memory();
  }

  /** Where the two orders lead to. */
  lemma OrdersAgree(memory: seq<byte>, one: seq<byte>, two: seq<byte>, shift: nat,
                    ok: bool, at: nat, p: nat, data: seq<byte>, ok': bool, at': nat, p': nat, data': seq<byte>)
    requires p == shift + at && p' == shift + at'
    requires ok ==> p + |data| <= |memory|
    requires ok' ==> p' + |data'| <= |memory|
    requires one == Maybe(Maybe(memory, ok, p, data), ok', p', data')
    requires two == Maybe(Maybe(memory, ok', p', data'), ok, p, data)
    ensures one == two <==> MayExchange(ok, at, data, ok', at', data')
  {
    if ok && ok' {
      WritesCommute(memory, p, data, p', data');
      ShiftedOverlap(shift, at, p, data, at', p', data');
    }
  }

  /** Two equal memories, and the same two writes through chains of slices made in one order on
      the first memory and in the other order on the second: the memories are equal again exactly
      when a write was rejected or the two agree on their overlap. */
  method WriteInBothOrders(root: Buffer, root': Buffer, sa: seq<Step>, sb: seq<Step>,
                           at: nat, data: seq<byte>, at': nat, data': seq<byte>)
    returns (ok: bool, ok': bool)
    requires root.Valid() && root'.Valid() && root.memory != root'.memory
    requires root.Memory() == root'.Memory() && root.offset == root'.offset && root.size == root'.size
    requires InRange(root.size, sa) && InRange(root.size, sb)
    requires at + |data| <= INT64_MAX && at' + |data'| <= INT64_MAX
    modifies root.memory, root'.memory
    ensures ok <==> at + |data| <= LastLength(root.size, sa)
    ensures ok' <==> at' + |data'| <= LastLength(root.size, sb)
    ensures root.Memory() == root'.Memory()
      <==> MayExchange(ok, TotalOffset(sa) + at, data, ok', TotalOffset(sb) + at', data')
  {
    ghost var before := root.Memory();
    ghost var p, p' := root.offset + TotalOffset(sa) + at, root.offset + TotalOffset(sb) + at';
    ok, ok' := WriteCrosswise(root, root', sa, sb, at, data, at', data', p, p', before);
    ghost var one, two := root.Memory(), root'.Memory();
    ghost var ta, tb := TotalOffset(sa) + at, TotalOffset(sb) + at';
    OrdersAgree(before, one, two, root.offset, ok, ta, p, data, ok', tb, p', data');
  }

  method WriteCrosswise(root: Buffer, root': Buffer, sa: seq<Step>, sb: seq<Step>, at: nat, data: seq<byte>,
                        at': nat, data': seq<byte>, ghost p: nat, ghost p': nat, ghost before: seq<byte>)
    returns (ok: bool, ok': bool)
    requires root.Valid() && root'.Valid() && root.memory != root'.memory
    requires root.Memory() == before && root'.Memory() == before
    requires root.offset == root'.offset && root.size == root'.size
    requires InRange(root.size, sa) && InRange(root.size, sb)
    requires at + |data| <= INT64_MAX && at' + |data'| <= INT64_MAX
    requires p == root.offset + TotalOffset(sa) + at && p' == root.offset + TotalOffset(sb) + at'
    modifies root.memory, root'.memory
    ensures ok <==> at + |data| <= LastLength(root.size, sa)
    ensures ok' <==> at' + |data'| <= LastLength(root.size, sb)
    ensures ok ==> p + |data| <= |before|
    ensures ok' ==> p' + |data'| <= |before|
    ensures root.Memory() == Maybe(Maybe(before, ok, p, data), ok', p', data')
    ensures root'.Memory() == Maybe(Maybe(before, ok', p', data'), ok, p, data)
  {
    ok, ok' := WriteBoth(root, sa, sb, at, data, at', data', p, p', before);
    assert root'.Memory() == before;
    ghost var one := root.Memory();
    var second, first := WriteBoth(root', sb, sa, at', data', at, data, p', p, before);
    assert first == ok && second == ok' && root.Memory() == one;
  }
}
