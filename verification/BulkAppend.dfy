/**
 The append_values overloads of array-builder.cpp: an input of any length is cut into
 chunks of 4096 elements, validity flags are narrowed into a byte buffer, and each chunk
 is handed to the Arrow builder, which may refuse it.

 Logical, FixedLogical and Pieces say which array each overload should add; the methods
 are proved to add that array, or on failure exactly the chunks before the failing one.
 */
module BulkAppend {
  import opened Common

  /** What a gboolean-returning append reports: success, a length error found before any
      work, or an error status of the Arrow builder. */
  datatype Status = Success | LengthMismatch | BuilderError

  const CHUNK: int := 4096
  /** The largest byte_width, an int32_t. */
  const INT32_MAX: int := 0x7FFF_FFFF

  /** A validity byte as the number it holds, which Narrow keeps in 0 to 255; Arrow takes every
      non-zero one as valid. */
  type uint8 = int
  type gint64 = x: int | -0x8000_0000_0000_0000 <= x <= INT64_MAX
  /** A gboolean is an int: any non-zero value counts as TRUE. */
  type gboolean = int

  /** Storing a gboolean in a uint8_t keeps its low eight bits. */
  function Narrow(flag: gboolean): (b: uint8)
    ensures 0 <= b < 256
  {
    flag % 256
  }

  // ---------------------------------------------------------------- chunks

  function Loops(n: nat): nat {
    n / CHUNK + if n % CHUNK > 0 then 1 else 0
  }

  /** The number of elements in chunk i, as the source computes it. */
  function ChunkLength(n: nat, i: nat): nat {
    if i == n / CHUNK then n % CHUNK else CHUNK
  }

  /** How many elements the first k chunks hold. */
  function Covered(n: nat, k: nat): nat {
    if k < Loops(n) then CHUNK * k else n
  }

  /** Chunk i is not empty, fits the buffers, and starts where the chunks before it end. */
  lemma ChunksCover(n: nat, i: nat)
    requires i < Loops(n)
    ensures 1 <= ChunkLength(n, i) <= CHUNK == 4096
    ensures Covered(n, 0) == 0 && Covered(n, i) == 4096 * i
    ensures Covered(n, i) + ChunkLength(n, i) == Covered(n, i + 1) <= n
    ensures Covered(n, Loops(n)) == n
  {
  }

  /** Cutting n elements: full chunks of 4096 as long as they last, and then the rest. */
  lemma ChunksOf4096(n: nat)
    ensures n > 0 ==> 4096 * (Loops(n) - 1) < n <= 4096 * Loops(n)
    ensures n == 0 ==> Loops(n) == 0
    ensures forall k: nat :: Covered(n, k) == if 4096 * k < n then 4096 * k else n
  {
    forall k: nat ensures Covered(n, k) == if 4096 * k < n then 4096 * k else n {
      assert k < Loops(n) <==> 4096 * k < n;
    }
  }

  /** The first of the calls c, c+1, .., c+m-1 that the builder refuses, counted from c; m if none. */
  function FirstRefusal(refuses: nat -> bool, c: nat, m: nat): (k: nat)
    ensures k <= m
    ensures forall j | c <= j < c + k :: !refuses(j)
    ensures k < m ==> refuses(c + k)
    decreases m
  {
    if m == 0 || refuses(c) then 0 else 1 + FirstRefusal(refuses, c + 1, m - 1)
  }

  // ---------------------------------------------------------------- the Arrow builder

  /** The values that stay valid under the validity bytes. */
  function Marked<T>(values: seq<T>, validBytes: Option<seq<uint8>>): seq<Option<T>>
    requires validBytes.Some? ==> |validBytes.value| == |values|
  {
    seq(|values|, i requires 0 <= i < |values| =>
      if validBytes.None? || validBytes.value[i] != 0 then Some(values[i]) else None)
  }

  /** The contract of arrow::ArrayBuilder that the C code relies on: a call either appends
      all its elements or appends nothing and reports an error. */
  class ArrowBuilder<T> {
    const refuses: nat -> bool
    var calls: nat
    var elements: seq<Option<T>>

    constructor (refuses: nat -> bool)
      ensures this.refuses == refuses && calls == 0 && elements == []
    {
      this.refuses := refuses;
      calls := 0;
      elements := [];
    }

    method AppendNull() returns (ok: bool)
      modifies this
      ensures calls == old(calls) + 1 && ok == !refuses(old(calls))
      ensures elements == if ok then old(elements) + [None] else old(elements)
    {
      ok := !refuses(calls);
      calls := calls + 1;
      if ok {
        elements := elements + [None];
      }
    }

    method AppendValues(values: seq<T>, validBytes: Option<seq<uint8>>) returns (ok: bool)
      requires validBytes.Some? ==> |validBytes.value| == |values|
      modifies this
      ensures calls == old(calls) + 1 && ok == !refuses(old(calls))
      ensures elements == if ok then old(elements) + Marked(values, validBytes) else old(elements)
    {
      ok := !refuses(calls);
      calls := calls + 1;
      if ok {
        elements := elements + Marked(values, validBytes);
      }
    }
  }

  // ---------------------------------------------------------------- overload 1: any value type

  /** The length of the flags when there are any. */
  function FlagCount(isValids: Option<seq<gboolean>>): nat {
    if isValids.Some? then |isValids.value| else 0
  }

  function Flags(isValids: Option<seq<gboolean>>): Option<seq<uint8>> {
    if FlagCount(isValids) == 0 then None
    else Some(seq(|isValids.value|, i requires 0 <= i < |isValids.value| => Narrow(isValids.value[i])))
  }

  /** The array that values with these flags stand for, as the narrowed bytes tell it. */
  function Logical<T>(values: seq<T>, isValids: Option<seq<gboolean>>): seq<Option<T>>
    requires FlagCount(isValids) > 0 ==> FlagCount(isValids) == |values|
  {
    Marked(values, Flags(isValids))
  }

  /** The state after m chunks were offered: the chunks before the first refusal are in. */
  ghost predicate Added<T>(before: seq<Option<T>>, after: seq<Option<T>>, logical: seq<Option<T>>,
                           refuses: nat -> bool, calls: nat, s: Status)
  {
    var k := FirstRefusal(refuses, calls, Loops(|logical|));
    && after == before + logical[..Covered(|logical|, k)]
    && s == if k == Loops(|logical|) then Success else BuilderError
  }

  /** The state inside a chunk loop: i chunks were offered and none was refused. */
  ghost predicate Progress<T>(before: seq<Option<T>>, now: seq<Option<T>>, logical: seq<Option<T>>,
                              refuses: nat -> bool, start: nat, calls: nat, i: nat)
  {
    && i <= Loops(|logical|) && calls == start + i
    && (forall c | start <= c < calls :: !refuses(c))
    && Covered(|logical|, i) <= |logical|
    && now == before + logical[..Covered(|logical|, i)]
  }

  lemma ProgressStarts<T>(before: seq<Option<T>>, logical: seq<Option<T>>, refuses: nat -> bool, start: nat)
    ensures Progress(before, before, logical, refuses, start, start, 0)
  {
  }

  lemma ProgressGoesOn<T>(before: seq<Option<T>>, now: seq<Option<T>>, logical: seq<Option<T>>,
                          refuses: nat -> bool, start: nat, calls: nat, i: nat)
    requires Progress(before, now, logical, refuses, start, calls, i) && i < Loops(|logical|) && !refuses(calls)
    ensures Progress(before, now + Chunk(logical, i), logical, refuses, start, calls + 1, i + 1)
  {
    ChunksCover(|logical|, i);
    assert logical[..Covered(|logical|, i)] + Chunk(logical, i) == logical[..Covered(|logical|, i + 1)];
  }

  lemma ProgressEnds<T>(before: seq<Option<T>>, now: seq<Option<T>>, logical: seq<Option<T>>,
                        refuses: nat -> bool, start: nat, calls: nat, i: nat)
    requires Progress(before, now, logical, refuses, start, calls, i)
    ensures i == Loops(|logical|) ==> Added(before, now, logical, refuses, start, Success)
    ensures i < Loops(|logical|) && refuses(calls) ==> Added(before, now, logical, refuses, start, BuilderError)
  {
  }

  method FillValidBytes(validBytes: array<uint8>, isValids: seq<gboolean>, offset: gint64, n: gint64)
    requires validBytes.Length == CHUNK && 0 <= n <= CHUNK
    requires 0 <= offset && offset + n <= |isValids| <= INT64_MAX
    modifies validBytes
    ensures forall k | 0 <= k < n :: validBytes[k] == Narrow(isValids[offset + k])
  {
    var j: gint64 := 0;
    while j < n
      invariant 0 <= j <= n
      invariant forall k | 0 <= k < j :: validBytes[k] == Narrow(isValids[offset + k])
    {
      validBytes[j] := Narrow(isValids[offset + j]);
      j := j + 1;
    }
  }

  /** The part of the array that chunk i stands for. */
  function Chunk<T>(logical: seq<Option<T>>, i: nat): seq<Option<T>>
    requires i < Loops(|logical|)
  {
    ChunksCover(|logical|, i);
    logical[Covered(|logical|, i)..Covered(|logical|, i + 1)]
  }

  /** One turn of the chunk loop. */
  method AppendChunk<T>(builder: ArrowBuilder<T>, values: seq<T>, isValids: seq<gboolean>, i: gint64)
    returns (ok: bool)
    requires |values| == |isValids| <= INT64_MAX && 0 <= i < Loops(|values|)
    modifies builder
    ensures builder.calls == old(builder.calls) + 1 && ok == !builder.refuses(old(builder.calls))
    ensures builder.elements == old(builder.elements) + if ok then Chunk(Logical(values, Some(isValids)), i) else []
  {
    ChunksCover(|values|, i);
    var validBytes := new uint8[CHUNK];
    var offset: gint64 := CHUNK * i;
    var nValues: gint64 := if i == |values| / CHUNK then |values| % CHUNK else CHUNK;
    FillValidBytes(validBytes, isValids, offset, nValues);
    MarkedPart(values, Some(isValids), offset, nValues, Some(validBytes[..nValues]));
    ok := builder.AppendValues(values[offset..offset + nValues], Some(validBytes[..nValues]));
  }

  method AppendChunks<T>(builder: ArrowBuilder<T>, values: seq<T>, isValids: seq<gboolean>) returns (s: Status)
    requires 0 < |values| == |isValids| <= INT64_MAX
    modifies builder
    ensures Added(old(builder.elements), builder.elements, Logical(values, Some(isValids)),
                  builder.refuses, old(builder.calls), s)
  {
    ghost var logical := Logical(values, Some(isValids));
    var nChunks: gint64, nRemains: gint64 := |isValids| / CHUNK, |isValids| % CHUNK;
    var nLoops: gint64 := nChunks;
    if nRemains > 0 {
      nLoops := nLoops + 1;
    }
    ghost var before, start := builder.elements, builder.calls;
    ProgressStarts(before, logical, builder.refuses, start);
    var i: gint64 := 0;
    while i < nLoops
      invariant 0 <= i <= nLoops
      invariant Progress(before, builder.elements, logical, builder.refuses, start, builder.calls, i)
    {
      ghost var now := builder.elements;
      var ok := AppendChunk(builder, values, isValids, i);
      if !ok {
        assert builder.elements == now;
        ProgressEnds(before, now, logical, builder.refuses, start, builder.calls - 1, i);
        return BuilderError;
      }
      ProgressGoesOn(before, now, logical, builder.refuses, start, builder.calls - 1, i);
      i := i + 1;
    }
    ProgressEnds(before, builder.elements, logical, builder.refuses, start, builder.calls, i);
    return Success;
  }

  /** garrow_array_builder_append_values with an append function. */
  method AppendValues<T>(builder: ArrowBuilder<T>, values: seq<T>, isValids: Option<seq<gboolean>>)
    returns (s: Status)
    requires |values| <= INT64_MAX && FlagCount(isValids) <= INT64_MAX
    modifies builder
    ensures s == LengthMismatch <==> FlagCount(isValids) > 0 && FlagCount(isValids) != |values|
    ensures s == LengthMismatch ==> builder.elements == old(builder.elements) && builder.calls == old(builder.calls)
    ensures s != LengthMismatch && FlagCount(isValids) > 0 ==>
      Added(old(builder.elements), builder.elements, Logical(values, isValids),
            builder.refuses, old(builder.calls), s)
    ensures s != LengthMismatch && FlagCount(isValids) == 0 ==>
      && s == (if builder.refuses(old(builder.calls)) then BuilderError else Success)
      && builder.elements == old(builder.elements) + if s == Success then Logical(values, isValids) else []
  {
    var valuesLength: gint64, isValidsLength: gint64 := |values|, FlagCount(isValids);
    if isValidsLength > 0 {
      if valuesLength != isValidsLength {
        return LengthMismatch;
      }
      s := AppendChunks(builder, values, isValids.value);
    } else {
      var ok := builder.AppendValues(values, None);
      return if ok then Success else BuilderError;
    }
  }

  // ---------------------------------------------------------------- overload 2: GBytes values

  /** Marking a stretch of the values with their narrowed flags gives that stretch of the array. */
  lemma MarkedPart<T>(values: seq<T>, isValids: Option<seq<gboolean>>, offset: nat, n: nat,
                      validBytes: Option<seq<uint8>>)
    requires FlagCount(isValids) > 0 ==> FlagCount(isValids) == |values|
    requires offset + n <= |values|
    requires validBytes.Some? <==> FlagCount(isValids) > 0
    requires validBytes.Some? ==> |validBytes.value| == n
    requires validBytes.Some? ==> forall k | 0 <= k < n :: validBytes.value[k] == Narrow(isValids.value[offset + k])
    ensures Marked(values[offset..offset + n], validBytes) == Logical(values, isValids)[offset..offset + n]
  {
    var part := Logical(values, isValids)[offset..offset + n];
    forall k | 0 <= k < n ensures Marked(values[offset..offset + n], validBytes)[k] == part[k] {
      assert part[k] == Logical(values, isValids)[offset + k];
    }
  }

  /** The inner loop over one chunk: collect the strings, and the flags if there are any. */
  method CollectStrings(values: seq<seq<byte>>, isValids: Option<seq<gboolean>>, offset: gint64, nValues: gint64)
    returns (strings: seq<seq<byte>>, validBytes: Option<seq<uint8>>)
    requires FlagCount(isValids) > 0 ==> FlagCount(isValids) == |values|
    requires 0 <= offset && 0 <= nValues <= CHUNK && offset + nValues <= |values| <= INT64_MAX
    ensures strings == values[offset..offset + nValues]
    ensures validBytes.Some? <==> FlagCount(isValids) > 0
    ensures validBytes.Some? ==> |validBytes.value| == nValues
    ensures validBytes.Some? ==>
      forall k | 0 <= k < nValues :: validBytes.value[k] == Narrow(isValids.value[offset + k])
  {
    strings := [];
    var buffer := new uint8[CHUNK];
    var haveValidBytes := FlagCount(isValids) > 0;
    var j: gint64 := 0;
    while j < nValues
      invariant 0 <= j <= nValues
      invariant strings == values[offset..offset + j]
      invariant haveValidBytes ==> forall k | 0 <= k < j :: buffer[k] == Narrow(isValids.value[offset + k])
    {
      strings := strings + [values[offset + j]];
      if haveValidBytes {
        buffer[j] := Narrow(isValids.value[offset + j]);
      }
      j := j + 1;
    }
    validBytes := if haveValidBytes then Some(buffer[..nValues]) else None;
  }

  method AppendStringsChunk(builder: ArrowBuilder<seq<byte>>, values: seq<seq<byte>>,
                            isValids: Option<seq<gboolean>>, i: gint64) returns (ok: bool)
    requires |values| <= INT64_MAX && 0 <= i < Loops(|values|)
    requires FlagCount(isValids) > 0 ==> FlagCount(isValids) == |values|
    modifies builder
    ensures builder.calls == old(builder.calls) + 1 && ok == !builder.refuses(old(builder.calls))
    ensures builder.elements == old(builder.elements) + if ok then Chunk(Logical(values, isValids), i) else []
  {
    ChunksCover(|values|, i);
    var offset: gint64 := CHUNK * i;
    var nValues: gint64 := if i == |values| / CHUNK then |values| % CHUNK else CHUNK;
    var strings, validBytes := CollectStrings(values, isValids, offset, nValues);
    MarkedPart(values, isValids, offset, nValues, validBytes);
    ok := builder.AppendValues(strings, validBytes);
  }

  /** garrow_array_builder_append_values on an array of GBytes. */
  method AppendStrings(builder: ArrowBuilder<seq<byte>>, values: seq<seq<byte>>, isValids: Option<seq<gboolean>>)
    returns (s: Status)
    requires |values| <= INT64_MAX && FlagCount(isValids) <= INT64_MAX
    modifies builder
    ensures s == LengthMismatch <==> FlagCount(isValids) > 0 && FlagCount(isValids) != |values|
    ensures s == LengthMismatch ==> builder.elements == old(builder.elements) && builder.calls == old(builder.calls)
    ensures s != LengthMismatch ==>
      Added(old(builder.elements), builder.elements, Logical(values, isValids),
            builder.refuses, old(builder.calls), s)
  {
    if FlagCount(isValids) > 0 && |values| != FlagCount(isValids) {
      return LengthMismatch;
    }
    ghost var logical := Logical(values, isValids);
    var nLoops: gint64 := |values| / CHUNK;
    if |values| % CHUNK > 0 {
      nLoops := nLoops + 1;
    }
    ghost var before, start := builder.elements, builder.calls;
    ProgressStarts(before, logical, builder.refuses, start);
    var i: gint64 := 0;
    while i < nLoops
      invariant 0 <= i <= nLoops
      invariant Progress(before, builder.elements, logical, builder.refuses, start, builder.calls, i)
    {
      ghost var now := builder.elements;
      var ok := AppendStringsChunk(builder, values, isValids, i);
      if !ok {
        assert builder.elements == now;
        ProgressEnds(before, now, logical, builder.refuses, start, builder.calls - 1, i);
        return BuilderError;
      }
      ProgressGoesOn(before, now, logical, builder.refuses, start, builder.calls - 1, i);
      i := i + 1;
    }
    ProgressEnds(before, builder.elements, logical, builder.refuses, start, builder.calls, i);
    return Success;
  }

  // ---------------------------------------------------------------- flat data of fixed-size values

  /** The size of n values of `width` bytes each. */
  function Size(width: nat, n: nat): (r: nat)
    decreases n
  {
    if n == 0 then 0 else Size(width, n - 1) + width
  }

  lemma {:induction false} SizeIsProduct(width: nat, n: nat)
    ensures Size(width, n) == width * n
    decreases n
  {
    if n == 0 {
    } else {
      SizeIsProduct(width, n - 1);
      assert width * n == width * (n - 1) + width;
    }
  }

  /** Where value j starts, as the source computes it. */
  function Start(width: nat, j: nat): (r: nat)
    ensures r == Size(width, j)
  {
    SizeIsProduct(width, j);
    width * j
  }

  lemma {:induction false} SizeAdds(width: nat, a: nat, b: nat)
    ensures Size(width, a + b) == Size(width, a) + Size(width, b)
    decreases b
  {
    if b == 0 {
    } else {
      assert Size(width, a + b) == Size(width, a + (b - 1)) + width;
      SizeAdds(width, a, b - 1);
    }
  }

  /** The data buffer of a chunk holds the values of the chunk. */
  lemma SizeFits(width: nat, n: nat, limit: nat)
    requires n <= limit
    ensures Size(width, n) <= width * limit
  {
    SizeIsProduct(width, n);
    assert width * limit == width * n + width * (limit - n);
  }

  function Flatten(pieces: seq<seq<byte>>): seq<byte> {
    if pieces == [] then [] else pieces[0] + Flatten(pieces[1..])
  }

  ghost predicate AllOfWidth(pieces: seq<seq<byte>>, width: nat) {
    forall p <- pieces :: |p| == width
  }

  /** The first n values of `width` bytes each. */
  function Pieces(data: seq<byte>, width: nat, n: nat): (r: seq<seq<byte>>)
    requires Size(width, n) <= |data|
    ensures |r| == n
    decreases n
  {
    if n == 0 then []
    else [data[..width]] + Pieces(data[width..], width, n - 1)
  }

  lemma {:induction false} FlattenLength(pieces: seq<seq<byte>>, width: nat)
    requires AllOfWidth(pieces, width)
    ensures |Flatten(pieces)| == Size(width, |pieces|)
  {
    if pieces == [] {
    } else {
      assert AllOfWidth(pieces[1..], width);
      FlattenLength(pieces[1..], width);
    }
  }

  lemma {:induction false} FlattenAppend(pieces: seq<seq<byte>>, more: seq<seq<byte>>)
    ensures Flatten(pieces + more) == Flatten(pieces) + Flatten(more)
  {
    if pieces == [] {
      assert pieces + more == more;
    } else {
      assert (pieces + more)[1..] == pieces[1..] + more;
      FlattenAppend(pieces[1..], more);
    }
  }

  /** Cutting flattened values gives the values back; what follows them is not looked at. */
  lemma {:induction false} PiecesOfFlatten(pieces: seq<seq<byte>>, rest: seq<byte>, width: nat)
    requires AllOfWidth(pieces, width)
    ensures Size(width, |pieces|) == |Flatten(pieces)|
    ensures Pieces(Flatten(pieces) + rest, width, |pieces|) == pieces
  {
    FlattenLength(pieces, width);
    if pieces == [] {
    } else {
      var tail := pieces[1..];
      assert AllOfWidth(tail, width);
      FlattenLength(tail, width);
      assert |pieces[0]| == width;
      assert Flatten(pieces) + rest == pieces[0] + (Flatten(tail) + rest);
      assert (Flatten(pieces) + rest)[..width] == pieces[0];
      assert (Flatten(pieces) + rest)[width..] == Flatten(tail) + rest;
      PiecesOfFlatten(tail, rest, width);
    }
  }

  // ---------------------------------------------------------------- overload 3: an array of pointers

  /** Whether element i is a value: NULL pointers and unset flags both mean null. */
  ghost predicate Present(values: seq<Option<seq<byte>>>, isValids: Option<seq<gboolean>>, i: nat)
    requires i < |values| && (isValids.Some? ==> |isValids.value| == |values|)
  {
    (isValids.None? || isValids.value[i] != 0) && values[i].Some?
  }

  /** memcpy reads `width` bytes of every present value. */
  ghost predicate Readable(values: seq<Option<seq<byte>>>, isValids: Option<seq<gboolean>>, width: nat)
    requires isValids.Some? ==> |isValids.value| == |values|
  {
    forall i | 0 <= i < |values| && Present(values, isValids, i) :: |values[i].value| >= width
  }

  /** The array that pointers and flags stand for: the first `width` bytes of each present value. */
  ghost function FixedLogical(values: seq<Option<seq<byte>>>, isValids: Option<seq<gboolean>>, width: nat)
    : (r: seq<Option<seq<byte>>>)
    requires isValids.Some? ==> |isValids.value| == |values|
    requires Readable(values, isValids, width)
    ensures |r| == |values|
  {
    seq(|values|, i requires 0 <= i < |values| =>
      if Present(values, isValids, i) then Some(values[i].value[..width]) else None)
  }

  /** What the inner loop knows after j elements of a chunk.  Either no validity buffer is in
      use and all j elements are present, or it is and its bytes tell which are. */
  ghost predicate LazyValidity(values: seq<Option<seq<byte>>>, isValids: Option<seq<gboolean>>, offset: nat, j: nat,
                               haveValidBytes: bool, buffer: seq<uint8>)
    requires offset + j <= |values| && j <= |buffer| && (isValids.Some? ==> |isValids.value| == |values|)
  {
    && (!haveValidBytes ==> forall k | offset <= k < offset + j :: Present(values, isValids, k))
    && (haveValidBytes ==>
          forall k | offset <= k < offset + j :: Present(values, isValids, k) <==> buffer[k - offset] != 0)
  }

  ghost predicate DataHolds(values: seq<Option<seq<byte>>>, isValids: Option<seq<gboolean>>,
                            width: nat, offset: nat, pieces: seq<seq<byte>>)
    requires offset + |pieces| <= |values| && (isValids.Some? ==> |isValids.value| == |values|)
    requires Readable(values, isValids, width)
  {
    && AllOfWidth(pieces, width)
    && forall k | offset <= k < offset + |pieces| && Present(values, isValids, k) ::
         pieces[k - offset] == values[k].value[..width]
  }

  /** Put element `offset + j` at its place in the data buffer, if it is present. */
  method WriteValue(values: seq<Option<seq<byte>>>, isValids: Option<seq<gboolean>>, width: nat,
                    offset: gint64, j: gint64, data: array<byte>) returns (isValid: bool)
    requires isValids.Some? ==> |isValids.value| == |values|
    requires Readable(values, isValids, width)
    requires 0 <= offset && 0 <= j && offset + j < |values| <= INT64_MAX
    requires Size(width, j) + width <= data.Length <= INT64_MAX
    modifies data
    ensures isValid <==> Present(values, isValids, offset + j)
    ensures data[..Size(width, j)] == old(data[..Size(width, j)])
    ensures isValid ==> data[Size(width, j)..Size(width, j) + width] == values[offset + j].value[..width]
  {
    isValid := true;
    if isValids.Some? {
      isValid := isValids.value[offset + j] != 0;
    }
    var value := None;
    if isValid {
      value := values[offset + j];
    }
    if value.Some? {
      var at: gint64 := Start(width, j);
      CopyBytes(data, at, value.value[..width]);
    } else {
      isValid := false;
    }
  }

  /** Record the validity of element j.  The buffer comes into use at the first null, and the
      bytes before it are then set by a memset. */
  method NoteValidity(buffer: array<uint8>, j: gint64, isValid: bool, haveValidBytes: bool) returns (have: bool)
    requires 0 <= j < buffer.Length
    modifies buffer
    ensures have == (haveValidBytes || !isValid)
    ensures have ==> (buffer[j] != 0 <==> isValid)
    ensures forall k | 0 <= k < j :: if haveValidBytes then buffer[k] == old(buffer[k]) else have ==> buffer[k] == 1
  {
    have := haveValidBytes;
    if !isValid && !have {
      have := true;
      forall k | 0 <= k < j {
        buffer[k] := 1;
      }
    }
    if have {
      buffer[j] := if isValid then 1 else 0;
    }
  }

  /** One turn of the inner loop. */
  method FillOne(values: seq<Option<seq<byte>>>, isValids: Option<seq<gboolean>>, width: nat,
                 offset: gint64, j: gint64, data: array<byte>, buffer: array<uint8>,
                 had: bool, ghost pieces: seq<seq<byte>>)
    returns (have: bool, ghost piece: seq<byte>)
    requires isValids.Some? ==> |isValids.value| == |values|
    requires Readable(values, isValids, width)
    requires 0 <= offset && 0 <= j < CHUNK && offset + j < |values| <= INT64_MAX
    requires (data as object) != (buffer as object)
    requires Size(width, j) + width <= data.Length <= INT64_MAX && buffer.Length == CHUNK
    requires LazyValidity(values, isValids, offset, j, had, buffer[..])
    requires |pieces| == j && DataHolds(values, isValids, width, offset, pieces)
    requires data[..Size(width, j)] == Flatten(pieces)
    modifies data, buffer
    ensures LazyValidity(values, isValids, offset, j + 1, have, buffer[..])
    ensures DataHolds(values, isValids, width, offset, pieces + [piece])
    ensures data[..Size(width, j) + width] == Flatten(pieces + [piece])
  {
    ghost var at := Size(width, j);
    ghost var was := buffer[..];
    var isValid := WriteValue(values, isValids, width, offset, j, data);
    ghost var filled := data[..];
    assert buffer[..] == was;
    have := NoteValidity(buffer, j, isValid, had);
    LazyStep(values, isValids, offset, j, had, was, isValid, have, buffer[..]);
    assert data[..] == filled;
    piece := filled[at..at + width];
    SnocData(filled, at, width, pieces, piece);
    HoldsStep(values, isValids, width, offset, pieces, piece);
  }

  /** The inner loop over one chunk. */
  method FillChunk(values: seq<Option<seq<byte>>>, isValids: Option<seq<gboolean>>, width: nat,
                   offset: gint64, nValues: gint64, data: array<byte>, buffer: array<uint8>)
    returns (haveValidBytes: bool, ghost pieces: seq<seq<byte>>)
    requires isValids.Some? ==> |isValids.value| == |values|
    requires Readable(values, isValids, width)
    requires 0 <= offset && 0 <= nValues <= CHUNK && offset + nValues <= |values| <= INT64_MAX
    requires (data as object) != (buffer as object)
    requires Size(width, nValues) <= data.Length <= INT64_MAX && buffer.Length == CHUNK
    modifies data, buffer
    ensures LazyValidity(values, isValids, offset, nValues, haveValidBytes, buffer[..])
    ensures |pieces| == nValues && DataHolds(values, isValids, width, offset, pieces)
    ensures data[..Size(width, nValues)] == Flatten(pieces)
  {
    haveValidBytes := isValids.Some?;
    pieces := [];
    var j: gint64 := 0;
    while j < nValues
      invariant 0 <= j <= nValues && |pieces| == j && Size(width, j) <= data.Length
      invariant LazyValidity(values, isValids, offset, j, haveValidBytes, buffer[..])
      invariant DataHolds(values, isValids, width, offset, pieces)
      invariant data[..Size(width, j)] == Flatten(pieces)
    {
      SizeAdds(width, j + 1, nValues - (j + 1));
      ghost var piece;
      haveValidBytes, piece := FillOne(values, isValids, width, offset, j, data, buffer, haveValidBytes, pieces);
      pieces := pieces + [piece];
      j := j + 1;
    }
  }

  lemma LazyStep(values: seq<Option<seq<byte>>>, isValids: Option<seq<gboolean>>, offset: nat, j: nat,
                 had: bool, was: seq<uint8>, isValid: bool, have: bool, now: seq<uint8>)
    requires offset + j < |values| && j < |was| == |now| && (isValids.Some? ==> |isValids.value| == |values|)
    requires LazyValidity(values, isValids, offset, j, had, was)
    requires isValid <==> Present(values, isValids, offset + j)
    requires have == (had || !isValid)
    requires have ==> (now[j] != 0 <==> isValid)
    requires forall k | 0 <= k < j :: if had then now[k] == was[k] else have ==> now[k] == 1
    ensures LazyValidity(values, isValids, offset, j + 1, have, now)
  {
  }

  lemma HoldsStep(values: seq<Option<seq<byte>>>, isValids: Option<seq<gboolean>>,
                  width: nat, offset: nat, pieces: seq<seq<byte>>, piece: seq<byte>)
    requires offset + |pieces| < |values| && (isValids.Some? ==> |isValids.value| == |values|)
    requires Readable(values, isValids, width)
    requires DataHolds(values, isValids, width, offset, pieces) && |piece| == width
    requires Present(values, isValids, offset + |pieces|) ==> piece == values[offset + |pieces|].value[..width]
    ensures DataHolds(values, isValids, width, offset, pieces + [piece])
  {
  }

  lemma SnocData(data: seq<byte>, at: nat, width: nat, pieces: seq<seq<byte>>, piece: seq<byte>)
    requires at + width <= |data| && data[..at] == Flatten(pieces) && piece == data[at..at + width]
    ensures data[..at + width] == Flatten(pieces + [piece])
  {
    FlattenAppend(pieces, [piece]);
    assert Flatten([piece]) == piece;
  }

  lemma PiecesOfPrefix(data: seq<byte>, width: nat, pieces: seq<seq<byte>>)
    requires AllOfWidth(pieces, width)
    requires Size(width, |pieces|) <= |data| && data[..Size(width, |pieces|)] == Flatten(pieces)
    ensures Pieces(data, width, |pieces|) == pieces
  {
    var rest := data[Size(width, |pieces|)..];
    assert data == Flatten(pieces) + rest;
    PiecesOfFlatten(pieces, rest, width);
  }

  /** What the builder makes of a filled chunk is that chunk of the array. */
  lemma FilledChunkIsChunk(values: seq<Option<seq<byte>>>, isValids: Option<seq<gboolean>>, width: nat,
                           offset: nat, n: nat, data: seq<byte>, pieces: seq<seq<byte>>,
                           haveValidBytes: bool, buffer: seq<uint8>)
    requires isValids.Some? ==> |isValids.value| == |values|
    requires Readable(values, isValids, width)
    requires offset + n <= |values| && |pieces| == n <= |buffer|
    requires LazyValidity(values, isValids, offset, n, haveValidBytes, buffer)
    requires DataHolds(values, isValids, width, offset, pieces)
    requires Size(width, n) <= |data| && data[..Size(width, n)] == Flatten(pieces)
    ensures Marked(Pieces(data, width, n), if haveValidBytes then Some(buffer[..n]) else None)
         == FixedLogical(values, isValids, width)[offset..offset + n]
  {
    PiecesOfPrefix(data, width, pieces);
    MarkedPieces(values, isValids, width, offset, n, pieces, haveValidBytes, buffer);
  }

  lemma MarkedPieces(values: seq<Option<seq<byte>>>, isValids: Option<seq<gboolean>>, width: nat,
                     offset: nat, n: nat, pieces: seq<seq<byte>>, haveValidBytes: bool, buffer: seq<uint8>)
    requires isValids.Some? ==> |isValids.value| == |values|
    requires Readable(values, isValids, width)
    requires offset + n <= |values| && |pieces| == n <= |buffer|
    requires LazyValidity(values, isValids, offset, n, haveValidBytes, buffer)
    requires DataHolds(values, isValids, width, offset, pieces)
    ensures Marked(pieces, if haveValidBytes then Some(buffer[..n]) else None)
         == FixedLogical(values, isValids, width)[offset..offset + n]
  {
    var validBytes := if haveValidBytes then Some(buffer[..n]) else None;
    var whole := FixedLogical(values, isValids, width);
    forall k | 0 <= k < n ensures Marked(pieces, validBytes)[k] == whole[offset..offset + n][k] {
      assert whole[offset..offset + n][k] == whole[offset + k];
      assert Present(values, isValids, offset + k) <==> (validBytes.None? || validBytes.value[k] != 0);
    }
  }

  /** Copy one chunk into the buffers: the values, and the validity bytes if they came into use. */
  method PrepareChunk(values: seq<Option<seq<byte>>>, isValids: Option<seq<gboolean>>, width: nat,
                      offset: gint64, nValues: gint64)
    returns (part: seq<seq<byte>>, validBytes: Option<seq<uint8>>)
    requires isValids.Some? ==> |isValids.value| == |values|
    requires Readable(values, isValids, width)
    requires 0 <= offset && 0 <= nValues <= CHUNK && offset + nValues <= |values| <= INT64_MAX
    requires width <= INT32_MAX
    ensures |part| == nValues && (validBytes.Some? ==> |validBytes.value| == nValues)
    ensures Marked(part, validBytes) == FixedLogical(values, isValids, width)[offset..offset + nValues]
  {
    SizeFits(width, nValues, CHUNK);
    var data := new byte[width * CHUNK];
    var buffer := new uint8[CHUNK];
    var haveValidBytes;
    ghost var pieces;
    haveValidBytes, pieces := FillChunk(values, isValids, width, offset, nValues, data, buffer);
    FilledChunkIsChunk(values, isValids, width, offset, nValues, data[..], pieces, haveValidBytes, buffer[..]);
    part := Pieces(data[..], width, nValues);
    validBytes := if haveValidBytes then Some(buffer[..][..nValues]) else None;
  }

  method AppendFixedChunk(builder: ArrowBuilder<seq<byte>>, width: nat, values: seq<Option<seq<byte>>>,
                          isValids: Option<seq<gboolean>>, i: gint64) returns (ok: bool)
    requires |values| <= INT64_MAX && 0 <= i < Loops(|values|) && width <= INT32_MAX
    requires isValids.Some? ==> |isValids.value| == |values|
    requires Readable(values, isValids, width)
    modifies builder
    ensures builder.calls == old(builder.calls) + 1 && ok == !builder.refuses(old(builder.calls))
    ensures builder.elements == old(builder.elements)
      + if ok then Chunk(FixedLogical(values, isValids, width), i) else []
  {
    ChunksCover(|values|, i);
    var offset: gint64 := CHUNK * i;
    var nValues: gint64 := if i == |values| / CHUNK then |values| % CHUNK else CHUNK;
    var part, validBytes := PrepareChunk(values, isValids, width, offset, nValues);
    ok := builder.AppendValues(part, validBytes);
  }

  /** garrow_array_builder_append_values with a function that writes one value. */
  method AppendFixed(builder: ArrowBuilder<seq<byte>>, width: nat, values: seq<Option<seq<byte>>>,
                     isValids: Option<seq<gboolean>>) returns (s: Status)
    requires width <= INT32_MAX && |values| <= INT64_MAX && FlagCount(isValids) <= INT64_MAX
    // The flags are read whenever the pointer is not NULL, whatever the length says.
    requires isValids.Some? ==> |isValids.value| > 0 || |values| == 0
    requires (isValids.Some? ==> |isValids.value| == |values|) ==> Readable(values, isValids, width)
    modifies builder
    ensures s == LengthMismatch <==> isValids.Some? && |isValids.value| != |values|
    ensures s == LengthMismatch ==> builder.elements == old(builder.elements) && builder.calls == old(builder.calls)
    ensures s != LengthMismatch ==>
      Added(old(builder.elements), builder.elements, FixedLogical(values, isValids, width),
            builder.refuses, old(builder.calls), s)
    ensures s == Success ==>
      (builder.elements == OneByOne(old(builder.elements), width, values, isValids)
       <==> ExactWidths(values, isValids, width))
  {
    if FlagCount(isValids) > 0 && |values| != FlagCount(isValids) {
      return LengthMismatch;
    }
    ghost var before, start := builder.elements, builder.calls;
    s := AppendFixedChunks(builder, width, values, isValids);
    if s == Success {
      OutcomeOfChunks(before, builder.elements, FixedLogical(values, isValids, width), builder.refuses, start, s);
      BulkIsOneByOne(before, width, values, isValids);
    }
  }

  method AppendFixedChunks(builder: ArrowBuilder<seq<byte>>, width: nat, values: seq<Option<seq<byte>>>,
                           isValids: Option<seq<gboolean>>) returns (s: Status)
    requires width <= INT32_MAX && |values| <= INT64_MAX
    requires isValids.Some? ==> |isValids.value| == |values|
    requires Readable(values, isValids, width)
    modifies builder
    ensures Added(old(builder.elements), builder.elements, FixedLogical(values, isValids, width),
                  builder.refuses, old(builder.calls), s)
  {
    ghost var logical := FixedLogical(values, isValids, width);
    var nLoops: gint64 := |values| / CHUNK;
    if |values| % CHUNK > 0 {
      nLoops := nLoops + 1;
    }
    ghost var before, start := builder.elements, builder.calls;
    ProgressStarts(before, logical, builder.refuses, start);
    var i: gint64 := 0;
    while i < nLoops
      invariant 0 <= i <= nLoops
      invariant Progress(before, builder.elements, logical, builder.refuses, start, builder.calls, i)
    {
      ghost var now := builder.elements;
      var ok := AppendFixedChunk(builder, width, values, isValids, i);
      if !ok {
        assert builder.elements == now;
        ProgressEnds(before, now, logical, builder.refuses, start, builder.calls - 1, i);
        return BuilderError;
      }
      ProgressGoesOn(before, now, logical, builder.refuses, start, builder.calls - 1, i);
      i := i + 1;
    }
    ProgressEnds(before, builder.elements, logical, builder.refuses, start, builder.calls, i);
    return Success;
  }

  // ---------------------------------------------------------------- overload 4: packed values

  lemma {:induction false} PiecesFrom(data: seq<byte>, width: nat, n: nat, from: nat, m: nat)
    requires Size(width, n) <= |data| && from + m <= n
    ensures Size(width, from) + Size(width, m) <= |data|
    ensures Pieces(data[Size(width, from)..], width, m) == Pieces(data, width, n)[from..from + m]
    decreases n
  {
    SizeAdds(width, from, m);
    SizeAdds(width, from + m, n - (from + m));
    if from > 0 {
      var tail := data[width..];
      PiecesFrom(tail, width, n - 1, from - 1, m);
      assert data[Size(width, from)..] == tail[Size(width, from - 1)..];
      DropFirst(data[..width], Pieces(tail, width, n - 1), from, m);
    } else {
      assert data[Size(width, 0)..] == data;
      PiecesPrefix(data, width, n, m);
      assert Pieces(data, width, n)[..m] == Pieces(data, width, n)[0..0 + m];
    }
  }

  lemma DropFirst<T>(x: T, s: seq<T>, from: nat, m: nat)
    requires 0 < from && from - 1 + m <= |s|
    ensures ([x] + s)[from..from + m] == s[from - 1..from - 1 + m]
  {
  }

  lemma {:induction false} PiecesPrefix(data: seq<byte>, width: nat, n: nat, m: nat)
    requires Size(width, n) <= |data| && m <= n
    ensures Size(width, m) <= |data|
    ensures Pieces(data, width, m) == Pieces(data, width, n)[..m]
    decreases n
  {
    SizeAdds(width, m, n - m);
    if m > 0 {
      PiecesPrefix(data[width..], width, n - 1, m - 1);
    }
  }

  /** The values that packed bytes hold; a trailing partial value is not one of them. */
  function Unpacked(raw: seq<byte>, width: nat): (r: seq<seq<byte>>)
    requires width > 0
    ensures |r| == |raw| / width
  {
    WholeValuesFit(|raw|, width);
    Pieces(raw, width, |raw| / width)
  }

  lemma WholeValuesFit(size: nat, width: nat)
    requires width > 0
    ensures Size(width, size / width) <= size
  {
    SizeIsProduct(width, size / width);
  }

  /** What the builder reads at `raw_values + value_size * offset`. */
  function PackedPart(raw: seq<byte>, width: nat, n: nat, start: gint64, offset: nat, m: nat): (r: seq<seq<byte>>)
    requires Size(width, n) <= |raw| && offset + m <= n && start == Start(width, offset)
    ensures r == Pieces(raw, width, n)[offset..offset + m]
  {
    PiecesFrom(raw, width, n, offset, m);
    Pieces(raw[start..], width, m)
  }

  method PreparePacked(raw: seq<byte>, width: nat, isValids: seq<gboolean>, offset: gint64, nValues: gint64)
    returns (part: seq<seq<byte>>, validBytes: seq<uint8>)
    requires Size(width, |isValids|) <= |raw| <= INT64_MAX
    requires 0 <= offset && 0 < nValues <= CHUNK && offset + nValues <= |isValids| <= INT64_MAX
    ensures |part| == |validBytes| == nValues
    ensures Marked(part, Some(validBytes))
         == Logical(Pieces(raw, width, |isValids|), Some(isValids))[offset..offset + nValues]
  {
    var buffer := new uint8[CHUNK];
    FillValidBytes(buffer, isValids, offset, nValues);
    validBytes := buffer[..nValues];
    PiecesFrom(raw, width, |isValids|, offset, nValues);
    var start: gint64 := Start(width, offset);
    part := PackedPart(raw, width, |isValids|, start, offset, nValues);
    MarkedPart(Pieces(raw, width, |isValids|), Some(isValids), offset, nValues, Some(validBytes));
  }

  method AppendPackedChunk(builder: ArrowBuilder<seq<byte>>, width: nat, raw: seq<byte>,
                           isValids: seq<gboolean>, i: gint64) returns (ok: bool)
    requires |isValids| <= INT64_MAX && 0 <= i < Loops(|isValids|)
    requires Size(width, |isValids|) <= |raw| <= INT64_MAX
    modifies builder
    ensures builder.calls == old(builder.calls) + 1 && ok == !builder.refuses(old(builder.calls))
    ensures builder.elements == old(builder.elements)
      + if ok then Chunk(Logical(Pieces(raw, width, |isValids|), Some(isValids)), i) else []
  {
    var n := |isValids|;
    ChunksCover(n, i);
    var offset: gint64 := CHUNK * i;
    var nValues: gint64 := if i == n / CHUNK then n % CHUNK else CHUNK;
    var part, validBytes := PreparePacked(raw, width, isValids, offset, nValues);
    ok := builder.AppendValues(part, Some(validBytes));
  }

  method AppendPackedChunks(builder: ArrowBuilder<seq<byte>>, width: nat, raw: seq<byte>, isValids: seq<gboolean>)
    returns (s: Status)
    requires 0 < |isValids| <= INT64_MAX && Size(width, |isValids|) <= |raw| <= INT64_MAX
    modifies builder
    ensures Added(old(builder.elements), builder.elements, Logical(Pieces(raw, width, |isValids|), Some(isValids)),
                  builder.refuses, old(builder.calls), s)
  {
    ghost var logical := Logical(Pieces(raw, width, |isValids|), Some(isValids));
    var n: gint64 := |isValids|;
    var nLoops: gint64 := n / CHUNK;
    if n % CHUNK > 0 {
      nLoops := nLoops + 1;
    }
    ghost var before, start := builder.elements, builder.calls;
    ProgressStarts(before, logical, builder.refuses, start);
    var i: gint64 := 0;
    while i < nLoops
      invariant 0 <= i <= nLoops
      invariant Progress(before, builder.elements, logical, builder.refuses, start, builder.calls, i)
    {
      ghost var now := builder.elements;
      var ok := AppendPackedChunk(builder, width, raw, isValids, i);
      if !ok {
        assert builder.elements == now;
        ProgressEnds(before, now, logical, builder.refuses, start, builder.calls - 1, i);
        return BuilderError;
      }
      ProgressGoesOn(before, now, logical, builder.refuses, start, builder.calls - 1, i);
      i := i + 1;
    }
    ProgressEnds(before, builder.elements, logical, builder.refuses, start, builder.calls, i);
    return Success;
  }

  /** garrow_array_builder_append_values on one GBytes that holds all the values. */
  method AppendPacked(builder: ArrowBuilder<seq<byte>>, width: nat, raw: seq<byte>, isValids: Option<seq<gboolean>>)
    returns (s: Status)
    requires width > 0 && |raw| <= INT64_MAX && FlagCount(isValids) <= INT64_MAX
    modifies builder
    ensures s == LengthMismatch <==> FlagCount(isValids) > 0 && FlagCount(isValids) != |raw| / width
    ensures s == LengthMismatch ==> builder.elements == old(builder.elements) && builder.calls == old(builder.calls)
    ensures s != LengthMismatch && FlagCount(isValids) > 0 ==>
      Added(old(builder.elements), builder.elements, Logical(Unpacked(raw, width), isValids),
            builder.refuses, old(builder.calls), s)
    ensures s != LengthMismatch && FlagCount(isValids) == 0 ==>
      && s == (if builder.refuses(old(builder.calls)) then BuilderError else Success)
      && builder.elements
         == old(builder.elements) + if s == Success then Logical(Unpacked(raw, width), isValids) else []
    ensures s == Success ==>
      (builder.elements == OneByOne(old(builder.elements), width, Pointers(Unpacked(raw, width)), Given(isValids))
       <==> FlagsSurvive(isValids))
  {
    var values := Unpacked(raw, width);
    var nValues := |values|;
    if FlagCount(isValids) > 0 && nValues != FlagCount(isValids) {
      return LengthMismatch;
    }
    ghost var before, start := builder.elements, builder.calls;
    if FlagCount(isValids) == 0 {
      var ok := builder.AppendValues(values, None);
      s := if ok then Success else BuilderError;
    } else {
      WholeValuesFit(|raw|, width);
      s := AppendPackedChunks(builder, width, raw, isValids.value);
      if s == Success {
        OutcomeOfChunks(before, builder.elements, Logical(values, isValids), builder.refuses, start, s);
      }
    }
    if s == Success {
      PackedIsOneByOne(before, width, raw, isValids);
    }
  }

  /** The flags, or NULL if there are none. */
  function Given(isValids: Option<seq<gboolean>>): Option<seq<gboolean>> {
    if FlagCount(isValids) == 0 then None else isValids
  }

  predicate FlagsSurvive(isValids: Option<seq<gboolean>>) {
    FlagCount(isValids) > 0 ==> forall i | 0 <= i < |isValids.value| :: SurvivesNarrowing(isValids.value[i])
  }

  lemma {:induction false} PiecesHaveWidth(data: seq<byte>, width: nat, n: nat)
    requires Size(width, n) <= |data|
    ensures AllOfWidth(Pieces(data, width, n), width)
    decreases n
  {
    if n > 0 {
      SizeAdds(width, 1, n - 1);
      PiecesHaveWidth(data[width..], width, n - 1);
    }
  }

  /** The packed form adds what one append per value adds, exactly when no flag is a non-zero
      multiple of 256. */
  lemma PackedIsOneByOne(elements: seq<Option<seq<byte>>>, width: nat, raw: seq<byte>, isValids: Option<seq<gboolean>>)
    requires width > 0 && (FlagCount(isValids) > 0 ==> FlagCount(isValids) == |raw| / width)
    ensures elements + Logical(Unpacked(raw, width), isValids)
         == OneByOne(elements, width, Pointers(Unpacked(raw, width)), Given(isValids))
      <==> FlagsSurvive(isValids)
  {
    var pieces := Unpacked(raw, width);
    WholeValuesFit(|raw|, width);
    PiecesHaveWidth(raw, width, |raw| / width);
    PointersOneByOne(elements, width, pieces, Given(isValids));
    if FlagCount(isValids) > 0 {
      PointerForm(pieces, width, isValids.value);
    } else {
      PointerFormWithoutFlags(pieces, width);
    }
    SameAfter(elements, Logical(pieces, isValids), FixedLogical(Pointers(pieces), Given(isValids), width));
  }

  lemma PointersOneByOne(elements: seq<Option<seq<byte>>>, width: nat, pieces: seq<seq<byte>>,
                         isValids: Option<seq<gboolean>>)
    requires AllOfWidth(pieces, width) && (isValids.Some? ==> |isValids.value| == |pieces|)
    ensures Readable(Pointers(pieces), isValids, width)
    ensures OneByOne(elements, width, Pointers(pieces), isValids)
         == elements + FixedLogical(Pointers(pieces), isValids, width)
  {
    BulkIsOneByOne(elements, width, Pointers(pieces), isValids);
  }

  // ---------------------------------------------------------------- what the overloads mean

  /** After any outcome of a chunked append: success added the whole array; failure added
      exactly the first 4096*k elements, where k is the first chunk that was refused. */
  lemma OutcomeOfChunks<T>(before: seq<Option<T>>, after: seq<Option<T>>, logical: seq<Option<T>>,
                           refuses: nat -> bool, calls: nat, s: Status)
    requires Added(before, after, logical, refuses, calls, s)
    ensures s == Success ==> after == before + logical
    ensures s == Success <==> forall c | calls <= c < calls + Loops(|logical|) :: !refuses(c)
    ensures s == BuilderError ==>
      var k := FirstRefusal(refuses, calls, Loops(|logical|));
      4096 * k < |logical| && refuses(calls + k) && after == before + logical[..4096 * k]
  {
    var k := FirstRefusal(refuses, calls, Loops(|logical|));
    if k < Loops(|logical|) {
      ChunksCover(|logical|, k);
    } else {
      assert logical[..|logical|] == logical;
    }
  }

  /** What the documentation promises for flags: TRUE, that is non-zero, means valid. */
  function Documented<T>(values: seq<T>, isValids: seq<gboolean>): seq<Option<T>>
    requires |isValids| == |values|
  {
    seq(|values|, i requires 0 <= i < |values| => if isValids[i] != 0 then Some(values[i]) else None)
  }

  /** A flag such as 256 is TRUE but narrows to zero. */
  predicate SurvivesNarrowing(flag: gboolean) {
    flag != 0 ==> flag % 256 != 0
  }

  /** The overloads that narrow the flags keep the documented promise exactly when no flag is
      a non-zero multiple of 256. */
  lemma NarrowingKeepsPromise<T>(values: seq<T>, isValids: seq<gboolean>)
    requires 0 < |isValids| == |values|
    ensures Logical(values, Some(isValids)) == Documented(values, isValids)
      <==> forall i | 0 <= i < |isValids| :: SurvivesNarrowing(isValids[i])
  {
    var logical, documented := Logical(values, Some(isValids)), Documented(values, isValids);
    forall i | 0 <= i < |values| ensures logical[i] == documented[i] <==> SurvivesNarrowing(isValids[i]) {
    }
    if logical == documented {
      forall i | 0 <= i < |isValids| ensures SurvivesNarrowing(isValids[i]) {
        assert logical[i] == documented[i];
      }
    }
  }

  lemma NarrowingLosesTrue()
    ensures Logical([7], Some([256])) == [None] && Documented([7], [256]) == [Some(7)]
  {
  }

  // ---------------------------------------------------------------- booleans

  function Narrowed(values: seq<gboolean>): (r: seq<uint8>)
    ensures |r| == |values|
  {
    seq(|values|, i requires 0 <= i < |values| => Narrow(values[i]))
  }

  /** garrow_boolean_array_builder_append_values: the values are narrowed before the flags are. */
  method AppendBooleans(builder: ArrowBuilder<uint8>, values: seq<gboolean>, isValids: Option<seq<gboolean>>)
    returns (s: Status)
    requires |values| <= INT64_MAX && FlagCount(isValids) <= INT64_MAX
    modifies builder
    ensures s == LengthMismatch <==> FlagCount(isValids) > 0 && FlagCount(isValids) != |values|
    ensures s == LengthMismatch ==> builder.elements == old(builder.elements) && builder.calls == old(builder.calls)
    ensures s != LengthMismatch && FlagCount(isValids) > 0 ==>
      Added(old(builder.elements), builder.elements, Logical(Narrowed(values), isValids),
            builder.refuses, old(builder.calls), s)
    ensures s != LengthMismatch && FlagCount(isValids) == 0 ==>
      && s == (if builder.refuses(old(builder.calls)) then BuilderError else Success)
      && builder.elements
         == old(builder.elements) + if s == Success then Logical(Narrowed(values), isValids) else []
    ensures s == Success ==> builder.elements == old(builder.elements) + Logical(Narrowed(values), isValids)
    ensures s == Success ==>
      (AsBooleans(builder.elements) == AsBooleans(old(builder.elements)) + BooleansOneByOne(values, isValids)
       <==> BooleansSurvive(values, isValids))
  {
    var arrowValues := new uint8[|values|];
    var i: gint64 := 0;
    while i < |values|
      invariant 0 <= i <= |values|
      invariant forall k | 0 <= k < i :: arrowValues[k] == Narrow(values[k])
      modifies arrowValues
    {
      arrowValues[i] := Narrow(values[i]);
      i := i + 1;
    }
    assert arrowValues[..] == Narrowed(values);
    ghost var before, start := builder.elements, builder.calls;
    s := AppendValues(builder, arrowValues[..], isValids);
    if s == Success && FlagCount(isValids) > 0 {
      OutcomeOfChunks(before, builder.elements, Logical(Narrowed(values), isValids), builder.refuses, start, s);
    }
    if s == Success {
      AsBooleansConcat(before, Logical(Narrowed(values), isValids));
      BulkBooleansAreOneByOne(values, isValids);
      SameAfter(AsBooleans(before), AsBooleans(Logical(Narrowed(values), isValids)),
                BooleansOneByOne(values, isValids));
    }
  }

  lemma AsBooleansConcat(a: seq<Option<uint8>>, b: seq<Option<uint8>>)
    ensures AsBooleans(a + b) == AsBooleans(a) + AsBooleans(b)
  {
  }

  lemma SameAfter<T>(a: seq<T>, b: seq<T>, c: seq<T>)
    ensures a + b == a + c <==> b == c
  {
    if a + b == a + c {
      assert b == (a + b)[|a|..] && c == (a + c)[|a|..];
    }
  }

  /** How BooleanBuilder reads the bytes it was given. */
  function AsBooleans(elements: seq<Option<uint8>>): seq<Option<bool>> {
    seq(|elements|, i requires 0 <= i < |elements| =>
      if elements[i].Some? then Some(elements[i].value != 0) else None)
  }

  /** append_value for each element whose flag is set, and append_null for the others. */
  function BooleansOneByOne(values: seq<gboolean>, isValids: Option<seq<gboolean>>): (r: seq<Option<bool>>)
    requires FlagCount(isValids) > 0 ==> FlagCount(isValids) == |values|
    ensures |r| == |values|
  {
    if values == [] then []
    else
      var n := |values| - 1;
      var flagged := FlagCount(isValids) > 0;
      BooleansOneByOne(values[..n], if flagged then Some(isValids.value[..n]) else None)
      + [if flagged && isValids.value[n] == 0 then None else Some(values[n] != 0)]
  }

  lemma {:induction false} BooleanAt(values: seq<gboolean>, isValids: Option<seq<gboolean>>, i: nat)
    requires FlagCount(isValids) > 0 ==> FlagCount(isValids) == |values|
    requires i < |values|
    ensures BooleansOneByOne(values, isValids)[i]
         == if FlagCount(isValids) > 0 && isValids.value[i] == 0 then None else Some(values[i] != 0)
  {
    var n := |values| - 1;
    if i < n {
      BooleanAt(values[..n], if FlagCount(isValids) > 0 then Some(isValids.value[..n]) else None, i);
    }
  }

  /** Element i of the bulk form of booleans is what append_value or append_null would add. */
  predicate BooleanSurvives(values: seq<gboolean>, isValids: Option<seq<gboolean>>, i: nat)
    requires i < |values| && (FlagCount(isValids) > 0 ==> FlagCount(isValids) == |values|)
  {
    if FlagCount(isValids) == 0 then SurvivesNarrowing(values[i])
    else isValids.value[i] != 0 ==> SurvivesNarrowing(isValids.value[i]) && SurvivesNarrowing(values[i])
  }

  predicate BooleansSurvive(values: seq<gboolean>, isValids: Option<seq<gboolean>>)
    requires FlagCount(isValids) > 0 ==> FlagCount(isValids) == |values|
  {
    forall i | 0 <= i < |values| :: BooleanSurvives(values, isValids, i)
  }

  /** The bulk form of booleans adds what one-by-one appends add exactly when, wherever the flag
      is set or there are no flags, both the flag and the value survive the narrowing. */
  lemma BulkBooleansAreOneByOne(values: seq<gboolean>, isValids: Option<seq<gboolean>>)
    requires FlagCount(isValids) > 0 ==> FlagCount(isValids) == |values|
    ensures AsBooleans(Logical(Narrowed(values), isValids)) == BooleansOneByOne(values, isValids)
      <==> BooleansSurvive(values, isValids)
  {
    var bulk, single := AsBooleans(Logical(Narrowed(values), isValids)), BooleansOneByOne(values, isValids);
    forall i | 0 <= i < |values| ensures bulk[i] == single[i] <==> BooleanSurvives(values, isValids, i) {
      BooleanAt(values, isValids, i);
    }
    if bulk == single {
      forall i | 0 <= i < |values| ensures BooleanSurvives(values, isValids, i) {
        assert bulk[i] == single[i];
      }
    }
  }

  /** The value 256 is TRUE, and the bulk form adds FALSE for it. */
  lemma NarrowingTurnsTrueFalse()
    ensures AsBooleans(Logical(Narrowed([256]), None)) == [Some(false)]
    ensures BooleansOneByOne([256], None) == [Some(true)]
  {
    BooleanAt([256], None, 0);
  }

  // ---------------------------------------------------------------- fixed-size values one by one

  /** append_value of one fixed-size value: NULL appends a null, a value of another size is rejected. */
  function AppendOne(elements: seq<Option<seq<byte>>>, width: nat, value: Option<seq<byte>>): seq<Option<seq<byte>>> {
    if value.None? then elements + [None]
    else if |value.value| != width then elements
    else elements + [value]
  }

  /** garrow_fixed_size_binary_array_builder_append_value. */
  method AppendSingle(builder: ArrowBuilder<seq<byte>>, width: nat, value: Option<seq<byte>>) returns (s: Status)
    modifies builder
    ensures s == LengthMismatch <==> value.Some? && |value.value| != width
    ensures s == LengthMismatch ==> builder.elements == old(builder.elements) && builder.calls == old(builder.calls)
    ensures s != LengthMismatch ==>
      && builder.calls == old(builder.calls) + 1
      && s == (if builder.refuses(old(builder.calls)) then BuilderError else Success)
      && builder.elements == old(builder.elements) + if s == Success then [value] else []
  {
    var ok;
    if value.Some? {
      if width != |value.value| {
        return LengthMismatch;
      }
      ok := builder.AppendValues([value.value], None);
    } else {
      ok := builder.AppendNull();
    }
    s := if ok then Success else BuilderError;
  }

  /** A client that appends the elements one by one, with NULL for an unset flag, to a builder that
      refuses nothing. */
  method AppendEach(builder: ArrowBuilder<seq<byte>>, width: nat, values: seq<Option<seq<byte>>>,
                    isValids: Option<seq<gboolean>>)
    requires isValids.Some? ==> |isValids.value| == |values|
    requires forall c: nat :: !builder.refuses(c)
    modifies builder
    ensures builder.elements == OneByOne(old(builder.elements), width, values, isValids)
  {
    var i := 0;
    while i < |values|
      invariant 0 <= i <= |values|
      invariant builder.elements == OneByOne(old(builder.elements), width, values[..i], Upto(isValids, i))
    {
      OneByOneNext(old(builder.elements), width, values, isValids, i);
      var value := if isValids.Some? && isValids.value[i] == 0 then None else values[i];
      var _ := AppendSingle(builder, width, value);
      i := i + 1;
    }
    assert values[..i] == values;
    UptoAll(isValids, i);
  }

  lemma OneByOneNext(elements: seq<Option<seq<byte>>>, width: nat, values: seq<Option<seq<byte>>>,
                     isValids: Option<seq<gboolean>>, i: nat)
    requires isValids.Some? ==> |isValids.value| == |values|
    requires i < |values|
    ensures OneByOne(elements, width, values[..i + 1], Upto(isValids, i + 1))
         == AppendOne(OneByOne(elements, width, values[..i], Upto(isValids, i)), width,
                      if isValids.Some? && isValids.value[i] == 0 then None else values[i])
  {
    assert values[..i + 1][..i] == values[..i];
    if isValids.Some? {
      assert isValids.value[..i + 1][..i] == isValids.value[..i];
    }
  }

  lemma UptoAll(isValids: Option<seq<gboolean>>, n: nat)
    requires isValids.Some? ==> |isValids.value| == n
    ensures Upto(isValids, n) == isValids
  {
    if isValids.Some? {
      assert isValids.value[..n] == isValids.value;
    }
  }

  /** append_value for each element in order, NULL standing for an unset flag. */
  function OneByOne(elements: seq<Option<seq<byte>>>, width: nat,
                    values: seq<Option<seq<byte>>>, isValids: Option<seq<gboolean>>): seq<Option<seq<byte>>>
    requires isValids.Some? ==> |isValids.value| == |values|
  {
    if values == [] then elements
    else
      var n := |values| - 1;
      var value := if isValids.Some? && isValids.value[n] == 0 then None else values[n];
      AppendOne(OneByOne(elements, width, values[..n], Upto(isValids, n)), width, value)
  }

  function Upto(isValids: Option<seq<gboolean>>, n: nat): Option<seq<gboolean>>
    requires isValids.Some? ==> n <= |isValids.value|
  {
    if isValids.None? then None else Some(isValids.value[..n])
  }

  ghost predicate ExactWidths(values: seq<Option<seq<byte>>>, isValids: Option<seq<gboolean>>, width: nat)
    requires isValids.Some? ==> |isValids.value| == |values|
  {
    forall i | 0 <= i < |values| && Present(values, isValids, i) :: |values[i].value| == width
  }

  /** The bulk form of fixed-size values adds what one-by-one appends add, exactly when every
      present value has the right size; a longer one is rejected there but cut here. */
  lemma {:induction false} BulkIsOneByOne(elements: seq<Option<seq<byte>>>, width: nat,
                                          values: seq<Option<seq<byte>>>, isValids: Option<seq<gboolean>>)
    requires isValids.Some? ==> |isValids.value| == |values|
    requires Readable(values, isValids, width)
    ensures |OneByOne(elements, width, values, isValids)| <= |elements| + |values|
    ensures ExactWidths(values, isValids, width)
      <==> |OneByOne(elements, width, values, isValids)| == |elements| + |values|
    ensures ExactWidths(values, isValids, width)
      <==> OneByOne(elements, width, values, isValids) == elements + FixedLogical(values, isValids, width)
  {
    var bulk := FixedLogical(values, isValids, width);
    if values == [] {
    } else {
      var n := |values| - 1;
      var values', isValids' := values[..n], Upto(isValids, n);
      forall i | 0 <= i < n ensures Present(values', isValids', i) <==> Present(values, isValids, i) {}
      BulkIsOneByOne(elements, width, values', isValids');
      assert ExactWidths(values, isValids, width) <==>
        ExactWidths(values', isValids', width) && (Present(values, isValids, n) ==> |values[n].value| == width);
      assert bulk == FixedLogical(values', isValids', width) + [bulk[n]];
      assert elements + bulk == elements + FixedLogical(values', isValids', width) + [bulk[n]];
      if Present(values, isValids, n) && |values[n].value| == width {
        assert values[n].value[..width] == values[n].value;
      }
    }
  }

  function Pointers(pieces: seq<seq<byte>>): seq<Option<seq<byte>>> {
    seq(|pieces|, i requires 0 <= i < |pieces| => Some(pieces[i]))
  }

  /** Packing values of the right size, and a partial value after them, loses nothing but the
      partial value. */
  lemma UnpackedOfFlatten(pieces: seq<seq<byte>>, partial: seq<byte>, width: nat)
    requires width > 0 && AllOfWidth(pieces, width) && |partial| < width
    ensures Unpacked(Flatten(pieces) + partial, width) == pieces
  {
    FlattenLength(pieces, width);
    SizeIsProduct(width, |pieces|);
    QuotientOf(width, |pieces|, |partial|);
    PiecesOfFlatten(pieces, partial, width);
  }

  lemma QuotientOf(width: nat, n: nat, r: nat)
    requires r < width
    ensures (width * n + r) / width == n
  {
    var x := width * n + r;
    assert x == width * (x / width) + x % width;
    assert width * (n - x / width) == x % width - r;
    Multiple(width, n - x / width);
  }

  lemma Multiple(width: nat, k: int)
    ensures k > 0 ==> width * k >= width
    ensures k < 0 ==> width * k <= 0 - width
  {
  }

  /** Values of the right size, marked by narrowed flags and by pointers and flags. */
  lemma PointerForm(pieces: seq<seq<byte>>, width: nat, isValids: seq<gboolean>)
    requires AllOfWidth(pieces, width) && 0 < |isValids| == |pieces|
    ensures Readable(Pointers(pieces), Some(isValids), width)
    ensures Logical(pieces, Some(isValids)) == FixedLogical(Pointers(pieces), Some(isValids), width)
      <==> forall i | 0 <= i < |isValids| :: SurvivesNarrowing(isValids[i])
  {
    NarrowingKeepsPromise(pieces, isValids);
    var fixed := FixedLogical(Pointers(pieces), Some(isValids), width);
    forall i | 0 <= i < |pieces| ensures fixed[i] == Documented(pieces, isValids)[i] {
      assert pieces[i][..width] == pieces[i];
    }
    assert fixed == Documented(pieces, isValids);
  }

  lemma PointerFormWithoutFlags(pieces: seq<seq<byte>>, width: nat)
    requires AllOfWidth(pieces, width)
    ensures Readable(Pointers(pieces), None, width)
    ensures Logical(pieces, None) == FixedLogical(Pointers(pieces), None, width)
  {
    assert forall i | 0 <= i < |pieces| :: pieces[i][..width] == pieces[i];
  }

  /** The packed form adds what the pointer form adds for the same values and flags, exactly
      when no flag is a non-zero multiple of 256. */
  lemma PackedIsPointerForm(pieces: seq<seq<byte>>, partial: seq<byte>, width: nat, isValids: seq<gboolean>)
    requires width > 0 && AllOfWidth(pieces, width) && |partial| < width
    requires 0 < |isValids| == |pieces|
    ensures Readable(Pointers(pieces), Some(isValids), width)
    ensures |Unpacked(Flatten(pieces) + partial, width)| == |isValids|
    ensures Logical(Unpacked(Flatten(pieces) + partial, width), Some(isValids))
         == FixedLogical(Pointers(pieces), Some(isValids), width)
      <==> forall i | 0 <= i < |isValids| :: SurvivesNarrowing(isValids[i])
  {
    UnpackedOfFlatten(pieces, partial, width);
    PointerForm(pieces, width, isValids);
  }

  /** Without flags the two forms agree on all values of the right size. */
  lemma PackedIsPointerFormWithoutFlags(pieces: seq<seq<byte>>, partial: seq<byte>, width: nat)
    requires width > 0 && AllOfWidth(pieces, width) && |partial| < width
    ensures Readable(Pointers(pieces), None, width)
    ensures Logical(Unpacked(Flatten(pieces) + partial, width), None) == FixedLogical(Pointers(pieces), None, width)
  {
    UnpackedOfFlatten(pieces, partial, width);
    PointerFormWithoutFlags(pieces, width);
  }

  /** With the flag 256 the packed form adds a null and the pointer form the value. */
  lemma PackedLosesValue()
    ensures Unpacked([7], 1) == [[7]]
    ensures Logical(Unpacked([7], 1), Some([256])) == [None]
    ensures Readable(Pointers([[7]]), Some([256]), 1)
    ensures FixedLogical(Pointers([[7]]), Some([256]), 1) == [Some([7])]
  {
    var pieces: seq<seq<byte>> := [[7]];
    assert Flatten(pieces) + [] == [7];
    UnpackedOfFlatten(pieces, [], 1);
  }

  /** A value of two bytes is cut to one by the bulk form and rejected one by one. */
  lemma BulkCutsLongerValue()
    ensures Readable([Some([1, 2])], None, 1)
    ensures FixedLogical([Some([1, 2])], None, 1) == [Some([1])]
    ensures OneByOne([], 1, [Some([1, 2])], None) == []
  {
    var values: seq<Option<seq<byte>>> := [Some([1, 2])];
    assert Present(values, None, 0);
    assert values[0].value[..1] == [1];
    assert OneByOne([], 1, values[..0], None) == [];
  }
}
