/**
 `BufferWriter`: a growable byte buffer written through a movable cursor.
 `write` overwrites the bytes under the cursor (growing the buffer only as
 far as the new bytes reach) and `offset` zero-pads the buffer when the
 cursor is moved past its end.
 */
module BufferWriter {
  import opened Bytes
  import opened Bufferable

  /**
   The writer's state. Offsets below zero are not modelled, so the cursor
   is a natural number.
   */
  datatype Writer = Writer(buffer: seq<byte>, cursor: nat)

  /** A writer step handed to `writeMap`: the writer, one item and the item's index. */
  type Step<-T> = (Writer, T, nat) -> Writer

  /** The writer's invariant: the cursor never lies beyond the end of the buffer. */
  predicate Valid(w: Writer) {
    w.cursor <= |w.buffer|
  }

  function Max(a: int, b: int): int {
    if a >= b then a else b
  }

  function Min(a: int, b: int): int {
    if a <= b then a else b
  }

  /** A new writer: an empty buffer and the cursor at 0. */
  function Create(): (w: Writer)
    ensures w.buffer == [] && w.cursor == 0
    ensures Valid(w)
  {
    Writer([], 0)
  }

  /**
   The `switch` of `write`: the bytes one value encodes to. Numbers are
   little-endian at their kind's width; a string is its bytes, followed by
   one `0x00` when it is null-terminated.
   */
  function Encode(v: Writable): (e: seq<byte>)
    requires Fits(v)
    ensures v.kind.IsNumber() ==> |e| == Width(v.kind) && FromLE(e) == v.value.n
    ensures v.kind == String(true) ==> |e| == |v.value.bytes| + 1 && e[..|e| - 1] == v.value.bytes && e[|e| - 1] == 0
    ensures v.kind == String(false) ==> e == v.value.bytes
  {
    match v.kind
    case UInt8 | UInt16LE | UInt32LE =>
      FromLEToLE(v.value.n, Width(v.kind));
      ToLE(v.value.n, Width(v.kind))
    case String(nullTerminated) =>
      v.value.bytes + (if nullTerminated then [0] else [])
  }

  /**
   The concatenation `buffer[0, at) ++ bytes ++ buffer[at + |bytes|, end)`,
   where each slice is clamped to the buffer as `subarray` clamps it.
   Within the buffer this overwrites; it never inserts.
   */
  function Overwrite(buffer: seq<byte>, at: nat, bytes: seq<byte>): (b: seq<byte>)
    ensures at <= |buffer| ==> |b| == Max(|buffer|, at + |bytes|)
    ensures at <= |buffer| ==>
              forall i :: 0 <= i < |b| ==>
                b[i] == if at <= i < at + |bytes| then bytes[i - at] else buffer[i]
    ensures at > |buffer| ==> b == buffer + bytes
  {
    buffer[..Min(at, |buffer|)] + bytes + buffer[Min(at + |bytes|, |buffer|)..]
  }

  /** `write`: encode the value, overwrite it in at the cursor, advance the cursor past it. */
  function Write(w: Writer, v: Writable): (w': Writer)
    requires Fits(v)
    ensures w'.cursor == w.cursor + |Encode(v)|
    ensures Valid(w) ==> Valid(w')
    ensures Valid(w) ==> |w'.buffer| == Max(|w.buffer|, w'.cursor)
    ensures Valid(w) ==> w.buffer[..w.cursor] + Encode(v) <= w'.buffer
    ensures Valid(w) && w'.cursor <= |w.buffer| ==>
              && |w'.buffer| == |w.buffer|
              && w'.buffer[w'.cursor..] == w.buffer[w'.cursor..]
  {
    var bytes := Encode(v);
    var buffer := Overwrite(w.buffer, w.cursor, bytes);
    assert Valid(w) ==> buffer[w.cursor..w.cursor + |bytes|] == bytes;
    Writer(buffer, w.cursor + |bytes|)
  }

  /**
   `offset`: move the cursor to an absolute position or by a relative
   amount; a position past the end first grows the buffer with zeros up to it.
   */
  function Offset(w: Writer, offset: int, absolute: bool): (w': Writer)
    requires (if absolute then offset else w.cursor + offset) >= 0
    ensures w'.cursor == if absolute then offset else w.cursor + offset
    ensures Valid(w')
    ensures |w'.buffer| == Max(|w.buffer|, w'.cursor)
    ensures w'.buffer[..|w.buffer|] == w.buffer
    ensures forall i :: |w.buffer| <= i < |w'.buffer| ==> w'.buffer[i] == 0
  {
    var target: nat := if absolute then offset else w.cursor + offset;
    if target > |w.buffer| then
      Writer(w.buffer + Zeros(target - |w.buffer|), target)
    else
      Writer(w.buffer, target)
  }

  /** `writeMap` from call index `index`: apply the step to each item in list order. */
  function WriteMap<T>(w: Writer, items: seq<T>, step: Step<T>, index: nat): (w': Writer)
    ensures items == [] ==> w' == w
    ensures |items| == 1 ==> w' == step(w, items[0], index)
    decreases |items|
  {
    if items == [] then w else WriteMap(step(w, items[0], index), items[1..], step, index + 1)
  }

  /**
   `writeMap` walks the list in order: mapping over `a + b` is mapping over
   `a`, then over `b` with the indices continuing where `a` stopped.
   */
  lemma {:induction false} WriteMapAppend<T>(w: Writer, a: seq<T>, b: seq<T>, step: Step<T>, index: nat)
    ensures WriteMap(w, a + b, step, index) == WriteMap(WriteMap(w, a, step, index), b, step, index + |a|)
    decreases |a|
  {
    if a != [] {
      assert (a + b)[1..] == a[1..] + b;
      WriteMapAppend(step(w, a[0], index), a[1..], b, step, index + 1);
    } else {
      assert a + b == b;
    }
  }

  /** The steps `writeMap` can be given that keep the writer's invariant. */
  ghost predicate KeepsValid<T(!new)>(step: Step<T>) {
    forall w: Writer, item: T, i: nat {:trigger step(w, item, i)} :: Valid(w) ==> Valid(step(w, item, i))
  }

  /** A step that keeps the writer's invariant keeps it across the whole of `writeMap`. */
  lemma {:induction false} WriteMapValid<T(!new)>(w: Writer, items: seq<T>, step: Step<T>, index: nat)
    requires Valid(w)
    requires KeepsValid(step)
    ensures Valid(WriteMap(w, items, step, index))
    decreases |items|
  {
    if items != [] {
      WriteMapValid(step(w, items[0], index), items[1..], step, index + 1);
    }
  }
}
