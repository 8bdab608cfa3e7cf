/**
 `BufferReader`: an immutable byte buffer read through a movable cursor.
 Every operation is a function from the reader's state to a new state, so
 "the cursor moves only after decoding succeeded" becomes a statement about
 the returned reader.
 */
module BufferReader {
  import opened Results
  import opened Bytes
  import opened Bufferable

  /**
   The reader's state. The cursor is an unrestricted integer because
   `offset` assigns it without any bounds check.
   */
  datatype Reader = Reader(buffer: seq<byte>, cursor: int)

  /** Why a read fails: a fixed-width read past the end, or a missing `0x00`. */
  datatype ReadError = OutOfBounds | NullTerminatorNotFound

  /** One decoded value and the number of bytes it occupied. */
  datatype Decoded = Decoded(value: Value, bytesRead: nat)

  /** The reader after a `read`, and what the call returned or threw. */
  datatype ReadOutcome = ReadOutcome(result: Result<Value, ReadError>, reader: Reader)

  /** A `readMap` callback: given the reader and the call's index, one item and the reader after it. */
  type Mapper<T> = (Reader, nat) -> Result<(T, Reader), ReadError>

  /** A reader over `buffer`, positioned at its first byte. */
  function Create(buffer: seq<byte>): (r: Reader)
    ensures r.buffer == buffer && r.cursor == 0
  {
    Reader(buffer, 0)
  }

  /**
   `remainingBuffer`: the bytes from the cursor to the end; empty once the
   cursor is at or past the end.
   */
  function Remaining(r: Reader): (rem: seq<byte>)
    requires r.cursor >= 0
    ensures r.cursor >= |r.buffer| ==> rem == []
    ensures r.cursor <= |r.buffer| ==> r.buffer == r.buffer[..r.cursor] + rem
  {
    if r.cursor >= |r.buffer| then [] else r.buffer[r.cursor..]
  }

  /**
   The fixed-width cases of `read`'s `switch`: a little-endian unsigned
   integer of the kind's width, taken from the front of `rem`. Node's
   `readUInt*` throws a range error when fewer bytes remain.
   */
  function DecodeNumber(rem: seq<byte>, kind: Kind): (d: Result<Decoded, ReadError>)
    requires kind.IsNumber()
    ensures d.Success? <==> Width(kind) <= |rem|
    ensures d.Failure? ==> d.error == OutOfBounds
    ensures d.Success? ==>
              && d.value.bytesRead == Width(kind)
              && d.value.value.Number?
              && d.value.value.n < Pow256(Width(kind))
              && ToLE(d.value.value.n, Width(kind)) == rem[..Width(kind)]
  {
    var width := Width(kind);
    if |rem| < width then Failure(OutOfBounds)
    else
      ToLEFromLE(rem[..width]);
      Success(Decoded(Number(FromLE(rem[..width])), width))
  }

  /**
   The `String` case of `read`'s `switch`: a null-terminated string is the
   bytes before the first `0x00`, which is consumed with them; a plain
   string is everything that remains.
   */
  function DecodeString(rem: seq<byte>, nullTerminated: bool): (d: Result<Decoded, ReadError>)
    ensures nullTerminated ==> (d.Success? <==> 0 in rem)
    ensures d.Failure? ==> d.error == NullTerminatorNotFound
    ensures d.Success? ==> d.value.value.Text? && d.value.bytesRead <= |rem|
    ensures nullTerminated && d.Success? ==>
              && d.value.bytesRead == |d.value.value.bytes| + 1
              && d.value.value.bytes + [0] <= rem
              && 0 !in d.value.value.bytes
    ensures !nullTerminated ==> d == Success(Decoded(Text(rem), |rem|))
  {
    if nullTerminated then
      match FirstZero(rem, 0)
      case None => Failure(NullTerminatorNotFound)
      case Some(i) => Success(Decoded(Text(rem[..i]), i + 1))
    else
      Success(Decoded(Text(rem), |rem|))
  }

  /**
   The `switch` of `read`: decode one value of `kind` from the front of
   `rem`. A decode never claims more bytes than remain; when it fails, the
   error is `OutOfBounds` exactly for the fixed-width kinds.
   */
  function Decode(rem: seq<byte>, kind: Kind): (d: Result<Decoded, ReadError>)
    ensures d.Success? ==> d.value.bytesRead <= |rem|
    ensures d.Failure? ==> (d.error == OutOfBounds <==> kind.IsNumber())
  {
    if kind.IsNumber() then DecodeNumber(rem, kind) else DecodeString(rem, kind.nullTerminated)
  }

  /**
   `read`: decode at the cursor, then advance the cursor by the bytes
   consumed. A failed decode returns the reader untouched.
   */
  function Read(r: Reader, kind: Kind): (o: ReadOutcome)
    requires r.cursor >= 0
    ensures o.reader.buffer == r.buffer && o.reader.cursor >= r.cursor
    ensures o.result.Failure? ==> o.reader == r
    ensures o.result.Success? <==> Decode(Remaining(r), kind).Success?
    ensures o.result.Success? ==>
              && Decode(Remaining(r), kind).Success?
              && o.result.value == Decode(Remaining(r), kind).value.value
              && o.reader.cursor == r.cursor + Decode(Remaining(r), kind).value.bytesRead
    ensures o.result.Success? ==>
              && r.cursor <= o.reader.cursor
              && o.reader.cursor - r.cursor <= |Remaining(r)|
              && Remaining(o.reader) == Remaining(r)[o.reader.cursor - r.cursor..]
    ensures kind.IsNumber() ==> (o.result.Success? <==> r.cursor + Width(kind) <= |r.buffer|)
    ensures kind.IsNumber() && o.result.Success? ==>
              && r.cursor + Width(kind) <= |r.buffer|
              && o.reader.cursor == r.cursor + Width(kind)
              && o.result.value.Number?
              && ToLE(o.result.value.n, Width(kind)) == r.buffer[r.cursor..r.cursor + Width(kind)]
    ensures kind == String(false) ==>
              && o.result.Success?
              && o.reader.cursor == if r.cursor < |r.buffer| then |r.buffer| else r.cursor
  {
    match Decode(Remaining(r), kind)
    case Failure(e) => ReadOutcome(Failure(e), r)
    case Success(d) => ReadOutcome(Success(d.value), r.(cursor := r.cursor + d.bytesRead))
  }

  /** `offset`: absolute or relative assignment of the cursor, with no bounds check. */
  function Offset(r: Reader, offset: int, absolute: bool): (r': Reader)
    ensures r'.buffer == r.buffer
    ensures absolute ==> r'.cursor == offset
    ensures !absolute ==> r'.cursor - r.cursor == offset
  {
    r.(cursor := if absolute then offset else r.cursor + offset)
  }

  /**
   The reader's state is only a position: seeking back by the distance just
   moved restores it, and seeking to a position within the buffer exposes
   exactly the suffix from there.
   */
  lemma OffsetLaws(r: Reader, d: int, p: int)
    ensures Offset(Offset(r, d, false), -d, false) == r
    ensures Offset(Offset(r, d, false), p, true) == Offset(r, p, true)
    ensures Offset(r, r.cursor, true) == r
    ensures 0 <= p <= |r.buffer| ==> Remaining(Offset(r, p, true)) == r.buffer[p..]
  {
  }

  /**
   The mappers `readMap` can be given without looping forever: while bytes
   remain, a successful call moves the cursor forward and reads the same buffer.
   */
  ghost predicate Advances<T>(mapper: Mapper<T>) {
    forall r: Reader, i: nat {:trigger mapper(r, i)} ::
      0 <= r.cursor < |r.buffer| && mapper(r, i).Success? ==>
        && mapper(r, i).value.1.buffer == r.buffer
        && mapper(r, i).value.1.cursor > r.cursor
  }

  /**
   `readMap` from call index `index`: while bytes remain, call the mapper
   with the next index and collect its item. The first failing call is the
   result of the whole loop.
   */
  function ReadMap<T>(r: Reader, mapper: Mapper<T>, index: nat): (res: Result<(seq<T>, Reader), ReadError>)
    requires r.cursor >= 0
    requires Advances(mapper)
    ensures res.Success? ==> res.value.1.cursor >= r.cursor
    ensures res.Success? ==> Remaining(res.value.1) == [] && res.value.1.buffer == r.buffer
    ensures res.Success? ==> |res.value.0| <= |Remaining(r)|
    ensures Remaining(r) == [] ==> res == Success(([], r))
    ensures Remaining(r) != [] && mapper(r, index).Failure? ==> res == Failure(mapper(r, index).error)
    ensures Remaining(r) != [] && res.Success? ==>
              && mapper(r, index).Success?
              && |res.value.0| >= 1
              && res.value.0[0] == mapper(r, index).value.0
    decreases if r.cursor >= |r.buffer| then 0 else |r.buffer| - r.cursor
  {
    if Remaining(r) == [] then Success(([], r))
    else
      match mapper(r, index)
      case Failure(e) => Failure(e)
      case Success(step) =>
        match ReadMap(step.1, mapper, index + 1)
        case Failure(e) => Failure(e)
        case Success(rest) => Success(([step.0] + rest.0, rest.1))
  }

  /**
   Calls `index`, `index + 1`, ... of the `readMap` loop: `readers[k]` is the
   reader before call `k`, which was made while bytes remained and returned
   `items[k]` and `readers[k + 1]`.
   */
  ghost predicate Calls<T>(mapper: Mapper<T>, index: nat, readers: seq<Reader>, items: seq<T>) {
    && |readers| == |items| + 1
    && (forall k :: 0 <= k < |readers| ==> readers[k].cursor >= 0)
    && (forall k :: 0 <= k < |items| ==>
          && readers[k].cursor < |readers[k].buffer|
          && mapper(readers[k], index + k) == Success((items[k], readers[k + 1])))
  }

  /** A run of the `readMap` loop: its calls, after which no bytes remain. */
  ghost predicate IsRun<T>(mapper: Mapper<T>, index: nat, readers: seq<Reader>, items: seq<T>) {
    && Calls(mapper, index, readers, items)
    && readers[|items|].cursor >= |readers[|items|].buffer|
  }

  /**
   A run of the `readMap` loop cut short: its calls, after which bytes still
   remain and the next call fails with `e`.
   */
  ghost predicate IsFailingRun<T>(mapper: Mapper<T>, index: nat, readers: seq<Reader>, items: seq<T>, e: ReadError) {
    && Calls(mapper, index, readers, items)
    && readers[|items|].cursor < |readers[|items|].buffer|
    && mapper(readers[|items|], index + |items|) == Failure(e)
  }

  /** Dropping the first call leaves the calls from the next index. */
  lemma CallsTail<T>(mapper: Mapper<T>, index: nat, readers: seq<Reader>, items: seq<T>)
    requires Calls(mapper, index, readers, items)
    requires items != []
    ensures Calls(mapper, index + 1, readers[1..], items[1..])
  {
    var readers', items' := readers[1..], items[1..];
    forall k | 0 <= k < |items'|
      ensures readers'[k].cursor < |readers'[k].buffer|
      ensures mapper(readers'[k], index + 1 + k) == Success((items'[k], readers'[k + 1]))
    {
      assert readers'[k] == readers[k + 1] && readers'[k + 1] == readers[k + 2];
      assert items'[k] == items[k + 1];
    }
  }

  /** Dropping the first call of a run leaves a run from the next index. */
  lemma RunTail<T>(mapper: Mapper<T>, index: nat, readers: seq<Reader>, items: seq<T>)
    requires IsRun(mapper, index, readers, items)
    requires items != []
    ensures IsRun(mapper, index + 1, readers[1..], items[1..])
  {
    CallsTail(mapper, index, readers, items);
  }

  /** Dropping the first call of a failing run leaves a failing run from the next index. */
  lemma FailingRunTail<T>(mapper: Mapper<T>, index: nat, readers: seq<Reader>, items: seq<T>, e: ReadError)
    requires IsFailingRun(mapper, index, readers, items, e)
    requires items != []
    ensures IsFailingRun(mapper, index + 1, readers[1..], items[1..], e)
  {
    CallsTail(mapper, index, readers, items);
    assert readers[1..][|items[1..]|] == readers[|items|];
    assert index + 1 + |items[1..]| == index + |items|;
  }

  /** One turn of the `readMap` loop: the first item, then the items read from where it ended. */
  lemma ReadMapUnfold<T>(r: Reader, mapper: Mapper<T>, index: nat, item: T, r1: Reader, items: seq<T>, r2: Reader)
    requires 0 <= r.cursor < |r.buffer| && Advances(mapper)
    requires mapper(r, index) == Success((item, r1))
    requires r1.cursor >= 0
    requires ReadMap(r1, mapper, index + 1) == Success((items, r2))
    ensures ReadMap(r, mapper, index) == Success(([item] + items, r2))
  {
  }

  /**
   `readMap` returns the items of the run from its reader, in call order,
   and the reader the run ends with.
   */
  lemma {:induction false} ReadMapRun<T>(mapper: Mapper<T>, index: nat, readers: seq<Reader>, items: seq<T>)
    requires Advances(mapper)
    requires IsRun(mapper, index, readers, items)
    ensures ReadMap(readers[0], mapper, index) == Success((items, readers[|items|]))
    decreases |items|
  {
    if items == [] {
      assert Remaining(readers[0]) == [];
    } else {
      RunTail(mapper, index, readers, items);
      ReadMapRun(mapper, index + 1, readers[1..], items[1..]);
      assert readers[1..][0] == readers[1] && readers[1..][|items[1..]|] == readers[|items|];
      ReadMapUnfold(readers[0], mapper, index, items[0], readers[1], items[1..], readers[|items|]);
      assert [items[0]] + items[1..] == items;
    }
  }

  /** One turn of the `readMap` loop whose later calls fail: the failure is the result. */
  lemma ReadMapUnfoldFails<T>(r: Reader, mapper: Mapper<T>, index: nat, item: T, r1: Reader, e: ReadError)
    requires 0 <= r.cursor < |r.buffer| && Advances(mapper)
    requires mapper(r, index) == Success((item, r1))
    requires r1.cursor >= 0
    requires ReadMap(r1, mapper, index + 1) == Failure(e)
    ensures ReadMap(r, mapper, index) == Failure(e)
  {
  }

  /**
   When a call of the `readMap` loop fails while bytes remain, after any
   number of successful calls, `readMap` fails with that call's error: the
   items read before it are not returned.
   */
  lemma {:induction false} ReadMapRunFails<T>(mapper: Mapper<T>, index: nat, readers: seq<Reader>, items: seq<T>, e: ReadError)
    requires Advances(mapper)
    requires IsFailingRun(mapper, index, readers, items, e)
    ensures ReadMap(readers[0], mapper, index) == Failure(e)
    decreases |items|
  {
    if items == [] {
      assert Remaining(readers[0]) != [];
    } else {
      FailingRunTail(mapper, index, readers, items, e);
      ReadMapRunFails(mapper, index + 1, readers[1..], items[1..], e);
      assert readers[1..][0] == readers[1];
      ReadMapUnfoldFails(readers[0], mapper, index, items[0], readers[1], e);
    }
  }
}
