/**
 What the writer produces, the reader reads back: single values at any
 cursor of a valid writer, and whole lists written with `writeMap` and read
 with `readMap`.
 */
module RoundTrip {
  import opened Results
  import opened Bytes
  import opened Bufferable
  import opened BufferReader
  import opened BufferWriter

  /**
   A value the reader can find again after the bytes that follow it: a
   null-terminated string must not contain `0x00`, and a plain string,
   which reads to the end, must have nothing after it.
   */
  predicate Recoverable(v: Writable, rest: seq<byte>) {
    && Fits(v)
    && (v.kind == String(true) ==> 0 !in v.value.bytes)
    && (v.kind == String(false) ==> rest == [])
  }

  /** Decoding an encoding, followed by anything it allows, gives back the value and its length. */
  lemma DecodeEncode(v: Writable, rest: seq<byte>)
    requires Recoverable(v, rest)
    ensures Decode(Encode(v) + rest, v.kind) == Success(Decoded(v.value, |Encode(v)|))
  {
    var e := Encode(v);
    var s := e + rest;
    match v.kind
    case UInt8 | UInt16LE | UInt32LE =>
      assert s[..Width(v.kind)] == e;
    case String(nullTerminated) =>
      if nullTerminated {
        var k := |v.value.bytes|;
        assert s[k] == 0;
        assert forall j :: 0 <= j < k ==> s[j] == v.value.bytes[j];
        assert s[..k] == v.value.bytes;
      } else {
        assert s == v.value.bytes;
      }
  }

  /**
   After a write into a valid writer, the buffer is the bytes before the old
   cursor, the encoding, and the bytes after the new cursor.
   */
  lemma WriteSplices(w: Writer, v: Writable)
    requires Valid(w) && Fits(v)
    ensures var w' := Write(w, v);
            w'.buffer == w'.buffer[..w.cursor] + Encode(v) + w'.buffer[w'.cursor..]
  {
    var w' := Write(w, v);
    var p, e := w.buffer[..w.cursor], Encode(v);
    assert p + e <= w'.buffer;
    assert w'.buffer[..w'.cursor] == p + e;
    assert w'.buffer[..w.cursor] == p;
    assert w'.buffer == w'.buffer[..w'.cursor] + w'.buffer[w'.cursor..];
  }

  /**
   Writing a value at the cursor of a valid writer and reading at that same
   position of the resulting buffer returns the value and ends where the
   writer's cursor ended.
   */
  lemma WriteThenRead(w: Writer, v: Writable)
    requires Valid(w)
    requires Fits(v)
    requires v.kind == String(true) ==> 0 !in v.value.bytes
    requires v.kind == String(false) ==> w.cursor + |Encode(v)| >= |w.buffer|
    ensures var w' := Write(w, v);
            Read(Reader(w'.buffer, w.cursor), v.kind) == ReadOutcome(Success(v.value), Reader(w'.buffer, w'.cursor))
  {
    var w' := Write(w, v);
    var p, rest := w'.buffer[..w.cursor], w'.buffer[w'.cursor..];
    WriteSplices(w, v);
    assert Recoverable(v, rest);
    ReadAtEncoding(p, v, rest);
  }

  /** The bytes a list of values encodes to, one after the other. */
  function Flat(vs: seq<Writable>): seq<byte>
    requires forall i :: 0 <= i < |vs| ==> Fits(vs[i])
  {
    if vs == [] then [] else Encode(vs[0]) + Flat(vs[1..])
  }

  function Kinds(vs: seq<Writable>): (ks: seq<Kind>)
    ensures |ks| == |vs| && forall i :: 0 <= i < |vs| ==> ks[i] == vs[i].kind
  {
    seq(|vs|, i requires 0 <= i < |vs| => vs[i].kind)
  }

  function Values(vs: seq<Writable>): (xs: seq<Value>)
    ensures |xs| == |vs| && forall i :: 0 <= i < |vs| ==> xs[i] == vs[i].value
  {
    seq(|vs|, i requires 0 <= i < |vs| => vs[i].value)
  }

  /**
   A list `readMap` can read back item by item: every value fits and
   encodes to at least one byte, null-terminated strings hold no `0x00`,
   and a plain string (which reads to the end) comes last.
   */
  predicate Framed(vs: seq<Writable>) {
    forall i :: 0 <= i < |vs| ==>
      && Fits(vs[i])
      && (vs[i].kind == String(true) ==> 0 !in vs[i].value.bytes)
      && (vs[i].kind == String(false) ==> i == |vs| - 1 && |vs[i].value.bytes| > 0)
  }

  /** The `writeMap` step `(writer, item) => writer.write(item)`. */
  function WriteItem(w: Writer, v: Writable, index: nat): (w': Writer)
    ensures Fits(v) ==> w' == Write(w, v)
  {
    if Fits(v) then Write(w, v) else w
  }

  /** One call of the `readMap` mapper `(reader, i) => reader.read(kinds[i])`. */
  function ReadItem(kinds: seq<Kind>, r: Reader, i: nat): (res: Result<(Value, Reader), ReadError>)
    ensures 0 <= r.cursor < |r.buffer| && res.Success? ==> res.value.1.buffer == r.buffer && res.value.1.cursor > r.cursor
  {
    if r.cursor < 0 || i >= |kinds| then Failure(OutOfBounds)
    else
      var o := Read(r, kinds[i]);
      match o.result
      case Failure(e) => Failure(e)
      case Success(v) =>
        assert Decode(Remaining(r), kinds[i]).value.bytesRead >= 1 || Remaining(r) == [];
        Success((v, o.reader))
  }

  /** The mapper itself; every read that succeeds while bytes remain consumes at least one. */
  function ReadItems(kinds: seq<Kind>): (m: Mapper<Value>)
    ensures Advances(m)
    ensures forall r: Reader, i: nat :: m(r, i) == ReadItem(kinds, r, i)
  {
    (r: Reader, i: nat) => ReadItem(kinds, r, i)
  }

  /** Writing at the end of the buffer appends the encoding. */
  lemma WriteAtEnd(p: seq<byte>, v: Writable)
    requires Fits(v)
    ensures Write(Writer(p, |p|), v) == Writer(p + Encode(v), |p| + |Encode(v)|)
  {
    var e := Encode(v);
    assert Overwrite(p, |p|, e) == p[..|p|] + e + p[|p|..];
    assert p[..|p|] == p && p[|p|..] == [];
  }

  /** Reading where a value's encoding starts recovers the value and ends right after it. */
  lemma ReadAtEncoding(p: seq<byte>, v: Writable, rest: seq<byte>)
    requires Recoverable(v, rest)
    ensures Read(Reader(p + Encode(v) + rest, |p|), v.kind)
              == ReadOutcome(Success(v.value), Reader(p + Encode(v) + rest, |p| + |Encode(v)|))
  {
    var b := p + Encode(v) + rest;
    assert b[|p|..] == Encode(v) + rest;
    DecodeEncode(v, rest);
  }

  /** Writing a list at the end of a buffer appends its encodings, in order. */
  lemma {:induction false} WriteMapAppends(p: seq<byte>, vs: seq<Writable>, index: nat)
    requires forall i :: 0 <= i < |vs| ==> Fits(vs[i])
    ensures WriteMap(Writer(p, |p|), vs, WriteItem, index) == Writer(p + Flat(vs), |p + Flat(vs)|)
    decreases |vs|
  {
    if vs != [] {
      var e, tail := Encode(vs[0]), Flat(vs[1..]);
      assert p + Flat(vs) == p + e + tail by {
        assert Flat(vs) == e + tail;
      }
      WriteAtEnd(p, vs[0]);
      assert WriteItem(Writer(p, |p|), vs[0], index) == Writer(p + e, |p + e|);
      assert WriteMap(Writer(p, |p|), vs, WriteItem, index) == WriteMap(Writer(p + e, |p + e|), vs[1..], WriteItem, index + 1);
      WriteMapAppends(p + e, vs[1..], index + 1);
    }
  }

  /** The encoding of a list splits wherever the list does. */
  lemma {:induction false} FlatSplit(vs: seq<Writable>, k: nat)
    requires forall i :: 0 <= i < |vs| ==> Fits(vs[i])
    requires k <= |vs|
    ensures Flat(vs) == Flat(vs[..k]) + Flat(vs[k..])
    decreases k
  {
    if k == 0 {
      assert vs[..0] == [] && vs[0..] == vs;
    } else {
      FlatSplit(vs[1..], k - 1);
      assert vs[1..][..k - 1] == vs[1..k] && vs[1..][k - 1..] == vs[k..];
      assert vs[..k][1..] == vs[1..k] && vs[..k][0] == vs[0];
      var e, mid, tail := Encode(vs[0]), Flat(vs[1..k]), Flat(vs[k..]);
      assert e + mid + tail == e + (mid + tail);
    }
  }

  /** Around item `k`, a list's encoding is the items before, the item, and the items after. */
  lemma FlatAt(vs: seq<Writable>, k: nat)
    requires forall i :: 0 <= i < |vs| ==> Fits(vs[i])
    requires k < |vs|
    ensures Flat(vs) == Flat(vs[..k]) + Encode(vs[k]) + Flat(vs[k + 1..])
  {
    var e := Encode(vs[k]);
    var rest := Flat(vs[k + 1..]);
    FlatSplit(vs, k);
    assert vs[k..][1..] == vs[k + 1..] && vs[k..][0] == vs[k];
    var front := Flat(vs[..k]);
    assert Flat(vs[k..]) == e + rest;
    assert front + (e + rest) == front + e + rest;
  }

  /** Extending a prefix of the list by one item extends its encoding by that item's. */
  lemma FlatPrefix(vs: seq<Writable>, k: nat)
    requires forall i :: 0 <= i < |vs| ==> Fits(vs[i])
    requires k < |vs|
    ensures Flat(vs[..k + 1]) == Flat(vs[..k]) + Encode(vs[k])
  {
    var v := vs[k];
    FlatSplit(vs[..k + 1], k);
    assert vs[..k + 1][..k] == vs[..k];
    assert vs[..k + 1][k..] == [v];
    assert Flat([v]) == Encode(v) + Flat([v][1..]);
    assert [v][1..] == [];
    assert Encode(v) + [] == Encode(v);
  }

  /** The mapper returns what `read` returns. */
  lemma ReadItemIsRead(kinds: seq<Kind>, r: Reader, i: nat, v: Value, r1: Reader)
    requires r.cursor >= 0 && i < |kinds|
    requires Read(r, kinds[i]) == ReadOutcome(Success(v), r1)
    ensures ReadItem(kinds, r, i) == Success((v, r1))
  {
  }

  /**
   Item `k` of a framed list starts where the encodings of the items before
   it end, and reads back as its value.
   */
  lemma ReadItemAt(vs: seq<Writable>, k: nat)
    requires Framed(vs)
    requires k < |vs|
    ensures |Flat(vs[..k])| < |Flat(vs[..k + 1])| <= |Flat(vs)|
    ensures ReadItem(Kinds(vs), Reader(Flat(vs), |Flat(vs[..k])|), k)
              == Success((vs[k].value, Reader(Flat(vs), |Flat(vs[..k + 1])|)))
  {
    var v := vs[k];
    var p := Flat(vs[..k]);
    var rest := Flat(vs[k + 1..]);
    FlatAt(vs, k);
    FlatPrefix(vs, k);
    if v.kind == String(false) {
      assert vs[k + 1..] == [];
    }
    assert Recoverable(v, rest);
    ReadAtEncoding(p, v, rest);
    ReadItemIsRead(Kinds(vs), Reader(Flat(vs), |p|), k, v.value, Reader(Flat(vs), |p| + |Encode(v)|));
  }

  /** The reader before each item of a framed list's encoding, and after the last. */
  ghost function ListReaders(vs: seq<Writable>): (readers: seq<Reader>)
    requires forall i :: 0 <= i < |vs| ==> Fits(vs[i])
    ensures |readers| == |vs| + 1
    ensures forall k :: 0 <= k <= |vs| ==> readers[k] == Reader(Flat(vs), |Flat(vs[..k])|)
  {
    seq(|vs| + 1, k requires 0 <= k <= |vs| => Reader(Flat(vs), |Flat(vs[..k])|))
  }

  /**
   Reading a framed list's encoding with the matching kinds is a run of the
   `readMap` loop that yields its values, one call per item.
   */
  lemma ReadListIsRun(vs: seq<Writable>)
    requires Framed(vs)
    ensures IsRun(ReadItems(Kinds(vs)), 0, ListReaders(vs), Values(vs))
  {
    var readers := ListReaders(vs);
    var mapper := ReadItems(Kinds(vs));
    forall k | 0 <= k < |vs|
      ensures readers[k].cursor < |readers[k].buffer|
      ensures mapper(readers[k], 0 + k) == Success((Values(vs)[k], readers[k + 1]))
    {
      ReadItemAt(vs, k);
    }
    assert vs[..0] == [] && vs[..|vs|] == vs;
  }

  /**
   `readMap` over a framed list's encoding with the matching kinds yields its
   values and ends at the end of the buffer.
   */
  lemma ReadListRun(vs: seq<Writable>)
    requires Framed(vs)
    ensures ReadMap(Reader(Flat(vs), 0), ReadItems(Kinds(vs)), 0) == Success((Values(vs), Reader(Flat(vs), |Flat(vs)|)))
  {
    var readers := ListReaders(vs);
    ReadListIsRun(vs);
    ReadMapRun(ReadItems(Kinds(vs)), 0, readers, Values(vs));
    assert vs[..0] == [] && vs[..|vs|] == vs;
  }

  /**
   A framed list written by `writeMap` into a new writer is read back by
   `readMap` with the matching kinds: the same values, in the same order,
   with nothing left over.
   */
  lemma WriteMapThenReadMap(vs: seq<Writable>)
    requires Framed(vs)
    ensures var w := WriteMap(BufferWriter.Create(), vs, WriteItem, 0);
            && w.cursor == |w.buffer|
            && ReadMap(BufferReader.Create(w.buffer), ReadItems(Kinds(vs)), 0)
                 == Success((Values(vs), Reader(w.buffer, |w.buffer|)))
  {
    WriteMapAppends([], vs, 0);
    assert [] + Flat(vs) == Flat(vs);
    ReadListRun(vs);
  }
}
