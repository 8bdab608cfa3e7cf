/**
 The value kinds that the reader's and the writer's `switch` statements
 handle: three unsigned little-endian integers and a byte string that is
 either null-terminated or runs to the end of the buffer. Text is kept as
 its raw bytes; the text encoding is taken to be the identity.
 */
module Bufferable {
  import opened Bytes

  /** The `type` tag of a value, together with the string's `nullTerminated` flag. */
  datatype Kind = UInt8 | UInt16LE | UInt32LE | String(nullTerminated: bool)
  {
    /** True for the kinds with a fixed byte width. */
    predicate IsNumber() {
      !String?
    }
  }

  /** A decoded or to-be-encoded value: a number or the bytes of a string. */
  datatype Value = Number(n: nat) | Text(bytes: seq<byte>)

  /** What the writer is handed: a kind and the value to encode under it. */
  datatype Writable = Writable(kind: Kind, value: Value)

  /** Byte width of the fixed-width kinds. */
  function Width(kind: Kind): (w: nat)
    requires kind.IsNumber()
    ensures w in {1, 2, 4}
    ensures kind == UInt8 <==> w == 1
    ensures kind == UInt16LE <==> w == 2
    ensures kind == UInt32LE <==> w == 4
  {
    match kind
    case UInt8 => 1
    case UInt16LE => 2
    case UInt32LE => 4
  }

  /**
   The values the writer accepts: a string kind carries text, a numeric kind
   carries a number that fits its width (Node's `writeUInt*` throws a range
   error otherwise).
   */
  predicate Fits(v: Writable) {
    match v.kind
    case String(_) => v.value.Text?
    case UInt8 => v.value.Number? && v.value.n < Pow256(1)
    case UInt16LE => v.value.Number? && v.value.n < Pow256(2)
    case UInt32LE => v.value.Number? && v.value.n < Pow256(4)
  }

  /** The largest value each numeric kind accepts is 2^(8 * width) - 1. */
  lemma FitsBounds(v: Writable)
    requires v.kind.IsNumber() && v.value.Number?
    ensures Fits(v) <==> v.value.n < Pow256(Width(v.kind))
    ensures v.kind == UInt8 ==> (Fits(v) <==> v.value.n <= 0xFF)
    ensures v.kind == UInt16LE ==> (Fits(v) <==> v.value.n <= 0xFFFF)
    ensures v.kind == UInt32LE ==> (Fits(v) <==> v.value.n <= 0xFFFF_FFFF)
  {
    assert Pow256(1) == 0x100;
    assert Pow256(2) == 0x1_0000;
    assert Pow256(4) == 0x1_0000_0000;
  }
}
