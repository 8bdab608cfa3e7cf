/**
 The behaviour the repository's test file checks for this revision of the
 reader and the writer, stated as lemmas about the model.
 */
module Scenarios {
  import opened Results
  import opened Bytes
  import opened Bufferable
  import opened BufferReader
  import opened BufferWriter
  import opened RoundTrip

  /** The bytes of an ASCII string, as `Buffer.from` produces them. */
  function Ascii(s: string): (bs: seq<byte>)
    requires forall i :: 0 <= i < |s| ==> s[i] as int < 128
    ensures |bs| == |s|
    ensures forall i :: 0 <= i < |s| ==> bs[i] == s[i] as int
  {
    seq(|s|, i requires 0 <= i < |s| => s[i] as int)
  }

  function PlainText(s: string): Writable
    requires forall i :: 0 <= i < |s| ==> s[i] as int < 128
  {
    Writable(String(false), Text(Ascii(s)))
  }

  /** The three numbers the test file writes and reads back first. */
  const Byte13 := Writable(UInt8, Number(13))
  const Short215 := Writable(UInt16LE, Number(215))
  const Word1782 := Writable(UInt32LE, Number(1782))

  /** Their little-endian encodings: 1782 is 6 * 256 + 246. */
  lemma EncodeNumbers()
    ensures Encode(Byte13) == [13]
    ensures Encode(Short215) == [215, 0]
    ensures Encode(Word1782) == [246, 6, 0, 0]
  {
    assert ToLE(13, 1) == [13] + ToLE(0, 0);
    assert ToLE(215, 2) == [215] + ToLE(0, 1);
    assert ToLE(1782, 4) == [246] + ToLE(6, 3);
    assert ToLE(6, 3) == [6] + ToLE(0, 2);
    assert ToLE(0, 2) == [0] + ToLE(0, 1);
  }

  /** The buffer the three numbers are written to. */
  const Numbers: seq<byte> := [13, 215, 0, 246, 6, 0, 0]

  /** A new writer is empty; writing 13 as a `UInt8` makes it 1 byte long. */
  lemma WriteByte13()
    ensures |BufferWriter.Create().buffer| == 0
    ensures Write(BufferWriter.Create(), Byte13) == Writer([13], 1)
  {
    EncodeNumbers();
    WriteAtEnd([], Byte13);
    assert [] + [13] == [13];
  }

  /** Then 215 as a `UInt16LE` makes it 3 bytes long. */
  lemma WriteShort215()
    ensures Write(Writer([13], 1), Short215) == Writer([13, 215, 0], 3)
  {
    EncodeNumbers();
    WriteAtEnd([13], Short215);
    assert [13] + [215, 0] == [13, 215, 0];
  }

  /** Then 1782 as a `UInt32LE` makes it 7 bytes long. */
  lemma WriteWord1782()
    ensures Write(Writer([13, 215, 0], 3), Word1782) == Writer(Numbers, 7)
  {
    EncodeNumbers();
    WriteAtEnd([13, 215, 0], Word1782);
    assert [13, 215, 0] + [246, 6, 0, 0] == Numbers;
  }

  /** Reading one of the numbers where its encoding sits inside the buffer `b`. */
  lemma ReadNumberAt(b: seq<byte>, p: seq<byte>, v: Writable, rest: seq<byte>)
    requires Recoverable(v, rest)
    requires p + Encode(v) + rest == b
    ensures Read(Reader(b, |p|), v.kind) == ReadOutcome(Success(v.value), Reader(b, |p| + |Encode(v)|))
  {
    ReadAtEncoding(p, v, rest);
  }

  /**
   The test's writer goes on to append 14 more bytes of kinds this revision
   does not have, so its reader starts on `Numbers + t` with `|t| == 14`:
   it reads 13 as a `UInt8` and 20 of the 21 bytes remain.
   */
  lemma ReadByte13(t: seq<byte>)
    requires |t| == 14
    ensures |Remaining(BufferReader.Create(Numbers + t))| == 21
    ensures Read(BufferReader.Create(Numbers + t), UInt8) == ReadOutcome(Success(Number(13)), Reader(Numbers + t, 1))
    ensures |Remaining(Reader(Numbers + t, 1))| == 20
  {
    EncodeNumbers();
    assert [] + [13] + ([215, 0, 246, 6, 0, 0] + t) == Numbers + t;
    ReadNumberAt(Numbers + t, [], Byte13, [215, 0, 246, 6, 0, 0] + t);
  }

  /** Then 215 as a `UInt16LE`, and 18 bytes remain. */
  lemma ReadShort215(t: seq<byte>)
    requires |t| == 14
    ensures Read(Reader(Numbers + t, 1), UInt16LE) == ReadOutcome(Success(Number(215)), Reader(Numbers + t, 3))
    ensures |Remaining(Reader(Numbers + t, 3))| == 18
  {
    EncodeNumbers();
    assert [13] + [215, 0] + ([246, 6, 0, 0] + t) == Numbers + t;
    ReadNumberAt(Numbers + t, [13], Short215, [246, 6, 0, 0] + t);
  }

  /** Then 1782 as a `UInt32LE`, and the 14 bytes after the numbers remain. */
  lemma ReadWord1782(t: seq<byte>)
    requires |t| == 14
    ensures Read(Reader(Numbers + t, 3), UInt32LE) == ReadOutcome(Success(Number(1782)), Reader(Numbers + t, 7))
    ensures Remaining(Reader(Numbers + t, 7)) == t
  {
    EncodeNumbers();
    assert [13, 215, 0] + [246, 6, 0, 0] + t == Numbers + t;
    ReadNumberAt(Numbers + t, [13, 215, 0], Word1782, t);
  }

  /** Fixed-width reads past the end of a buffer fail and leave the reader where it was. */
  lemma ShortReadScenario()
    ensures Read(BufferReader.Create([]), UInt8) == ReadOutcome(Failure(OutOfBounds), BufferReader.Create([]))
    ensures Read(BufferReader.Create([0]), UInt16LE) == ReadOutcome(Failure(OutOfBounds), BufferReader.Create([0]))
    ensures Read(BufferReader.Create([0, 0, 0]), UInt32LE) == ReadOutcome(Failure(OutOfBounds), BufferReader.Create([0, 0, 0]))
  {
  }

  /** The buffer contents the overwrite test expects after each write. */
  const Hello: seq<byte> := Ascii("hello world!")
  const HelloQ: seq<byte> := Ascii("hello world!?")
  const HellyQ: seq<byte> := Ascii("helly world!?")

  /** "hello world!" into a new writer, then "?" at the end, then "y" at position 4. */
  lemma OverwriteSteps()
    ensures Write(BufferWriter.Create(), PlainText("hello world!")) == Writer(Hello, 12)
    ensures BufferWriter.Offset(Writer(Hello, 12), 0, false) == Writer(Hello, 12)
    ensures Write(Writer(Hello, 12), PlainText("?")) == Writer(HelloQ, 13)
    ensures BufferWriter.Offset(Writer(HelloQ, 13), -9, false) == Writer(HelloQ, 4)
    ensures Write(Writer(HelloQ, 4), PlainText("y")).buffer == HellyQ
  {
    WriteAtEnd([], PlainText("hello world!"));
    assert [] + Hello == Hello;
    WriteAtEnd(Hello, PlainText("?"));
    assert Hello + Ascii("?") == HelloQ;
    OverwriteY();
  }

  /** Only byte 4 changes when "y" is written there. */
  lemma OverwriteY()
    ensures Write(Writer(HelloQ, 4), PlainText("y")).buffer == HellyQ
  {
    var w := Write(Writer(HelloQ, 4), PlainText("y"));
    assert |w.buffer| == 13;
    forall i | 0 <= i < 13 ensures w.buffer[i] == HellyQ[i] {
      if i == 4 {
        assert w.buffer[4..5] == Ascii("y");
      } else if i < 4 {
        assert w.buffer[..4] == HelloQ[..4];
      } else {
        assert w.buffer[5..] == HelloQ[5..];
        assert w.buffer[i] == w.buffer[5..][i - 5];
      }
    }
  }

  /** A plain-string read from the start of a buffer returns all of it. */
  lemma ReadWhole(b: seq<byte>)
    ensures Read(BufferReader.Create(b), String(false)).result == Success(Text(b))
  {
    assert Remaining(BufferReader.Create(b)) == b;
  }

  /**
   Writing overwrites: after "hello world!", moving by 0 and writing "?"
   appends at the end, and moving back 9 and writing "y" replaces one byte.
   */
  lemma OverwriteScenario()
    ensures var w1 := Write(BufferWriter.Create(), PlainText("hello world!"));
            var w2 := Write(BufferWriter.Offset(w1, 0, false), PlainText("?"));
            var w3 := Write(BufferWriter.Offset(w2, -9, false), PlainText("y"));
            && Read(BufferReader.Create(w1.buffer), String(false)).result == Success(Text(Hello))
            && Read(BufferReader.Create(w2.buffer), String(false)).result == Success(Text(HelloQ))
            && Read(BufferReader.Create(w3.buffer), String(false)).result == Success(Text(HellyQ))
  {
    OverwriteSteps();
    ReadWhole(Hello);
    ReadWhole(HelloQ);
    ReadWhole(HellyQ);
  }

  /**
   Moving the cursor past the end zero-pads: "cool" (4 bytes), then 3
   forward gives 7 bytes, "wow" gives 10, and 3 back leaves 10.
   */
  lemma PaddingScenario()
    ensures var w1 := Write(BufferWriter.Create(), PlainText("cool"));
            var w2 := BufferWriter.Offset(w1, 3, false);
            var w3 := Write(w2, PlainText("wow"));
            var w4 := BufferWriter.Offset(w3, -3, false);
            && |w1.buffer| == 4 && |w2.buffer| == 7 && |w3.buffer| == 10 && |w4.buffer| == 10
            && w2.buffer[4..] == [0, 0, 0]
  {
  }
}
