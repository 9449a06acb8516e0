/** The byte layout of i3-IPC messages: magic, payload length, type, payload. */
module IpcProtocol {

  newtype Byte = x: int | 0 <= x < 0x100

  /** A uint32_t. */
  type Word = x: int | 0 <= x < 0x1_0000_0000

  type Payload = p: seq<Byte> | |p| < 0x1_0000_0000

  datatype Frame = Frame(kind: Word, payload: Payload)

  /** "i3-ipc" */
  const MAGIC: seq<Byte> := [0x69, 0x33, 0x2d, 0x69, 0x70, 0x63]

  const HEADER_SIZE := |MAGIC| + 8

  /** memcpy from a uint32_t on a little-endian machine. */
  function WordBytes(w: Word): (b: seq<Byte>)
    ensures |b| == 4
  {
    [(w % 0x100) as Byte, (w / 0x100 % 0x100) as Byte, (w / 0x1_0000 % 0x100) as Byte, (w / 0x100_0000) as Byte]
  }

  function BytesWord(b: seq<Byte>): (w: Word)
    requires |b| == 4
  {
    b[0] as int + 0x100 * b[1] as int + 0x1_0000 * b[2] as int + 0x100_0000 * b[3] as int
  }

  function Header(length: Word, kind: Word): (h: seq<Byte>)
    ensures |h| == HEADER_SIZE
  {
    MAGIC + WordBytes(length) + WordBytes(kind)
  }

  function HeaderLength(h: seq<Byte>): Word
    requires |h| >= HEADER_SIZE
  {
    BytesWord(h[|MAGIC|..|MAGIC| + 4])
  }

  function HeaderKind(h: seq<Byte>): Word
    requires |h| >= HEADER_SIZE
  {
    BytesWord(h[|MAGIC| + 4..HEADER_SIZE])
  }

  function EncodeFrame(f: Frame): seq<Byte> {
    Header(|f.payload|, f.kind) + f.payload
  }

  function Encode(frames: seq<Frame>): seq<Byte> {
    if frames == [] then [] else EncodeFrame(frames[0]) + Encode(frames[1..])
  }

  /** What a byte stream says when it is read from its start: complete frames, then what is left over. */
  datatype Decoding = Decoding(frames: seq<Frame>, rest: seq<Byte>, malformed: bool)

  function Decode(stream: seq<Byte>): Decoding
    decreases |stream|
  {
    if |stream| < HEADER_SIZE then
      Decoding([], stream, false)
    else if stream[..|MAGIC|] != MAGIC then
      Decoding([], stream, true)
    else
      var end := HEADER_SIZE + HeaderLength(stream);
      if |stream| < end then
        Decoding([], stream, false)
      else
        var d := Decode(stream[end..]);
        d.(frames := [Frame(HeaderKind(stream), stream[HEADER_SIZE..end])] + d.frames)
  }

  lemma WordRoundTrip(w: Word)
    ensures BytesWord(WordBytes(w)) == w
  {
    assert w == w % 0x100 + 0x100 * (w / 0x100);
    assert w / 0x100 == w / 0x100 % 0x100 + 0x100 * (w / 0x1_0000);
    assert w / 0x1_0000 == w / 0x1_0000 % 0x100 + 0x100 * (w / 0x100_0000);
  }

  lemma BytesRoundTrip(b: seq<Byte>)
    requires |b| == 4
    ensures WordBytes(BytesWord(b)) == b
  {
    var b0, b1, b2, b3 := b[0] as int, b[1] as int, b[2] as int, b[3] as int;
    var w := BytesWord(b);
    assert w == b0 + 0x100 * (b1 + 0x100 * (b2 + 0x100 * b3));
    assert w / 0x100 == b1 + 0x100 * (b2 + 0x100 * b3);
    assert w / 0x1_0000 == b2 + 0x100 * b3;
    assert w / 0x100_0000 == b3;
  }

  /** A header reads back as the two numbers it was built from, whatever follows it. */
  lemma HeaderRoundTrip(length: Word, kind: Word, tail: seq<Byte>)
    ensures var s := Header(length, kind) + tail;
      s[..|MAGIC|] == MAGIC && HeaderLength(s) == length && HeaderKind(s) == kind && s[HEADER_SIZE..] == tail
  {
    var s := Header(length, kind) + tail;
    assert s[|MAGIC|..|MAGIC| + 4] == WordBytes(length);
    assert s[|MAGIC| + 4..HEADER_SIZE] == WordBytes(kind);
    WordRoundTrip(length);
    WordRoundTrip(kind);
  }

  /** Conversely, a block that starts with the magic is the header of its own two numbers. */
  lemma HeaderIsDetermined(h: seq<Byte>)
    requires |h| == HEADER_SIZE && h[..|MAGIC|] == MAGIC
    ensures h == Header(HeaderLength(h), HeaderKind(h))
  {
    BytesRoundTrip(h[|MAGIC|..|MAGIC| + 4]);
    BytesRoundTrip(h[|MAGIC| + 4..HEADER_SIZE]);
  }

  /** On the wire: six letters, length and type with their low bytes first, and the payload. */
  lemma WireFormat(f: Frame)
    ensures var e := EncodeFrame(f);
      && |e| == 14 + |f.payload| && e[14..] == f.payload
      && (forall k :: 0 <= k < 6 ==> e[k] as int == "i3-ipc"[k] as int)
      && |f.payload| == e[6] as int + 0x100 * e[7] as int + 0x1_0000 * e[8] as int + 0x100_0000 * e[9] as int
      && f.kind == e[10] as int + 0x100 * e[11] as int + 0x1_0000 * e[12] as int + 0x100_0000 * e[13] as int
  {
    var length, kind := WordBytes(|f.payload|), WordBytes(f.kind);
    WordRoundTrip(|f.payload|);
    WordRoundTrip(f.kind);
    var e := EncodeFrame(f);
    assert e[..6] == MAGIC && e[6..10] == length && e[10..14] == kind;
    assert "i3-ipc"[..] == ['i', '3', '-', 'i', 'p', 'c'];
  }

  lemma {:induction false} EncodeConcat(a: seq<Frame>, b: seq<Frame>)
    ensures Encode(a + b) == Encode(a) + Encode(b)
  {
    if a == [] {
      assert a + b == b;
    } else {
      assert (a + b)[1..] == a[1..] + b;
      EncodeConcat(a[1..], b);
      assert EncodeFrame(a[0]) + (Encode(a[1..]) + Encode(b)) == EncodeFrame(a[0]) + Encode(a[1..]) + Encode(b);
    }
  }

  lemma EncodeAppend(a: seq<Frame>, f: Frame)
    ensures Encode(a + [f]) == Encode(a) + EncodeFrame(f)
  {
    EncodeConcat(a, [f]);
    assert Encode([f]) == EncodeFrame(f) + Encode([f][1..]);
  }

  lemma DecodeFrame(f: Frame, more: seq<Byte>)
    ensures Decode(EncodeFrame(f) + more) == Decode(more).(frames := [f] + Decode(more).frames)
  {
    var s := EncodeFrame(f) + more;
    assert s == Header(|f.payload|, f.kind) + (f.payload + more);
    HeaderRoundTrip(|f.payload|, f.kind, f.payload + more);
    var end := HEADER_SIZE + |f.payload|;
    assert s[HEADER_SIZE..end] == f.payload;
    assert s[end..] == more;
  }

  /** Whole frames in front of a stream decode to themselves; the rest decodes as if it stood alone. */
  lemma {:induction false} DecodeEncode(frames: seq<Frame>, tail: seq<Byte>)
    ensures Decode(Encode(frames) + tail) == Decode(tail).(frames := frames + Decode(tail).frames)
  {
    hide Decode, EncodeFrame;
    if frames == [] {
      assert Encode(frames) + tail == tail;
    } else {
      var more := Encode(frames[1..]) + tail;
      assert EncodeFrame(frames[0]) + Encode(frames[1..]) + tail == EncodeFrame(frames[0]) + more;
      DecodeFrame(frames[0], more);
      DecodeEncode(frames[1..], tail);
      assert [frames[0]] + (frames[1..] + Decode(tail).frames) == frames + Decode(tail).frames;
    }
  }

  lemma FrameAtHead(stream: seq<Byte>)
    requires |stream| >= HEADER_SIZE && stream[..|MAGIC|] == MAGIC
    requires |stream| >= HEADER_SIZE + HeaderLength(stream)
    ensures var end := HEADER_SIZE + HeaderLength(stream);
      EncodeFrame(Frame(HeaderKind(stream), stream[HEADER_SIZE..end])) == stream[..end]
  {
    hide BytesWord, WordBytes;
    var h := stream[..HEADER_SIZE];
    HeaderIsDetermined(h);
    assert h[|MAGIC|..|MAGIC| + 4] == stream[|MAGIC|..|MAGIC| + 4];
    assert h[|MAGIC| + 4..HEADER_SIZE] == stream[|MAGIC| + 4..HEADER_SIZE];
  }

  lemma EncodeCons(f: Frame, fs: seq<Frame>)
    ensures Encode([f] + fs) == EncodeFrame(f) + Encode(fs)
  {
    assert ([f] + fs)[1..] == fs;
  }

  lemma SplitAt<T>(s: seq<T>, i: nat, a: seq<T>, b: seq<T>)
    requires i <= |s| && a + b == s[i..]
    ensures s[..i] + a + b == s
  {
    assert s[..i] + a + b == s[..i] + (a + b);
  }

  /** The decoded frames and the rest rebuild the stream. */
  lemma {:induction false} DecodeRebuilds(stream: seq<Byte>)
    ensures Encode(Decode(stream).frames) + Decode(stream).rest == stream
    decreases |stream|
  {
    hide EncodeFrame, HeaderLength, HeaderKind;
    if |stream| >= HEADER_SIZE && stream[..|MAGIC|] == MAGIC {
      var end := HEADER_SIZE + HeaderLength(stream);
      if end <= |stream| {
        DecodeRebuilds(stream[end..]);
        FrameAtHead(stream);
        var f, d := Frame(HeaderKind(stream), stream[HEADER_SIZE..end]), Decode(stream[end..]);
        EncodeCons(f, d.frames);
        assert Decode(stream) == d.(frames := [f] + d.frames);
        SplitAt(stream, end, Encode(d.frames), d.rest);
      }
    }
  }

  /** Decoding stops only at a tail that is too short for its header or its payload, or does not start with the magic;
      and it is malformed just in the last case. */
  lemma {:induction false} DecodeStops(stream: seq<Byte>)
    ensures var (rest, malformed) := (Decode(stream).rest, Decode(stream).malformed);
      && (malformed <==> |rest| >= 14 && exists k :: 0 <= k < 6 && rest[k] as int != "i3-ipc"[k] as int)
      && (!malformed && |rest| >= 14 ==>
            |rest| < 14 + rest[6] as int + 0x100 * rest[7] as int + 0x1_0000 * rest[8] as int
              + 0x100_0000 * rest[9] as int)
    decreases |stream|
  {
    assert "i3-ipc"[..] == ['i', '3', '-', 'i', 'p', 'c'];
    if |stream| >= HEADER_SIZE {
      MagicByBytes(stream[..|MAGIC|]);
      var end := HEADER_SIZE + HeaderLength(stream);
      if stream[..|MAGIC|] == MAGIC && end <= |stream| {
        DecodeStops(stream[end..]);
      }
    }
  }

  lemma MagicByBytes(m: seq<Byte>)
    requires |m| == 6
    ensures m != MAGIC <==> exists k :: 0 <= k < 6 && m[k] as int != "i3-ipc"[k] as int
  {
    assert "i3-ipc"[..] == ['i', '3', '-', 'i', 'p', 'c'];
    if forall k :: 0 <= k < 6 ==> m[k] as int == "i3-ipc"[k] as int {
      assert m == MAGIC;
    }
  }

  /** A prefix of an encoding that is itself an encoding holds the first of its frames. */
  lemma PrefixEncodings(a: seq<Frame>, b: seq<Frame>, tail: seq<Byte>)
    requires Encode(a) + tail == Encode(b)
    ensures a <= b && tail == Encode(b[|a|..])
  {
    DecodeEncode(a, tail);
    DecodeEncode(b, []);
    assert Encode(b) + [] == Encode(b);
    assert b == a + Decode(tail).frames;
    DecodeRebuilds(tail);
    assert Decode(tail).rest == [];
    assert b[|a|..] == Decode(tail).frames;
  }
}
