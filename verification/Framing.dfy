/** The length-prefixed wire protocol between the supervisor and the worker, in both directions. */
module Framing {
  import opened Machine

  type Bytes = seq<U8>

  const RAW_FRAME_SIZE: nat := 400 * 300 * 3
  const META_MAX: nat := 16384
  const MAX_FRAME: nat := 1 + 4 + META_MAX + RAW_FRAME_SIZE
  const MAX_REQUEST_IMAGE_BYTES: nat := 12582912
  const MAX_REQUEST_FRAME: nat := 1 + META_MAX + (MAX_REQUEST_IMAGE_BYTES / 3 + 1) * 4

  datatype Frame = Frame(kind: U8, payload: Bytes)

  // ---------------------------------------------------------------- big-endian lengths

  function PutU32(v: nat): (s: Bytes)
    ensures |s| == 4
  {
    [v / 0x100_0000 % 0x100, v / 0x1_0000 % 0x100, v / 0x100 % 0x100, v % 0x100]
  }

  function BeU32(b: Bytes): (v: nat)
    requires |b| >= 4
    ensures v < 0x1_0000_0000
  {
    (b[0] as int) * 0x100_0000 + (b[1] as int) * 0x1_0000 + (b[2] as int) * 0x100 + (b[3] as int)
  }

  /** The first byte is the highest. */
  lemma HighestByteFirst(a: U8, b: U8, c: U8, d: U8)
    ensures BeU32([a, b, c, d]) == ((a * 256 + b) * 256 + c) * 256 + d
  {
  }

  lemma Digits(v: nat)
    requires v < 0x1_0000_0000
    ensures v / 0x100_0000 % 0x100 * 0x100_0000 + v / 0x1_0000 % 0x100 * 0x1_0000 + v / 0x100 % 0x100 * 0x100 + v % 0x100 == v
  {
    var q := v / 0x100;
    var r := q / 0x100;
    assert v / 0x1_0000 == r && v / 0x100_0000 == r / 0x100;
    assert r / 0x100 < 0x100;
  }

  lemma LengthRoundTrip(v: nat, rest: Bytes)
    requires v < 0x1_0000_0000
    ensures BeU32(PutU32(v) + rest) == v
  {
    Digits(v);
  }

  lemma BytesOfLength(b: Bytes)
    requires |b| >= 4
    ensures PutU32(BeU32(b)) == b[..4]
  {
    var v := BeU32(b);
    var hi := (b[0] as int) * 0x1_0000 + (b[1] as int) * 0x100 + (b[2] as int);
    assert v == hi * 0x100 + b[3];
    assert v / 0x100 == hi;
    var top := (b[0] as int) * 0x100 + (b[1] as int);
    assert hi / 0x100 == top && v / 0x1_0000 == top;
    assert v / 0x100_0000 == b[0];
  }

  // ---------------------------------------------------------------- writing frames

  function Wire(f: Frame): (s: Bytes)
    ensures |s| == 5 + |f.payload|
  {
    PutU32(1 + |f.payload|) + [f.kind] + f.payload
  }

  function WireAll(fs: seq<Frame>): Bytes {
    if fs == [] then [] else Wire(fs[0]) + WireAll(fs[1..])
  }

  /** The worker's writer refuses a frame over the response ceiling, the supervisor's over the request one. */
  method WriteWithin(ceiling: nat, kind: U8, payload: Bytes) returns (res: Option<Bytes>)
    ensures res == if 1 + |payload| > ceiling then None else Some(Wire(Frame(kind, payload)))
  {
    var total := 1 + |payload|;
    if total > ceiling { return None; }
    var a := new U8[4 + total](_ => 0);
    var len := PutU32(total);
    forall i | 0 <= i < 4 { a[i] := len[i]; }
    a[4] := kind;
    forall i | 0 <= i < |payload| { a[5 + i] := payload[i]; }
    assert a[..] == Wire(Frame(kind, payload));
    res := Some(a[..]);
  }

  method EncodeFrame(kind: U8, payload: Bytes) returns (res: Option<Bytes>)
    ensures res == if 1 + |payload| > 376389 then None else Some(Wire(Frame(kind, payload)))
  {
    res := WriteWithin(MAX_FRAME, kind, payload);
  }

  method WriteFrame(kind: U8, payload: Bytes) returns (res: Option<Bytes>)
    ensures res == if 1 + |payload| > 16793605 then None else Some(Wire(Frame(kind, payload)))
  {
    res := WriteWithin(MAX_REQUEST_FRAME, kind, payload);
  }

  // ---------------------------------------------------------------- reading a stream

  /** What a byte string holds under a ceiling: its complete frames, what is left, and whether what is left
      begins with a length that can never be accepted. */
  datatype Parsed = Parsed(frames: seq<Frame>, rest: Bytes, bad: bool)

  function Parse(b: Bytes): Parsed
    decreases |b|
  {
    if |b| < 4 then Parsed([], b, false)
    else
      var total := BeU32(b);
      if total < 1 || total > MAX_REQUEST_FRAME then Parsed([], b, true)
      else if |b| < 4 + total then Parsed([], b, false)
      else
        var p := Parse(b[4 + total..]);
        Parsed([Frame(b[4], b[5..4 + total])] + p.frames, p.rest, p.bad)
  }

  lemma ParseCases(b: Bytes)
    ensures |b| < 4 ==> Parse(b) == Parsed([], b, false)
    ensures |b| >= 4 && !(1 <= BeU32(b) <= MAX_REQUEST_FRAME) ==> Parse(b) == Parsed([], b, true)
    ensures |b| >= 4 && 1 <= BeU32(b) <= MAX_REQUEST_FRAME && |b| < 4 + BeU32(b) ==> Parse(b) == Parsed([], b, false)
    ensures |b| >= 4 && 1 <= BeU32(b) <= MAX_REQUEST_FRAME && |b| >= 4 + BeU32(b) ==>
      var p := Parse(b[4 + BeU32(b)..]);
      Parse(b) == Parsed([Frame(b[4], b[5..4 + BeU32(b)])] + p.frames, p.rest, p.bad)
  {
    hide BeU32;
  }

  datatype Fed = Frames(frames: seq<Frame>) | Throws

  class FrameReader {
    var buf: Bytes

    constructor ()
      ensures buf == []
    {
      buf := [];
    }

    /** Append the chunk, then cut off complete frames until none is left; an unacceptable length throws. */
    method Feed(chunk: Bytes) returns (res: Fed)
      modifies this
      ensures var p := Parse(old(buf) + chunk);
        buf == p.rest && res == if p.bad then Throws else Frames(p.frames)
    {
      hide BeU32, Parse;
      buf := buf + chunk;
      ghost var all := buf;
      var out: seq<Frame> := [];
      while true
        invariant Parse(all) == Parsed(out + Parse(buf).frames, Parse(buf).rest, Parse(buf).bad)
        decreases |buf|
      {
        ParseCases(buf);
        if |buf| < 4 { break; }
        var total := BeU32(buf);
        if total < 1 { return Throws; }
        if total > MAX_REQUEST_FRAME { return Throws; }
        if |buf| < 4 + total { break; }
        var f := Frame(buf[4], buf[5..4 + total]);
        assert out + ([f] + Parse(buf[4 + total..]).frames) == (out + [f]) + Parse(buf[4 + total..]).frames;
        out := out + [f];
        buf := buf[4 + total..];
      }
      assert out + [] == out;
      res := Frames(out);
    }
  }

  // ---------------------------------------------------------------- chunking

  lemma {:induction false} ParseExtends(a: Bytes, b: Bytes)
    requires !Parse(a).bad
    ensures Parse(a + b) == Parsed(Parse(a).frames + Parse(Parse(a).rest + b).frames, Parse(Parse(a).rest + b).rest, Parse(Parse(a).rest + b).bad)
    decreases |a|
  {
    hide BeU32, Parse;
    ParseCases(a);
    if |a| >= 4 {
      SameLength(a, b);
      var total := BeU32(a);
      if 4 + total <= |a| {
        ParseExtends(a[4 + total..], b);
        ParseCases(a + b);
        assert (a + b)[4] == a[4] && (a + b)[4 + total..] == a[4 + total..] + b;
        assert (a + b)[5..4 + total] == a[5..4 + total];
      }
    }
  }

  lemma SameLength(a: Bytes, b: Bytes)
    requires |a| >= 4
    ensures BeU32(a + b) == BeU32(a)
  {
  }

  function Concat(chunks: seq<Bytes>): Bytes {
    if chunks == [] then [] else Concat(chunks[..|chunks| - 1]) + chunks[|chunks| - 1]
  }

  /** What feeding chunks one after another yields: the frames of all outputs, the buffer, and whether a feed threw;
      after that the connection is dropped and nothing more is fed. */
  datatype Feeding = Feeding(frames: seq<Frame>, buf: Bytes, thrown: bool)

  function FeedAll(chunks: seq<Bytes>): Feeding {
    if chunks == [] then Feeding([], [], false)
    else
      var f := FeedAll(chunks[..|chunks| - 1]);
      if f.thrown then f
      else
        var p := Parse(f.buf + chunks[|chunks| - 1]);
        Feeding(if p.bad then f.frames else f.frames + p.frames, p.rest, p.bad)
  }

  lemma {:induction false} BadStaysBad(a: Bytes, b: Bytes)
    requires Parse(a).bad
    ensures Parse(a + b).bad
    decreases |a|
  {
    hide BeU32;
    SameLength(a, b);
    var total := BeU32(a);
    if 1 <= total <= MAX_REQUEST_FRAME {
      BadStaysBad(a[4 + total..], b);
      assert (a + b)[4 + total..] == a[4 + total..] + b;
    }
  }

  /** The first m chunks hold acceptable lengths only, the first m + 1 do not. */
  ghost predicate BreaksAt(chunks: seq<Bytes>, m: nat) {
    m < |chunks| && !Parse(Concat(chunks[..m])).bad && Parse(Concat(chunks[..m + 1])).bad
  }

  /** However a stream is cut into chunks, a feed throws exactly if the stream holds an unacceptable length. If it
      does not, the reader yields what one feed of the whole stream would. If it does, the reader has yielded the
      frames complete before the chunk that brings the length; the frames in that chunk are lost with it. */
  lemma {:induction false} ChunkingIsIrrelevant(chunks: seq<Bytes>)
    ensures var p, f := Parse(Concat(chunks)), FeedAll(chunks);
      && f.thrown == p.bad
      && (!p.bad ==> f.frames == p.frames && f.buf == p.rest)
      && (p.bad ==> exists m: nat :: BreaksAt(chunks, m) && f.frames == Parse(Concat(chunks[..m])).frames)
  {
    hide Parse;
    if chunks == [] {
      ParseCases([]);
    } else {
      var n := |chunks| - 1;
      ChunkingIsIrrelevant(chunks[..n]);
      assert chunks[..n + 1] == chunks;
      var before := Concat(chunks[..n]);
      if Parse(before).bad {
        BadStaysBad(before, chunks[n]);
        var m: nat :| BreaksAt(chunks[..n], m) && FeedAll(chunks[..n]).frames == Parse(Concat(chunks[..n][..m])).frames;
        assert chunks[..n][..m] == chunks[..m] && chunks[..n][..m + 1] == chunks[..m + 1];
        assert BreaksAt(chunks, m);
      } else {
        ParseExtends(before, chunks[n]);
        assert Parse(before + chunks[n]).bad ==> BreaksAt(chunks, n);
      }
    }
  }

  /** Nothing is lost: the frames yielded, written again, and the buffer are the bytes fed. */
  lemma {:induction false} ParseKeepsBytes(b: Bytes)
    ensures WireAll(Parse(b).frames) + Parse(b).rest == b
    decreases |b|
  {
    hide BeU32, PutU32, Wire, Parse;
    ParseCases(b);
    if |b| >= 4 {
      var total := BeU32(b);
      if 1 <= total <= MAX_REQUEST_FRAME && 4 + total <= |b| {
        var f, p := Frame(b[4], b[5..4 + total]), Parse(b[4 + total..]);
        ParseKeepsBytes(b[4 + total..]);
        WireOfSlice(b, total);
        assert ([f] + p.frames)[1..] == p.frames && ([f] + p.frames)[0] == f;
        assert (Wire(f) + WireAll(p.frames)) + p.rest == Wire(f) + (WireAll(p.frames) + p.rest);
      }
    }
  }

  lemma WireOfSlice(b: Bytes, total: nat)
    requires |b| >= 4 && total == BeU32(b) && 1 <= total && 4 + total <= |b|
    ensures Wire(Frame(b[4], b[5..4 + total])) + b[4 + total..] == b
  {
    BytesOfLength(b);
    hide BeU32, PutU32;
    assert b == b[..4] + [b[4]] + b[5..4 + total] + b[4 + total..];
  }

  ghost predicate Sendable(f: Frame) {
    1 + |f.payload| <= MAX_REQUEST_FRAME
  }

  /** The frames that were written are the frames that are read, whatever incomplete tail follows. */
  lemma {:induction false} WrittenFramesAreRead(fs: seq<Frame>, tail: Bytes)
    requires forall i :: 0 <= i < |fs| ==> Sendable(fs[i])
    requires Parse(tail) == Parsed([], tail, false)
    ensures Parse(WireAll(fs) + tail) == Parsed(fs, tail, false)
  {
    if fs == [] {
      assert WireAll(fs) + tail == tail;
    } else {
      WrittenFramesAreRead(fs[1..], tail);
      var f, rest := fs[0], WireAll(fs[1..]) + tail;
      assert WireAll(fs) + tail == Wire(f) + rest;
      FirstFrame(f, rest);
      assert fs == [f] + fs[1..];
    }
  }

  lemma FirstFrame(f: Frame, rest: Bytes)
    requires Sendable(f)
    ensures Parse(Wire(f) + rest) == Parsed([f] + Parse(rest).frames, Parse(rest).rest, Parse(rest).bad)
  {
    var b := Wire(f) + rest;
    LengthRoundTrip(1 + |f.payload|, [f.kind] + f.payload + rest);
    assert b == PutU32(1 + |f.payload|) + ([f.kind] + f.payload + rest);
    hide BeU32, PutU32;
    var total := BeU32(b);
    assert b[4] == f.kind && b[5..4 + total] == f.payload && b[4 + total..] == rest;
  }

  // ---------------------------------------------------------------- the response direction

  /** ReadFrame from a stream: the frame and what follows it, or an error. */
  datatype ReadResult = Read(frame: Frame, rest: Bytes) | ShortStream | BadLength

  method ReadFrame(stream: Bytes) returns (res: ReadResult)
    ensures res.Read? ==> |res.frame.payload| < MAX_FRAME && stream == Wire(res.frame) + res.rest
    ensures res.BadLength? <==> |stream| >= 4 && (BeU32(stream) < 1 || BeU32(stream) > MAX_FRAME)
    ensures res.ShortStream? <==> |stream| < 4 || (1 <= BeU32(stream) <= MAX_FRAME && |stream| < 4 + BeU32(stream))
  {
    if |stream| < 4 { return ShortStream; }
    var total := BeU32(stream);
    if total < 1 { return BadLength; }
    if total > MAX_FRAME { return BadLength; }
    if |stream| < 4 + total { return ShortStream; }
    var buf := stream[4..4 + total];
    BytesOfLength(stream);
    hide BeU32, PutU32;
    res := Read(Frame(buf[0], buf[1..]), stream[4 + total..]);
    assert stream == stream[..4] + [buf[0]] + buf[1..] + stream[4 + total..];
  }

  /** The response metadata is opaque here but for its error flag; its JSON form is given by a pair of functions. */
  datatype Json<!M> = Json(marshal: M -> Bytes, unmarshal: Bytes -> Option<M>, failed: M -> bool)

  ghost predicate Faithful<M(!new)>(j: Json<M>) {
    forall m :: j.unmarshal(j.marshal(m)) == Some(m)
  }

  datatype Encoded = Payload(bytes: Bytes) | WrongImage | MetaTooLong

  /** An ok response carries exactly one raw frame, an error response none. */
  method EncodeResponse<M>(j: Json<M>, meta: M, raw: Bytes) returns (res: Encoded)
    ensures res.WrongImage? <==> |raw| != if j.failed(meta) then 0 else RAW_FRAME_SIZE
    ensures res.MetaTooLong? <==> !res.WrongImage? && |j.marshal(meta)| > META_MAX
    ensures res.Payload? ==> res.bytes == PutU32(|j.marshal(meta)|) + j.marshal(meta) + raw
  {
    if !j.failed(meta) && |raw| != RAW_FRAME_SIZE { return WrongImage; }
    if j.failed(meta) && |raw| != 0 { return WrongImage; }
    var mj := j.marshal(meta);
    if |mj| > META_MAX { return MetaTooLong; }
    var a := new U8[4 + |mj| + |raw|](_ => 0);
    var len := PutU32(|mj|);
    forall i | 0 <= i < 4 { a[i] := len[i]; }
    forall i | 0 <= i < |mj| { a[4 + i] := mj[i]; }
    forall i | 0 <= i < |raw| { a[4 + |mj| + i] := raw[i]; }
    assert a[..] == PutU32(|mj|) + mj + raw;
    res := Payload(a[..]);
  }

  datatype Decoded<M> = Response(meta: M, raw: Bytes) | BadResponse

  function DecodeResponse<M>(j: Json<M>, payload: Bytes): Decoded<M> {
    if |payload| < 4 then BadResponse
    else
      var metaLen := BeU32(payload);
      if metaLen > META_MAX || 4 + metaLen > |payload| then BadResponse
      else
        match j.unmarshal(payload[4..4 + metaLen])
        case None => BadResponse
        case Some(meta) =>
          var raw := payload[4 + metaLen..];
          if !j.failed(meta) && |raw| != RAW_FRAME_SIZE then BadResponse
          else if j.failed(meta) && |raw| != 0 then BadResponse
          else Response(meta, raw)
  }

  /** Whatever payload is decoded, its image has exactly the size its metadata calls for. */
  lemma DecodedImageIsExact<M>(j: Json<M>, payload: Bytes)
    ensures var d := DecodeResponse(j, payload);
      d.Response? ==> |d.raw| == (if j.failed(d.meta) then 0 else RAW_FRAME_SIZE) && |payload| < MAX_FRAME
  {
  }

  /** Every response the encoder accepts fits the supervisor's read ceiling, is the frame that is
      read, and decodes to the same metadata and image. */
  lemma ResponseRoundTrip<M(!new)>(j: Json<M>, meta: M, raw: Bytes, kind: U8, more: Bytes)
    requires Faithful(j) && |raw| == (if j.failed(meta) then 0 else RAW_FRAME_SIZE) && |j.marshal(meta)| <= META_MAX
    ensures var payload := PutU32(|j.marshal(meta)|) + j.marshal(meta) + raw;
      && 1 + |payload| <= MAX_FRAME
      && BeU32(Wire(Frame(kind, payload)) + more) == 1 + |payload|
      && DecodeResponse(j, payload) == Response(meta, raw)
  {
    hide DecodeResponse, BeU32, PutU32;
    DecodesBack(j, meta, raw);
    var payload := PutU32(|j.marshal(meta)|) + j.marshal(meta) + raw;
    LengthRoundTrip(1 + |payload|, [kind] + payload + more);
    assert Wire(Frame(kind, payload)) + more == PutU32(1 + |payload|) + ([kind] + payload + more);
  }

  lemma DecodesBack<M(!new)>(j: Json<M>, meta: M, raw: Bytes)
    requires Faithful(j) && |raw| == (if j.failed(meta) then 0 else RAW_FRAME_SIZE) && |j.marshal(meta)| <= META_MAX
    ensures DecodeResponse(j, PutU32(|j.marshal(meta)|) + j.marshal(meta) + raw) == Response(meta, raw)
  {
    hide BeU32, PutU32;
    var mj := j.marshal(meta);
    var payload := PutU32(|mj|) + mj + raw;
    assert payload == PutU32(|mj|) + (mj + raw);
    LengthRoundTrip(|mj|, mj + raw);
    assert payload[4..4 + |mj|] == mj && payload[4 + |mj|..] == raw;
  }

  /** The start of a byte string determines the frame written there. */
  lemma WireInjective(f: Frame, g: Frame, r: Bytes, s: Bytes)
    requires 1 + |f.payload| <= MAX_FRAME && 1 + |g.payload| <= MAX_FRAME && Wire(f) + r == Wire(g) + s
    ensures f == g && r == s
  {
    var b, n, m := Wire(f) + r, 1 + |f.payload|, 1 + |g.payload|;
    assert b == PutU32(n) + ([f.kind] + f.payload + r);
    assert b == PutU32(m) + ([g.kind] + g.payload + s);
    LengthRoundTrip(n, [f.kind] + f.payload + r);
    LengthRoundTrip(m, [g.kind] + g.payload + s);
    hide BeU32, PutU32;
    assert b[4] == f.kind && b[5..4 + n] == f.payload && b[4 + n..] == r;
    assert b[4] == g.kind && b[5..4 + m] == g.payload && b[4 + m..] == s;
  }

  /** A response all the way: encoded, framed by the worker, read by the supervisor from a stream that goes on, and
      decoded. What the encoder accepts arrives as it was sent; the rest is what follows. */
  method SendResponse<M(!new)>(j: Json<M>, meta: M, raw: Bytes, kind: U8, more: Bytes) returns (arrived: Option<(Decoded<M>, Bytes)>)
    requires Faithful(j)
    ensures arrived ==
      if |raw| == (if j.failed(meta) then 0 else RAW_FRAME_SIZE) && |j.marshal(meta)| <= META_MAX then Some((Response(meta, raw), more))
      else None
  {
    var enc := EncodeResponse(j, meta, raw);
    if !enc.Payload? { return None; }
    ResponseRoundTrip(j, meta, raw, kind, more);
    hide DecodeResponse, Wire, BeU32, PutU32;
    var wire := EncodeFrame(kind, enc.bytes);
    var read := ReadFrame(wire.value + more);
    FrameArrives(Frame(kind, enc.bytes), more);
    WireInjective(read.frame, Frame(kind, enc.bytes), read.rest, more);
    arrived := Some((DecodeResponse(j, read.frame.payload), read.rest));
  }

  lemma FrameArrives(f: Frame, more: Bytes)
    requires 1 + |f.payload| <= MAX_FRAME
    ensures var b := Wire(f) + more; |b| >= 4 + BeU32(b) && BeU32(b) == 1 + |f.payload|
  {
    LengthRoundTrip(1 + |f.payload|, [f.kind] + f.payload + more);
    assert Wire(f) + more == PutU32(1 + |f.payload|) + ([f.kind] + f.payload + more);
  }
}
