/**
 The agent's length-prefixed frames: `write_frame` and `read_frame` over a byte
 stream, their round trip, and what any truncation of the stream yields.
 */
module Framing {
  import opened Machine

  const MAX_FRAME_BYTES: nat := 2 * 1024 * 1024
  const PREFIX_BYTES: nat := 4

  datatype WriteError = EmptyPayload | ExceedsU32 | PayloadTooLarge

  datatype ReadResult = Frame(payload: seq<Byte>) | End | ZeroLength | TooLarge | CutShort

  function BigEndian(n: nat): seq<Byte>
    requires n < 0x1_0000_0000
  {
    [n / 0x100_0000, n / 0x1_0000 % 256, n / 256 % 256, n % 256]
  }

  function FromBigEndian(s: seq<Byte>): nat
    requires |s| == PREFIX_BYTES
  {
    var a: int, b: int, c: int, d: int := s[0], s[1], s[2], s[3];
    ((a * 256 + b) * 256 + c) * 256 + d
  }

  lemma BigEndianReadsBack(n: nat)
    requires n < 0x1_0000_0000
    ensures FromBigEndian(BigEndian(n)) == n
  {
    var a := n / 256;
    var b := a / 256;
    assert n / 0x1_0000 == b && n / 0x100_0000 == b / 256;
    assert b == b / 256 * 256 + b % 256;
    assert a == b * 256 + a % 256;
    assert n == a * 256 + n % 256;
  }

  predicate Writable(payload: seq<Byte>) {
    0 < |payload| <= MAX_FRAME_BYTES
  }

  /** The bytes of one accepted frame. */
  function Encode(payload: seq<Byte>): (r: seq<Byte>)
    requires Writable(payload)
    ensures |r| == PREFIX_BYTES + |payload|
  {
    BigEndian(|payload|) + payload
  }

  /** `read_frame` at the start of `s`, and what is left of the stream. */
  function Next(s: seq<Byte>): (r: (ReadResult, seq<Byte>))
    ensures r.0.Frame? ==> |r.1| < |s| && Writable(r.0.payload)
  {
    if |s| < PREFIX_BYTES then (End, [])
    else
      var length := FromBigEndian(s[..PREFIX_BYTES]);
      var body := s[PREFIX_BYTES..];
      if length == 0 then (ZeroLength, body)
      else if length > MAX_FRAME_BYTES then (TooLarge, body)
      else if |body| < length then (CutShort, [])
      else (Frame(body[..length]), body[length..])
  }

  /** A connection's incoming bytes, read in place. */
  class Reader {
    var data: seq<Byte>

    constructor (data: seq<Byte>)
      ensures this.data == data
    {
      this.data := data;
    }

    /** `read_exact`: an early end of stream consumes what was there. */
    method ReadExact(count: nat) returns (bytes: Option<seq<Byte>>)
      modifies this
      ensures |old(data)| < count ==> bytes == None && data == []
      ensures count <= |old(data)| ==> bytes == Some(old(data)[..count]) && data == old(data)[count..]
    {
      if |data| < count {
        data, bytes := [], None;
      } else {
        bytes := Some(data[..count]);
        data := data[count..];
      }
    }

    method ReadFrame() returns (r: ReadResult)
      modifies this
      ensures (r, data) == old(Next(data))
    {
      var prefix := ReadExact(PREFIX_BYTES);
      if prefix == None {
        return End;
      }
      var length := FromBigEndian(prefix.value);
      if length == 0 {
        return ZeroLength;
      }
      if length > MAX_FRAME_BYTES {
        return TooLarge;
      }
      var body := ReadExact(length);
      r := if body == None then CutShort else Frame(body.value);
    }
  }

  /** A connection's outgoing bytes. */
  class Sink {
    var data: seq<Byte>

    constructor ()
      ensures data == []
    {
      data := [];
    }

    /** Refuses, before writing anything, exactly what a reader would refuse. */
    method WriteFrame(payload: seq<Byte>) returns (error: Option<WriteError>)
      modifies this
      ensures error == None <==> Writable(payload)
      ensures error == None ==> data == old(data) + Encode(payload)
      ensures error.Some? ==> data == old(data)
      ensures error == Some(EmptyPayload) <==> payload == []
      ensures error == Some(ExceedsU32) <==> |payload| >= 0x1_0000_0000
    {
      if payload == [] {
        return Some(EmptyPayload);
      }
      if |payload| >= 0x1_0000_0000 {
        return Some(ExceedsU32);
      }
      if |payload| > MAX_FRAME_BYTES {
        return Some(PayloadTooLarge);
      }
      data := data + BigEndian(|payload|);
      data := data + payload;
      assert data == old(data) + Encode(payload);
      error := None;
    }
  }

  predicate AllWritable(ps: seq<seq<Byte>>) {
    forall i :: 0 <= i < |ps| ==> Writable(ps[i])
  }

  /** Every frame in turn, until something other than a frame. */
  function ReadAll(s: seq<Byte>): (seq<seq<Byte>>, ReadResult)
    decreases |s|
  {
    var (r, rest) := Next(s);
    if r.Frame? then
      var (more, end) := ReadAll(rest);
      ([r.payload] + more, end)
    else ([], r)
  }

  function Wire(ps: seq<seq<Byte>>): seq<Byte>
    requires AllWritable(ps)
  {
    if ps == [] then [] else Encode(ps[0]) + Wire(ps[1..])
  }

  lemma NextOfEncode(p: seq<Byte>, rest: seq<Byte>)
    requires Writable(p)
    ensures Next(Encode(p) + rest) == (Frame(p), rest)
  {
    var s := Encode(p) + rest;
    assert s[..PREFIX_BYTES] == BigEndian(|p|);
    BigEndianReadsBack(|p|);
    assert s[PREFIX_BYTES..] == p + rest;
    assert (p + rest)[..|p|] == p && (p + rest)[|p|..] == rest;
  }

  /** A frame cut anywhere: inside its prefix it reads as the end, later as cut short. */
  lemma NextOfCut(p: seq<Byte>, k: nat)
    requires Writable(p) && k < |Encode(p)|
    ensures Next(Encode(p)[..k]) == (if k < PREFIX_BYTES then End else CutShort, [])
  {
    if PREFIX_BYTES <= k {
      assert Encode(p)[..k][..PREFIX_BYTES] == BigEndian(|p|);
      BigEndianReadsBack(|p|);
    }
  }

  /** How many of the frames of `ps` lie whole in the first `k` bytes. */
  function WholeFrames(ps: seq<seq<Byte>>, k: nat): (n: nat)
    requires AllWritable(ps)
    ensures n <= |ps|
  {
    if ps == [] || k < |Encode(ps[0])| then 0 else 1 + WholeFrames(ps[1..], k - |Encode(ps[0])|)
  }

  /** How far the first `k` bytes reach past the last whole frame. */
  function Overhang(ps: seq<seq<Byte>>, k: nat): nat
    requires AllWritable(ps)
  {
    if ps == [] || k < |Encode(ps[0])| then k else Overhang(ps[1..], k - |Encode(ps[0])|)
  }

  /**
   Any truncation yields exactly the frames that lie whole before the cut. The
   reader takes the cut for a clean end exactly when it falls at most three bytes
   past a frame boundary.
   */
  lemma {:induction false} TruncationYieldsPrefix(ps: seq<seq<Byte>>, k: nat)
    requires AllWritable(ps) && k <= |Wire(ps)|
    ensures ReadAll(Wire(ps)[..k]) ==
            (ps[..WholeFrames(ps, k)], if Overhang(ps, k) < PREFIX_BYTES then End else CutShort)
    decreases |ps|
  {
    hide Next, Encode, ReadAll;
    if ps == [] {
      ReadNothing();
    } else {
      var first, rest := Encode(ps[0]), Wire(ps[1..]);
      if k < |first| {
        assert Wire(ps)[..k] == first[..k];
        ReadCut(ps[0], k);
      } else {
        var j := k - |first|;
        assert Wire(ps)[..k] == first + rest[..j];
        ReadOne(ps[0], rest[..j]);
        TruncationYieldsPrefix(ps[1..], j);
        var n := WholeFrames(ps[1..], j);
        assert [ps[0]] + ps[1..][..n] == ps[..n + 1];
      }
    }
  }

  lemma ReadNothing()
    ensures ReadAll([]) == ([], End)
  {
    hide Next;
    NextOfNothing();
  }

  lemma ReadCut(p: seq<Byte>, k: nat)
    requires Writable(p) && k < |Encode(p)|
    ensures ReadAll(Encode(p)[..k]) == ([], if k < PREFIX_BYTES then End else CutShort)
  {
    hide Next, Encode;
    NextOfCut(p, k);
  }

  lemma ReadOne(p: seq<Byte>, rest: seq<Byte>)
    requires Writable(p)
    ensures ReadAll(Encode(p) + rest) == ([p] + ReadAll(rest).0, ReadAll(rest).1)
  {
    hide Next, Encode;
    NextOfEncode(p, rest);
  }

  lemma NextOfNothing()
    ensures Next([]) == (End, [])
  {
  }

  /** Reading the whole stream returns exactly what was written. */
  lemma {:induction false} FramesReadBack(ps: seq<seq<Byte>>)
    requires AllWritable(ps)
    ensures ReadAll(Wire(ps)) == (ps, End)
  {
    hide ReadAll, Next, Encode;
    WholeStream(ps);
    TruncationYieldsPrefix(ps, |Wire(ps)|);
    assert Wire(ps)[..|Wire(ps)|] == Wire(ps) && ps[..|ps|] == ps;
  }

  lemma {:induction false} WholeStream(ps: seq<seq<Byte>>)
    requires AllWritable(ps)
    ensures WholeFrames(ps, |Wire(ps)|) == |ps| && Overhang(ps, |Wire(ps)|) == 0
  {
    hide Encode;
    if ps != [] {
      WholeStream(ps[1..]);
    }
  }
}
