/**
 Archive bytes on their way through the agent: batched into chunks, wrapped in
 protobuf messages, framed, and handed out again as a plain byte stream.
 */
module ChunkPipes {
  import opened Machine
  import opened Protobuf
  import opened Framing

  const CHUNK_BYTES: nat := 256 * 1024

  /** Chunks a frame always has room for. */
  predicate GoodChunk(c: seq<Byte>) {
    0 < |c| < 2 * CHUNK_BYTES
  }

  predicate GoodChunks(cs: seq<seq<Byte>>) {
    forall i :: 0 <= i < |cs| ==> GoodChunk(cs[i])
  }

  /** `ChunkWriter` of the agent. The receiver takes `accepts` more chunks before it hangs up. */
  class ChunkWriter {
    var sent: seq<seq<Byte>>
    var buf: seq<Byte>
    var accepts: nat

    constructor (accepts: nat)
      ensures sent == [] && buf == [] && this.accepts == accepts
    {
      sent, buf, this.accepts := [], [], accepts;
    }

    /** Everything written so far, chunked or not. */
    ghost function Contents(): seq<Byte>
      reads this
    {
      Concat(sent) + buf
    }

    ghost predicate Valid()
      reads this
    {
      GoodChunks(sent) && |buf| < CHUNK_BYTES
    }

    method Flush() returns (ok: bool)
      requires GoodChunks(sent) && |buf| < 2 * CHUNK_BYTES
      modifies this
      ensures Valid() && buf == []
      ensures ok <==> old(buf) == [] || old(accepts) > 0
      ensures ok ==> Contents() == old(Contents())
      ensures !ok ==> sent == old(sent)
      ensures old(sent) <= sent && |sent| + accepts == |old(sent)| + old(accepts)
    {
      if buf == [] {
        return true;
      }
      var chunk := buf;
      buf := [];
      ok := accepts > 0;
      if ok {
        ConcatSnoc(sent, chunk);
        sent := sent + [chunk];
        accepts := accepts - 1;
      }
    }

    /** `write`: the data goes in by parts of at most one chunk, flushed as they fill up. */
    method Write(data: seq<Byte>) returns (written: Option<nat>)
      requires Valid()
      modifies this
      ensures Valid()
      ensures written.Some? ==> written.value == |data| && Contents() == old(Contents()) + data
      ensures written.None? ==> accepts == 0 && Concat(sent) <= old(Contents()) + data
      ensures old(sent) <= sent && |sent| + accepts == |old(sent)| + old(accepts)
    {
      var done := 0;
      assert data[..0] == [];
      while done < |data|
        invariant done <= |data| && Valid()
        invariant Contents() == old(Contents()) + data[..done]
        invariant old(sent) <= sent && |sent| + accepts == |old(sent)| + old(accepts)
      {
        var part := data[done..Min(done + CHUNK_BYTES, |data|)];
        assert data[..done] + part == data[..done + |part|];
        ghost var before := old(Contents()) + data[..done];
        buf := buf + part;
        assert Contents() == before + part;
        done := done + |part|;
        if |buf| >= CHUNK_BYTES {
          var ok := Flush();
          if !ok {
            PrefixOfWritten(Concat(sent), before, part, data, old(Contents()), done);
            return None;
          }
        }
      }
      assert data[..done] == data;
      written := Some(|data|);
    }
  }

  lemma PrefixOfWritten(sent: seq<Byte>, before: seq<Byte>, part: seq<Byte>, data: seq<Byte>, start: seq<Byte>,
                        done: nat)
    requires |part| <= done <= |data| && sent <= before && before == start + data[..done - |part|]
    ensures sent <= start + data
  {
    assert start + data == before + data[done - |part|..];
  }

  predicate AllPositive(rooms: seq<nat>) {
    forall i :: 0 <= i < |rooms| ==> rooms[i] > 0
  }

  lemma PositiveAt(rooms: seq<nat>, i: nat)
    requires i < |rooms|
    ensures AllPositive(rooms) ==> rooms[i] > 0
  {
  }

  /** `ChunkReader`: the queue's chunks as one stream. */
  class ChunkReader {
    var rx: seq<seq<Byte>>
    var current: seq<Byte>
    var pos: nat

    constructor (chunks: seq<seq<Byte>>)
      ensures Valid() && Remaining() == Concat(chunks)
    {
      rx, current, pos := chunks, [], 0;
    }

    ghost predicate Valid()
      reads this
    {
      pos <= |current|
    }

    /** The bytes not handed out yet. */
    ghost function Remaining(): seq<Byte>
      reads this
      requires Valid()
    {
      current[pos..] + Concat(rx)
    }

    /** Hands out the next bytes; nothing for a real buffer only at the very end. */
    method Read(room: nat) returns (out: seq<Byte>)
      requires Valid()
      modifies this
      ensures Valid()
      ensures out + Remaining() == old(Remaining())
      ensures |out| <= room
      ensures out == [] <==> room == 0 || old(Remaining()) == []
    {
      while pos >= |current|
        invariant Valid() && Remaining() == old(Remaining())
        decreases |rx|
      {
        if rx == [] {
          return [];
        }
        current, pos, rx := rx[0], 0, rx[1..];
        assert current[0..] == current;
      }
      var n := Min(room, |current| - pos);
      out := current[pos..pos + n];
      ghost var was := current[pos..];
      pos := pos + n;
      assert out + current[pos..] == was;
    }

    /** Any sequence of buffer sizes hands out the same stream. */
    method ReadRun(rooms: seq<nat>) returns (out: seq<Byte>)
      requires Valid()
      modifies this
      ensures Valid()
      ensures out + Remaining() == old(Remaining())
      ensures |rooms| >= |old(Remaining())| && AllPositive(rooms) ==> out == old(Remaining())
    {
      hide Concat, AllPositive;
      out := [];
      for i := 0 to |rooms|
        invariant Valid()
        invariant out + Remaining() == old(Remaining())
        invariant AllPositive(rooms) ==> i <= |out| || out == old(Remaining())
      {
        assert AllPositive(rooms) ==> rooms[i] > 0 by {
          PositiveAt(rooms, i);
        }
        var more := Read(rooms[i]);
        assert out + (more + Remaining()) == out + more + Remaining();
        out := out + more;
      }
    }
  }

  const TAR_BLOCK_BYTES: nat := 512

  /**
   `read_head`: whole chunks until a header block is in hand or the stream ends.
   A stream that is `broken` ends in an error instead.
   */
  method ReadHead(stream: seq<seq<Byte>>, broken: bool) returns (head: Option<seq<Byte>>, rest: seq<seq<Byte>>)
    ensures head.None? <==> broken && |Concat(stream)| < TAR_BLOCK_BYTES
    ensures head.Some? ==>
              && head.value + Concat(rest) == Concat(stream)
              && (TAR_BLOCK_BYTES <= |head.value| || rest == [])
    ensures rest == stream[HeadChunks(stream, 0)..]
  {
    var taken: seq<Byte> := [];
    var n := 0;
    while |taken| < TAR_BLOCK_BYTES
      invariant n <= |stream| && taken + Concat(stream[n..]) == Concat(stream)
      invariant n + HeadChunks(stream[n..], |taken|) == HeadChunks(stream, 0)
      decreases |stream| - n
    {
      rest := stream[n..];
      if rest == [] {
        head := if broken then None else Some(taken);
        return;
      }
      assert taken + (rest[0] + Concat(rest[1..])) == taken + rest[0] + Concat(rest[1..]);
      assert rest[1..] == stream[n + 1..];
      taken, n := taken + rest[0], n + 1;
    }
    head, rest := Some(taken), stream[n..];
  }

  /** How many chunks the head takes when `have` bytes are there already. */
  function HeadChunks(stream: seq<seq<Byte>>, have: nat): (n: nat)
    ensures n <= |stream|
  {
    if stream == [] || TAR_BLOCK_BYTES <= have then 0 else 1 + HeadChunks(stream[1..], have + |stream[0]|)
  }

  /** `StreamReader`: the head already taken, then the chunks of a download. */
  class StreamReader {
    var rx: seq<seq<Byte>>
    var current: seq<Byte>
    var pos: nat

    constructor (rx: seq<seq<Byte>>, head: seq<Byte>)
      ensures Valid() && Remaining() == head + Concat(rx)
    {
      this.rx, current, pos := rx, head, 0;
    }

    ghost predicate Valid()
      reads this
    {
      pos <= |current|
    }

    ghost function Remaining(): seq<Byte>
      reads this
      requires Valid()
    {
      current[pos..] + Concat(rx)
    }

    method Read(room: nat) returns (out: seq<Byte>)
      requires Valid()
      modifies this
      ensures Valid()
      ensures out + Remaining() == old(Remaining())
      ensures |out| <= room
      ensures out == [] <==> room == 0 || old(Remaining()) == []
    {
      while true
        invariant Valid() && Remaining() == old(Remaining())
        decreases |rx|
      {
        var n := Min(room, |current| - pos);
        if n > 0 || room == 0 {
          out := current[pos..pos + n];
          ghost var was := current[pos..];
          pos := pos + n;
          assert out + current[pos..] == was;
          return;
        }
        if rx == [] {
          return [];
        }
        current, pos, rx := rx[0], 0, rx[1..];
        assert current[0..] == current;
      }
    }

    method ReadRun(rooms: seq<nat>) returns (out: seq<Byte>)
      requires Valid()
      modifies this
      ensures Valid()
      ensures out + Remaining() == old(Remaining())
      ensures |rooms| >= |old(Remaining())| && AllPositive(rooms) ==> out == old(Remaining())
    {
      hide Concat, AllPositive;
      out := [];
      for i := 0 to |rooms|
        invariant Valid()
        invariant out + Remaining() == old(Remaining())
        invariant AllPositive(rooms) ==> i <= |out| || out == old(Remaining())
      {
        assert AllPositive(rooms) ==> rooms[i] > 0 by {
          PositiveAt(rooms, i);
        }
        var more := Read(rooms[i]);
        assert out + (more + Remaining()) == out + more + Remaining();
        out := out + more;
      }
    }
  }

  /**
   The loop of `relay`: the chunks the consumer got, and whether no failure of the
   stream was seen. The consumer takes `accepts` chunks before it is gone; a chunk
   it no longer takes ends the loop.
   */
  function Relay(stream: seq<seq<Byte>>, broken: bool, accepts: nat): (seq<seq<Byte>>, bool) {
    if stream == [] then ([], !broken)
    else if accepts == 0 then ([], true)
    else
      var (more, ok) := Relay(stream[1..], broken, accepts - 1);
      ([stream[0]] + more, ok)
  }

  /** A failing stream goes unnoticed exactly when the consumer leaves with a chunk still to come. */
  lemma {:induction false} RelayExactly(stream: seq<seq<Byte>>, broken: bool, accepts: nat)
    ensures Relay(stream, broken, accepts).0 == stream[..Min(accepts, |stream|)]
    ensures Relay(stream, broken, accepts).1 <==> !broken || accepts < |stream|
    decreases |stream|
  {
    if stream != [] && accepts > 0 {
      RelayExactly(stream[1..], broken, accepts - 1);
      ConsTake(stream, Min(accepts, |stream|));
    }
  }

  method RelayLoop(stream: seq<seq<Byte>>, broken: bool, accepts: nat) returns (passed: seq<seq<Byte>>, ok: bool)
    ensures passed == Relay(stream, broken, accepts).0 && ok == Relay(stream, broken, accepts).1
  {
    passed, ok := [], true;
    var n := 0;
    assert stream[0..] == stream;
    while true
      invariant n <= |stream| && n <= accepts
      invariant passed + Relay(stream[n..], broken, accepts - n).0 == Relay(stream, broken, accepts).0
      invariant Relay(stream[n..], broken, accepts - n).1 == Relay(stream, broken, accepts).1
      decreases |stream| - n
    {
      if n == |stream| {
        ok := !broken;
        return;
      }
      if n == accepts {
        return;
      }
      assert stream[n..][1..] == stream[n + 1..];
      ghost var rest := Relay(stream[n + 1..], broken, accepts - n - 1).0;
      assert passed + ([stream[n]] + rest) == passed + [stream[n]] + rest;
      passed, n := passed + [stream[n]], n + 1;
    }
  }

  /** The chunks of a download that are left to `relay`. */
  function Relayed(stream: seq<seq<Byte>>): seq<seq<Byte>> {
    stream[HeadChunks(stream, 0)..]
  }

  /**
   A download read through its head and any buffer sizes by a consumer that takes
   `accepts` chunks: a prefix of the chunks' bytes, in order. The failure of a
   broken stream is reported exactly if the consumer takes all that is relayed.
   */
  method ReadDownload(stream: seq<seq<Byte>>, broken: bool, accepts: nat, rooms: seq<nat>)
      returns (out: seq<Byte>, ok: bool)
    ensures out <= Concat(stream)
    ensures ok <==> !broken || accepts < |Relayed(stream)|
    ensures ok && |Relayed(stream)| <= accepts && |rooms| >= |Concat(stream)| && AllPositive(rooms) ==>
              out == Concat(stream)
  {
    hide Concat, AllPositive, HeadChunks;
    var head, rest := ReadHead(stream, broken);
    if head.None? {
      HeadOfAll(stream);
      return [], false;
    }
    var passed, seen := RelayLoop(rest, broken, accepts);
    RelayExactly(rest, broken, accepts);
    var n := Min(accepts, |rest|);
    ConcatPrefix(rest, n);
    assert n == |rest| ==> rest[..n] == rest;
    var reader := new StreamReader(passed, head.value);
    out := reader.ReadRun(rooms);
    PrefixAfter(head.value, Concat(passed), Concat(rest));
    ok := seen;
  }

  lemma PrefixAfter(head: seq<Byte>, a: seq<Byte>, b: seq<Byte>)
    requires a <= b
    ensures head + a <= head + b
  {
  }

  /** A stream shorter than a block goes into the head whole. */
  lemma HeadOfAll(stream: seq<seq<Byte>>)
    requires |Concat(stream)| < TAR_BLOCK_BYTES
    ensures HeadChunks(stream, 0) == |stream|
  {
    HeadTakesShort(stream, 0);
  }

  lemma {:induction false} HeadTakesShort(stream: seq<seq<Byte>>, have: nat)
    requires have + |Concat(stream)| < TAR_BLOCK_BYTES
    ensures HeadChunks(stream, have) == |stream|
    decreases |stream|
  {
    if stream != [] {
      HeadTakesShort(stream[1..], have + |stream[0]|);
    }
  }

  /** A stream that breaks after its consumer has left passes for a success, whatever it held. */
  lemma BrokenStreamCanPass(stream: seq<seq<Byte>>, accepts: nat)
    requires accepts < |stream|
    ensures Relay(stream, true, accepts) == (stream[..accepts], true)
  {
    RelayExactly(stream, true, accepts);
  }

  /** The client's copy messages hold at most this many bytes. */
  const MESSAGE_BYTES: nat := 1024 * 1024

  predicate FullMessages(ms: seq<seq<Byte>>) {
    forall i :: 0 <= i < |ms| ==> |ms[i]| == MESSAGE_BYTES
  }

  /**
   `ChunkWriter` of `ward cp`: messages are sent exactly full, until a flush. The
   daemon takes `accepts` more messages before it stops reading.
   */
  class CopyWriter {
    var sent: seq<seq<Byte>>
    var buf: seq<Byte>
    var accepts: nat

    constructor (accepts: nat)
      ensures Valid() && Contents() == [] && sent == [] && this.accepts == accepts
    {
      sent, buf, this.accepts := [], [], accepts;
    }

    ghost predicate Valid()
      reads this
    {
      |buf| < MESSAGE_BYTES && FullMessages(sent)
    }

    ghost function Contents(): seq<Byte>
      reads this
    {
      Concat(sent) + buf
    }

    /** `send_buffered`: the buffer is emptied whether or not the daemon takes it. */
    method SendBuffered() returns (ok: bool)
      modifies this
      ensures buf == [] && ok == (old(accepts) > 0)
      ensures sent == if ok then old(sent) + [old(buf)] else old(sent)
      ensures |sent| + accepts == |old(sent)| + old(accepts)
    {
      ok := accepts > 0;
      if ok {
        sent, accepts := sent + [buf], accepts - 1;
      }
      buf := [];
    }

    /** Takes as much of `data` as the open message has room for; None when the daemon is gone. */
    method Write(data: seq<Byte>) returns (taken: Option<nat>)
      requires Valid()
      modifies this
      ensures Valid()
      ensures taken.Some? ==>
                && taken.value <= |data| && (data != [] ==> 0 < taken.value)
                && Contents() == old(Contents()) + data[..taken.value]
      ensures taken.None? ==> accepts == 0 && sent == old(sent)
      ensures old(sent) <= sent && |sent| + accepts == |old(sent)| + old(accepts)
    {
      var n := Min(|data|, MESSAGE_BYTES - |buf|);
      ghost var was := Concat(sent);
      buf := buf + data[..n];
      assert was + buf == old(Contents()) + data[..n];
      if |buf| == MESSAGE_BYTES {
        ConcatSnoc(sent, buf);
        var ok := SendBuffered();
        if !ok {
          return None;
        }
      }
      taken := Some(n);
    }

    /** `write_all` over it. */
    method WriteAll(data: seq<Byte>) returns (ok: bool)
      requires Valid()
      modifies this
      ensures Valid()
      ensures ok ==> Contents() == old(Contents()) + data
      ensures !ok ==> accepts == 0 && Concat(sent) <= old(Contents()) + data
      ensures old(sent) <= sent && |sent| + accepts == |old(sent)| + old(accepts)
    {
      hide Concat, FullMessages;
      var done := 0;
      assert data[..0] == [];
      while done < |data|
        invariant done <= |data| && Valid()
        invariant Contents() == old(Contents()) + data[..done]
        invariant old(sent) <= sent && |sent| + accepts == |old(sent)| + old(accepts)
      {
        ghost var before := Concat(sent);
        assert before <= old(Contents()) + data by {
          PrefixOfWritten(before, Contents(), [], data, old(Contents()), done);
        }
        var taken := Write(data[done..]);
        if taken.None? {
          return false;
        }
        ExtendPrefix(old(Contents()), data, done, taken.value);
        done := done + taken.value;
      }
      assert data[..done] == data;
      ok := true;
    }

    /** The last message, if anything is left for it; after it the messages are the whole stream. */
    method Flush() returns (ok: bool)
      requires Valid()
      modifies this
      ensures buf == [] && (ok <==> old(buf) == [] || old(accepts) > 0)
      ensures ok ==> Concat(sent) == old(Contents())
      ensures !ok ==> sent == old(sent)
      ensures old(sent) <= sent && |sent| <= |old(sent)| + 1
      ensures forall i :: |old(sent)| <= i < |sent| ==> 0 < |sent[i]| < MESSAGE_BYTES
    {
      if buf == [] {
        return true;
      }
      ConcatSnoc(sent, buf);
      ok := SendBuffered();
    }
  }

  lemma ExtendPrefix(start: seq<Byte>, data: seq<Byte>, done: nat, taken: nat)
    requires done + taken <= |data|
    ensures start + data[..done] + data[done..][..taken] == start + data[..done + taken]
  {
    assert data[..done] + data[done..][..taken] == data[..done + taken];
  }

  // ---- messages and frames -------------------------------------------------

  /** Field 6 of `Event`, `archive_chunk`. */
  const EVENT_CHUNK_TAG: Byte := 50
  /** Field 9 of `Request`, `archive_chunk`. */
  const REQUEST_CHUNK_TAG: Byte := 74
  /** Field 10 of `Request`, `archive_end`. */
  const REQUEST_END_TAG: Byte := 82
  /** Field 1 of `ArchiveChunk`, `data`. */
  const CHUNK_DATA_TAG: Byte := 10

  /** An `ArchiveChunk` inside its envelope; protobuf leaves an empty field out. */
  function ChunkMessage(tag: Byte, data: seq<Byte>): seq<Byte> {
    LenField(tag, if data == [] then [] else LenField(CHUNK_DATA_TAG, data))
  }

  function ReadChunkMessage(tag: Byte, message: seq<Byte>): Option<seq<Byte>> {
    match ReadLenField(tag, message)
    case None => None
    case Some(inner) => if inner == [] then Some([]) else ReadLenField(CHUNK_DATA_TAG, inner)
  }

  lemma ChunkMessageReadsBack(tag: Byte, data: seq<Byte>)
    ensures ReadChunkMessage(tag, ChunkMessage(tag, data)) == Some(data)
  {
    hide ReadLenField, LenField;
    var inner := if data == [] then [] else LenField(CHUNK_DATA_TAG, data);
    LenFieldReadsBack(tag, inner);
    if data != [] {
      LenFieldReadsBack(CHUNK_DATA_TAG, data);
      LenFieldIsNotEmpty(CHUNK_DATA_TAG, data);
    }
  }

  lemma LenFieldIsNotEmpty(tag: Byte, body: seq<Byte>)
    ensures LenField(tag, body) != []
  {
  }

  /** Every chunk a writer makes fits a frame with room to spare. */
  lemma ChunkMessageFits(tag: Byte, data: seq<Byte>)
    requires GoodChunk(data)
    ensures Writable(ChunkMessage(tag, data))
  {
    VarintLength(|data|);
    var inner := LenField(CHUNK_DATA_TAG, data);
    VarintLength(|inner|);
  }

  function Messages(tag: Byte, cs: seq<seq<Byte>>): (r: seq<seq<Byte>>)
    ensures |r| == |cs|
  {
    seq(|cs|, i requires 0 <= i < |cs| => ChunkMessage(tag, cs[i]))
  }

  lemma MessagesFit(tag: Byte, cs: seq<seq<Byte>>)
    requires GoodChunks(cs)
    ensures AllWritable(Messages(tag, cs))
  {
    hide ChunkMessage, Writable;
    forall i | 0 <= i < |cs|
      ensures Writable(Messages(tag, cs)[i])
    {
      ChunkMessageFits(tag, cs[i]);
    }
  }

  /** A download arrives as the chunks that were sent. */
  lemma DownloadReadsBack(cs: seq<seq<Byte>>)
    requires GoodChunks(cs)
    ensures AllWritable(Messages(EVENT_CHUNK_TAG, cs))
    ensures var (payloads, end) := ReadAll(Wire(Messages(EVENT_CHUNK_TAG, cs)));
            && end == End && |payloads| == |cs|
            && forall i :: 0 <= i < |cs| ==> ReadChunkMessage(EVENT_CHUNK_TAG, payloads[i]) == Some(cs[i])
  {
    hide ReadAll, Wire, ReadChunkMessage, ChunkMessage;
    MessagesFit(EVENT_CHUNK_TAG, cs);
    FramesReadBack(Messages(EVENT_CHUNK_TAG, cs));
    forall i | 0 <= i < |cs|
      ensures ReadChunkMessage(EVENT_CHUNK_TAG, Messages(EVENT_CHUNK_TAG, cs)[i]) == Some(cs[i])
    {
      ChunkMessageReadsBack(EVENT_CHUNK_TAG, cs[i]);
    }
  }

  // ---- the upload ----------------------------------------------------------

  function EndMessage(): seq<Byte> {
    LenField(REQUEST_END_TAG, [])
  }

  datatype FeedResult = Success | Incomplete | UnexpectedFrame

  /**
   `feed`: chunks are passed on until the end frame. The unpacker takes `accepts`
   more chunks before it is gone; a chunk it no longer takes ends the loop as a
   success. A stream that ends first is an error.
   */
  function Feed(payloads: seq<seq<Byte>>, accepts: nat): (seq<seq<Byte>>, FeedResult) {
    if payloads == [] then ([], Incomplete)
    else if ReadChunkMessage(REQUEST_CHUNK_TAG, payloads[0]).Some? then
      if accepts == 0 then ([], Success)
      else
        var (more, result) := Feed(payloads[1..], accepts - 1);
        ([ReadChunkMessage(REQUEST_CHUNK_TAG, payloads[0]).value] + more, result)
    else if ReadLenField(REQUEST_END_TAG, payloads[0]).Some? then ([], Success)
    else ([], UnexpectedFrame)
  }

  /** An upload as the daemon writes it. */
  function Upload(cs: seq<seq<Byte>>): seq<seq<Byte>> {
    Messages(REQUEST_CHUNK_TAG, cs) + [EndMessage()]
  }

  lemma EndMessageIsTheEnd()
    ensures ReadChunkMessage(REQUEST_CHUNK_TAG, EndMessage()) == None
    ensures ReadLenField(REQUEST_END_TAG, EndMessage()) == Some([])
    ensures Writable(EndMessage())
  {
    LenFieldReadsBack(REQUEST_END_TAG, []);
  }

  /**
   The first `n` messages of an upload: the chunks among them that the unpacker
   takes, and a success exactly with the end message or a chunk it does not take.
   */
  lemma {:induction false} FeedOfUpload(cs: seq<seq<Byte>>, n: nat, accepts: nat)
    requires n <= |cs| + 1
    ensures Feed(Upload(cs)[..n], accepts).0 == cs[..Min(Min(n, |cs|), accepts)]
    ensures Feed(Upload(cs)[..n], accepts).1 ==
            if n == |cs| + 1 || accepts < n then Success else Incomplete
    decreases |cs|
  {
    hide ChunkMessage, ReadChunkMessage, ReadLenField, EndMessage;
    var all := Upload(cs);
    if n > 0 {
      if cs == [] {
        EndMessageIsTheEnd();
        assert all[..n] == [EndMessage()];
      } else {
        ChunkMessageReadsBack(REQUEST_CHUNK_TAG, cs[0]);
        assert all[..n][0] == ChunkMessage(REQUEST_CHUNK_TAG, cs[0]);
        UploadTail(cs, n);
        if accepts > 0 {
          FeedOfUpload(cs[1..], n - 1, accepts - 1);
          ConsTake(cs, Min(Min(n, |cs|), accepts));
        }
      }
    }
  }

  lemma UploadTail(cs: seq<seq<Byte>>, n: nat)
    requires cs != [] && 0 < n <= |cs| + 1
    ensures Upload(cs)[..n][1..] == Upload(cs[1..])[..n - 1]
  {
    hide ChunkMessage, EndMessage;
    assert Messages(REQUEST_CHUNK_TAG, cs)[1..] == Messages(REQUEST_CHUNK_TAG, cs[1..]);
  }

  lemma ConsTake<T>(cs: seq<T>, m: nat)
    requires 0 < m <= |cs|
    ensures [cs[0]] + cs[1..][..m - 1] == cs[..m]
  {
  }

  lemma UploadFits(cs: seq<seq<Byte>>)
    requires AllWritable(Messages(REQUEST_CHUNK_TAG, cs))
    ensures AllWritable(Upload(cs))
  {
    hide ChunkMessage, EndMessage, Writable, Messages;
    EndMessageIsTheEnd();
  }

  /** How many chunks of an upload lie whole in the first `k` bytes of its wire. */
  function WholeChunks(cs: seq<seq<Byte>>, k: nat): nat
    requires AllWritable(Upload(cs))
  {
    Min(WholeFrames(Upload(cs), k), |cs|)
  }

  /**
   An upload cut at any byte: what was passed on is a prefix of its chunks, and
   it is taken for a success exactly if nothing was cut, or if more chunks lie
   whole before the cut than the unpacker takes.
   */
  lemma CutUpload(cs: seq<seq<Byte>>, accepts: nat, k: nat)
    requires AllWritable(Messages(REQUEST_CHUNK_TAG, cs))
    ensures AllWritable(Upload(cs))
    ensures k <= |Wire(Upload(cs))| ==>
              var (chunks, result) := Feed(ReadAll(Wire(Upload(cs))[..k]).0, accepts);
              && chunks == cs[..Min(WholeChunks(cs, k), accepts)]
              && (result == Success <==> k == |Wire(Upload(cs))| || accepts < WholeChunks(cs, k))
              && result != UnexpectedFrame
  {
    hide ReadAll, Feed, Wire, Upload, Messages;
    UploadFits(cs);
    var ps := Upload(cs);
    if k <= |Wire(ps)| {
      TruncationYieldsPrefix(ps, k);
      var n := WholeFrames(ps, k);
      UploadLength(cs);
      FeedOfUpload(cs, n, accepts);
      WholeStream(ps);
      if k < |Wire(ps)| {
        CutLosesAFrame(ps, k);
      }
    }
  }

  lemma {:induction false} WireAppend(ps: seq<seq<Byte>>, qs: seq<seq<Byte>>)
    requires AllWritable(ps) && AllWritable(qs)
    ensures AllWritable(ps + qs) && Wire(ps + qs) == Wire(ps) + Wire(qs)
    ensures WholeFrames(ps + qs, |Wire(ps)|) == |ps|
    decreases |ps|
  {
    hide Encode, Writable;
    assert AllWritable(ps + qs);
    if ps == [] {
      assert ps + qs == qs;
      NoFrameInNothing(qs);
    } else {
      assert (ps + qs)[1..] == ps[1..] + qs;
      WireAppend(ps[1..], qs);
    }
  }

  lemma NoFrameInNothing(qs: seq<seq<Byte>>)
    requires AllWritable(qs)
    ensures WholeFrames(qs, 0) == 0
  {
  }

  /**
   An upload without its end frame passes for a success whenever the unpacker was
   done before the last chunk: the bytes before the end frame are such a cut.
   */
  lemma MissingEndCanPass(cs: seq<seq<Byte>>, accepts: nat)
    requires AllWritable(Messages(REQUEST_CHUNK_TAG, cs)) && accepts < |cs|
    ensures AllWritable(Upload(cs))
    ensures var k := |Wire(Messages(REQUEST_CHUNK_TAG, cs))|;
            && k < |Wire(Upload(cs))|
            && Feed(ReadAll(Wire(Upload(cs))[..k]).0, accepts) == (cs[..accepts], Success)
  {
    hide ReadAll, Feed, Wire, WholeFrames, EndMessage, ChunkMessage, Writable;
    var ps := Messages(REQUEST_CHUNK_TAG, cs);
    EndMessageIsTheEnd();
    WireAppend(ps, [EndMessage()]);
    EndFrameHasBytes();
    CutUpload(cs, accepts, |Wire(ps)|);
  }

  lemma EndFrameHasBytes()
    ensures AllWritable([EndMessage()]) && |Wire([EndMessage()])| > 0
  {
    EndMessageIsTheEnd();
  }

  lemma UploadLength(cs: seq<seq<Byte>>)
    ensures |Upload(cs)| == |cs| + 1
  {
  }

  lemma {:induction false} CutLosesAFrame(ps: seq<seq<Byte>>, k: nat)
    requires AllWritable(ps) && k < |Wire(ps)|
    ensures WholeFrames(ps, k) < |ps|
  {
    hide Encode;
    if ps != [] && k >= |Encode(ps[0])| {
      CutLosesAFrame(ps[1..], k - |Encode(ps[0])|);
    }
  }

  // ---- end to end ----------------------------------------------------------

  /** The chunks in `payloads`, up to the first that holds none. */
  function Chunks(tag: Byte, payloads: seq<seq<Byte>>): seq<seq<Byte>> {
    if payloads == [] || ReadChunkMessage(tag, payloads[0]).None? then []
    else [ReadChunkMessage(tag, payloads[0]).value] + Chunks(tag, payloads[1..])
  }

  lemma {:induction false} ChunksOfMessages(tag: Byte, cs: seq<seq<Byte>>)
    ensures Chunks(tag, Messages(tag, cs)) == cs
  {
    hide ChunkMessage, ReadChunkMessage;
    if cs != [] {
      ChunkMessageReadsBack(tag, cs[0]);
      assert Messages(tag, cs)[1..] == Messages(tag, cs[1..]);
      ChunksOfMessages(tag, cs[1..]);
    }
  }

  /** A download cut at any byte arrives as the chunks that lie whole before the cut. */
  lemma CutDownload(cs: seq<seq<Byte>>, k: nat)
    requires GoodChunks(cs)
    ensures AllWritable(Messages(EVENT_CHUNK_TAG, cs))
    ensures var ps := Messages(EVENT_CHUNK_TAG, cs);
            k <= |Wire(ps)| ==>
              && Chunks(EVENT_CHUNK_TAG, ReadAll(Wire(ps)[..k]).0) == cs[..WholeFrames(ps, k)]
              && (k == |Wire(ps)| ==> WholeFrames(ps, k) == |cs|)
  {
    hide ReadAll, Wire, GoodChunks, Chunks, ChunkMessage, WholeFrames;
    MessagesFit(EVENT_CHUNK_TAG, cs);
    var ps := Messages(EVENT_CHUNK_TAG, cs);
    if k <= |Wire(ps)| {
      TruncationYieldsPrefix(ps, k);
      var n := WholeFrames(ps, k);
      assert ps[..n] == Messages(EVENT_CHUNK_TAG, cs[..n]);
      ChunksOfMessages(EVENT_CHUNK_TAG, cs[..n]);
      WholeStream(ps);
    }
  }

  lemma ConcatPrefix<T>(xs: seq<seq<T>>, n: nat)
    requires n <= |xs|
    ensures Concat(xs[..n]) <= Concat(xs)
  {
    hide Concat;
    ConcatAppend(xs[..n], xs[n..]);
    assert xs[..n] + xs[n..] == xs;
  }

  /** The agent's side of a download: every write, then the flush; false once the receiver is gone. */
  method WriteAndFlush(writer: ChunkWriter, writes: seq<seq<Byte>>) returns (ok: bool)
    requires writer.Valid() && writer.Contents() == []
    modifies writer
    ensures writer.Valid()
    ensures Concat(writer.sent) <= Concat(writes)
    ensures ok ==> Concat(writer.sent) == Concat(writes)
    ensures !ok ==> writer.accepts == 0
    ensures |writer.sent| + writer.accepts == |old(writer.sent)| + old(writer.accepts)
  {
    hide Concat, GoodChunks;
    NothingConcat(writes);
    for i := 0 to |writes|
      invariant writer.Valid() && writer.Contents() == Concat(writes[..i])
      invariant |writer.sent| + writer.accepts == |old(writer.sent)| + old(writer.accepts)
    {
      ConcatSnoc(writes[..i], writes[i]);
      assert writes[..i] + [writes[i]] == writes[..i + 1];
      ConcatPrefix(writes, i + 1);
      var written := writer.Write(writes[i]);
      if written.None? {
        return false;
      }
    }
    assert writes[..|writes|] == writes;
    ok := writer.Flush();
  }

  lemma NothingConcat<T>(xs: seq<seq<T>>)
    ensures Concat(xs[..0]) == []
  {
  }

  /**
   A whole download: any writes and a flush, framed, cut at any byte, and read
   with any buffer sizes by a client that takes `takes` chunks, give a prefix of
   the bytes written, and all of them if nothing was lost and enough was read.
   */
  method Download(writes: seq<seq<Byte>>, accepts: nat, cut: nat, takes: nat, rooms: seq<nat>)
      returns (out: seq<Byte>, whole: bool)
    ensures out <= Concat(writes)
    ensures whole && |rooms| >= |Concat(writes)| && AllPositive(rooms) ==> out == Concat(writes)
    ensures cut == 0 && accepts > |Concat(writes)| && takes >= |Concat(writes)| ==> whole
  {
    hide HeadChunks, Concat, GoodChunks, ReadAll, Wire, WholeFrames, Messages, Chunks, AllPositive, AllWritable;
    var writer := new ChunkWriter(accepts);
    NothingWritten();
    var ok := WriteAndFlush(writer, writes);
    var cs := writer.sent;
    GoodChunksAreFull(cs);
    PiecesAreFew(cs);
    MessagesFit(EVENT_CHUNK_TAG, cs);
    var wire := Wire(Messages(EVENT_CHUNK_TAG, cs));
    var k := if cut <= |wire| then |wire| - cut else 0;
    CutDownload(cs, k);
    var chunks := Chunks(EVENT_CHUNK_TAG, ReadAll(wire[..k]).0);
    var n := WholeFrames(Messages(EVENT_CHUNK_TAG, cs), k);
    ConcatPrefix(cs, n);
    assert n == |cs| ==> cs[..n] == cs;
    var read, fine := ReadDownload(chunks, false, takes, rooms);
    out, whole := read, fine && ok && cut == 0 && |Relayed(chunks)| <= takes;
  }

  lemma NothingWritten()
    ensures Concat<Byte>([]) == [] && GoodChunks([])
  {
  }

  lemma GoodChunksAreFull(cs: seq<seq<Byte>>)
    requires GoodChunks(cs)
    ensures forall i :: 0 <= i < |cs| ==> cs[i] != []
  {
    forall i | 0 <= i < |cs|
      ensures cs[i] != []
    {
      assert GoodChunk(cs[i]);
    }
  }

  /** The daemon's uploads hold at most this many bytes a frame. */
  const ARCHIVE_CHUNK_BYTES: nat := 1024 * 1024

  predicate UploadPieces(cs: seq<seq<Byte>>) {
    forall i :: 0 <= i < |cs| ==> |cs[i]| <= ARCHIVE_CHUNK_BYTES
  }

  lemma PieceFits(data: seq<Byte>)
    requires |data| <= ARCHIVE_CHUNK_BYTES
    ensures Writable(ChunkMessage(REQUEST_CHUNK_TAG, data))
  {
    hide Varint;
    VarintLength(|data|);
    var inner := if data == [] then [] else LenField(CHUNK_DATA_TAG, data);
    VarintLength(|inner|);
  }

  /** Every frame of such pieces is accepted by both ends. */
  lemma PiecesFit(cs: seq<seq<Byte>>)
    requires UploadPieces(cs)
    ensures AllWritable(Messages(REQUEST_CHUNK_TAG, cs))
  {
    hide ChunkMessage, Writable;
    forall i | 0 <= i < |cs|
      ensures Writable(Messages(REQUEST_CHUNK_TAG, cs)[i])
    {
      PieceFits(cs[i]);
    }
  }

  /** The loops of `put_archive`: every chunk is sent in pieces of at most the frame size. */
  method PutArchive(chunks: seq<seq<Byte>>) returns (sent: seq<seq<Byte>>)
    ensures UploadPieces(sent) && Concat(sent) == Concat(chunks)
    ensures forall i :: 0 <= i < |sent| ==> sent[i] != []
  {
    hide Concat;
    sent := [];
    NothingConcat(chunks);
    ConcatNothing<Byte>();
    for i := 0 to |chunks|
      invariant UploadPieces(sent) && Concat(sent) == Concat(chunks[..i])
      invariant forall j :: 0 <= j < |sent| ==> sent[j] != []
    {
      var chunk, done := chunks[i], 0;
      assert chunk[..0] == [] && Concat(chunks[..i]) + [] == Concat(chunks[..i]);
      while done < |chunk|
        invariant done <= |chunk| && UploadPieces(sent)
        invariant Concat(sent) == Concat(chunks[..i]) + chunk[..done]
        invariant forall j :: 0 <= j < |sent| ==> sent[j] != []
      {
        var piece := chunk[done..][..Min(ARCHIVE_CHUNK_BYTES, |chunk| - done)];
        ConcatSnoc(sent, piece);
        ExtendPrefix(Concat(chunks[..i]), chunk, done, |piece|);
        sent, done := sent + [piece], done + |piece|;
      }
      assert chunk[..done] == chunk && chunks[..i + 1] == chunks[..i] + [chunk];
      ConcatSnoc(chunks[..i], chunk);
    }
    assert chunks[..|chunks|] == chunks;
  }

  /**
   A whole upload: any chunks, cut into pieces and framed, cut off at any byte,
   fed to an unpacker that may leave early and reads with any buffer sizes, give
   a prefix of the chunks' bytes, and all of them if nothing is lost.
   */
  method UploadThrough(chunks: seq<seq<Byte>>, accepts: nat, cut: nat, rooms: seq<nat>)
      returns (out: seq<Byte>, result: FeedResult)
    ensures out <= Concat(chunks)
    ensures cut == 0 ==> result == Success
    ensures cut == 0 && |Concat(chunks)| <= accepts && |rooms| >= |Concat(chunks)| && AllPositive(rooms) ==>
              out == Concat(chunks)
  {
    hide Concat, AllWritable, Messages, UploadPieces, AllPositive;
    var sent := PutArchive(chunks);
    PiecesFit(sent);
    PiecesAreFew(sent);
    out, result := ReceiveUpload(sent, accepts, cut, rooms);
  }

  lemma {:induction false} PiecesAreFew(cs: seq<seq<Byte>>)
    requires forall i :: 0 <= i < |cs| ==> cs[i] != []
    ensures |cs| <= |Concat(cs)|
  {
    if cs != [] {
      PiecesAreFew(cs[1..]);
    }
  }

  /**
   A whole upload: its frames, cut at any byte, fed to an unpacker that may leave
   early and reads with any buffer sizes, give a prefix of the chunks' bytes.
   */
  method ReceiveUpload(cs: seq<seq<Byte>>, accepts: nat, cut: nat, rooms: seq<nat>)
      returns (out: seq<Byte>, result: FeedResult)
    requires AllWritable(Messages(REQUEST_CHUNK_TAG, cs))
    ensures out <= Concat(cs)
    ensures cut == 0 ==> result == Success
    ensures cut == 0 && |cs| <= accepts && |rooms| >= |Concat(cs)| && AllPositive(rooms) ==> out == Concat(cs)
  {
    hide Concat, Messages, ReadAll, Wire, WholeFrames, Upload, Feed, AllPositive, AllWritable;
    UploadFits(cs);
    var wire := Wire(Upload(cs));
    var k := if cut <= |wire| then |wire| - cut else 0;
    CutUpload(cs, accepts, k);
    var (chunks, outcome) := Feed(ReadAll(wire[..k]).0, accepts);
    var n := Min(WholeChunks(cs, k), accepts);
    ConcatPrefix(cs, n);
    WholeStream(Upload(cs));
    UploadLength(cs);
    assert n == |cs| ==> cs[..n] == cs;
    var reader := new ChunkReader(chunks);
    out := reader.ReadRun(rooms);
    result := outcome;
  }

  /** How many payloads from the first on are chunks. */
  function LeadingChunks(payloads: seq<seq<Byte>>): (n: nat)
    ensures n <= |payloads|
    ensures forall i :: 0 <= i < n ==> ReadChunkMessage(REQUEST_CHUNK_TAG, payloads[i]).Some?
    ensures n < |payloads| ==> ReadChunkMessage(REQUEST_CHUNK_TAG, payloads[n]).None?
  {
    if payloads == [] || ReadChunkMessage(REQUEST_CHUNK_TAG, payloads[0]).None? then 0
    else 1 + LeadingChunks(payloads[1..])
  }

  /**
   What the receiving loop makes of any frames at all: it passes on the chunks up to
   the first other frame that the unpacker takes, and if all of them are taken, what
   follows decides between success, an unexpected frame and an incomplete upload.
   */
  lemma {:induction false} FeedExactly(payloads: seq<seq<Byte>>, accepts: nat)
    ensures var n := LeadingChunks(payloads);
            && |Feed(payloads, accepts).0| == Min(n, accepts)
            && (forall i :: 0 <= i < Min(n, accepts) ==>
                  Some(Feed(payloads, accepts).0[i]) == ReadChunkMessage(REQUEST_CHUNK_TAG, payloads[i]))
            && Feed(payloads, accepts).1 ==
               (if n > accepts then Success
                else if n == |payloads| then Incomplete
                else if ReadLenField(REQUEST_END_TAG, payloads[n]).Some? then Success
                else UnexpectedFrame)
    decreases |payloads|
  {
    hide ReadChunkMessage, ReadLenField;
    if payloads != [] && ReadChunkMessage(REQUEST_CHUNK_TAG, payloads[0]).Some? && accepts > 0 {
      FeedExactly(payloads[1..], accepts - 1);
    }
  }
}
