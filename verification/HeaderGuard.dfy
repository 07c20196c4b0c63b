/**
 The streaming header guard of ward-archive. `Feed` gives its meaning one byte
 at a time; the class works on whole slices, as the source does, and is proved
 to refine it.
 */
module HeaderGuard {
  import opened Machine
  import opened TarFormat

  datatype GuardState =
    | Header
    | SparseExtension(body: U64)
    | Body(left: nat, dataLeft: nat, pax: bool)

  datatype Refusal =
    | InvalidChecksum | UnreadableSize | ExtendedHeaderTooLarge
    | SparseFile | MalformedPaxRecord | PaxSizeOverride

  /** `block` holds the bytes of the block being filled. */
  datatype Guard = Guard(state: GuardState, block: seq<Byte>, pax: seq<Byte>)

  datatype StepResult = Ok(guard: Guard) | Refuse(reason: Refusal)

  /** `at` is the index of the byte whose arrival made the guard refuse. */
  datatype Outcome = Accepted(guard: Guard) | Refused(reason: Refusal, at: nat)

  const FRESH: Guard := Guard(Header, [], [])

  /** Body length including padding, as the guard's 64-bit arithmetic has it. */
  function PaddedU64(size: U64): U64 {
    Saturate((size + BLOCK_SIZE - 1) / BLOCK_SIZE * BLOCK_SIZE)
  }

  function StartBody(size: U64, pax: bool): Guard {
    if PaddedU64(size) == 0 then FRESH
    else Guard(Body(PaddedU64(size), size, pax), [], [])
  }

  /** The guard after a whole block that was expected to be a header. */
  function FinishHeader(tar: TarCrate, rejectSparse: bool, block: seq<Byte>): StepResult {
    if IsZero(block) then Ok(FRESH)
    else if !ChecksumMatches(tar, block) then Refuse(InvalidChecksum)
    else if tar.entrySize(block).None? then Refuse(UnreadableSize)
    else
      var size := tar.entrySize(block).value;
      var kind := tar.kind(block);
      if IsExtension(kind) then
        if size > MAX_EXTENDED_HEADER_BYTES then Refuse(ExtendedHeaderTooLarge)
        else Ok(StartBody(size, IsPax(kind)))
      else if kind.GnuSparse? then
        if rejectSparse then Refuse(SparseFile)
        else if tar.gnuExtended(block) then Ok(Guard(SparseExtension(size), [], []))
        else Ok(StartBody(size, false))
      else Ok(StartBody(size, false))
  }

  function FinishSparse(body: U64, block: seq<Byte>): Guard
    requires |block| == BLOCK_SIZE
  {
    if block[EXT_SPARSE_IS_EXTENDED_OFFSET] != 1 then StartBody(body, false)
    else Guard(SparseExtension(body), [], [])
  }

  /** The first record that is malformed or overrides the size decides. */
  function JudgePax(records: seq<PaxRecord>): StepResult {
    if records == [] then Ok(FRESH)
    else if records[0].Malformed? then Refuse(MalformedPaxRecord)
    else if records[0].key == PAX_SIZE_KEY then Refuse(PaxSizeOverride)
    else JudgePax(records[1..])
  }

  function FinishBlock(tar: TarCrate, rejectSparse: bool, state: GuardState, block: seq<Byte>): StepResult
    requires |block| == BLOCK_SIZE
    requires !state.Body?
  {
    match state
    case Header => FinishHeader(tar, rejectSparse, block)
    case SparseExtension(body) => Ok(FinishSparse(body, block))
  }

  /** What every reachable guard satisfies. */
  ghost predicate WellFormed(g: Guard) {
    && |g.block| < BLOCK_SIZE
    && (g.state.Body? ==>
          && g.block == []
          && 0 < g.state.left
          && (g.state.pax ==> |g.pax| + g.state.dataLeft <= MAX_EXTENDED_HEADER_BYTES)
          && (!g.state.pax ==> g.pax == []))
    && (!g.state.Body? ==> g.pax == [])
  }

  /** The PAX buffer once `b` has arrived: data bytes of a PAX body are kept, padding is not. */
  function Buffered(g: Guard, b: Byte): seq<Byte> {
    if g.state.Body? && g.state.pax && 0 < g.state.dataLeft then g.pax + [b] else g.pax
  }

  /** One more byte of the stream. */
  function Step(tar: TarCrate, rejectSparse: bool, g: Guard, b: Byte): StepResult
    requires |g.block| < BLOCK_SIZE
    requires g.state.Body? ==> 0 < g.state.left
  {
    match g.state
    case Body(left, dataLeft, pax) =>
      var keep := pax && 0 < dataLeft;
      var buffer := Buffered(g, b);
      if left == 1 then
        if pax then JudgePax(tar.paxRecords(buffer)) else Ok(FRESH)
      else Ok(Guard(Body(left - 1, if keep then dataLeft - 1 else dataLeft, pax), g.block, buffer))
    case _ =>
      var block := g.block + [b];
      if |block| == BLOCK_SIZE then FinishBlock(tar, rejectSparse, g.state, block)
      else Ok(g.(block := block))
  }

  /** The first record that decides: `i` is malformed or has the key `size`, and none before it is or has. */
  predicate FirstBadRecord(records: seq<PaxRecord>, i: nat, reason: Refusal) {
    && i < |records|
    && (forall j :: 0 <= j < i ==> records[j].Record? && records[j].key != [115, 105, 122, 101])
    && (reason == MalformedPaxRecord ==> records[i].Malformed?)
    && (reason == PaxSizeOverride ==> records[i].Record? && records[i].key == [115, 105, 122, 101])
    && (reason == MalformedPaxRecord || reason == PaxSizeOverride)
  }

  /** A PAX body passes exactly if all its records are well formed and none is called `size`. */
  lemma {:induction false} JudgePaxExactly(records: seq<PaxRecord>)
    ensures JudgePax(records).Ok? <==>
            forall i :: 0 <= i < |records| ==> records[i].Record? && records[i].key != [115, 105, 122, 101]
    ensures JudgePax(records).Refuse? ==> exists i :: FirstBadRecord(records, i, JudgePax(records).reason)
  {
    if records != [] {
      if records[0].Malformed? || records[0].key == PAX_SIZE_KEY {
        assert FirstBadRecord(records, 0, JudgePax(records).reason);
      } else {
        var rest := records[1..];
        JudgePaxExactly(rest);
        if JudgePax(rest).Refuse? {
          var i :| FirstBadRecord(rest, i, JudgePax(rest).reason);
          BadInRest(records, i, JudgePax(rest).reason);
        }
      }
    }
  }

  lemma BadInRest(records: seq<PaxRecord>, i: nat, reason: Refusal)
    requires records != [] && FirstBadRecord(records[1..], i, reason)
    requires records[0].Record? && records[0].key != [115, 105, 122, 101]
    ensures FirstBadRecord(records, i + 1, reason)
  {
    forall j | 0 <= j < i + 1
      ensures records[j].Record? && records[j].key != [115, 105, 122, 101]
    {
      assert j > 0 ==> records[j] == records[1..][j - 1];
    }
  }

  lemma {:induction false} JudgePaxFresh(records: seq<PaxRecord>)
    ensures JudgePax(records).Ok? ==> JudgePax(records) == Ok(FRESH)
  {
    if records != [] && !records[0].Malformed? && records[0].key != PAX_SIZE_KEY {
      JudgePaxFresh(records[1..]);
    }
  }

  lemma StepKeepsWellFormed(tar: TarCrate, rejectSparse: bool, g: Guard, b: Byte)
    requires WellFormed(g)
    ensures Step(tar, rejectSparse, g, b).Ok? ==> WellFormed(Step(tar, rejectSparse, g, b).guard)
  {
    if g.state.Body? {
      JudgePaxFresh(tar.paxRecords(Buffered(g, b)));
    }
  }

  function Delay(o: Outcome, n: nat): Outcome {
    match o
    case Accepted(_) => o
    case Refused(reason, at) => Refused(reason, n + at)
  }

  /** The guard's meaning: every byte in turn, stopping at a refusal. */
  function Feed(tar: TarCrate, rejectSparse: bool, g: Guard, bytes: seq<Byte>): (o: Outcome)
    requires WellFormed(g)
    ensures o.Accepted? ==> WellFormed(o.guard)
    ensures o.Refused? ==> o.at < |bytes|
    decreases |bytes|
  {
    if bytes == [] then Accepted(g)
    else
      StepKeepsWellFormed(tar, rejectSparse, g, bytes[0]);
      match Step(tar, rejectSparse, g, bytes[0])
      case Refuse(reason) => Refused(reason, 0)
      case Ok(next) => Delay(Feed(tar, rejectSparse, next, bytes[1..]), 1)
  }

  /** Goes on with `y` after an observation of `n` bytes ended as `o`. */
  function Then(tar: TarCrate, rejectSparse: bool, o: Outcome, n: nat, y: seq<Byte>): Outcome
    requires o.Accepted? ==> WellFormed(o.guard)
  {
    match o
    case Accepted(g) => Delay(Feed(tar, rejectSparse, g, y), n)
    case Refused(_, _) => o
  }

  /** Observing `x + y` is observing `x` and then, if accepted, `y`. */
  lemma {:induction false} FeedSplit(tar: TarCrate, rejectSparse: bool, g: Guard, x: seq<Byte>, y: seq<Byte>)
    requires WellFormed(g)
    ensures Feed(tar, rejectSparse, g, x + y) ==
            Then(tar, rejectSparse, Feed(tar, rejectSparse, g, x), |x|, y)
    decreases |x|
  {
    if x == [] {
      assert x + y == y;
    } else {
      StepKeepsWellFormed(tar, rejectSparse, g, x[0]);
      assert (x + y)[1..] == x[1..] + y;
      if Step(tar, rejectSparse, g, x[0]).Ok? {
        FeedSplit(tar, rejectSparse, Step(tar, rejectSparse, g, x[0]).guard, x[1..], y);
      }
    }
  }

  /** The same law for a cut of one string. */
  lemma FeedCut(tar: TarCrate, rejectSparse: bool, g: Guard, s: seq<Byte>, n: nat)
    requires WellFormed(g) && n <= |s|
    ensures Feed(tar, rejectSparse, g, s) ==
            Then(tar, rejectSparse, Feed(tar, rejectSparse, g, s[..n]), n, s[n..])
  {
    assert s[..n] + s[n..] == s;
    FeedSplit(tar, rejectSparse, g, s[..n], s[n..]);
  }

  /** Bytes that stay inside the block being filled only fill it. */
  lemma {:induction false} FeedFillsBlock(tar: TarCrate, rejectSparse: bool, g: Guard, x: seq<Byte>)
    requires WellFormed(g) && !g.state.Body?
    requires |g.block| + |x| < BLOCK_SIZE
    ensures Feed(tar, rejectSparse, g, x) == Accepted(g.(block := g.block + x))
    decreases |x|
  {
    if x == [] {
      assert g.block + x == g.block;
    } else {
      FeedFillsBlock(tar, rejectSparse, g.(block := g.block + [x[0]]), x[1..]);
      assert g.block + [x[0]] + x[1..] == g.block + x;
    }
  }

  function ToOutcome(r: StepResult, at: nat): Outcome {
    match r
    case Ok(guard) => Accepted(guard)
    case Refuse(reason) => Refused(reason, at)
  }

  /** Bytes that complete the block have the effect of `FinishBlock`. */
  lemma FeedFinishesBlock(tar: TarCrate, rejectSparse: bool, g: Guard, x: seq<Byte>)
    requires WellFormed(g) && !g.state.Body?
    requires x != [] && |g.block| + |x| == BLOCK_SIZE
    ensures Feed(tar, rejectSparse, g, x) ==
            ToOutcome(FinishBlock(tar, rejectSparse, g.state, g.block + x), |x| - 1)
  {
    hide Feed;
    var n := |x| - 1;
    FeedCut(tar, rejectSparse, g, x, n);
    FeedFillsBlock(tar, rejectSparse, g, x[..n]);
    var filled := g.(block := g.block + x[..n]);
    assert x[n..] == [x[n]];
    assert filled.block + [x[n]] == g.block + x;
    FeedOne(tar, rejectSparse, filled, x[n]);
  }

  lemma FeedOne(tar: TarCrate, rejectSparse: bool, g: Guard, b: Byte)
    requires WellFormed(g)
    ensures Feed(tar, rejectSparse, g, [b]) == ToOutcome(Step(tar, rejectSparse, g, b), 0)
  {
    StepKeepsWellFormed(tar, rejectSparse, g, b);
    assert [b][1..] == [];
  }

  /** The PAX bytes among the next `n` bytes of a body. */
  function KeptPax(state: GuardState, n: nat): nat
    requires state.Body?
  {
    if state.pax then Min(n, state.dataLeft) else 0
  }

  /** The guard after a slice shorter than what is left of the body. */
  function InsideBody(g: Guard, x: seq<Byte>): Guard
    requires g.state.Body? && |x| < g.state.left
  {
    var kept := KeptPax(g.state, |x|);
    Guard(Body(g.state.left - |x|, g.state.dataLeft - kept, g.state.pax), [], g.pax + x[..kept])
  }

  lemma InsideBodyStep(tar: TarCrate, rejectSparse: bool, g: Guard, x: seq<Byte>)
    requires WellFormed(g) && g.state.Body? && 0 < |x| < g.state.left
    ensures var r := Step(tar, rejectSparse, g, x[0]);
            && r.Ok? && WellFormed(r.guard) && r.guard.state.Body?
            && r.guard.state.left == g.state.left - 1
            && InsideBody(r.guard, x[1..]) == InsideBody(g, x)
  {
    var next := Step(tar, rejectSparse, g, x[0]).guard;
    var kept := KeptPax(g.state, |x|);
    if kept > 0 {
      assert [x[0]] + x[1..][..kept - 1] == x[..kept];
      assert g.pax + [x[0]] + x[1..][..kept - 1] == g.pax + ([x[0]] + x[1..][..kept - 1]);
    } else {
      assert x[1..][..KeptPax(next.state, |x| - 1)] == x[..0];
    }
  }

  lemma {:induction false} FeedInsideBody(tar: TarCrate, rejectSparse: bool, g: Guard, x: seq<Byte>)
    requires WellFormed(g) && g.state.Body? && |x| < g.state.left
    ensures Feed(tar, rejectSparse, g, x) == Accepted(InsideBody(g, x))
    decreases |x|
  {
    if x == [] {
      assert g.pax + x[..0] == g.pax;
    } else {
      hide Step, InsideBody;
      InsideBodyStep(tar, rejectSparse, g, x);
      FeedInsideBody(tar, rejectSparse, Step(tar, rejectSparse, g, x[0]).guard, x[1..]);
    }
  }

  /** The slice that ends the body: a PAX body is judged, any other is passed. */
  lemma FeedFinishesBody(tar: TarCrate, rejectSparse: bool, g: Guard, x: seq<Byte>)
    requires WellFormed(g) && g.state.Body? && |x| == g.state.left
    ensures var kept := KeptPax(g.state, |x|);
            Feed(tar, rejectSparse, g, x) ==
            if g.state.pax then ToOutcome(JudgePax(tar.paxRecords(g.pax + x[..kept])), |x| - 1)
            else Accepted(FRESH)
  {
    hide Feed;
    var n := |x| - 1;
    FeedCut(tar, rejectSparse, g, x, n);
    FeedInsideBody(tar, rejectSparse, g, x[..n]);
    assert x[n..] == [x[n]];
    var last := Feed(tar, rejectSparse, g, x[..n]).guard;
    FeedOne(tar, rejectSparse, last, x[n]);
    var kept := KeptPax(g.state, |x|);
    var before := KeptPax(g.state, n);
    if before < kept {
      assert g.pax + x[..n][..before] + [x[n]] == g.pax + x[..kept];
    } else {
      assert x[..n][..before] == x[..kept];
    }
  }

  /** One slice of a longer observation: it extends the accepted part or decides the whole. */
  lemma FeedAdvances(tar: TarCrate, rejectSparse: bool, start: Guard, bytes: seq<Byte>, done: nat, take: nat, g: Guard)
    requires WellFormed(start) && WellFormed(g) && done + take <= |bytes|
    requires Feed(tar, rejectSparse, start, bytes[..done]) == Accepted(g)
    ensures match Feed(tar, rejectSparse, g, bytes[done..][..take]) {
              case Accepted(g') => Feed(tar, rejectSparse, start, bytes[..done + take]) == Accepted(g')
              case Refused(reason, at) => Feed(tar, rejectSparse, start, bytes) == Refused(reason, done + at)
            }
  {
    hide Feed, WellFormed;
    Slices(bytes, done, take);
    FeedAfter(tar, rejectSparse, start, bytes[..done + take], done, g);
    if Feed(tar, rejectSparse, g, bytes[done..][..take]).Refused? {
      RefusalStays(tar, rejectSparse, start, bytes, done + take);
    }
  }

  lemma FeedAfter(tar: TarCrate, rejectSparse: bool, start: Guard, s: seq<Byte>, n: nat, g: Guard)
    requires WellFormed(start) && WellFormed(g) && n <= |s|
    requires Feed(tar, rejectSparse, start, s[..n]) == Accepted(g)
    ensures Feed(tar, rejectSparse, start, s) == Delay(Feed(tar, rejectSparse, g, s[n..]), n)
  {
    hide Feed, WellFormed, Delay;
    FeedCut(tar, rejectSparse, start, s, n);
  }

  lemma RefusalStays(tar: TarCrate, rejectSparse: bool, start: Guard, s: seq<Byte>, n: nat)
    requires WellFormed(start) && n <= |s| && Feed(tar, rejectSparse, start, s[..n]).Refused?
    ensures Feed(tar, rejectSparse, start, s) == Feed(tar, rejectSparse, start, s[..n])
  {
    hide Feed, WellFormed, Delay;
    FeedCut(tar, rejectSparse, start, s, n);
  }

  lemma FeedNothing(tar: TarCrate, rejectSparse: bool, g: Guard)
    requires WellFormed(g)
    ensures Feed(tar, rejectSparse, g, []) == Accepted(g)
  {
  }

  lemma Slices(s: seq<Byte>, done: nat, take: nat)
    requires done + take <= |s|
    ensures s[..done + take][..done] == s[..done]
    ensures s[..done + take][done..] == s[done..][..take]
  {
  }

  /** A guarded stream: still open, or refused for good. */
  datatype Stream = Open(guard: Guard) | Failed(reason: Refusal)

  datatype InnerRead = Got(bytes: seq<Byte>) | InnerError

  datatype ReadResult = Delivered(bytes: seq<Byte>) | InnerFailed | ArchiveRefused

  ghost predicate WellFormedStream(s: Stream) {
    s.Open? ==> WellFormed(s.guard)
  }

  ghost function ReadStep(tar: TarCrate, rejectSparse: bool, s: Stream, inner: InnerRead): (r: (Stream, ReadResult))
    requires WellFormedStream(s)
    ensures WellFormedStream(r.0)
  {
    if s.Failed? then (s, ArchiveRefused)
    else if inner.InnerError? then (s, InnerFailed)
    else
      match Feed(tar, rejectSparse, s.guard, inner.bytes)
      case Accepted(g) => (Open(g), Delivered(inner.bytes))
      case Refused(reason, _) => (Failed(reason), ArchiveRefused)
  }

  /** The stream after `calls`, and every byte it handed out on the way. */
  ghost function Run(tar: TarCrate, rejectSparse: bool, s: Stream, calls: seq<InnerRead>): (r: (Stream, seq<Byte>))
    requires WellFormedStream(s)
    ensures WellFormedStream(r.0)
    decreases |calls|
  {
    if calls == [] then (s, [])
    else
      var (next, result) := ReadStep(tar, rejectSparse, s, calls[0]);
      var (last, bytes) := Run(tar, rejectSparse, next, calls[1..]);
      (last, (if result.Delivered? then result.bytes else []) + bytes)
  }

  /** The bytes the inner reader had to offer over those reads. */
  ghost function Offered(calls: seq<InnerRead>): seq<Byte> {
    if calls == [] then [] else (if calls[0].Got? then calls[0].bytes else []) + Offered(calls[1..])
  }

  lemma {:induction false} FailedStaysFailed(tar: TarCrate, rejectSparse: bool, s: Stream, calls: seq<InnerRead>)
    requires s.Failed?
    ensures Run(tar, rejectSparse, s, calls) == (s, [])
    decreases |calls|
  {
    if calls != [] {
      assert ReadStep(tar, rejectSparse, s, calls[0]) == (s, ArchiveRefused);
      FailedStaysFailed(tar, rejectSparse, s, calls[1..]);
      var empty: seq<Byte> := [];
      assert empty + empty == empty;
    }
  }

  /**
   Over every run of reads, the bytes handed out are a prefix of what the inner
   reader offered: all of them while nothing is refused, and otherwise none at
   or after the byte that completed the refused header block or PAX body.
   */
  lemma {:induction false} RunDeliversPrefix(tar: TarCrate, rejectSparse: bool, g: Guard, calls: seq<InnerRead>)
    requires WellFormed(g)
    ensures var (last, bytes) := Run(tar, rejectSparse, Open(g), calls);
            && bytes <= Offered(calls)
            && match Feed(tar, rejectSparse, g, Offered(calls)) {
                 case Accepted(g') => last == Open(g') && bytes == Offered(calls)
                 case Refused(reason, at) => last == Failed(reason) && |bytes| <= at
               }
    decreases |calls|
  {
    if calls != [] {
      var head := if calls[0].Got? then calls[0].bytes else [];
      FeedSplit(tar, rejectSparse, g, head, Offered(calls[1..]));
      match Feed(tar, rejectSparse, g, head) {
        case Accepted(g') =>
          RunDeliversPrefix(tar, rejectSparse, g', calls[1..]);
        case Refused(reason, at) =>
          FailedStaysFailed(tar, rejectSparse, Failed(reason), calls[1..]);
      }
    }
  }

  /** The PAX buffer never outgrows the cap, whatever the stream, also when its body is refused. */
  lemma PaxBufferIsBounded(tar: TarCrate, rejectSparse: bool, stream: seq<Byte>)
    ensures var o := Feed(tar, rejectSparse, FRESH, stream);
            if o.Accepted? then |o.guard.pax| <= MAX_EXTENDED_HEADER_BYTES
            else
              var before := Feed(tar, rejectSparse, FRESH, stream[..o.at]);
              before.Accepted? && |Buffered(before.guard, stream[o.at])| <= MAX_EXTENDED_HEADER_BYTES
  {
    hide Feed;
    var o := Feed(tar, rejectSparse, FRESH, stream);
    if o.Refused? {
      FeedCut(tar, rejectSparse, FRESH, stream, o.at);
    }
  }

  /**
   A batch scan of a whole string: one block or one body per step, with no
   partial fills. It is what the incremental guard must agree with.
   */
  ghost function Batch(tar: TarCrate, rejectSparse: bool, g: Guard, s: seq<Byte>): Outcome
    requires g.block == [] && (g.state.Body? ==> 0 < g.state.left)
    decreases |s|
  {
    match g.state
    case Body(left, dataLeft, pax) =>
      var kept := KeptPax(g.state, Min(|s|, left));
      if |s| < left then
        Accepted(Guard(Body(left - |s|, dataLeft - kept, pax), [], g.pax + s[..kept]))
      else if pax && JudgePax(tar.paxRecords(g.pax + s[..kept])).Refuse? then
        Refused(JudgePax(tar.paxRecords(g.pax + s[..kept])).reason, left - 1)
      else Delay(Batch(tar, rejectSparse, FRESH, s[left..]), left)
    case _ =>
      if |s| < BLOCK_SIZE then Accepted(g.(block := s))
      else
        match FinishBlock(tar, rejectSparse, g.state, s[..BLOCK_SIZE])
        case Refuse(reason) => Refused(reason, BLOCK_SIZE - 1)
        case Ok(next) => Delay(Batch(tar, rejectSparse, next, s[BLOCK_SIZE..]), BLOCK_SIZE)
  }

  lemma {:induction false} FeedIsBatch(tar: TarCrate, rejectSparse: bool, g: Guard, s: seq<Byte>)
    requires WellFormed(g) && g.block == []
    ensures Feed(tar, rejectSparse, g, s) == Batch(tar, rejectSparse, g, s)
    decreases |s|
  {
    hide Feed;
    if g.state.Body? {
      var left := g.state.left;
      if |s| < left {
        FeedInsideBody(tar, rejectSparse, g, s);
      } else {
        FeedCut(tar, rejectSparse, g, s, left);
        FeedFinishesBody(tar, rejectSparse, g, s[..left]);
        var kept := KeptPax(g.state, left);
        assert s[..left][..kept] == s[..kept];
        JudgePaxFresh(tar.paxRecords(g.pax + s[..kept]));
        FeedIsBatch(tar, rejectSparse, FRESH, s[left..]);
      }
    } else if |s| < BLOCK_SIZE {
      FeedFillsBlock(tar, rejectSparse, g, s);
      assert g.block + s == s;
    } else {
      var block := s[..BLOCK_SIZE];
      FeedCut(tar, rejectSparse, g, s, BLOCK_SIZE);
      FeedFinishesBlock(tar, rejectSparse, g, block);
      assert g.block + block == block;
      var r := FinishBlock(tar, rejectSparse, g.state, block);
      if r.Ok? {
        FeedIsBatch(tar, rejectSparse, r.guard, s[BLOCK_SIZE..]);
      }
    }
  }

  /** The guard as the source has it: fields updated in place, slice by slice. */
  class HeaderGuard {
    const tar: TarCrate
    const rejectSparse: bool
    var state: GuardState
    const block: array<Byte>
    var filled: nat
    var pax: seq<Byte>
    /** Why the stream was refused; the source keeps a `failed` flag beside it. */
    var verdict: Option<Refusal>

    ghost predicate Valid()
      reads this, block
    {
      block.Length == BLOCK_SIZE && filled < BLOCK_SIZE && WellFormed(Value())
    }

    ghost function Value(): Guard
      reads this, block
      requires block.Length == BLOCK_SIZE && filled < BLOCK_SIZE
    {
      Guard(state, block[..filled], pax)
    }

    constructor (tar: TarCrate, rejectSparse: bool)
      ensures Valid() && fresh(block) && verdict == None && Value() == FRESH
      ensures this.tar == tar && this.rejectSparse == rejectSparse
    {
      this.tar, this.rejectSparse := tar, rejectSparse;
      state, filled, pax, verdict := Header, 0, [], None;
      block := new Byte[BLOCK_SIZE](_ => 0);
    }

    /** Moves to the guard value `r` holds, or reports its refusal. */
    method Enter(r: StepResult) returns (refusal: Option<Refusal>)
      requires block.Length == BLOCK_SIZE && filled == 0
      requires r.Ok? ==> WellFormed(r.guard) && r.guard.block == []
      modifies this`state, this`pax
      ensures match r {
                case Ok(g) => refusal == None && Valid() && Value() == g
                case Refuse(reason) => refusal == Some(reason)
              }
    {
      match r {
        case Ok(g) =>
          state, pax, refusal := g.state, g.pax, None;
        case Refuse(reason) =>
          refusal := Some(reason);
      }
    }

    /** Copies as much of `bytes` as the open block takes, and ends the block when full. */
    method FillBlock(bytes: seq<Byte>) returns (take: nat, refusal: Option<Refusal>)
      requires Valid() && !state.Body? && bytes != []
      modifies this`state, this`filled, this`pax, block
      ensures 0 < take <= |bytes|
      ensures match old(Feed(tar, rejectSparse, Value(), bytes[..take])) {
                case Accepted(g) => refusal == None && Valid() && Value() == g
                case Refused(reason, _) => refusal == Some(reason)
              }
    {
      take := Min(BLOCK_SIZE - filled, |bytes|);
      ghost var was := Value();
      var from := filled;
      forall i | 0 <= i < take {
        block[from + i] := bytes[i];
      }
      filled := filled + take;
      assert block[..filled] == was.block + bytes[..take];
      refusal := None;
      if filled == BLOCK_SIZE {
        filled := 0;
        assert block[..] == block[..BLOCK_SIZE];
        FeedFinishesBlock(tar, rejectSparse, was, bytes[..take]);
        refusal := Enter(FinishBlock(tar, rejectSparse, state, block[..]));
      } else {
        FeedFillsBlock(tar, rejectSparse, was, bytes[..take]);
      }
    }

    /** Passes as much of `bytes` as the open body takes, collecting PAX data. */
    method PassBody(bytes: seq<Byte>) returns (take: nat, refusal: Option<Refusal>)
      requires Valid() && state.Body? && bytes != []
      modifies this`state, this`filled, this`pax, block
      ensures 0 < take <= |bytes|
      ensures match old(Feed(tar, rejectSparse, Value(), bytes[..take])) {
                case Accepted(g) => refusal == None && Valid() && Value() == g
                case Refused(reason, _) => refusal == Some(reason)
              }
    {
      var Body(left, dataLeft, isPax) := state;
      take := Min(left, |bytes|);
      ghost var was := Value();
      if isPax {
        var data := Min(take, dataLeft);
        assert bytes[..take][..data] == bytes[..data];
        pax := pax + bytes[..data];
        dataLeft := dataLeft - data;
      }
      left := left - take;
      refusal := None;
      if left == 0 {
        FeedFinishesBody(tar, rejectSparse, was, bytes[..take]);
        if isPax {
          JudgePaxFresh(tar.paxRecords(pax));
          refusal := Enter(JudgePax(tar.paxRecords(pax)));
        } else {
          refusal := Enter(Ok(FRESH));
        }
      } else {
        FeedInsideBody(tar, rejectSparse, was, bytes[..take]);
        state := Body(left, dataLeft, isPax);
      }
    }

    ghost function View(): Stream
      reads this, block
      requires verdict == None ==> Valid()
    {
      if verdict.Some? then Failed(verdict.value) else Open(Value())
    }

    /** `Read` of the source: the inner reader is not asked again after a refusal. */
    method Read(inner: InnerRead) returns (result: ReadResult)
      requires verdict == None ==> Valid()
      modifies this, block
      ensures verdict == None ==> Valid()
      ensures (View(), result) == old(ReadStep(tar, rejectSparse, View(), inner))
    {
      if verdict.Some? {
        return ArchiveRefused;
      }
      match inner {
        case InnerError =>
          result := InnerFailed;
        case Got(bytes) =>
          verdict := Observe(bytes);
          result := if verdict.Some? then ArchiveRefused else Delivered(bytes);
      }
    }

    /** Refused streams leave the guard's fields unspecified: they are not read again. */
    method Observe(bytes: seq<Byte>) returns (refusal: Option<Refusal>)
      requires Valid()
      modifies this`state, this`filled, this`pax, block
      ensures match old(Feed(tar, rejectSparse, Value(), bytes)) {
                case Accepted(g) => refusal == None && Valid() && Value() == g
                case Refused(reason, _) => refusal == Some(reason)
              }
    {
      hide Feed, WellFormed;
      var done := 0;
      ghost var start := Value();
      FeedNothing(tar, rejectSparse, start);
      assert bytes[..0] == [];
      refusal := None;
      while done < |bytes|
        invariant done <= |bytes| && Valid() && refusal == None
        invariant Feed(tar, rejectSparse, start, bytes[..done]) == Accepted(Value())
      {
        var take: nat;
        ghost var was := Value();
        if state.Body? {
          take, refusal := PassBody(bytes[done..]);
        } else {
          take, refusal := FillBlock(bytes[done..]);
        }
        FeedAdvances(tar, rejectSparse, start, bytes, done, take, was);
        if refusal.Some? {
          return;
        }
        done := done + take;
      }
      assert bytes[..done] == bytes;
    }
  }
}
