/**
 Exactly which streams the header guard refuses, where, and why.
 */
module GuardVerdict {
  import opened Machine
  import opened TarFormat
  import opened HeaderGuard
  import opened GuardSync

  /** What is wrong with a header block. */
  predicate HeaderFault(tar: TarCrate, rejectSparse: bool, block: seq<Byte>, reason: Refusal) {
    && !IsZero(block)
    && match reason
       case InvalidChecksum => !ChecksumMatches(tar, block)
       case UnreadableSize => ChecksumMatches(tar, block) && tar.entrySize(block).None?
       case ExtendedHeaderTooLarge =>
         && ChecksumMatches(tar, block) && tar.entrySize(block).Some?
         && tar.kind(block) in {GnuLongName, GnuLongLink, PaxLocal, PaxGlobal}
         && tar.entrySize(block).value > 1024 * 1024
       case SparseFile =>
         ChecksumMatches(tar, block) && tar.entrySize(block).Some? && tar.kind(block).GnuSparse? && rejectSparse
       case _ => false
  }

  /** The header that starts `t` is a PAX header whose padded body lies in `t` and has a bad record. */
  ghost predicate PaxFault(tar: TarCrate, t: seq<Byte>, reason: Refusal, at: nat) {
    && BLOCK_SIZE <= |t|
    && var block := t[..BLOCK_SIZE];
    && !IsZero(block) && tar.kind(block) in {PaxLocal, PaxGlobal} && tar.entrySize(block).Some?
    && var size := tar.entrySize(block).value;
    && at + 1 == BLOCK_SIZE + Padded(size) <= |t|
    && exists i :: FirstBadRecord(tar.paxRecords(t[BLOCK_SIZE..][..size]), i, reason)
  }

  /** The entry that starts `t` is at fault, and byte `at` shows it. */
  ghost predicate Fault(tar: TarCrate, rejectSparse: bool, t: seq<Byte>, reason: Refusal, at: nat) {
    || (BLOCK_SIZE <= |t| && at == BLOCK_SIZE - 1 && HeaderFault(tar, rejectSparse, t[..BLOCK_SIZE], reason))
    || PaxFault(tar, t, reason, at)
  }

  /** So is the entry of a header the reader expects at `k`. */
  ghost predicate FaultAt(tar: TarCrate, rejectSparse: bool, t: seq<Byte>, k: nat, reason: Refusal, at: nat) {
    k <= |t| && k <= at && ExpectsHeader(tar, t, NO_OVERRIDES, k) && Fault(tar, rejectSparse, t[k..], reason, at - k)
  }

  // ---- every refusal is deserved -------------------------------------------

  lemma HeaderIsJudged(tar: TarCrate, rejectSparse: bool, block: seq<Byte>)
    ensures FinishHeader(tar, rejectSparse, block).Refuse? ==>
              HeaderFault(tar, rejectSparse, block, FinishHeader(tar, rejectSparse, block).reason)
    ensures FinishHeader(tar, rejectSparse, block).Ok? ==> SafeHeader(tar, rejectSparse, block)
  {
    hide ChecksumMatches, IsZero;
  }

  /** A whole block goes first: it is refused, or what it leaves decides. */
  lemma BlockThenRest(tar: TarCrate, rejectSparse: bool, g: Guard, u: seq<Byte>)
    requires WellFormed(g) && !g.state.Body? && g.block == [] && BLOCK_SIZE <= |u|
    ensures var r := FinishBlock(tar, rejectSparse, g.state, u[..BLOCK_SIZE]);
            && (r.Ok? ==> WellFormed(r.guard))
            && Feed(tar, rejectSparse, g, u) ==
               if r.Refuse? then Refused(r.reason, BLOCK_SIZE - 1)
               else Delay(Feed(tar, rejectSparse, r.guard, u[BLOCK_SIZE..]), BLOCK_SIZE)
  {
    hide Feed;
    var block := u[..BLOCK_SIZE];
    FeedFinishesBlock(tar, rejectSparse, g, block);
    assert g.block + block == block;
    FeedCut(tar, rejectSparse, g, u, BLOCK_SIZE);
  }

  lemma ShortIsAccepted(tar: TarCrate, rejectSparse: bool, g: Guard, u: seq<Byte>)
    requires WellFormed(g) && !g.state.Body? && g.block == [] && |u| < BLOCK_SIZE
    ensures Feed(tar, rejectSparse, g, u).Accepted?
  {
    hide Feed;
    FeedFillsBlock(tar, rejectSparse, g, u);
  }

  /** A refusal after an extended sparse header comes from what follows the run. */
  lemma {:induction false} SparseRefusal(tar: TarCrate, rejectSparse: bool, body: U64, u: seq<Byte>)
    requires Feed(tar, rejectSparse, Guard(SparseExtension(body), [], []), u).Refused?
    ensures var o := Feed(tar, rejectSparse, Guard(SparseExtension(body), [], []), u);
            && SparseRun(u).Some? && SparseRun(u).value <= o.at
            && Feed(tar, rejectSparse, StartBody(body, false), u[SparseRun(u).value..]) ==
               Refused(o.reason, o.at - SparseRun(u).value)
    decreases |u|
  {
    hide Feed;
    var g := Guard(SparseExtension(body), [], []);
    if |u| < BLOCK_SIZE {
      ShortIsAccepted(tar, rejectSparse, g, u);
    } else {
      BlockThenRest(tar, rejectSparse, g, u);
      if u[EXT_SPARSE_IS_EXTENDED_OFFSET] == 1 {
        var rest := u[BLOCK_SIZE..];
        SparseRefusal(tar, rejectSparse, body, rest);
        var n := SparseRun(rest).value;
        assert rest[n..] == u[BLOCK_SIZE + n..];
      }
    }
  }

  /** A refusal from the start of a body on is of the PAX body itself or of what follows it. */
  lemma BodyRefusal(tar: TarCrate, rejectSparse: bool, size: U64, pax: bool, v: seq<Byte>)
    requires tar.paxRecords([]) == [] && |v| + BLOCK_SIZE <= U64_MAX
    requires pax ==> size <= MAX_EXTENDED_HEADER_BYTES
    requires Feed(tar, rejectSparse, StartBody(size, pax), v).Refused?
    ensures var o, left := Feed(tar, rejectSparse, StartBody(size, pax), v), Padded(size);
            && left <= |v|
            && var judged := JudgePax(tar.paxRecords(v[..size]));
            if pax && judged.Refuse? then o == Refused(judged.reason, left - 1) && left > 0
            else left <= o.at && Feed(tar, rejectSparse, FRESH, v[left..]) == Refused(o.reason, o.at - left)
  {
    hide Feed, JudgePax;
    var g, left := StartBody(size, pax), Padded(size);
    if left == 0 {
      assert v[0..] == v && v[..size] == [];
      NothingToJudge();
    } else if |v| < left {
      FeedInsideBody(tar, rejectSparse, g, v);
    } else {
      FeedFinishesBody(tar, rejectSparse, g, v[..left]);
      FeedCut(tar, rejectSparse, g, v, left);
      assert [] + v[..left][..size] == v[..size];
      JudgePaxFresh(tar.paxRecords(v[..size]));
    }
  }

  lemma NothingToJudge()
    ensures JudgePax([]) == Ok(FRESH)
  {
  }

  /** The step from the header that starts `t` to where its body starts. */
  lemma HeaderRefusal(tar: TarCrate, rejectSparse: bool, t: seq<Byte>)
    requires BLOCK_SIZE <= |t| && !IsZero(t[..BLOCK_SIZE])
    requires Feed(tar, rejectSparse, FRESH, t).Refused?
    requires FinishHeader(tar, rejectSparse, t[..BLOCK_SIZE]).Ok?
    ensures var o, block := Feed(tar, rejectSparse, FRESH, t), t[..BLOCK_SIZE];
            && ChecksumMatches(tar, block) && tar.entrySize(block).Some? && BodyStart(tar, t).Some?
            && (IsPax(tar.kind(block)) ==>
                  tar.entrySize(block).value <= MAX_EXTENDED_HEADER_BYTES && BodyStart(tar, t).value == BLOCK_SIZE)
            && BodyStart(tar, t).value <= o.at
            && Feed(tar, rejectSparse, StartBody(tar.entrySize(block).value, IsPax(tar.kind(block))),
                    t[BodyStart(tar, t).value..]) == Refused(o.reason, o.at - BodyStart(tar, t).value)
  {
    hide Feed, ChecksumMatches, IsZero;
    var block, u := t[..BLOCK_SIZE], t[BLOCK_SIZE..];
    BlockThenRest(tar, rejectSparse, FRESH, t);
    if tar.kind(block).GnuSparse? && tar.gnuExtended(block) {
      SparseRefusal(tar, rejectSparse, tar.entrySize(block).value, u);
      var n := SparseRun(u).value;
      assert u[n..] == t[BLOCK_SIZE + n..];
    }
  }

  /** A fault in what the reader goes on with is a fault of the whole. */
  lemma FaultInRest(tar: TarCrate, rejectSparse: bool, t: seq<Byte>, next: nat, k: nat, reason: Refusal, at: nat)
    requires BLOCK_SIZE <= |t| && NextHeader(tar, t, NO_OVERRIDES) == Skip(next, NO_OVERRIDES) && next <= at
    requires FaultAt(tar, rejectSparse, t[next..], k, reason, at - next)
    ensures FaultAt(tar, rejectSparse, t, next + k, reason, at)
  {
    hide NextHeader, Fault;
    assert t[next..][k..] == t[next + k..];
  }

  /** A PAX body with a bad record is a fault of the entry that starts `t`. */
  lemma BadPaxIsFault(tar: TarCrate, rejectSparse: bool, t: seq<Byte>)
    requires BLOCK_SIZE <= |t| && !IsZero(t[..BLOCK_SIZE])
    requires tar.entrySize(t[..BLOCK_SIZE]).Some? && IsPax(tar.kind(t[..BLOCK_SIZE]))
    requires var size := tar.entrySize(t[..BLOCK_SIZE]).value;
             0 < Padded(size) && BLOCK_SIZE + Padded(size) <= |t| &&
             JudgePax(tar.paxRecords(t[BLOCK_SIZE..][..size])).Refuse?
    ensures var size := tar.entrySize(t[..BLOCK_SIZE]).value;
            FaultAt(tar, rejectSparse, t, 0, JudgePax(tar.paxRecords(t[BLOCK_SIZE..][..size])).reason,
                    BLOCK_SIZE + Padded(size) - 1)
  {
    hide JudgePax, IsZero;
    var size := tar.entrySize(t[..BLOCK_SIZE]).value;
    JudgePaxExactly(tar.paxRecords(t[BLOCK_SIZE..][..size]));
    assert t[0..] == t;
  }

  /**
   The guard refuses a stream only for a fault of an entry whose header a reader
   expects, at the byte that completes the header or the padded PAX body.
   */
  lemma {:induction false} RefusalIsDeserved(tar: TarCrate, rejectSparse: bool, t: seq<Byte>)
    requires tar.paxRecords([]) == [] && |t| <= U64_MAX
    requires Feed(tar, rejectSparse, FRESH, t).Refused?
    ensures var o := Feed(tar, rejectSparse, FRESH, t);
            exists k :: FaultAt(tar, rejectSparse, t, k, o.reason, o.at)
    decreases |t|
  {
    hide Feed, IsZero, ChecksumMatches, Fault, JudgePax, FaultAt, FinishHeader, NextHeader, PaxSize;
    var o := Feed(tar, rejectSparse, FRESH, t);
    if |t| < BLOCK_SIZE {
      ShortIsAccepted(tar, rejectSparse, FRESH, t);
    } else {
      var block := t[..BLOCK_SIZE];
      BlockThenRest(tar, rejectSparse, FRESH, t);
      if FinishHeader(tar, rejectSparse, block).Refuse? {
        RefusedHeaderIsFault(tar, rejectSparse, t);
      } else if IsZero(block) {
        ZeroBlock(tar, rejectSparse, t);
        RefusalIsDeserved(tar, rejectSparse, t[BLOCK_SIZE..]);
        var k :| FaultAt(tar, rejectSparse, t[BLOCK_SIZE..], k, o.reason, o.at - BLOCK_SIZE);
        FaultInRest(tar, rejectSparse, t, BLOCK_SIZE, k, o.reason, o.at);
      } else {
        EntryRefusal(tar, rejectSparse, t);
        var size := tar.entrySize(block).value;
        if IsPax(tar.kind(block)) && JudgePax(tar.paxRecords(t[BLOCK_SIZE..][..size])).Refuse? {
          BadPaxIsFault(tar, rejectSparse, t);
        } else {
          var next := BodyStart(tar, t).value + Padded(size);
          RefusalIsDeserved(tar, rejectSparse, t[next..]);
          var k :| FaultAt(tar, rejectSparse, t[next..], k, o.reason, o.at - next);
          FaultInRest(tar, rejectSparse, t, next, k, o.reason, o.at);
        }
      }
    }
  }

  lemma RefusedHeaderIsFault(tar: TarCrate, rejectSparse: bool, t: seq<Byte>)
    requires BLOCK_SIZE <= |t| && FinishHeader(tar, rejectSparse, t[..BLOCK_SIZE]).Refuse?
    ensures FaultAt(tar, rejectSparse, t, 0, FinishHeader(tar, rejectSparse, t[..BLOCK_SIZE]).reason, BLOCK_SIZE - 1)
  {
    hide FinishHeader, HeaderFault;
    HeaderIsJudged(tar, rejectSparse, t[..BLOCK_SIZE]);
    assert t[0..] == t;
  }

  lemma ZeroBlock(tar: TarCrate, rejectSparse: bool, t: seq<Byte>)
    requires BLOCK_SIZE <= |t| && IsZero(t[..BLOCK_SIZE])
    ensures FinishHeader(tar, rejectSparse, t[..BLOCK_SIZE]) == Ok(FRESH)
    ensures NextHeader(tar, t, NO_OVERRIDES) == Skip(BLOCK_SIZE, NO_OVERRIDES)
  {
  }

  /** One entry with a safe header: its PAX body is refused, or something after it. */
  lemma EntryRefusal(tar: TarCrate, rejectSparse: bool, t: seq<Byte>)
    requires tar.paxRecords([]) == [] && BLOCK_SIZE <= |t| <= U64_MAX && !IsZero(t[..BLOCK_SIZE])
    requires Feed(tar, rejectSparse, FRESH, t).Refused?
    requires FinishHeader(tar, rejectSparse, t[..BLOCK_SIZE]).Ok?
    ensures var o, block := Feed(tar, rejectSparse, FRESH, t), t[..BLOCK_SIZE];
            && tar.entrySize(block).Some? && BodyStart(tar, t).Some?
            && var size := tar.entrySize(block).value;
            var next := BodyStart(tar, t).value + Padded(size);
            && next <= |t|
            && var judged := JudgePax(tar.paxRecords(t[BodyStart(tar, t).value..][..size]));
            if IsPax(tar.kind(block)) && judged.Refuse? then
              o == Refused(judged.reason, next - 1) && Padded(size) > 0 && BodyStart(tar, t).value == BLOCK_SIZE
            else
              && next <= o.at && NextHeader(tar, t, NO_OVERRIDES) == Skip(next, NO_OVERRIDES)
              && Feed(tar, rejectSparse, FRESH, t[next..]) == Refused(o.reason, o.at - next)
  {
    hide Feed, IsZero, ChecksumMatches, JudgePax, FinishHeader, PaxSize;
    HeaderRefusal(tar, rejectSparse, t);
    var block := t[..BLOCK_SIZE];
    var size, pax, start := tar.entrySize(block).value, IsPax(tar.kind(block)), BodyStart(tar, t).value;
    BodyRefusal(tar, rejectSparse, size, pax, t[start..]);
    assert t[start..][Padded(size)..] == t[start + Padded(size)..];
    if pax && JudgePax(tar.paxRecords(t[start..][..size])).Ok? {
      JudgedPaxSetsNoSize(tar, tar.paxRecords(t[start..][..size]));
    }
    if !(pax && JudgePax(tar.paxRecords(t[start..][..size])).Refuse?) {
      ReaderSkips(tar, t, start);
    }
  }

  // ---- every fault is refused ----------------------------------------------

  lemma SafeHasNoFault(tar: TarCrate, rejectSparse: bool, block: seq<Byte>, reason: Refusal)
    requires SafeHeader(tar, rejectSparse, block)
    ensures !HeaderFault(tar, rejectSparse, block, reason)
  {
    hide ChecksumMatches, IsZero;
  }

  /** A whole PAX body of an accepted stream has no bad record. */
  lemma AcceptedPaxIsClean(tar: TarCrate, rejectSparse: bool, t: seq<Byte>, reason: Refusal, at: nat)
    requires tar.paxRecords([]) == [] && |t| <= U64_MAX && Feed(tar, rejectSparse, FRESH, t).Accepted?
    ensures !PaxFault(tar, t, reason, at)
  {
    hide Feed, IsZero, ChecksumMatches, FirstBadRecord;
    if PaxFault(tar, t, reason, at) {
      HeaderThenBody(tar, rejectSparse, t, |t|);
      var size, v := tar.entrySize(t[..BLOCK_SIZE]).value, t[BLOCK_SIZE..];
      var records := tar.paxRecords(v[..size]);
      if Padded(size) == 0 {
        assert v[..size] == [];
        NoBadRecord([], reason);
      } else {
        FeedCut(tar, rejectSparse, StartBody(size, true), v, Padded(size));
        FeedFinishesBody(tar, rejectSparse, StartBody(size, true), v[..Padded(size)]);
        assert [] + v[..Padded(size)][..size] == v[..size];
        NoBadRecord(records, reason);
      }
    }
  }

  lemma NoBadRecord(records: seq<PaxRecord>, reason: Refusal)
    requires JudgePax(records).Ok?
    ensures !exists i :: FirstBadRecord(records, i, reason)
  {
    JudgePaxExactly(records);
  }

  lemma AcceptedHasNoFault(tar: TarCrate, rejectSparse: bool, t: seq<Byte>, k: nat, reason: Refusal, at: nat)
    requires tar.paxRecords([]) == [] && |t| <= U64_MAX && Feed(tar, rejectSparse, FRESH, t).Accepted?
    ensures !FaultAt(tar, rejectSparse, t, k, reason, at)
  {
    hide Feed, ExpectsHeader, HeaderFault, PaxFault, SafeHeader;
    if FaultAt(tar, rejectSparse, t, k, reason, at) {
      GuardStaysInStep(tar, rejectSparse, t, k);
      FeedCut(tar, rejectSparse, FRESH, t, k);
      AtHeaderIsFresh(tar, rejectSparse, t[..k]);
      AcceptedPaxIsClean(tar, rejectSparse, t[k..], reason, at - k);
      if k + BLOCK_SIZE <= |t| {
        EveryHeaderIsJudged(tar, rejectSparse, t, k);
        assert t[k..][..BLOCK_SIZE] == t[k..k + BLOCK_SIZE];
        SafeHasNoFault(tar, rejectSparse, t[k..][..BLOCK_SIZE], reason);
      }
    }
  }

  lemma AtHeaderIsFresh(tar: TarCrate, rejectSparse: bool, u: seq<Byte>)
    requires AtHeader(Feed(tar, rejectSparse, FRESH, u))
    ensures Feed(tar, rejectSparse, FRESH, u) == Accepted(FRESH)
  {
    hide Feed;
  }

  /**
   The guard refuses a stream if and only if some entry whose header a reader
   expects is at fault; it then stops at the byte that shows such a fault, for that
   fault's reason, and has accepted everything before that byte.
   */
  lemma GuardRefusesExactly(tar: TarCrate, rejectSparse: bool, t: seq<Byte>)
    requires tar.paxRecords([]) == [] && |t| <= U64_MAX
    ensures var o := Feed(tar, rejectSparse, FRESH, t);
            && (o.Refused? <==> exists k, reason, at :: FaultAt(tar, rejectSparse, t, k, reason, at))
            && (o.Refused? ==> exists k :: FaultAt(tar, rejectSparse, t, k, o.reason, o.at))
            && (o.Refused? ==> Feed(tar, rejectSparse, FRESH, t[..o.at]).Accepted?)
  {
    hide Feed, FaultAt;
    var o := Feed(tar, rejectSparse, FRESH, t);
    if o.Refused? {
      RefusalIsDeserved(tar, rejectSparse, t);
      FeedCut(tar, rejectSparse, FRESH, t, o.at);
    } else {
      forall k, reason, at
        ensures !FaultAt(tar, rejectSparse, t, k, reason, at)
      {
        AcceptedHasNoFault(tar, rejectSparse, t, k, reason, at);
      }
    }
  }
}
