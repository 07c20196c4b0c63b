/**
 A tar reader that honours PAX `size` overrides and GNU extended sparse blocks,
 and the proof that the guard never disagrees with it about where headers are.
 */
module GuardSync {
  import opened Machine
  import opened TarFormat
  import opened HeaderGuard

  /** The size the last readable `size` record of a PAX body sets, if any. */
  function PaxSize(tar: TarCrate, records: seq<PaxRecord>): Option<nat> {
    if records == [] then None
    else
      var later := PaxSize(tar, records[1..]);
      if later.Some? then later
      else if records[0].Record? && records[0].key == PAX_SIZE_KEY then tar.paxNumber(records[0].value)
      else None
  }

  /** Length of the run of extended sparse blocks that starts `t`, if it ends inside `t`. */
  function SparseRun(t: seq<Byte>): (r: Option<nat>)
    ensures r.Some? ==> BLOCK_SIZE <= r.value <= |t|
    decreases |t|
  {
    if |t| < BLOCK_SIZE then None
    else if t[EXT_SPARSE_IS_EXTENDED_OFFSET] != 1 then Some(BLOCK_SIZE)
    else
      match SparseRun(t[BLOCK_SIZE..])
      case None => None
      case Some(n) => Some(BLOCK_SIZE + n)
  }

  /** What a reader carries between headers: size overrides from PAX headers. */
  datatype Overrides = Overrides(local: Option<nat>, global: Option<nat>)

  const NO_OVERRIDES := Overrides(None, None)

  datatype Next = Stop | Skip(offset: nat, overrides: Overrides)

  function EffectiveSize(tar: TarCrate, block: seq<Byte>, o: Overrides): nat
    requires tar.entrySize(block).Some?
  {
    if IsExtension(tar.kind(block)) then tar.entrySize(block).value
    else if o.local.Some? then o.local.value
    else if o.global.Some? then o.global.value
    else tar.entrySize(block).value
  }

  function OverridesAfter(tar: TarCrate, kind: EntryKind, body: seq<Byte>, o: Overrides): Overrides {
    if kind.PaxLocal? then o.(local := PaxSize(tar, tar.paxRecords(body)))
    else if kind.PaxGlobal? then o.(global := PaxSize(tar, tar.paxRecords(body)))
    else if IsExtension(kind) then o
    else o.(local := None)
  }

  /** Where the body of the entry whose header starts `t` begins. */
  function BodyStart(tar: TarCrate, t: seq<Byte>): (r: Option<nat>)
    requires BLOCK_SIZE <= |t|
    ensures r.Some? ==> BLOCK_SIZE <= r.value <= |t|
  {
    var block := t[..BLOCK_SIZE];
    if tar.kind(block).GnuSparse? && tar.gnuExtended(block) then
      match SparseRun(t[BLOCK_SIZE..])
      case None => None
      case Some(n) => Some(BLOCK_SIZE + n)
    else Some(BLOCK_SIZE)
  }

  /** The reader's move from the header that starts `t` to the next one. */
  function NextHeader(tar: TarCrate, t: seq<Byte>, o: Overrides): (r: Next)
    requires BLOCK_SIZE <= |t|
    ensures r.Skip? ==> BLOCK_SIZE <= r.offset <= |t|
  {
    var block := t[..BLOCK_SIZE];
    if IsZero(block) then Skip(BLOCK_SIZE, o)
    else if !ChecksumMatches(tar, block) || tar.entrySize(block).None? || BodyStart(tar, t).None? then Stop
    else
      var size := EffectiveSize(tar, block, o);
      var start := BodyStart(tar, t).value;
      if |t| < start + Padded(size) then Stop
      else Skip(start + Padded(size), OverridesAfter(tar, tar.kind(block), t[start..start + size], o))
  }

  /** Whether the reader, starting on a header at offset 0 of `t`, expects one at offset `k`. */
  predicate ExpectsHeader(tar: TarCrate, t: seq<Byte>, o: Overrides, k: nat)
    decreases |t|
  {
    k == 0 ||
    (BLOCK_SIZE <= |t| &&
     match NextHeader(tar, t, o)
     case Stop => false
     case Skip(offset, o') => offset <= k && ExpectsHeader(tar, t[offset..], o', k - offset))
  }

  predicate AtHeader(o: Outcome) {
    o.Accepted? && o.guard.state.Header? && o.guard.block == []
  }

  /** PAX bodies the guard lets through never override a size. */
  lemma {:induction false} JudgedPaxSetsNoSize(tar: TarCrate, records: seq<PaxRecord>)
    requires JudgePax(records).Ok?
    ensures PaxSize(tar, records) == None
  {
    if records != [] {
      JudgedPaxSetsNoSize(tar, records[1..]);
    }
  }

  /** From the start of a body the guard is next at a header where the body ends. */
  lemma BodyThenHeader(tar: TarCrate, rejectSparse: bool, size: U64, pax: bool, u: seq<Byte>, j: nat)
    requires tar.paxRecords([]) == []
    requires j <= |u| && |u| + BLOCK_SIZE <= U64_MAX
    requires pax ==> size <= MAX_EXTENDED_HEADER_BYTES
    requires Feed(tar, rejectSparse, StartBody(size, pax), u).Accepted?
    ensures var left := Padded(size);
            && (AtHeader(Feed(tar, rejectSparse, StartBody(size, pax), u[..j])) <==>
                  left <= j && AtHeader(Feed(tar, rejectSparse, FRESH, u[left..j])))
            && (left <= |u| ==>
                  && Feed(tar, rejectSparse, FRESH, u[left..]).Accepted?
                  && (pax ==> PaxSize(tar, tar.paxRecords(u[..size])) == None))
  {
    hide Feed;
    var g := StartBody(size, pax);
    var left := Padded(size);
    if left == 0 {
      assert u[0..] == u && u[0..j] == u[..j] && u[..size] == [];
    } else if j < left {
      FeedInsideBody(tar, rejectSparse, g, u[..j]);
      if left <= |u| {
        BodyEnds(tar, rejectSparse, size, pax, u);
      }
    } else {
      BodyEnds(tar, rejectSparse, size, pax, u);
      FeedCut(tar, rejectSparse, g, u[..j], left);
      assert u[..j][..left] == u[..left] && u[..j][left..] == u[left..j];
    }
  }

  lemma BodyEnds(tar: TarCrate, rejectSparse: bool, size: U64, pax: bool, u: seq<Byte>)
    requires 0 < Padded(size) <= |u| && |u| + BLOCK_SIZE <= U64_MAX
    requires pax ==> size <= MAX_EXTENDED_HEADER_BYTES
    requires Feed(tar, rejectSparse, StartBody(size, pax), u).Accepted?
    ensures var left := Padded(size);
            && Feed(tar, rejectSparse, StartBody(size, pax), u[..left]) == Accepted(FRESH)
            && Feed(tar, rejectSparse, FRESH, u[left..]).Accepted?
            && (pax ==> PaxSize(tar, tar.paxRecords(u[..size])) == None)
  {
    hide Feed;
    var g := StartBody(size, pax);
    var left := Padded(size);
    FeedFinishesBody(tar, rejectSparse, g, u[..left]);
    FeedCut(tar, rejectSparse, g, u, left);
    if pax {
      assert [] + u[..left][..size] == u[..size];
      JudgePaxFresh(tar.paxRecords(u[..size]));
      JudgedPaxSetsNoSize(tar, tar.paxRecords(u[..size]));
    }
  }

  /** A whole block of an accepted stream, and what every longer prefix becomes after it. */
  lemma AfterBlock(tar: TarCrate, rejectSparse: bool, g: Guard, u: seq<Byte>, j: nat)
    requires WellFormed(g) && !g.state.Body? && g.block == []
    requires BLOCK_SIZE <= j <= |u|
    requires Feed(tar, rejectSparse, g, u).Accepted?
    ensures var r := FinishBlock(tar, rejectSparse, g.state, u[..BLOCK_SIZE]);
            && r.Ok? && WellFormed(r.guard)
            && Feed(tar, rejectSparse, r.guard, u[BLOCK_SIZE..]).Accepted?
            && Feed(tar, rejectSparse, g, u[..j]) == Feed(tar, rejectSparse, r.guard, u[BLOCK_SIZE..j])
  {
    hide Feed;
    var block := u[..BLOCK_SIZE];
    FeedFinishesBlock(tar, rejectSparse, g, block);
    assert g.block + block == block;
    FeedCut(tar, rejectSparse, g, u, BLOCK_SIZE);
    FeedCut(tar, rejectSparse, g, u[..j], BLOCK_SIZE);
    assert u[..j][..BLOCK_SIZE] == block && u[..j][BLOCK_SIZE..] == u[BLOCK_SIZE..j];
    FeedCut(tar, rejectSparse, g, u, j);
  }

  /** Inside a block the guard is not at a header. */
  lemma InsideBlock(tar: TarCrate, rejectSparse: bool, g: Guard, x: seq<Byte>)
    requires WellFormed(g) && !g.state.Body? && g.block == []
    requires |x| < BLOCK_SIZE
    ensures AtHeader(Feed(tar, rejectSparse, g, x)) <==> g.state.Header? && x == []
  {
    hide Feed;
    FeedFillsBlock(tar, rejectSparse, g, x);
    assert [] + x == x;
  }

  /** Extended sparse blocks hold no header; the body starts right after the run. */
  lemma {:induction false} SparseThenBody(tar: TarCrate, rejectSparse: bool, body: U64, u: seq<Byte>, j: nat)
    requires j <= |u|
    requires Feed(tar, rejectSparse, Guard(SparseExtension(body), [], []), u).Accepted?
    ensures var g := Guard(SparseExtension(body), [], []);
            match SparseRun(u) {
              case None => !AtHeader(Feed(tar, rejectSparse, g, u[..j]))
              case Some(n) =>
                && Feed(tar, rejectSparse, StartBody(body, false), u[n..]).Accepted?
                && (AtHeader(Feed(tar, rejectSparse, g, u[..j])) <==>
                      n <= j && AtHeader(Feed(tar, rejectSparse, StartBody(body, false), u[n..j])))
            }
    decreases |u|
  {
    hide Feed;
    var g := Guard(SparseExtension(body), [], []);
    if j < BLOCK_SIZE {
      InsideBlock(tar, rejectSparse, g, u[..j]);
    }
    if BLOCK_SIZE <= |u| {
      var at := if BLOCK_SIZE <= j then j else BLOCK_SIZE;
      AfterBlock(tar, rejectSparse, g, u, at);
      if u[EXT_SPARSE_IS_EXTENDED_OFFSET] == 1 {
        var rest := u[BLOCK_SIZE..];
        SparseThenBody(tar, rejectSparse, body, rest, at - BLOCK_SIZE);
        assert rest[..at - BLOCK_SIZE] == u[BLOCK_SIZE..at];
        if SparseRun(rest).Some? {
          var n := SparseRun(rest).value;
          assert rest[n..] == u[BLOCK_SIZE + n..];
          if n <= at - BLOCK_SIZE {
            assert rest[n..at - BLOCK_SIZE] == u[BLOCK_SIZE + n..at];
          }
        }
      }
    }
  }

  /** A nonzero header block the guard accepts: extended blocks pass, then the body starts. */
  lemma HeaderThenBody(tar: TarCrate, rejectSparse: bool, t: seq<Byte>, k: nat)
    requires BLOCK_SIZE <= k <= |t|
    requires !IsZero(t[..BLOCK_SIZE])
    requires Feed(tar, rejectSparse, FRESH, t).Accepted?
    ensures var block := t[..BLOCK_SIZE];
            && ChecksumMatches(tar, block)
            && tar.entrySize(block).Some?
            && (IsExtension(tar.kind(block)) ==> tar.entrySize(block).value <= MAX_EXTENDED_HEADER_BYTES)
            && var body := StartBody(tar.entrySize(block).value, IsPax(tar.kind(block)));
            match BodyStart(tar, t) {
              case None => !AtHeader(Feed(tar, rejectSparse, FRESH, t[..k]))
              case Some(n) =>
                && Feed(tar, rejectSparse, body, t[n..]).Accepted?
                && (AtHeader(Feed(tar, rejectSparse, FRESH, t[..k])) <==>
                      n <= k && AtHeader(Feed(tar, rejectSparse, body, t[n..k])))
            }
  {
    hide Feed;
    AfterBlock(tar, rejectSparse, FRESH, t, k);
    var block, u, j := t[..BLOCK_SIZE], t[BLOCK_SIZE..], k - BLOCK_SIZE;
    assert u[..j] == t[BLOCK_SIZE..k];
    if tar.kind(block).GnuSparse? && tar.gnuExtended(block) {
      SparseThenBody(tar, rejectSparse, tar.entrySize(block).value, u, j);
      if SparseRun(u).Some? {
        var n := SparseRun(u).value;
        assert u[n..] == t[BLOCK_SIZE + n..];
        if n <= j {
          assert u[n..j] == t[BLOCK_SIZE + n..k];
        }
      }
    }
  }

  /** The reader's move over an entry whose PAX body, if it is one, sets no size. */
  lemma ReaderSkips(tar: TarCrate, t: seq<Byte>, start: nat)
    requires BLOCK_SIZE <= |t| && !IsZero(t[..BLOCK_SIZE]) && ChecksumMatches(tar, t[..BLOCK_SIZE])
    requires tar.entrySize(t[..BLOCK_SIZE]).Some? && BodyStart(tar, t) == Some(start)
    requires var size := tar.entrySize(t[..BLOCK_SIZE]).value;
             start + Padded(size) <= |t| && IsPax(tar.kind(t[..BLOCK_SIZE])) ==>
               PaxSize(tar, tar.paxRecords(t[start..][..size])) == None
    ensures var next := start + Padded(tar.entrySize(t[..BLOCK_SIZE]).value);
            NextHeader(tar, t, NO_OVERRIDES) == if next <= |t| then Skip(next, NO_OVERRIDES) else Stop
  {
    var size := tar.entrySize(t[..BLOCK_SIZE]).value;
    if start + Padded(size) <= |t| {
      assert t[start..][..size] == t[start..start + size];
    }
  }

  /** From one entry to the header after it, for the guard and for the reader. */
  lemma EntryThenHeader(tar: TarCrate, rejectSparse: bool, t: seq<Byte>, start: nat, k: nat) returns (next: nat)
    requires tar.paxRecords([]) == []
    requires BLOCK_SIZE <= start <= k <= |t| <= U64_MAX
    requires !IsZero(t[..BLOCK_SIZE]) && BodyStart(tar, t) == Some(start)
    requires Feed(tar, rejectSparse, FRESH, t).Accepted?
    ensures start <= next
    ensures NextHeader(tar, t, NO_OVERRIDES) == if next <= |t| then Skip(next, NO_OVERRIDES) else Stop
    ensures next <= |t| ==> Feed(tar, rejectSparse, FRESH, t[next..]).Accepted?
    ensures AtHeader(Feed(tar, rejectSparse, FRESH, t[..k])) <==>
            next <= k && AtHeader(Feed(tar, rejectSparse, FRESH, t[next..][..k - next]))
  {
    hide Feed;
    HeaderThenBody(tar, rejectSparse, t, k);
    var block := t[..BLOCK_SIZE];
    var size, pax := tar.entrySize(block).value, IsPax(tar.kind(block));
    var v, i := t[start..], k - start;
    assert v[..i] == t[start..k];
    BodyThenHeader(tar, rejectSparse, size, pax, v, i);
    ReaderSkips(tar, t, start);
    next := start + Padded(size);
    if next <= |t| {
      assert v[Padded(size)..] == t[next..];
    }
    if next <= k {
      assert v[Padded(size)..i] == t[next..][..k - next];
    }
  }

  /**
   The guard and the reader agree on every header offset of every stream the
   guard accepts, so no header is hidden inside what the guard takes for a body.
   */
  lemma {:induction false} GuardStaysInStep(tar: TarCrate, rejectSparse: bool, t: seq<Byte>, k: nat)
    requires tar.paxRecords([]) == []
    requires k <= |t| <= U64_MAX
    requires Feed(tar, rejectSparse, FRESH, t).Accepted?
    ensures AtHeader(Feed(tar, rejectSparse, FRESH, t[..k])) <==> ExpectsHeader(tar, t, NO_OVERRIDES, k)
    decreases |t|
  {
    hide Feed;
    if k < BLOCK_SIZE {
      InsideBlock(tar, rejectSparse, FRESH, t[..k]);
    } else if IsZero(t[..BLOCK_SIZE]) {
      AfterBlock(tar, rejectSparse, FRESH, t, k);
      GuardStaysInStep(tar, rejectSparse, t[BLOCK_SIZE..], k - BLOCK_SIZE);
      assert t[BLOCK_SIZE..][..k - BLOCK_SIZE] == t[BLOCK_SIZE..k];
    } else {
      HeaderThenBody(tar, rejectSparse, t, k);
      var start := BodyStart(tar, t);
      if start.Some? && start.value <= k {
        var next := EntryThenHeader(tar, rejectSparse, t, start.value, k);
        if next <= k {
          GuardStaysInStep(tar, rejectSparse, t[next..], k - next);
        }
      }
    }
  }

  /** What a header block must look like for the guard to go past it. */
  predicate SafeHeader(tar: TarCrate, rejectSparse: bool, block: seq<Byte>) {
    || IsZero(block)
    || (&& ChecksumMatches(tar, block)
        && tar.entrySize(block).Some?
        && (tar.kind(block) in {GnuLongName, GnuLongLink, PaxLocal, PaxGlobal} ==>
              tar.entrySize(block).value <= MAX_EXTENDED_HEADER_BYTES)
        && !(rejectSparse && tar.kind(block).GnuSparse?))
  }

  /** Every header the reader will ever look at in an accepted stream was judged and found safe. */
  lemma EveryHeaderIsJudged(tar: TarCrate, rejectSparse: bool, t: seq<Byte>, k: nat)
    requires tar.paxRecords([]) == []
    requires k + BLOCK_SIZE <= |t| <= U64_MAX
    requires Feed(tar, rejectSparse, FRESH, t).Accepted?
    requires ExpectsHeader(tar, t, NO_OVERRIDES, k)
    ensures SafeHeader(tar, rejectSparse, t[k..k + BLOCK_SIZE])
  {
    hide Feed, ExpectsHeader, ChecksumMatches;
    GuardStaysInStep(tar, rejectSparse, t, k);
    FeedCut(tar, rejectSparse, FRESH, t, k);
    var g := Feed(tar, rejectSparse, FRESH, t[..k]).guard;
    AfterBlock(tar, rejectSparse, g, t[k..], BLOCK_SIZE);
    assert t[k..][..BLOCK_SIZE] == t[k..k + BLOCK_SIZE];
  }

  // ---- a prefix of a stream ------------------------------------------------

  /** A run of sparse blocks that ends inside a prefix is the same run in the whole stream. */
  lemma {:induction false} SparseRunOfPrefix(t: seq<Byte>, n: nat)
    requires n <= |t|
    ensures SparseRun(t[..n]).Some? ==> SparseRun(t) == SparseRun(t[..n])
    ensures SparseRun(t).Some? && SparseRun(t).value <= n ==> SparseRun(t[..n]) == SparseRun(t)
    decreases |t|
  {
    if BLOCK_SIZE <= n {
      assert t[..n][EXT_SPARSE_IS_EXTENDED_OFFSET] == t[EXT_SPARSE_IS_EXTENDED_OFFSET];
      assert t[..n][BLOCK_SIZE..] == t[BLOCK_SIZE..][..n - BLOCK_SIZE];
      SparseRunOfPrefix(t[BLOCK_SIZE..], n - BLOCK_SIZE);
    }
  }

  lemma BodyStartOfPrefix(tar: TarCrate, t: seq<Byte>, n: nat)
    requires BLOCK_SIZE <= n <= |t|
    ensures t[..n][..BLOCK_SIZE] == t[..BLOCK_SIZE]
    ensures BodyStart(tar, t[..n]).Some? ==> BodyStart(tar, t) == BodyStart(tar, t[..n])
    ensures BodyStart(tar, t).Some? && BodyStart(tar, t).value <= n ==> BodyStart(tar, t[..n]) == BodyStart(tar, t)
  {
    hide SparseRun;
    assert t[..n][..BLOCK_SIZE] == t[..BLOCK_SIZE];
    assert t[..n][BLOCK_SIZE..] == t[BLOCK_SIZE..][..n - BLOCK_SIZE];
    SparseRunOfPrefix(t[BLOCK_SIZE..], n - BLOCK_SIZE);
  }

  /** A move of the reader that stays inside a prefix is its move in the whole stream, and the other way round. */
  lemma NextHeaderOfPrefix(tar: TarCrate, t: seq<Byte>, n: nat, o: Overrides)
    requires BLOCK_SIZE <= n <= |t|
    ensures NextHeader(tar, t[..n], o).Skip? ==> NextHeader(tar, t, o) == NextHeader(tar, t[..n], o)
    ensures NextHeader(tar, t, o).Skip? && NextHeader(tar, t, o).offset <= n ==>
              NextHeader(tar, t[..n], o) == NextHeader(tar, t, o)
  {
    hide BodyStart, ChecksumMatches, IsZero, OverridesAfter;
    BodyStartOfPrefix(tar, t, n);
    var block := t[..BLOCK_SIZE];
    if tar.entrySize(block).Some? && BodyStart(tar, t).Some? {
      var size, start := EffectiveSize(tar, block, o), BodyStart(tar, t).value;
      if start + size <= n {
        assert t[..n][start..start + size] == t[start..start + size];
      }
    }
  }

  /** Up to the end of a prefix the reader expects the same headers in it as in the whole stream. */
  lemma {:induction false} ExpectsInPrefix(tar: TarCrate, t: seq<Byte>, n: nat, o: Overrides, k: nat)
    requires k <= n <= |t|
    ensures ExpectsHeader(tar, t[..n], o, k) <==> ExpectsHeader(tar, t, o, k)
    decreases |t|
  {
    hide NextHeader;
    if k > 0 && BLOCK_SIZE <= n {
      NextHeaderOfPrefix(tar, t, n, o);
      match NextHeader(tar, t, o)
      case Stop =>
      case Skip(offset, o') =>
        if offset <= k {
          assert t[..n][offset..] == t[offset..][..n - offset];
          ExpectsInPrefix(tar, t[offset..], n - offset, o', k - offset);
        }
    } else if k > 0 {
      SmallSkips(tar, t, o, k);
    }
  }

  lemma SmallSkips(tar: TarCrate, t: seq<Byte>, o: Overrides, k: nat)
    requires 0 < k < BLOCK_SIZE
    ensures !ExpectsHeader(tar, t, o, k)
  {
    hide NextHeader;
  }
}
