/**
 The scan loop: entries of a guarded stream are checked one by one, and after
 each of them the caller is told how far the archive is known to be sound.
 */
module Scan {
  import opened Machine
  import opened TarFormat
  import opened HeaderGuard
  import opened GuardSync
  import Trail = SymlinkTrail

  /**
   An entry as the tar reader yields it: where its header, body and padding are,
   and the size it reports, which for a sparse file is the expanded one.
   */
  datatype Item = Item(header: nat, bodyStart: nat, size: U64, end: nat, entry: Trail.Entry)

  /** Headers the reader folds into the next entry instead of yielding them. */
  predicate Folded(kind: EntryKind) {
    kind.GnuLongName? || kind.GnuLongLink? || kind.PaxLocal?
  }

  /** Where the reader finds no further entry at the start of `t`. */
  predicate StopsAt(tar: TarCrate, t: seq<Byte>) {
    || |t| < BLOCK_SIZE
    || IsZero(t[..BLOCK_SIZE])
    || !ChecksumMatches(tar, t[..BLOCK_SIZE])
    || tar.entrySize(t[..BLOCK_SIZE]).None?
    || BodyStart(tar, t).None?
  }

  /** The entry whose header starts `t`, `at` bytes into the stream; `meta` gives its names. */
  function ItemAt(tar: TarCrate, meta: nat -> Trail.Entry, t: seq<Byte>, at: nat): Item
    requires !StopsAt(tar, t)
  {
    var block := t[..BLOCK_SIZE];
    var stored := tar.entrySize(block).value;
    var size := if tar.kind(block).GnuSparse? then tar.expandedSize(block) else stored;
    var start := at + BodyStart(tar, t).value;
    Item(at, start, size, start + Padded(stored), meta(at).(kind := tar.kind(block), size := size))
  }

  /** Every entry of the stream `t`, up to the end marker. */
  function Items(tar: TarCrate, meta: nat -> Trail.Entry, t: seq<Byte>, at: nat): seq<Item>
    decreases |t|
  {
    if StopsAt(tar, t) then []
    else
      var item := ItemAt(tar, meta, t, at);
      (if Folded(item.entry.kind) then [] else [item]) +
      (if item.end - at <= |t| then Items(tar, meta, t[item.end - at..], item.end) else [])
  }

  /** What `passed` is called with after an entry passes: the end of its body. */
  function SoundUpTo(i: Item): (r: U64)
    requires i.bodyStart <= U64_MAX
    ensures r <= i.bodyStart + i.size
    ensures i.bodyStart + i.size <= U64_MAX ==> r == i.bodyStart + i.size
    ensures U64_MAX < i.bodyStart + i.size ==> r == U64_MAX
  {
    SaturatingAdd(i.bodyStart, i.size)
  }

  function Entries(items: seq<Item>): (r: seq<Trail.Entry>)
    ensures |r| == |items|
  {
    seq(|items|, i requires 0 <= i < |items| => items[i].entry)
  }

  /** Whether the first `n` entries pass every check. */
  predicate PassesFirst(items: seq<Item>, n: nat, policy: Trail.Policy, limits: Trail.Limits)
    requires n <= |items|
  {
    Trail.CheckAll(Trail.NOTHING_CHECKED, Entries(items)[..n], policy, limits).Ok?
  }

  /**
   The loop of `scan` with no destination: it reports one offset per entry that
   passed and stops at the first that does not.
   */
  method ScanEntries(items: seq<Item>, policy: Trail.Policy, limits: Trail.Limits)
      returns (passed: seq<U64>, error: Option<Trail.ArchiveError>)
    requires forall i :: 0 <= i < |items| ==> items[i].bodyStart <= U64_MAX
    ensures |passed| <= |items| && PassesFirst(items, |passed|, policy, limits)
    ensures forall i :: 0 <= i < |passed| ==>
              && passed[i] <= items[i].bodyStart + items[i].size
              && (items[i].bodyStart + items[i].size <= U64_MAX ==> passed[i] == items[i].bodyStart + items[i].size)
              && (U64_MAX < items[i].bodyStart + items[i].size ==> passed[i] == U64_MAX)
    ensures error == None <==> |passed| == |items|
    ensures error.Some? ==>
              Trail.CheckAll(Trail.NOTHING_CHECKED, Entries(items)[..|passed| + 1], policy, limits) ==
              Trail.Err(error.value)
  {
    hide Trail.CheckAll, Trail.CheckOne;
    passed, error := [], None;
    var s := Trail.NOTHING_CHECKED;
    var es := Entries(items);
    NothingPasses(es, policy, limits);
    for i := 0 to |items|
      invariant |passed| == i
      invariant Trail.CheckAll(Trail.NOTHING_CHECKED, es[..i], policy, limits) == Trail.Ok(s)
      invariant forall j :: 0 <= j < i ==> passed[j] == SoundUpTo(items[j])
    {
      OneMore(es, i, s, policy, limits);
      var r := Trail.CheckOne(s, es[i], policy, limits);
      if r.Err? {
        error := Some(r.error);
        return;
      }
      s := r.value;
      passed := passed + [SoundUpTo(items[i])];
    }
  }

  lemma NothingPasses(es: seq<Trail.Entry>, policy: Trail.Policy, limits: Trail.Limits)
    ensures Trail.CheckAll(Trail.NOTHING_CHECKED, es[..0], policy, limits) == Trail.Ok(Trail.NOTHING_CHECKED)
  {
  }

  lemma OneMore(es: seq<Trail.Entry>, i: nat, s: Trail.Checked, policy: Trail.Policy, limits: Trail.Limits)
    requires i < |es| && Trail.CheckAll(Trail.NOTHING_CHECKED, es[..i], policy, limits) == Trail.Ok(s)
    ensures Trail.CheckAll(Trail.NOTHING_CHECKED, es[..i + 1], policy, limits) ==
            Trail.CheckOne(s, es[i], policy, limits)
  {
    hide Trail.CheckOne;
    Trail.CheckAllSplit(Trail.NOTHING_CHECKED, es[..i], [es[i]], policy, limits);
    assert es[..i] + [es[i]] == es[..i + 1];
    assert [es[i]][1..] == [];
  }

  // ---- where the offsets lie -----------------------------------------------

  predicate WellPlaced(i: Item) {
    && i.header + BLOCK_SIZE <= i.bodyStart <= i.end
    && (!i.entry.kind.GnuSparse? ==> i.bodyStart + i.size <= i.end)
  }

  predicate NoSparse(items: seq<Item>) {
    forall i :: 0 <= i < |items| ==> !items[i].entry.kind.GnuSparse?
  }

  /** Each entry starts after the one before it has ended, padding included. */
  ghost predicate InOrder(items: seq<Item>, from: nat) {
    && (forall i :: 0 <= i < |items| ==> from <= items[i].header && WellPlaced(items[i]))
    && (forall i, j :: 0 <= i < j < |items| ==> items[i].end <= items[j].header)
  }

  lemma ItemIsWellPlaced(tar: TarCrate, meta: nat -> Trail.Entry, t: seq<Byte>, at: nat)
    requires !StopsAt(tar, t)
    ensures var item := ItemAt(tar, meta, t, at);
            item.header == at && WellPlaced(item) && item.bodyStart <= at + |t|
  {
    hide IsZero, ChecksumMatches;
  }

  ghost predicate StartBy(items: seq<Item>, limit: nat) {
    forall i :: 0 <= i < |items| ==> items[i].bodyStart <= limit
  }

  lemma NothingIsInOrder(from: nat, limit: nat)
    ensures InOrder([], from) && StartBy([], limit)
  {
  }

  lemma ConsKeepsOrder(item: Item, rest: seq<Item>, limit: nat)
    requires WellPlaced(item) && InOrder(rest, item.end) && StartBy(rest, limit) && item.bodyStart <= limit
    ensures InOrder([item] + rest, item.header) && InOrder(rest, item.header) && StartBy([item] + rest, limit)
  {
  }

  lemma {:induction false} ItemsAreInOrder(tar: TarCrate, meta: nat -> Trail.Entry, t: seq<Byte>, at: nat)
    ensures InOrder(Items(tar, meta, t, at), at) && StartBy(Items(tar, meta, t, at), at + |t|)
    decreases |t|
  {
    hide StopsAt, ItemAt, Folded, InOrder, WellPlaced, StartBy;
    NothingIsInOrder(at, at + |t|);
    if !StopsAt(tar, t) {
      var item := ItemAt(tar, meta, t, at);
      ItemIsWellPlaced(tar, meta, t, at);
      var rest: seq<Item> := [];
      if item.end - at <= |t| {
        ItemAdvances(item);
        ItemsAreInOrder(tar, meta, t[item.end - at..], item.end);
        rest := Items(tar, meta, t[item.end - at..], item.end);
      } else {
        NothingIsInOrder(item.end, at + |t|);
      }
      ConsKeepsOrder(item, rest, at + |t|);
      assert Items(tar, meta, t, at) == (if Folded(item.entry.kind) then [] else [item]) + rest;
      assert [] + rest == rest;
    }
  }

  lemma ItemAdvances(item: Item)
    requires WellPlaced(item)
    ensures item.header < item.end
  {
  }

  /**
   Without sparse files, reported offsets strictly increase, and each lies inside
   the entry just checked.
   */
  lemma OffsetsIncrease(tar: TarCrate, meta: nat -> Trail.Entry, t: seq<Byte>)
    requires |t| <= U64_MAX && NoSparse(Items(tar, meta, t, 0))
    ensures var items := Items(tar, meta, t, 0);
            && (forall i :: 0 <= i < |items| ==>
                  items[i].bodyStart <= U64_MAX && items[i].bodyStart <= SoundUpTo(items[i]) <= items[i].end)
            && (forall i, j :: 0 <= i < j < |items| ==> SoundUpTo(items[i]) < SoundUpTo(items[j]))
  {
    hide Items;
    ItemsAreInOrder(tar, meta, t, 0);
    var items := Items(tar, meta, t, 0);
    forall i, j | 0 <= i < j < |items|
      ensures SoundUpTo(items[i]) < SoundUpTo(items[j])
    {
      assert items[i].end <= items[j].header;
    }
  }

  /** `item` is what the header block at its offset says; `t` starts `at` bytes into the stream. */
  ghost predicate IsEntry(tar: TarCrate, t: seq<Byte>, at: nat, item: Item) {
    && at <= item.header && item.header + BLOCK_SIZE <= at + |t|
    && var block := t[item.header - at..][..BLOCK_SIZE];
    && !IsZero(block) && ChecksumMatches(tar, block)
    && item.entry.kind == tar.kind(block) && item.entry.size == item.size
    && item.entry.kind !in {GnuLongName, GnuLongLink, PaxLocal}
    && (!item.entry.kind.GnuSparse? ==>
          && item.bodyStart == item.header + BLOCK_SIZE && tar.entrySize(block) == Some(item.size)
          && item.end == item.bodyStart + Padded(item.size))
  }

  lemma FirstIsEntry(tar: TarCrate, meta: nat -> Trail.Entry, t: seq<Byte>, at: nat)
    requires !StopsAt(tar, t)
    ensures var item := ItemAt(tar, meta, t, at);
            Folded(item.entry.kind) || IsEntry(tar, t, at, item)
  {
    hide IsZero, ChecksumMatches;
    assert t[0..][..BLOCK_SIZE] == t[..BLOCK_SIZE];
  }

  lemma EntryOfRest(tar: TarCrate, t: seq<Byte>, at: nat, next: nat, item: Item)
    requires next <= |t| && IsEntry(tar, t[next..], at + next, item)
    ensures IsEntry(tar, t, at, item)
  {
    hide IsZero, ChecksumMatches;
    assert t[next..][item.header - (at + next)..] == t[item.header - at..];
  }

  /** Every entry the reader yields is what the header at its offset says. */
  lemma {:induction false} ItemsAreEntries(tar: TarCrate, meta: nat -> Trail.Entry, t: seq<Byte>, at: nat, i: nat)
    requires i < |Items(tar, meta, t, at)|
    ensures IsEntry(tar, t, at, Items(tar, meta, t, at)[i])
    decreases |t|
  {
    hide Items, IsEntry, StopsAt, ItemAt, Folded;
    ItemsStep(tar, meta, t, at, i);
    ItemIsWellPlaced(tar, meta, t, at);
    var item := ItemAt(tar, meta, t, at);
    if i < (if Folded(item.entry.kind) then 0 else 1) {
      FirstIsEntry(tar, meta, t, at);
    } else {
      var own := if Folded(item.entry.kind) then 0 else 1;
      var next := item.end - at;
      ItemsAreEntries(tar, meta, t[next..], item.end, i - own);
      EntryOfRest(tar, t, at, next, Items(tar, meta, t, at)[i]);
    }
  }

  /**
   In an accepted copy stream, of the bytes of an entry exactly those of its header
   and its body, which is as long as the header says, lie below the offset reported
   for it; what is left up to its end is padding.
   */
  lemma OffsetCoversEntry(tar: TarCrate, meta: nat -> Trail.Entry, t: seq<Byte>, i: nat, k: nat)
    requires tar.paxRecords([]) == [] && |t| <= U64_MAX && Feed(tar, true, FRESH, t).Accepted?
    requires i < |Items(tar, meta, t, 0)| && k < |t|
    ensures var item := Items(tar, meta, t, 0)[i];
            && item.bodyStart == item.header + BLOCK_SIZE <= |t|
            && tar.entrySize(t[item.header..item.bodyStart]) == Some(item.size)
            && item.end == item.bodyStart + Padded(item.size)
            && (item.header <= k < item.end ==>
                  (k < SoundUpTo(item) <==> k < item.header + BLOCK_SIZE + item.size))
  {
    hide Feed, Items, IsZero, ChecksumMatches, Padded;
    CopyHasNoSparse(tar, meta, t, 0);
    ItemsAreEntries(tar, meta, t, 0, i);
    var item := Items(tar, meta, t, 0)[i];
    assert t[item.header..][..BLOCK_SIZE] == t[item.header..item.header + BLOCK_SIZE];
  }

  /** A guard that refuses sparse files lets none through. */
  lemma {:induction false} CopyHasNoSparse(tar: TarCrate, meta: nat -> Trail.Entry, t: seq<Byte>, at: nat)
    requires tar.paxRecords([]) == [] && |t| <= U64_MAX && Feed(tar, true, FRESH, t).Accepted?
    ensures NoSparse(Items(tar, meta, t, at))
    decreases |t|
  {
    hide Feed, ChecksumMatches, IsZero;
    if !StopsAt(tar, t) {
      var item := ItemAt(tar, meta, t, at);
      AfterBlock(tar, true, FRESH, t, |t|);
      assert !tar.kind(t[..BLOCK_SIZE]).GnuSparse?;
      var next := EntryThenHeader(tar, true, t, BodyStart(tar, t).value, |t|);
      ReaderStep(tar, t, next);
      if item.end - at <= |t| {
        CopyHasNoSparse(tar, meta, t[next..], item.end);
      }
    }
  }

  /** Where the reader goes next, in terms of the entry's stored size. */
  lemma ReaderStep(tar: TarCrate, t: seq<Byte>, next: nat)
    requires !StopsAt(tar, t)
    requires NextHeader(tar, t, NO_OVERRIDES) == if next <= |t| then Skip(next, NO_OVERRIDES) else Stop
    ensures var end := BodyStart(tar, t).value + Padded(tar.entrySize(t[..BLOCK_SIZE]).value);
            end <= |t| ==> next == end
  {
  }

  lemma ItemsStep(tar: TarCrate, meta: nat -> Trail.Entry, t: seq<Byte>, at: nat, i: nat)
    requires i < |Items(tar, meta, t, at)|
    ensures !StopsAt(tar, t)
    ensures var item := ItemAt(tar, meta, t, at);
            var own := if Folded(item.entry.kind) then 0 else 1;
            if i < own then Items(tar, meta, t, at)[i] == item
            else
              && item.end - at <= |t|
              && i - own < |Items(tar, meta, t[item.end - at..], item.end)|
              && Items(tar, meta, t, at)[i] == Items(tar, meta, t[item.end - at..], item.end)[i - own]
  {
    hide StopsAt, ItemAt, Folded;
  }

  /** A later header the reader expects is expected from the next one on. */
  lemma LaterHeader(tar: TarCrate, t: seq<Byte>, next: nat, k: nat)
    requires !StopsAt(tar, t) && 0 < k <= |t|
    requires NextHeader(tar, t, NO_OVERRIDES) == if next <= |t| then Skip(next, NO_OVERRIDES) else Stop
    requires ExpectsHeader(tar, t, NO_OVERRIDES, k)
    ensures next <= k && ExpectsHeader(tar, t[next..], NO_OVERRIDES, k - next)
    ensures next == BodyStart(tar, t).value + Padded(tar.entrySize(t[..BLOCK_SIZE]).value)
  {
  }

  /** Item `j` is the first whose header is at `pos` or later. */
  ghost predicate IsNextItem(items: seq<Item>, pos: nat, j: nat) {
    && j < |items| && pos <= items[j].header
    && forall m :: 0 <= m < j ==> items[m].header < pos
  }

  /** The header at `k` is that of one of the first `i + 1` entries, or is folded into the next of them. */
  ghost predicate Accounted(tar: TarCrate, items: seq<Item>, t: seq<Byte>, at: nat, i: nat, k: nat) {
    exists j: nat :: j <= i && AccountedBy(tar, items, t, at, k, j)
  }

  /** Namely by entry `j`, the first at `k` or later. */
  ghost predicate AccountedBy(tar: TarCrate, items: seq<Item>, t: seq<Byte>, at: nat, k: nat, j: nat) {
    && k + BLOCK_SIZE <= |t| && IsNextItem(items, at + k, j)
    && (items[j].header == at + k || tar.kind(t[k..k + BLOCK_SIZE]) in {GnuLongName, GnuLongLink, PaxLocal})
  }

  lemma FirstIsAccounted(tar: TarCrate, meta: nat -> Trail.Entry, t: seq<Byte>, at: nat, i: nat)
    requires i < |Items(tar, meta, t, at)|
    ensures Accounted(tar, Items(tar, meta, t, at), t, at, i, 0)
  {
    hide Items, IsZero, ChecksumMatches;
    ItemsStep(tar, meta, t, at, 0);
    ItemsAreInOrder(tar, meta, t, at);
    var item := ItemAt(tar, meta, t, at);
    assert t[0..BLOCK_SIZE] == t[..BLOCK_SIZE];
    assert AccountedBy(tar, Items(tar, meta, t, at), t, at, 0, 0);
  }

  lemma RestIsAccounted(tar: TarCrate, meta: nat -> Trail.Entry, t: seq<Byte>, at: nat, i: nat, k: nat)
    requires !StopsAt(tar, t)
    requires var item := ItemAt(tar, meta, t, at);
             var own := if Folded(item.entry.kind) then 0 else 1;
             var next := item.end - at;
             && own <= i < |Items(tar, meta, t, at)| && 0 < next <= k && next <= |t|
             && Accounted(tar, Items(tar, meta, t[next..], item.end), t[next..], item.end, i - own, k - next)
    ensures Accounted(tar, Items(tar, meta, t, at), t, at, i, k)
  {
    hide Items, StopsAt, ItemAt, Folded, IsNextItem;
    var item := ItemAt(tar, meta, t, at);
    var own: nat := if Folded(item.entry.kind) then 0 else 1;
    var next := item.end - at;
    var rest := Items(tar, meta, t[next..], item.end);
    assert t[next..][k - next..k - next + BLOCK_SIZE] == t[k..k + BLOCK_SIZE];
    var j: nat :| j <= i - own && AccountedBy(tar, rest, t[next..], item.end, k - next, j);
    assert item.end + (k - next) == at + k;
    NextItemOfRest(tar, meta, t, at, i, k, j);
    EarlierItem(tar, meta, t, at, i, j + own);
    assert AccountedBy(tar, Items(tar, meta, t, at), t, at, k, j + own);
  }

  lemma NextItemOfRest(tar: TarCrate, meta: nat -> Trail.Entry, t: seq<Byte>, at: nat, i: nat, k: nat, j: nat)
    requires !StopsAt(tar, t)
    requires var item := ItemAt(tar, meta, t, at);
             var own := if Folded(item.entry.kind) then 0 else 1;
             var next := item.end - at;
             && j + own <= i < |Items(tar, meta, t, at)| && 0 < next <= k && next <= |t|
             && IsNextItem(Items(tar, meta, t[next..], item.end), at + k, j)
    ensures var own := if Folded(ItemAt(tar, meta, t, at).entry.kind) then 0 else 1;
            IsNextItem(Items(tar, meta, t, at), at + k, j + own)
  {
    hide Items, StopsAt, Folded;
    var item := ItemAt(tar, meta, t, at);
    var own: nat := if Folded(item.entry.kind) then 0 else 1;
    var items := Items(tar, meta, t, at);
    EarlierItem(tar, meta, t, at, i, j + own);
    forall m | 0 <= m < j + own
      ensures items[m].header < at + k
    {
      ItemsStep(tar, meta, t, at, m);
    }
  }

  lemma EarlierItem(tar: TarCrate, meta: nat -> Trail.Entry, t: seq<Byte>, at: nat, i: nat, j: nat)
    requires j <= i < |Items(tar, meta, t, at)|
    requires !StopsAt(tar, t)
    ensures var item := ItemAt(tar, meta, t, at);
            var own := if Folded(item.entry.kind) then 0 else 1;
            own <= j ==>
              && 0 <= item.end - at <= |t|
              && j - own < |Items(tar, meta, t[item.end - at..], item.end)|
              && Items(tar, meta, t, at)[j] == Items(tar, meta, t[item.end - at..], item.end)[j - own]
  {
    hide Items, StopsAt, Folded;
    ItemsStep(tar, meta, t, at, j);
    ItemIsWellPlaced(tar, meta, t, at);
  }

  /** In a stream the guard accepts, every header the reader passes up to an entry is accounted for. */
  lemma {:induction false} HeadersAreAccounted(tar: TarCrate, rejectSparse: bool, meta: nat -> Trail.Entry,
                                               t: seq<Byte>, at: nat, i: nat, k: nat)
    requires tar.paxRecords([]) == []
    requires k <= |t| <= U64_MAX
    requires Feed(tar, rejectSparse, FRESH, t).Accepted?
    requires i < |Items(tar, meta, t, at)| && ExpectsHeader(tar, t, NO_OVERRIDES, k)
    requires at + k <= Items(tar, meta, t, at)[i].header
    ensures Accounted(tar, Items(tar, meta, t, at), t, at, i, k)
    decreases |t|
  {
    hide Feed, Items, ExpectsHeader, NextHeader, Accounted, IsZero, ChecksumMatches, Folded;
    if k == 0 {
      FirstIsAccounted(tar, meta, t, at, i);
    } else {
      ItemsStep(tar, meta, t, at, i);
      var item := ItemAt(tar, meta, t, at);
      var next := EntryThenHeader(tar, rejectSparse, t, BodyStart(tar, t).value, |t|);
      LaterHeader(tar, t, next, k);
      var own := if Folded(item.entry.kind) then 0 else 1;
      if own <= i {
        HeadersAreAccounted(tar, rejectSparse, meta, t[next..], item.end, i - own, k - next);
        RestIsAccounted(tar, meta, t, at, i, k);
      }
    }
  }

  lemma PrefixPasses(items: seq<Item>, j: nat, n: nat, policy: Trail.Policy, limits: Trail.Limits)
    requires j <= n <= |items| && PassesFirst(items, n, policy, limits)
    ensures PassesFirst(items, j, policy, limits)
  {
    hide Trail.CheckAll, Entries;
    var es := Entries(items);
    assert es[..n] == es[..j] + es[j..n];
    Trail.CheckAllSplit(Trail.NOTHING_CHECKED, es[..j], es[j..n], policy, limits);
  }

  /** The header at `k` is that of an entry that passed with all before it, or is folded into one. */
  ghost predicate HeaderPassed(tar: TarCrate, items: seq<Item>, t: seq<Byte>, k: nat,
                               policy: Trail.Policy, limits: Trail.Limits) {
    && k + BLOCK_SIZE <= |t|
    && exists j :: && 0 <= j < |items| && IsNextItem(items, k, j) && PassesFirst(items, j + 1, policy, limits)
                   && (items[j].header == k || tar.kind(t[k..k + BLOCK_SIZE]) in {GnuLongName, GnuLongLink, PaxLocal})
  }

  /** An entry found in a prefix is the same entry in the whole stream. */
  lemma ItemOfPrefix(tar: TarCrate, meta: nat -> Trail.Entry, t: seq<Byte>, n: nat, at: nat)
    requires n <= |t| && !StopsAt(tar, t[..n])
    ensures !StopsAt(tar, t) && ItemAt(tar, meta, t, at) == ItemAt(tar, meta, t[..n], at)
  {
    hide ChecksumMatches, IsZero, BodyStart;
    BodyStartOfPrefix(tar, t, n);
  }

  /** The entries of a prefix are the first entries of the whole stream. */
  lemma {:induction false} ItemsOfPrefix(tar: TarCrate, meta: nat -> Trail.Entry, t: seq<Byte>, n: nat, at: nat)
    requires n <= |t|
    ensures Items(tar, meta, t[..n], at) <= Items(tar, meta, t, at)
    decreases |t|
  {
    hide Items, StopsAt, ItemAt, Folded;
    ItemsUnfold(tar, meta, t[..n], at);
    if !StopsAt(tar, t[..n]) {
      ItemOfPrefix(tar, meta, t, n, at);
      ItemIsWellPlaced(tar, meta, t, at);
      ItemsUnfold(tar, meta, t, at);
      var item := ItemAt(tar, meta, t, at);
      var next := item.end - at;
      if next <= n {
        assert t[..n][next..] == t[next..][..n - next];
        ItemsOfPrefix(tar, meta, t[next..], n - next, item.end);
        PrefixAfter(OwnItem(item), Items(tar, meta, t[..n][next..], item.end), Items(tar, meta, t[next..], item.end));
      }
    }
  }

  function OwnItem(item: Item): seq<Item> {
    if Folded(item.entry.kind) then [] else [item]
  }

  lemma ItemsUnfold(tar: TarCrate, meta: nat -> Trail.Entry, t: seq<Byte>, at: nat)
    ensures StopsAt(tar, t) ==> Items(tar, meta, t, at) == []
    ensures !StopsAt(tar, t) ==>
              var item := ItemAt(tar, meta, t, at);
              && at <= item.end
              && Items(tar, meta, t, at) ==
                 OwnItem(item) + (if item.end - at <= |t| then Items(tar, meta, t[item.end - at..], item.end) else [])
  {
    hide IsZero, ChecksumMatches, BodyStart, Folded;
  }

  lemma PrefixAfter(head: seq<Item>, few: seq<Item>, more: seq<Item>)
    requires few <= more
    ensures head + few <= head + more
  {
    assert head + more == (head + few) + more[|few|..];
  }

  /** Inside an entry the reader expects no header. */
  lemma NoHeaderInEntry(tar: TarCrate, t: seq<Byte>, k: nat)
    requires !StopsAt(tar, t)
    requires 0 < k < BodyStart(tar, t).value + Padded(tar.entrySize(t[..BLOCK_SIZE]).value)
    ensures !ExpectsHeader(tar, t, NO_OVERRIDES, k)
  {
    hide OverridesAfter, ChecksumMatches, IsZero, BodyStart, Padded;
  }

  /**
   Between the header of an entry and its end the reader expects no other header.
   Only the prefix the entry is found in need be accepted by the guard: the rest of
   the stream, and whether the guard refuses it, do not matter.
   */
  lemma {:induction false} NoHeaderBetween(tar: TarCrate, rejectSparse: bool, meta: nat -> Trail.Entry,
                                           t: seq<Byte>, n: nat, at: nat, i: nat, k: nat)
    requires tar.paxRecords([]) == [] && n <= |t| && n <= U64_MAX
    requires Feed(tar, rejectSparse, FRESH, t[..n]).Accepted?
    requires i < |Items(tar, meta, t[..n], at)| && ExpectsHeader(tar, t, NO_OVERRIDES, k)
    requires at + k < Items(tar, meta, t[..n], at)[i].end
    ensures at + k <= Items(tar, meta, t[..n], at)[i].header
    decreases |t|
  {
    hide Feed, Items, ExpectsHeader, NextHeader, ChecksumMatches, IsZero, Folded;
    var p := t[..n];
    ItemsAreInOrder(tar, meta, p, at);
    if k > 0 {
      ItemsStep(tar, meta, p, at, i);
      ItemOfPrefix(tar, meta, t, n, at);
      var item := ItemAt(tar, meta, p, at);
      var own: nat := if Folded(item.entry.kind) then 0 else 1;
      if own <= i {
        var next := EntryThenHeader(tar, rejectSparse, p, BodyStart(tar, p).value, n);
        ReaderStep(tar, p, next);
        NextHeaderOfPrefix(tar, t, n, NO_OVERRIDES);
        SkipsTo(tar, t, next, k);
        assert p[next..] == t[next..][..n - next];
        NoHeaderBetween(tar, rejectSparse, meta, t[next..], n - next, item.end, i - own, k - next);
      } else if k < item.end - at {
        NoHeaderInEntry(tar, t, k);
      }
    }
  }

  lemma SkipsTo(tar: TarCrate, t: seq<Byte>, next: nat, k: nat)
    requires BLOCK_SIZE <= |t| && NextHeader(tar, t, NO_OVERRIDES) == Skip(next, NO_OVERRIDES)
    requires 0 < k && ExpectsHeader(tar, t, NO_OVERRIDES, k)
    ensures next <= k && ExpectsHeader(tar, t[next..], NO_OVERRIDES, k - next)
  {
    hide NextHeader;
  }

  /** What is accounted for in a prefix is accounted for in the whole stream. */
  lemma AccountedInPrefix(tar: TarCrate, meta: nat -> Trail.Entry, t: seq<Byte>, n: nat, i: nat, k: nat)
    requires n <= |t| && Accounted(tar, Items(tar, meta, t[..n], 0), t[..n], 0, i, k)
    ensures Accounted(tar, Items(tar, meta, t, 0), t, 0, i, k)
  {
    hide Items, Folded;
    ItemsOfPrefix(tar, meta, t, n, 0);
    var few, all := Items(tar, meta, t[..n], 0), Items(tar, meta, t, 0);
    assert t[..n][k..k + BLOCK_SIZE] == t[k..k + BLOCK_SIZE];
    var j: nat :| j <= i && AccountedBy(tar, few, t[..n], 0, k, j);
    assert few == all[..|few|];
    forall m | 0 <= m <= j
      ensures few[m] == all[m]
    {
    }
    assert AccountedBy(tar, all, t, 0, k, j);
  }

  /**
   What a reported offset promises, whatever follows: once the guard has accepted
   the first `m` bytes and an entry found in them is reported, every header the
   reader ever expects below that offset is that of an entry that passed both
   checks, or is folded into one.
   */
  lemma BytesBelowOffsetsPassed(tar: TarCrate, meta: nat -> Trail.Entry, t: seq<Byte>, m: nat,
                                policy: Trail.Policy, limits: Trail.Limits, n: nat, i: nat, k: nat)
    requires tar.paxRecords([]) == [] && m <= |t| && m <= U64_MAX
    requires Feed(tar, true, FRESH, t[..m]).Accepted?
    requires i < n <= |Items(tar, meta, t[..m], 0)|
    requires PassesFirst(Items(tar, meta, t[..m], 0), n, policy, limits)
    requires ExpectsHeader(tar, t, NO_OVERRIDES, k)
    ensures var few, items := Items(tar, meta, t[..m], 0), Items(tar, meta, t, 0);
            && few <= items && few[i].bodyStart <= U64_MAX
            && (k < SoundUpTo(few[i]) ==> HeaderPassed(tar, items, t, k, policy, limits))
  {
    hide Feed, Items, ExpectsHeader, PassesFirst, SoundUpTo, Accounted, HeaderPassed;
    var few, items := Items(tar, meta, t[..m], 0), Items(tar, meta, t, 0);
    ItemsOfPrefix(tar, meta, t, m, 0);
    BelowOffsetIsAccounted(tar, meta, t, m, i, k);
    if k < SoundUpTo(few[i]) {
      AccountedHasPassed(tar, few, items, t, n, i, k, policy, limits);
    }
  }

  lemma BelowOffsetIsAccounted(tar: TarCrate, meta: nat -> Trail.Entry, t: seq<Byte>, m: nat, i: nat, k: nat)
    requires tar.paxRecords([]) == [] && m <= |t| && m <= U64_MAX
    requires Feed(tar, true, FRESH, t[..m]).Accepted?
    requires i < |Items(tar, meta, t[..m], 0)| && ExpectsHeader(tar, t, NO_OVERRIDES, k)
    ensures var item := Items(tar, meta, t[..m], 0)[i];
            item.bodyStart <= U64_MAX && (k < SoundUpTo(item) ==> Accounted(tar, Items(tar, meta, t, 0), t, 0, i, k))
  {
    hide Feed, Items, ExpectsHeader, Accounted, SoundUpTo, NoSparse;
    CopyHasNoSparse(tar, meta, t[..m], 0);
    OffsetsIncrease(tar, meta, t[..m]);
    if k < SoundUpTo(Items(tar, meta, t[..m], 0)[i]) {
      NoHeaderBetween(tar, true, meta, t, m, 0, i, k);
      HeaderIsInside(tar, meta, t[..m], i);
      ExpectsInPrefix(tar, t, m, NO_OVERRIDES, k);
      HeadersAreAccounted(tar, true, meta, t[..m], 0, i, k);
      AccountedInPrefix(tar, meta, t, m, i, k);
    }
  }

  lemma AccountedHasPassed(tar: TarCrate, few: seq<Item>, items: seq<Item>, t: seq<Byte>, n: nat, i: nat, k: nat,
                           policy: Trail.Policy, limits: Trail.Limits)
    requires few <= items && i < n <= |few| && PassesFirst(few, n, policy, limits)
    requires Accounted(tar, items, t, 0, i, k)
    ensures HeaderPassed(tar, items, t, k, policy, limits)
  {
    hide PassesFirst, Folded, IsNextItem;
    var j: nat :| j <= i && AccountedBy(tar, items, t, 0, k, j);
    assert 0 + k == k;
    PrefixPasses(few, j + 1, n, policy, limits);
    SamePasses(few, items, j + 1, policy, limits);
  }

  lemma SamePasses(few: seq<Item>, items: seq<Item>, n: nat, policy: Trail.Policy, limits: Trail.Limits)
    requires few <= items && n <= |few|
    ensures PassesFirst(few, n, policy, limits) == PassesFirst(items, n, policy, limits)
  {
    hide Trail.CheckAll;
    assert few == items[..|few|];
    assert Entries(few)[..n] == Entries(items)[..n];
  }

  lemma HeaderIsInside(tar: TarCrate, meta: nat -> Trail.Entry, t: seq<Byte>, i: nat)
    requires i < |Items(tar, meta, t, 0)|
    ensures Items(tar, meta, t, 0)[i].header <= |t|
  {
    hide Items;
    ItemsAreInOrder(tar, meta, t, 0);
    assert WellPlaced(Items(tar, meta, t, 0)[i]);
  }

  // ---- the totals ----------------------------------------------------------

  /** What one accepted entry does to the counters. */
  lemma OneIsCounted(s: Trail.Checked, e: Trail.Entry, policy: Trail.Policy, limits: Trail.Limits)
    requires Trail.CheckOne(s, e, policy, limits).Ok?
    ensures var c := Trail.CheckOne(s, e, policy, limits).value.counts;
            && c == Trail.Counts(s.counts.entries + 1, Saturate(s.counts.bytes + e.size))
            && c.entries <= limits.maxEntries && c.bytes <= limits.maxTotalBytes
  {
    hide Trail.EntryFault, Trail.Trail, Saturate;
  }

  lemma SaturateTwice(a: nat, b: nat)
    ensures Saturate(Saturate(a) + b) == Saturate(a + b)
  {
  }

  /** Accepted archives stay within their caps exactly, although the counter saturates. */
  lemma {:induction false} TotalsAreExact(s: Trail.Checked, es: seq<Trail.Entry>, policy: Trail.Policy,
                                          limits: Trail.Limits)
    requires Trail.CheckAll(s, es, policy, limits).Ok? && es != []
    ensures var c := Trail.CheckAll(s, es, policy, limits).value.counts;
            && c == Trail.Counts(s.counts.entries + |es|, Saturate(s.counts.bytes + Trail.TotalSize(es)))
            && c.entries <= limits.maxEntries && c.bytes <= limits.maxTotalBytes
            && (limits.maxTotalBytes < U64_MAX ==> s.counts.bytes + Trail.TotalSize(es) <= limits.maxTotalBytes)
    decreases |es|
  {
    hide Trail.CheckOne, Saturate;
    OneIsCounted(s, es[0], policy, limits);
    var next := Trail.CheckOne(s, es[0], policy, limits).value;
    if |es| > 1 {
      TotalsAreExact(next, es[1..], policy, limits);
      SaturateTwice(s.counts.bytes + es[0].size, Trail.TotalSize(es[1..]));
    } else {
      assert es[1..] == [];
    }
    ExactBelowMax(s.counts.bytes + Trail.TotalSize(es), limits.maxTotalBytes);
  }

  lemma ExactBelowMax(n: nat, cap: U64)
    ensures Saturate(n) <= cap && cap < U64_MAX ==> n <= cap
  {
  }
}
