/**
 Which archives the two checks accept, said without running them: a property of
 each entry, the caps, and where earlier entries leave symlinks.
 */
module Acceptance {
  import opened Machine
  import opened TarFormat
  import opened Paths
  import opened SymlinkTrail
  import Scan

  /** What every entry must satisfy by itself. */
  predicate CleanEntry(e: Entry, policy: Policy, limits: Limits) {
    && |e.path| <= limits.maxPathLen
    && AllContained(e.path)
    && |Names(e.path)| <= limits.maxDepth
    && e.size <= limits.maxFileBytes
    && (e.kind.Link? ==> e.link.Some? && AllContained(e.link.value))
    && (policy.Copy? ==>
          && e.kind in {Regular, Continuous, Directory, Symlink, Link, PaxGlobal}
          && e.mode.Some? && !SetIdBits(e.mode.value))
  }

  /** The caps on the whole archive; the byte sum is compared as 64 bits hold it. */
  predicate WithinLimits(c: Counts, limits: Limits) {
    c.entries <= limits.maxEntries && c.bytes <= limits.maxTotalBytes
  }

  lemma EntryAccepted(c: Counts, e: Entry, policy: Policy, limits: Limits)
    ensures var after := Counts(c.entries + 1, SaturatingAdd(c.bytes, e.size));
            && (CheckedEntry(c, e, policy, limits).Ok? <==>
                  CleanEntry(e, policy, limits) && WithinLimits(after, limits))
            && (CheckedEntry(c, e, policy, limits).Ok? ==> CheckedEntry(c, e, policy, limits).value == after)
  {
    hide AllContained, Names, HasSetId, SetIdBits;
    if e.mode.Some? {
      HasSetIdExactly(e.mode.value);
    }
  }

  /** The counters after the first `n` entries. */
  function CountsAfter(es: seq<Entry>, n: nat): Counts
    requires n <= |es|
  {
    Counts(n, Saturate(TotalSize(es[..n])))
  }

  lemma CountOneMore(es: seq<Entry>, n: nat)
    requires n < |es|
    ensures CountsAfter(es, n + 1) ==
            Counts(CountsAfter(es, n).entries + 1, SaturatingAdd(CountsAfter(es, n).bytes, es[n].size))
  {
    assert es[..n] + [es[n]] == es[..n + 1];
    TotalSizeAppend(es[..n], [es[n]]);
    TotalSizeOne(es[n]);
  }

  /** What the first `n` entries satisfy when the checks accept them. */
  ghost predicate Acceptable(es: seq<Entry>, n: nat, policy: Policy, limits: Limits)
    requires n <= |es|
  {
    && (forall i :: 0 <= i < n ==> CleanEntry(es[i], policy, limits) && !ThroughSymlink(es, i))
    && WithinLimits(CountsAfter(es, n), limits)
  }

  /**
   An archive is accepted exactly when every entry is clean, none is written or
   linked through a symlink an earlier one leaves, and the sums meet the caps.
   */
  lemma {:induction false} AcceptsExactly(es: seq<Entry>, n: nat, policy: Policy, limits: Limits)
    requires n <= |es|
    ensures CheckAll(NOTHING_CHECKED, es[..n], policy, limits).Ok? <==> Acceptable(es, n, policy, limits)
    ensures CheckAll(NOTHING_CHECKED, es[..n], policy, limits).Ok? ==>
              var s := CheckAll(NOTHING_CHECKED, es[..n], policy, limits).value;
              s.counts == CountsAfter(es, n) && LinksAfter(es, n) == Ok(s.links)
  {
    hide CheckAll, CheckOne, CleanEntry, ThroughSymlink, Trail, CheckedEntry;
    if n == 0 {
      Scan.NothingPasses(es, policy, limits);
    } else {
      AcceptsExactly(es, n - 1, policy, limits);
      AcceptsOneMore(es, n - 1, policy, limits);
    }
  }

  lemma AcceptsOneMore(es: seq<Entry>, n: nat, policy: Policy, limits: Limits)
    requires n < |es|
    requires CheckAll(NOTHING_CHECKED, es[..n], policy, limits).Ok? <==> Acceptable(es, n, policy, limits)
    requires CheckAll(NOTHING_CHECKED, es[..n], policy, limits).Ok? ==>
               var s := CheckAll(NOTHING_CHECKED, es[..n], policy, limits).value;
               s.counts == CountsAfter(es, n) && LinksAfter(es, n) == Ok(s.links)
    ensures CheckAll(NOTHING_CHECKED, es[..n + 1], policy, limits).Ok? <==> Acceptable(es, n + 1, policy, limits)
    ensures CheckAll(NOTHING_CHECKED, es[..n + 1], policy, limits).Ok? ==>
              var s := CheckAll(NOTHING_CHECKED, es[..n + 1], policy, limits).value;
              s.counts == CountsAfter(es, n + 1) && LinksAfter(es, n + 1) == Ok(s.links)
  {
    hide CheckAll, CleanEntry, ThroughSymlink, Trail, CheckedEntry, CountsAfter, TrailIsExact, WithinLimits, LinksAfter;
    if WithinLimits(CountsAfter(es, n + 1), limits) {
      StillWithin(es, n, limits);
    }
    if CheckAll(NOTHING_CHECKED, es[..n], policy, limits).Ok? {
      var s := CheckAll(NOTHING_CHECKED, es[..n], policy, limits).value;
      Scan.OneMore(es, n, s, policy, limits);
      EntryAccepted(s.counts, es[n], policy, limits);
      CountOneMore(es, n);
      TrailRefusesExactly(es, n);
      TrailStep(es, n, s.links);
      LinksAfterOneMore(es, n);
    } else {
      RefusalStays(es, n, policy, limits);
    }
  }

  lemma RefusalStays(es: seq<Entry>, n: nat, policy: Policy, limits: Limits)
    requires n < |es| && CheckAll(NOTHING_CHECKED, es[..n], policy, limits).Err?
    ensures CheckAll(NOTHING_CHECKED, es[..n + 1], policy, limits).Err?
  {
    hide CheckAll;
    CheckAllSplit(NOTHING_CHECKED, es[..n], [es[n]], policy, limits);
    assert es[..n] + [es[n]] == es[..n + 1];
  }

  lemma StillWithin(es: seq<Entry>, n: nat, limits: Limits)
    requires n < |es| && WithinLimits(CountsAfter(es, n + 1), limits)
    ensures WithinLimits(CountsAfter(es, n), limits)
  {
    CountOneMore(es, n);
  }
}
