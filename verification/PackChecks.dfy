/**
 When a packed directory passes the checks it will meet on the other side: the
 packer and the entry checks put together.
 */
module PackChecks {
  import opened Machine
  import opened Paths
  import opened SymlinkTrail
  import opened Pack
  import opened PackReplay
  import opened PackTrail
  import opened Acceptance

  /** What the packer writes: contained paths, plain kinds and a mode. */
  predicate Packed(e: Entry) {
    IsPackedEntry(e) && AllContained(e.path) && e.mode.Some?
  }

  predicate AllPacked(es: seq<Entry>) {
    forall i :: 0 <= i < |es| ==> Packed(es[i])
  }

  lemma {:induction false} ForestIsPacked(kids: Forest, base: seq<Byte>)
    requires Inside(base) && Listable(kids)
    ensures AllPacked(Flatten(kids, base))
    decreases kids
  {
    hide Names, AllContained;
    if kids.Child? {
      JoinAddsName(base, kids.name);
      TreeIsPacked(kids.tree, JoinName(base, kids.name));
      ForestIsPacked(kids.rest, base);
    }
  }

  lemma {:induction false} TreeIsPacked(t: Tree, path: seq<Byte>)
    requires Inside(path) && (t.DirTree? ==> Listable(t.kids))
    ensures AllPacked(FlattenTree(t, path))
    decreases t
  {
    hide AllContained;
    if t.DirTree? {
      ForestIsPacked(t.kids, path);
    }
  }

  /** The caps a single packed entry has to meet. */
  predicate EntryFits(e: Entry, policy: Policy, limits: Limits) {
    && |e.path| <= limits.maxPathLen && |Names(e.path)| <= limits.maxDepth && e.size <= limits.maxFileBytes
    && (policy.Copy? && e.mode.Some? ==> !SetIdBits(e.mode.value))
  }

  predicate AllFit(es: seq<Entry>, policy: Policy, limits: Limits) {
    forall i :: 0 <= i < |es| ==> EntryFits(es[i], policy, limits)
  }

  lemma PackedIsClean(e: Entry, policy: Policy, limits: Limits)
    requires Packed(e)
    ensures CleanEntry(e, policy, limits) <==> EntryFits(e, policy, limits)
  {
    hide AllContained, Names, SetIdBits;
  }

  /** Packed entries are accepted exactly if they meet the caps and pass the trail. */
  lemma PackedAccepted(es: seq<Entry>, policy: Policy, limits: Limits)
    requires AllPacked(es)
    ensures CheckAll(NOTHING_CHECKED, es, policy, limits).Ok? <==>
            && AllFit(es, policy, limits) && WithinLimits(Counts(|es|, Saturate(TotalSize(es))), limits)
            && TrailAll({}, es).Ok?
  {
    hide CheckAll, TrailAll, Packed, CleanEntry, EntryFits, ThroughSymlink, TrailIsExact;
    assert es[..|es|] == es;
    AcceptsExactly(es, |es|, policy, limits);
    TrailRefusesExactly(es, |es|);
    forall i | 0 <= i < |es|
      ensures CleanEntry(es[i], policy, limits) <==> EntryFits(es[i], policy, limits)
    {
      PackedIsClean(es[i], policy, limits);
    }
  }

  /** A packed directory passes both checks exactly if its entries meet the caps and no link is above a later node. */
  lemma PackedDirAccepted(kids: Forest, mode: nat, caps: Caps, policy: Policy, limits: Limits)
    requires Listable(kids) && PackDir(kids, mode, caps).Fits?
    ensures var out := PackDir(kids, mode, caps).walked.out;
            CheckAll(NOTHING_CHECKED, out, policy, limits).Ok? <==>
            && AllFit(out, policy, limits) && WithinLimits(Counts(|out|, Saturate(TotalSize(out))), limits)
            && NoLinkAbove(Places(kids, []))
  {
    hide CheckAll, TrailAll, Flatten, AllFit, Names, AllContained, NoLinkAbove, Places;
    PackStaysUnderCaps(kids, mode, caps);
    RootNameHasNoNames();
    ForestIsPacked(kids, ROOT_NAME);
    PackedDirTrailExactly(kids, mode, caps);
    PackedAccepted(PackDir(kids, mode, caps).walked.out, policy, limits);
  }

  /** The same after it was renamed. */
  lemma RenamedDirAccepted(kids: Forest, mode: nat, caps: Caps, name: Name, policy: Policy, limits: Limits)
    requires Listable(kids) && ValidName(name) && PackDir(kids, mode, caps).Fits?
    ensures var out := RenameRoot(PackDir(kids, mode, caps).walked.out, name);
            CheckAll(NOTHING_CHECKED, out, policy, limits).Ok? <==>
            && AllFit(out, policy, limits) && WithinLimits(Counts(|out|, Saturate(TotalSize(out))), limits)
            && NoLinkAbove(Places(kids, []))
  {
    hide CheckAll, TrailAll, FlattenTree, AllFit, Names, AllContained, PackDir, NoLinkAbove, Places;
    RenamedIsFlattened(kids, mode, caps, name);
    NamesOfName(name);
    TreeIsPacked(DirTree(kids, mode), name);
    RenamedDirTrailExactly(kids, mode, caps, name);
    PackedAccepted(RenameRoot(PackDir(kids, mode, caps).walked.out, name), policy, limits);
  }

  // ---- the packer's own caps against the snapshot limits -------------------

  const SNAPSHOT_MAX_ENTRIES: nat := 2_000_000
  const SNAPSHOT_MAX_TOTAL_BYTES: U64 := 64 * 1024 * 1024 * 1024
  const SNAPSHOT_MAX_DEPTH: nat := 4096
  const LINUX_PATH_MAX: nat := 4096

  /** The caps of `pack_dir`. */
  const PACK_CAPS := Caps(SNAPSHOT_MAX_ENTRIES, SNAPSHOT_MAX_TOTAL_BYTES, SNAPSHOT_MAX_DEPTH)

  /** `Limits::snapshot`. */
  const SNAPSHOT_LIMITS := Limits(SNAPSHOT_MAX_ENTRIES, SNAPSHOT_MAX_TOTAL_BYTES, SNAPSHOT_MAX_TOTAL_BYTES,
                                  LINUX_PATH_MAX, SNAPSHOT_MAX_DEPTH)

  lemma {:induction false} PartsAreFew(raw: seq<Byte>)
    ensures |Parts(raw)| <= |raw|
    decreases |raw|
  {
    var n := FirstPart(raw);
    if n < |raw| {
      PartsAreFew(raw[n + 1..]);
    }
  }

  lemma {:induction false} NormalNamesAreFew(cs: seq<Component>)
    ensures |NormalNames(cs)| <= |cs|
  {
    if cs != [] {
      NormalNamesAreFew(cs[1..]);
    }
  }

  /** A path has no more names than bytes. */
  lemma NamesAreFew(raw: seq<Byte>)
    ensures |Names(raw)| <= |raw|
  {
    hide Parts, NormalNames;
    PartsAreFew(raw);
    NormalNamesAreFew(Parts(raw));
    NamesOfParts(raw);
  }

  lemma NamesOfParts(raw: seq<Byte>)
    ensures Names(raw) == NormalNames(Parts(raw))
  {
    hide Parts;
    assert ([RootDir] + Parts(raw))[1..] == Parts(raw) && ([CurDir] + Parts(raw))[1..] == Parts(raw);
    assert Components([]) == [] && (raw == [] ==> Parts(raw) == []) by {
      PartsAreFew(raw);
    }
  }

  lemma {:induction false} SizeWithinTotal(es: seq<Entry>, i: nat)
    requires i < |es|
    ensures es[i].size <= TotalSize(es)
  {
    if i > 0 {
      SizeWithinTotal(es[1..], i - 1);
    }
  }

  predicate ShortPaths(es: seq<Entry>) {
    forall i :: 0 <= i < |es| ==> |es[i].path| <= LINUX_PATH_MAX
  }

  lemma SnapshotFits(es: seq<Entry>)
    requires TotalSize(es) <= SNAPSHOT_MAX_TOTAL_BYTES
    ensures AllFit(es, Snapshot, SNAPSHOT_LIMITS) <==> ShortPaths(es)
  {
    hide Names, SetIdBits, TotalSize;
    forall i | 0 <= i < |es|
      ensures EntryFits(es[i], Snapshot, SNAPSHOT_LIMITS) <==> |es[i].path| <= LINUX_PATH_MAX
    {
      NamesAreFew(es[i].path);
      SizeWithinTotal(es, i);
    }
  }

  /**
   A directory that `pack_dir` packs passes the snapshot checks exactly if every
   path is short enough, no link is above a later node and it is not full: one
   that just meets the packer's own entry cap is refused, because its root header
   counts only on the other side.
   */
  lemma SnapshotAccepts(kids: Forest, mode: nat)
    requires Listable(kids) && PackDir(kids, mode, PACK_CAPS).Fits?
    ensures var out := PackDir(kids, mode, PACK_CAPS).walked.out;
            CheckAll(NOTHING_CHECKED, out, Snapshot, SNAPSHOT_LIMITS).Ok? <==>
            && ShortPaths(out) && |Flatten(kids, ROOT_NAME)| < SNAPSHOT_MAX_ENTRIES
            && NoLinkAbove(Places(kids, []))
  {
    hide CheckAll, AllFit, Flatten, ShortPaths, Listable, TotalSize, PackForest, NoLinkAbove, Places;
    PackStaysUnderCaps(kids, mode, PACK_CAPS);
    PackedDirAccepted(kids, mode, PACK_CAPS, Snapshot, SNAPSHOT_LIMITS);
    SnapshotFits(PackDir(kids, mode, PACK_CAPS).walked.out);
  }
}
