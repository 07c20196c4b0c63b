/**
 The archive checks that need no filesystem: `check_entry`, which bounds what
 an archive may hold, and the trail of symlink entries.
 */
module SymlinkTrail {
  import opened Machine
  import opened TarFormat
  import opened Paths

  datatype Policy = Snapshot | Copy

  datatype Limits = Limits(maxEntries: nat, maxFileBytes: nat, maxTotalBytes: U64,
                           maxPathLen: nat, maxDepth: nat)

  datatype ArchiveError =
    | UnsafePath | UnsafeLink | ForbiddenType | SetIdMode
    | EntryCountLimit | PathLengthLimit | PathDepthLimit | FileSizeLimit | TotalSizeLimit
    | UnreadableHeader

  datatype Result<+T> = Ok(value: T) | Err(error: ArchiveError)

  /** One archive entry. `mode` is None when its header field does not parse. */
  datatype Entry = Entry(path: seq<Byte>, kind: EntryKind, link: Option<seq<Byte>>,
                         mode: Option<nat>, size: U64, body: seq<Byte>)

  datatype Counts = Counts(entries: nat, bytes: U64)

  /** Whether `mode & 0o6000` is nonzero. */
  predicate HasSetId(mode: nat) {
    mode / 1024 % 4 != 0
  }

  /** The set-user-id bit, 0o4000, or the set-group-id bit, 0o2000, is set. */
  predicate SetIdBits(mode: nat) {
    mode / 2048 % 2 == 1 || mode / 1024 % 2 == 1
  }

  lemma HasSetIdExactly(mode: nat)
    ensures HasSetId(mode) <==> SetIdBits(mode)
  {
    var high := mode / 1024;
    assert mode / 2048 == high / 2;
    assert high == 4 * (high / 4) + high % 4;
  }

  predicate IsPlainType(kind: EntryKind) {
    kind in {Regular, Continuous, Directory, Symlink, Link, PaxGlobal}
  }

  /** What is wrong with the entry itself, apart from the running totals. */
  function EntryFault(e: Entry, policy: Policy): Option<ArchiveError> {
    if e.kind.Link? && (e.link.None? || !AllContained(e.link.value)) then Some(UnsafeLink)
    else if policy.Copy? && !IsPlainType(e.kind) then Some(ForbiddenType)
    else if policy.Copy? && e.mode.None? then Some(UnreadableHeader)
    else if policy.Copy? && HasSetId(e.mode.value) then Some(SetIdMode)
    else None
  }

  /** `check_entry`, with the totals it leaves behind. */
  function CheckedEntry(c: Counts, e: Entry, policy: Policy, limits: Limits): Result<Counts> {
    if c.entries + 1 > limits.maxEntries then Err(EntryCountLimit)
    else if |e.path| > limits.maxPathLen then Err(PathLengthLimit)
    else if !AllContained(e.path) then Err(UnsafePath)
    else if |Names(e.path)| > limits.maxDepth then Err(PathDepthLimit)
    else if e.size > limits.maxFileBytes then Err(FileSizeLimit)
    else
      var bytes := SaturatingAdd(c.bytes, e.size);
      if bytes > limits.maxTotalBytes then Err(TotalSizeLimit)
      else if EntryFault(e, policy).Some? then Err(EntryFault(e, policy).value)
      else Ok(Counts(c.entries + 1, bytes))
  }

  /** Whether a proper ancestor of `names` is in `links`. */
  predicate CrossesSymlink(links: set<seq<Name>>, names: seq<Name>) {
    exists k :: 0 <= k < |names| && Fold(names)[..k] in links
  }

  /** `SymlinkTrail::check`: the links known after `e`, or why `e` is refused. */
  function Trail(links: set<seq<Name>>, e: Entry): Result<set<seq<Name>>> {
    var names := Names(e.path);
    if CrossesSymlink(links, names) then Err(UnsafePath)
    else if e.kind.Symlink? then Ok(links + {Fold(names)})
    else if e.kind.Link? && e.link.Some? then
      var target := Names(e.link.value);
      if CrossesSymlink(links, target) then Err(UnsafeLink)
      else if Fold(target) in links then Ok(links + {Fold(names)})
      else Ok(links)
    else Ok(links)
  }

  /** The trail over a whole archive. */
  function TrailAll(links: set<seq<Name>>, es: seq<Entry>): Result<set<seq<Name>>>
    decreases |es|
  {
    if es == [] then Ok(links)
    else
      match Trail(links, es[0])
      case Err(error) => Err(error)
      case Ok(next) => TrailAll(next, es[1..])
  }

  lemma {:induction false} TrailAllSplit(links: set<seq<Name>>, xs: seq<Entry>, ys: seq<Entry>)
    ensures TrailAll(links, xs + ys) ==
            match TrailAll(links, xs) {
              case Ok(next) => TrailAll(next, ys)
              case Err(error) => Err(error)
            }
    decreases |xs|
  {
    hide Trail;
    if xs == [] {
      assert xs + ys == ys;
    } else {
      assert (xs + ys)[1..] == xs[1..] + ys;
      if Trail(links, xs[0]).Ok? {
        TrailAllSplit(Trail(links, xs[0]).value, xs[1..], ys);
      }
    }
  }

  lemma TrailOfNothing(links: set<seq<Name>>)
    ensures TrailAll(links, []) == Ok(links)
  {
  }

  // ---- both checks ---------------------------------------------------------

  datatype Checked = Checked(counts: Counts, links: set<seq<Name>>)

  const NOTHING_CHECKED := Checked(Counts(0, 0), {})

  function CheckOne(s: Checked, e: Entry, policy: Policy, limits: Limits): Result<Checked> {
    match CheckedEntry(s.counts, e, policy, limits)
    case Err(error) => Err(error)
    case Ok(counts) =>
      match Trail(s.links, e)
      case Err(error) => Err(error)
      case Ok(links) => Ok(Checked(counts, links))
  }

  /** Both checks over a whole archive, entry by entry. */
  function CheckAll(s: Checked, es: seq<Entry>, policy: Policy, limits: Limits): Result<Checked>
    decreases |es|
  {
    if es == [] then Ok(s)
    else
      match CheckOne(s, es[0], policy, limits)
      case Err(error) => Err(error)
      case Ok(next) => CheckAll(next, es[1..], policy, limits)
  }

  lemma {:induction false} CheckAllSplit(s: Checked, xs: seq<Entry>, ys: seq<Entry>, policy: Policy, limits: Limits)
    ensures CheckAll(s, xs + ys, policy, limits) ==
            match CheckAll(s, xs, policy, limits) {
              case Ok(next) => CheckAll(next, ys, policy, limits)
              case Err(error) => Err(error)
            }
    decreases |xs|
  {
    hide CheckOne;
    if xs == [] {
      assert xs + ys == ys;
    } else {
      assert (xs + ys)[1..] == xs[1..] + ys;
      if CheckOne(s, xs[0], policy, limits).Ok? {
        CheckAllSplit(CheckOne(s, xs[0], policy, limits).value, xs[1..], ys, policy, limits);
      }
    }
  }

  function TotalSize(es: seq<Entry>): nat {
    if es == [] then 0 else es[0].size + TotalSize(es[1..])
  }

  lemma {:induction false} TotalSizeAppend(xs: seq<Entry>, ys: seq<Entry>)
    ensures TotalSize(xs + ys) == TotalSize(xs) + TotalSize(ys)
  {
    if xs == [] {
      assert xs + ys == ys;
    } else {
      assert (xs + ys)[1..] == xs[1..] + ys;
      TotalSizeAppend(xs[1..], ys);
    }
  }

  lemma TotalSizeOne(e: Entry)
    ensures TotalSize([e]) == e.size
  {
    assert [e][1..] == [];
  }

  /** The counters a refused entry leaves: it counts, and so does its size once it was added up. */
  function CountsOnRefusal(c: Counts, e: Entry, error: ArchiveError): Counts {
    var before := error in {EntryCountLimit, PathLengthLimit, UnsafePath, PathDepthLimit, FileSizeLimit};
    Counts(c.entries + 1, if before then c.bytes else SaturatingAdd(c.bytes, e.size))
  }

  /** Running totals, updated in place as the source does. */
  class Totals {
    var counts: Counts

    constructor ()
      ensures counts == Counts(0, 0)
    {
      counts := Counts(0, 0);
    }

    /** The counters move even when the entry is refused. */
    method CheckEntry(e: Entry, policy: Policy, limits: Limits) returns (r: Result<()>)
      modifies this
      ensures match CheckedEntry(old(counts), e, policy, limits) {
                case Ok(after) => r == Ok(()) && counts == after
                case Err(error) => r == Err(error) && counts == CountsOnRefusal(old(counts), e, error)
              }
    {
      counts := counts.(entries := counts.entries + 1);
      if counts.entries > limits.maxEntries {
        return Err(EntryCountLimit);
      }
      if |e.path| > limits.maxPathLen {
        return Err(PathLengthLimit);
      }
      var contained, depth := CountComponents(e.path);
      if !contained {
        return Err(UnsafePath);
      }
      if depth > limits.maxDepth {
        return Err(PathDepthLimit);
      }
      if e.size > limits.maxFileBytes {
        return Err(FileSizeLimit);
      }
      counts := counts.(bytes := SaturatingAdd(counts.bytes, e.size));
      if counts.bytes > limits.maxTotalBytes {
        return Err(TotalSizeLimit);
      }
      var fault := EntryFault(e, policy);
      r := if fault.Some? then Err(fault.value) else Ok(());
    }
  }

  lemma {:induction false} NormalNamesSnoc(cs: seq<Component>, c: Component)
    ensures NormalNames(cs + [c]) == NormalNames(cs) + (if c.Normal? then [c.name] else [])
  {
    if cs == [] {
      assert cs + [c] == [c];
    } else {
      NormalNamesSnoc(cs[1..], c);
      assert (cs + [c])[1..] == cs[1..] + [c];
    }
  }

  method CountComponents(raw: seq<Byte>) returns (contained: bool, depth: nat)
    ensures contained == AllContained(raw)
    ensures depth == |Names(raw)|
  {
    hide Components;
    var cs := Components(raw);
    contained, depth := true, 0;
    for i := 0 to |cs|
      invariant contained == forall j :: 0 <= j < i ==> IsContained(cs[j])
      invariant depth == |NormalNames(cs[..i])|
    {
      contained := contained && IsContained(cs[i]);
      NormalNamesSnoc(cs[..i], cs[i]);
      assert cs[..i + 1] == cs[..i] + [cs[i]];
      if cs[i].Normal? {
        depth := depth + 1;
      }
    }
    assert cs[..|cs|] == cs;
  }

  /** The set of symlink paths the source grows. */
  class Symlinks {
    var links: set<seq<Name>>

    constructor ()
      ensures links == {}
    {
      links := {};
    }

    method Crosses(names: seq<Name>) returns (r: bool)
      ensures r == CrossesSymlink(links, names)
    {
      var folded := Fold(names);
      for k := 0 to |names|
        invariant forall j :: 0 <= j < k ==> folded[..j] !in links
      {
        if folded[..k] in links {
          return true;
        }
      }
      r := false;
    }

    method Check(e: Entry) returns (r: Result<()>)
      modifies this
      ensures match Trail(old(links), e) {
                case Ok(after) => r == Ok(()) && links == after
                case Err(error) => r == Err(error) && links == old(links)
              }
    {
      var names := Names(e.path);
      var crosses := Crosses(names);
      if crosses {
        return Err(UnsafePath);
      }
      if e.kind.Symlink? {
        links := links + {Fold(names)};
      } else if e.kind.Link? && e.link.Some? {
        var target := Names(e.link.value);
        crosses := Crosses(target);
        if crosses {
          return Err(UnsafeLink);
        }
        if Fold(target) in links {
          links := links + {Fold(names)};
        }
      }
      r := Ok(());
    }
  }

  // ---- exactly what the trail refuses -------------------------------------

  predicate ProperPrefix(a: seq<Name>, b: seq<Name>) {
    |a| < |b| && b[..|a|] == a
  }

  /** Entry `i` leaves a symlink behind: it is one, or it hardlinks to one. */
  ghost predicate LeavesSymlink(es: seq<Entry>, i: nat)
    requires i < |es|
    decreases i
  {
    || es[i].kind.Symlink?
    || (es[i].kind.Link? && es[i].link.Some? &&
        exists j :: 0 <= j < i && LeavesSymlink(es, j) &&
                    Fold(Names(es[j].path)) == Fold(Names(es[i].link.value)))
  }

  /** A symlink left before entry `n` sits, ignoring ASCII case, above `names`. */
  ghost predicate BelowSymlink(es: seq<Entry>, n: nat, names: seq<Name>)
    requires n <= |es|
  {
    exists j :: 0 <= j < n && LeavesSymlink(es, j) && ProperPrefix(Fold(Names(es[j].path)), Fold(names))
  }

  ghost predicate ThroughSymlink(es: seq<Entry>, i: nat)
    requires i < |es|
  {
    || BelowSymlink(es, i, Names(es[i].path))
    || (es[i].kind.Link? && es[i].link.Some? && BelowSymlink(es, i, Names(es[i].link.value)))
  }

  /** The links known after the first `n` entries. */
  function LinksAfter(es: seq<Entry>, n: nat): Result<set<seq<Name>>>
    requires n <= |es|
  {
    TrailAll({}, es[..n])
  }

  lemma LinksAfterOneMore(es: seq<Entry>, n: nat)
    requires n < |es|
    ensures LinksAfter(es, n + 1) ==
            match LinksAfter(es, n) {
              case Ok(links) => Trail(links, es[n])
              case Err(error) => Err(error)
            }
  {
    hide Trail;
    assert es[..n + 1] == es[..n] + [es[n]];
    TrailAllSplit({}, es[..n], [es[n]]);
    assert [es[n]][1..] == [];
  }

  /** The trail holds exactly the folded paths where symlinks were left. */
  ghost predicate TrailIsExact(es: seq<Entry>, n: nat, links: set<seq<Name>>)
    requires n <= |es|
  {
    forall p :: p in links <==> exists j :: 0 <= j < n && LeavesSymlink(es, j) && Fold(Names(es[j].path)) == p
  }

  lemma CrossesIffBelow(es: seq<Entry>, n: nat, links: set<seq<Name>>, names: seq<Name>)
    requires n <= |es| && TrailIsExact(es, n, links)
    ensures CrossesSymlink(links, names) <==> BelowSymlink(es, n, names)
  {
    hide Names;
    var folded := Fold(names);
    if CrossesSymlink(links, names) {
      var k :| 0 <= k < |names| && folded[..k] in links;
      var j :| 0 <= j < n && LeavesSymlink(es, j) && Fold(Names(es[j].path)) == folded[..k];
      assert ProperPrefix(Fold(Names(es[j].path)), folded);
    }
    if BelowSymlink(es, n, names) {
      var j :| 0 <= j < n && LeavesSymlink(es, j) && ProperPrefix(Fold(Names(es[j].path)), folded);
      var k := |Fold(Names(es[j].path))|;
      assert folded[..k] in links;
    }
  }

  /**
   The trail refuses an archive exactly when some entry, or the target of some
   hardlink, lies below a place where an earlier entry leaves a symlink.
   */
  lemma {:induction false} TrailRefusesExactly(es: seq<Entry>, n: nat)
    requires n <= |es|
    ensures LinksAfter(es, n).Ok? <==> forall i :: 0 <= i < n ==> !ThroughSymlink(es, i)
    ensures LinksAfter(es, n).Ok? ==> TrailIsExact(es, n, LinksAfter(es, n).value)
  {
    hide Names, Trail, LinksAfter, TrailIsExact;
    if n == 0 {
      NoLinksAtFirst(es);
    } else {
      TrailRefusesExactly(es, n - 1);
      LinksAfterOneMore(es, n - 1);
      if LinksAfter(es, n - 1).Ok? {
        var links := LinksAfter(es, n - 1).value;
        TrailStep(es, n - 1, links);
      }
    }
  }

  lemma NoLinksAtFirst(es: seq<Entry>)
    ensures LinksAfter(es, 0) == Ok({}) && TrailIsExact(es, 0, {})
  {
  }

  lemma TrailStep(es: seq<Entry>, i: nat, links: set<seq<Name>>)
    requires i < |es| && TrailIsExact(es, i, links)
    ensures Trail(links, es[i]).Ok? <==> !ThroughSymlink(es, i)
    ensures Trail(links, es[i]).Ok? ==> TrailIsExact(es, i + 1, Trail(links, es[i]).value)
  {
    hide Names;
    var e := es[i];
    CrossesIffBelow(es, i, links, Names(e.path));
    if e.kind.Link? && e.link.Some? {
      CrossesIffBelow(es, i, links, Names(e.link.value));
    }
    assert LeavesSymlink(es, i) <==>
      e.kind.Symlink? || (e.kind.Link? && e.link.Some? && Fold(Names(e.link.value)) in links);
    if Trail(links, e).Ok? {
      var after := Trail(links, e).value;
      forall p
        ensures p in after <==> exists j :: 0 <= j < i + 1 && LeavesSymlink(es, j) && Fold(Names(es[j].path)) == p
      {
        if p in links {
          var j :| 0 <= j < i && LeavesSymlink(es, j) && Fold(Names(es[j].path)) == p;
        }
      }
    }
  }
}
