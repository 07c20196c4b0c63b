/**
 Unpacking checked entries into an empty directory, on a filesystem that
 follows symlinks the way the kernel does. The main theorem: an archive that
 passed the checks never makes it follow one.
 */
module Replay {
  import opened Machine
  import opened TarFormat
  import opened Paths
  import opened SymlinkTrail

  datatype Node = Dir | File(body: seq<Byte>) | SymlinkTo(target: seq<Byte>)

  /** The tree below the root, by path as the filesystem compares names. */
  type Fs = map<seq<Name>, Node>

  /** How many symlinks one path lookup may follow. */
  const SYMLOOP_MAX: nat := 40

  datatype Lookup =
    | At(dir: seq<Name>, hopsLeft: nat)
    | Outside
    | Missing
    | NotDirectory
    | TooManyLinks

  /** Path lookup of a directory, following every symlink on the way. */
  function Walk(rule: CaseRule, fs: Fs, cur: seq<Name>, todo: seq<Component>, hops: nat): Lookup
    decreases hops, |todo|
  {
    if todo == [] then At(cur, hops)
    else
      match todo[0]
      case RootDir => Outside
      case CurDir => Walk(rule, fs, cur, todo[1..], hops)
      case ParentDir =>
        if cur == [] then Outside else Walk(rule, fs, cur[..|cur| - 1], todo[1..], hops)
      case Normal(name) =>
        var p := cur + [Key(rule, name)];
        if p !in fs then Missing
        else
          match fs[p]
          case Dir => Walk(rule, fs, p, todo[1..], hops)
          case File(_) => NotDirectory
          case SymlinkTo(target) =>
            if hops == 0 then TooManyLinks
            else Walk(rule, fs, cur, Components(target) + todo[1..], hops - 1)
  }

  /** `create_dir_all`: the same lookup, making the directories it misses. */
  function MakeDirs(rule: CaseRule, fs: Fs, cur: seq<Name>, todo: seq<Component>, hops: nat): (Fs, Lookup)
    decreases hops, |todo|
  {
    if todo == [] then (fs, At(cur, hops))
    else
      match todo[0]
      case RootDir => (fs, Outside)
      case CurDir => MakeDirs(rule, fs, cur, todo[1..], hops)
      case ParentDir =>
        if cur == [] then (fs, Outside) else MakeDirs(rule, fs, cur[..|cur| - 1], todo[1..], hops)
      case Normal(name) =>
        var p := cur + [Key(rule, name)];
        if p !in fs then MakeDirs(rule, fs[p := Dir], p, todo[1..], hops)
        else
          match fs[p]
          case Dir => MakeDirs(rule, fs, p, todo[1..], hops)
          case File(_) => (fs, NotDirectory)
          case SymlinkTo(target) =>
            if hops == 0 then (fs, TooManyLinks)
            else MakeDirs(rule, fs, cur, Components(target) + todo[1..], hops - 1)
  }

  function DropLast(names: seq<Name>): seq<Name>
    requires names != []
  {
    names[..|names| - 1]
  }

  function Last(names: seq<Name>): Name
    requires names != []
  {
    names[|names| - 1]
  }

  /** A path whose last component is a name, so there is something to create or link. */
  predicate Named(cs: seq<Component>) {
    cs != [] && cs[|cs| - 1].Normal?
  }

  /** Where the parent of a path ends up, with the directories made on the way. */
  function ParentOf(rule: CaseRule, fs: Fs, cs: seq<Component>): (Fs, Lookup)
    requires cs != []
  {
    MakeDirs(rule, fs, [], cs[..|cs| - 1], SYMLOOP_MAX)
  }

  /** Where the parent of a hardlink target is found: `..` climbs and `/` is outside. */
  function TargetParent(rule: CaseRule, fs: Fs, cs: seq<Component>): Lookup
    requires cs != []
  {
    Walk(rule, fs, [], cs[..|cs| - 1], SYMLOOP_MAX)
  }

  /** The node an entry puts in place, or None when that fails. */
  function NewNode(rule: CaseRule, fs: Fs, e: Entry): Option<Node> {
    match e.kind
    case Directory => Some(Dir)
    case Symlink => if e.link.Some? then Some(SymlinkTo(e.link.value)) else None
    case Link =>
      if e.link.None? || !Named(Components(e.link.value)) then None
      else
        var cs := Components(e.link.value);
        var parent := TargetParent(rule, fs, cs);
        if !parent.At? then None
        else
          var source := parent.dir + [Key(rule, cs[|cs| - 1].name)];
          if source in fs && !fs[source].Dir? then Some(fs[source]) else None
    case _ => Some(File(e.body))
  }

  datatype Unpacked = Done(fs: Fs, at: seq<Name>) | Skipped | Failed

  /** Unpacks one entry; its last component is replaced, never followed. */
  function Unpack(rule: CaseRule, fs: Fs, e: Entry): Unpacked {
    var cs := Components(e.path);
    if e.kind.PaxGlobal? || cs == [] || cs == [CurDir] then Skipped
    else if !Named(cs) then Failed
    else
      var (made, parent) := ParentOf(rule, fs, cs);
      if !parent.At? then Failed
      else
        var at := parent.dir + [Key(rule, cs[|cs| - 1].name)];
        match NewNode(rule, made, e)
        case None => Failed
        case Some(node) =>
          if at in made && made[at].Dir? then
            if node.Dir? then Done(made, at) else Failed
          else Done(made[at := node], at)
  }

  /** The tree after unpacking all of `es`, or None once one of them fails. */
  function UnpackAll(rule: CaseRule, fs: Fs, es: seq<Entry>): Option<Fs>
    decreases |es|
  {
    if es == [] then Some(fs)
    else
      match Unpack(rule, fs, es[0])
      case Done(next, _) => UnpackAll(rule, next, es[1..])
      case Skipped => UnpackAll(rule, fs, es[1..])
      case Failed => None
  }

  /** Every live symlink is known to the trail. */
  ghost predicate LinksKnown(fs: Fs, links: set<seq<Name>>) {
    forall p :: p in fs && fs[p].SymlinkTo? ==> Fold(p) in links
  }

  /** No symlink sits on the way from `cur` down `keys`. */
  ghost predicate ClearWay(fs: Fs, cur: seq<Name>, keys: seq<Name>) {
    forall k :: 0 < k <= |keys| && cur + keys[..k] in fs ==> !fs[cur + keys[..k]].SymlinkTo?
  }

  lemma ClearWayTail(fs: Fs, cur: seq<Name>, keys: seq<Name>)
    requires keys != [] && ClearWay(fs, cur, keys)
    ensures var p := cur + [keys[0]];
            && (p in fs ==> !fs[p].SymlinkTo?)
            && ClearWay(fs, p, keys[1..])
            && p + keys[1..] == cur + keys
  {
    var p := cur + [keys[0]];
    assert cur + keys[..1] == p;
    forall k | 0 < k <= |keys| - 1 && p + keys[1..][..k] in fs
      ensures !fs[p + keys[1..][..k]].SymlinkTo?
    {
      assert p + keys[1..][..k] == cur + keys[..k + 1];
    }
  }

  lemma TailOf(rule: CaseRule, names: seq<Name>)
    requires names != []
    ensures KeyPath(rule, names)[1..] == KeyPath(rule, names[1..])
    ensures AsComponents(names)[1..] == AsComponents(names[1..])
  {
  }

  /** On a clear way, a lookup follows no symlink and stays on its path. */
  lemma {:induction false} WalkStraight(rule: CaseRule, fs: Fs, cur: seq<Name>, names: seq<Name>, hops: nat)
    requires ClearWay(fs, cur, KeyPath(rule, names))
    ensures var l := Walk(rule, fs, cur, AsComponents(names), hops);
            l == At(cur + KeyPath(rule, names), hops) || l == Missing || l == NotDirectory
    decreases |names|
  {
    if names == [] {
      assert cur + KeyPath(rule, names) == cur;
    } else {
      TailOf(rule, names);
      ClearWayTail(fs, cur, KeyPath(rule, names));
      WalkStraight(rule, fs, cur + [Key(rule, names[0])], names[1..], hops);
    }
  }

  /** `fs'` is `fs` with some missing prefixes of `path` made directories. */
  ghost predicate OnlyDirsAdded(fs: Fs, fs': Fs, path: seq<Name>) {
    && (forall p :: p in fs ==> p in fs' && fs'[p] == fs[p])
    && (forall p :: p in fs' && p !in fs ==> fs'[p] == Dir && p <= path)
  }

  lemma {:induction false} MakeDirsStraight(rule: CaseRule, fs: Fs, cur: seq<Name>, names: seq<Name>, hops: nat)
    requires ClearWay(fs, cur, KeyPath(rule, names))
    ensures var (made, l) := MakeDirs(rule, fs, cur, AsComponents(names), hops);
            && (l == At(cur + KeyPath(rule, names), hops) || l == NotDirectory)
            && OnlyDirsAdded(fs, made, cur + KeyPath(rule, names))
    decreases |names|
  {
    if names == [] {
      assert cur + KeyPath(rule, names) == cur;
    } else {
      TailOf(rule, names);
      ClearWayTail(fs, cur, KeyPath(rule, names));
      var p := cur + [Key(rule, names[0])];
      assert p <= p + KeyPath(rule, names[1..]);
      if p in fs {
        if fs[p].Dir? {
          MakeDirsStraight(rule, fs, p, names[1..], hops);
        }
      } else {
        assert ClearWay(fs[p := Dir], p, KeyPath(rule, names[1..]));
        MakeDirsStraight(rule, fs[p := Dir], p, names[1..], hops);
      }
    }
  }

  /** What the trail's verdict means for the tree: nothing on the way is a symlink. */
  lemma NotCrossingIsClear(rule: CaseRule, fs: Fs, links: set<seq<Name>>, names: seq<Name>)
    requires LinksKnown(fs, links) && !CrossesSymlink(links, names) && names != []
    ensures ClearWay(fs, [], KeyPath(rule, DropLast(names)))
  {
    var keys := KeyPath(rule, DropLast(names));
    forall k | 0 < k <= |keys| && [] + keys[..k] in fs
      ensures !fs[[] + keys[..k]].SymlinkTo?
    {
      var p := [] + keys[..k];
      assert p == KeyPath(rule, names[..k]);
      FoldTake(names, k);
      assert Fold(p) == Fold(names)[..k];
    }
  }

  /** A contained path is looked up along its normal names. */
  lemma ContainedLookup(rule: CaseRule, fs: Fs, raw: seq<Byte>)
    requires AllContained(raw)
    ensures var cs, names := Components(raw), Names(raw);
            if names == [] then cs == [] || cs == [CurDir]
            else
              && Named(cs) && cs[|cs| - 1].name == Last(names)
              && ParentOf(rule, fs, cs) == MakeDirs(rule, fs, [], AsComponents(DropLast(names)), SYMLOOP_MAX)
              && TargetParent(rule, fs, cs) == Walk(rule, fs, [], AsComponents(DropLast(names)), SYMLOOP_MAX)
  {
    hide Components, Names;
    ContainedShape(raw);
    var cs, names := Components(raw), Names(raw);
    if names == [] {
      assert AsComponents(names) == [];
    } else if cs == AsComponents(names) {
      assert cs[..|cs| - 1] == AsComponents(DropLast(names));
    } else {
      var rest := AsComponents(DropLast(names));
      assert cs[..|cs| - 1] == [CurDir] + rest;
      assert ([CurDir] + rest)[1..] == rest;
    }
  }

  /** What the entry check asks of the two paths of an entry. */
  predicate ContainedEntry(e: Entry) {
    AllContained(e.path) && (e.kind.Link? && e.link.Some? ==> AllContained(e.link.value))
  }

  /** What one unpacked entry may do: no lookup of it follows a symlink or leaves the root. */
  ghost predicate StaysInside(rule: CaseRule, fs: Fs, e: Entry) {
    var cs, names := Components(e.path), Names(e.path);
    && (names == [] ==> Unpack(rule, fs, e) == Skipped)
    && (names != [] && cs != [] ==>
          var (made, parent) := ParentOf(rule, fs, cs);
          && (parent == At(KeyPath(rule, DropLast(names)), SYMLOOP_MAX) || parent == NotDirectory)
          && (e.kind.Link? && e.link.Some? ==> TargetInside(rule, made, e.link.value)))
    && (Unpack(rule, fs, e).Done? ==> names != [] && WritesOnly(fs, Unpack(rule, fs, e), KeyPath(rule, names)))
  }

  /** A hardlink target is found at its own normal names, or not at all. */
  ghost predicate TargetInside(rule: CaseRule, fs: Fs, raw: seq<Byte>) {
    var cs, names := Components(raw), Names(raw);
    if names == [] || cs == [] then !Named(cs)
    else
      var l := TargetParent(rule, fs, cs);
      && Named(cs) && cs[|cs| - 1].name == Last(names)
      && (l == At(KeyPath(rule, DropLast(names)), SYMLOOP_MAX) || l == Missing || l == NotDirectory)
  }

  /** The write lands at `path` itself, and below the root only its ancestors are made. */
  ghost predicate WritesOnly(fs: Fs, u: Unpacked, path: seq<Name>)
    requires u.Done?
  {
    && u.at == path
    && (forall p :: p in fs && p != path ==> p in u.fs && u.fs[p] == fs[p])
    && (forall p :: p in u.fs && p !in fs && p != path ==> u.fs[p] == Dir && p <= path)
  }

  lemma KeyPathSnoc(rule: CaseRule, names: seq<Name>)
    requires names != []
    ensures KeyPath(rule, names) == KeyPath(rule, DropLast(names)) + [Key(rule, Last(names))]
    ensures KeyPath(rule, DropLast(names)) <= KeyPath(rule, names)
  {
  }

  lemma ParentStaysInside(rule: CaseRule, fs: Fs, links: set<seq<Name>>, raw: seq<Byte>)
    requires AllContained(raw) && Names(raw) != []
    requires LinksKnown(fs, links) && !CrossesSymlink(links, Names(raw))
    ensures Named(Components(raw)) && Components(raw)[|Components(raw)| - 1].name == Last(Names(raw))
    ensures var (made, parent) := ParentOf(rule, fs, Components(raw));
            var up := KeyPath(rule, DropLast(Names(raw)));
            && (parent == At(up, SYMLOOP_MAX) || parent == NotDirectory)
            && OnlyDirsAdded(fs, made, up)
            && LinksKnown(made, links)
  {
    hide MakeDirs, Names, Components, AllContained, ParentOf, CrossesSymlink;
    var names := Names(raw);
    ContainedLookup(rule, fs, raw);
    NotCrossingIsClear(rule, fs, links, names);
    MakeDirsStraight(rule, fs, [], DropLast(names), SYMLOOP_MAX);
    assert [] + KeyPath(rule, DropLast(names)) == KeyPath(rule, DropLast(names));
  }

  lemma LinkTargetStaysInside(rule: CaseRule, fs: Fs, links: set<seq<Name>>, raw: seq<Byte>)
    requires AllContained(raw)
    requires LinksKnown(fs, links) && !CrossesSymlink(links, Names(raw))
    ensures TargetInside(rule, fs, raw)
    ensures Named(Components(raw)) && TargetParent(rule, fs, Components(raw)).At? ==>
              var cs := Components(raw);
              Fold(TargetParent(rule, fs, cs).dir + [Key(rule, cs[|cs| - 1].name)]) == Fold(Names(raw))
  {
    hide Walk, Names, Components, AllContained, TargetParent, CrossesSymlink;
    var names := Names(raw);
    ContainedLookup(rule, fs, raw);
    if names != [] {
      NotCrossingIsClear(rule, fs, links, names);
      WalkStraight(rule, fs, [], DropLast(names), SYMLOOP_MAX);
      assert [] + KeyPath(rule, DropLast(names)) == KeyPath(rule, DropLast(names));
      KeyPathSnoc(rule, names);
    }
  }

  /** A symlink is only ever put in place by an entry the trail records. */
  lemma NewSymlinkIsRecorded(rule: CaseRule, fs: Fs, links: set<seq<Name>>, e: Entry)
    requires ContainedEntry(e) && LinksKnown(fs, links) && Trail(links, e).Ok?
    requires NewNode(rule, fs, e).Some? && NewNode(rule, fs, e).value.SymlinkTo?
    ensures Fold(Names(e.path)) in Trail(links, e).value
  {
    hide Names, Components, Walk, TargetParent, TargetInside, AllContained;
    if e.kind.Link? {
      LinkTargetStaysInside(rule, fs, links, e.link.value);
    }
  }

  /** The write of an entry whose parent stayed on its path. */
  lemma UnpackWritesOnly(rule: CaseRule, fs: Fs, links: set<seq<Name>>, e: Entry)
    requires AllContained(e.path) && LinksKnown(fs, links) && !CrossesSymlink(links, Names(e.path))
    requires Unpack(rule, fs, e).Done?
    ensures Names(e.path) != []
    ensures WritesOnly(fs, Unpack(rule, fs, e), KeyPath(rule, Names(e.path)))
  {
    hide Names, Components, ParentOf, NewNode, AllContained, CrossesSymlink, LinksKnown;
    ContainedLookup(rule, fs, e.path);
    ParentStaysInside(rule, fs, links, e.path);
    KeyPathSnoc(rule, Names(e.path));
  }

  /** Every live symlink stays known to the trail. */
  lemma UnpackKeepsLinksKnown(rule: CaseRule, fs: Fs, links: set<seq<Name>>, e: Entry)
    requires ContainedEntry(e) && LinksKnown(fs, links) && Trail(links, e).Ok?
    ensures links <= Trail(links, e).value
    ensures Unpack(rule, fs, e).Done? ==> LinksKnown(Unpack(rule, fs, e).fs, Trail(links, e).value)
  {
    hide Names, Components, MakeDirs, NewNode, AllContained, CrossesSymlink;
    if Unpack(rule, fs, e).Done? {
      ContainedLookup(rule, fs, e.path);
      ParentStaysInside(rule, fs, links, e.path);
      var (made, parent) := ParentOf(rule, fs, Components(e.path));
      KeyPathSnoc(rule, Names(e.path));
      if NewNode(rule, made, e).value.SymlinkTo? {
        NewSymlinkIsRecorded(rule, made, links, e);
      }
    }
  }

  /** No lookup of an accepted entry follows a symlink. */
  lemma AcceptedEntryStaysInside(rule: CaseRule, fs: Fs, links: set<seq<Name>>, e: Entry)
    requires ContainedEntry(e) && LinksKnown(fs, links) && Trail(links, e).Ok?
    ensures StaysInside(rule, fs, e)
  {
    hide Names, Components, MakeDirs, Walk, NewNode, WritesOnly, TargetInside, AllContained, CrossesSymlink;
    ContainedLookup(rule, fs, e.path);
    if Names(e.path) != [] {
      ParentStaysInside(rule, fs, links, e.path);
      var (made, parent) := ParentOf(rule, fs, Components(e.path));
      if e.kind.Link? && e.link.Some? {
        LinkTargetStaysInside(rule, made, links, e.link.value);
      }
    }
    if Unpack(rule, fs, e).Done? {
      UnpackWritesOnly(rule, fs, links, e);
    }
  }

  lemma CheckedIsContained(s: Checked, e: Entry, policy: Policy, limits: Limits)
    requires CheckOne(s, e, policy, limits).Ok?
    ensures ContainedEntry(e) && Trail(s.links, e).Ok?
    ensures CheckOne(s, e, policy, limits).value.links == Trail(s.links, e).value
  {
    hide AllContained, Names, Trail;
  }

  /** `../s`, looked up outside the root. */
  const CLIMBING: seq<Byte> := [DOT, DOT, SLASH, 115]

  lemma ClimbingIsOutside(rule: CaseRule, fs: Fs)
    ensures Components(CLIMBING) == [ParentDir, Normal([115])] && Names(CLIMBING) == [[115]]
    ensures TargetParent(rule, fs, Components(CLIMBING)) == Outside
  {
    var up: seq<Byte>, name: seq<Byte> := [DOT, DOT], [115];
    PartsOfOne(name);
    PartsCut(up, name);
    assert up + [SLASH] + name == CLIMBING;
    var cs := Components(CLIMBING);
    assert cs == [ParentDir] + [Normal(name)];
    assert cs[..1] == [ParentDir] && cs[1..] == [Normal(name)];
    OneNormalName(name);
  }

  /** The entry check is needed: the trail alone lets a hardlink to `../s` through, and it escapes. */
  lemma TrailAloneIsNotEnough(rule: CaseRule)
    ensures var e := Entry([102], Link, Some(CLIMBING), None, 0, []);
            && Trail({}, e).Ok? && !ContainedEntry(e)
            && !StaysInside(rule, map[], e)
  {
    hide Components, Names, TargetParent, ParentOf, Unpack, WritesOnly;
    var f: Name := [102];
    NamesOfName(f);
    ContainedLookup(rule, map[], f);
    var (made, parent) := ParentOf(rule, map[], Components(f));
    ClimbingIsOutside(rule, made);
    assert !IsContained(Components(CLIMBING)[0]);
    assert !TargetInside(rule, made, CLIMBING);
  }

  /**
   Every entry of an archive that passed both checks, unpacked in order into an
   empty root, stays inside it; and after each of them every live symlink is
   one the trail knows.
   */
  lemma {:induction false} CheckedArchiveStaysInside(rule: CaseRule, es: seq<Entry>, policy: Policy, limits: Limits,
                                                     n: nat)
    requires n <= |es|
    requires CheckAll(NOTHING_CHECKED, es, policy, limits).Ok?
    ensures CheckAll(NOTHING_CHECKED, es[..n], policy, limits).Ok?
    ensures var fs := UnpackAll(rule, map[], es[..n]);
            fs.Some? ==>
              && LinksKnown(fs.value, CheckAll(NOTHING_CHECKED, es[..n], policy, limits).value.links)
              && (n < |es| ==> StaysInside(rule, fs.value, es[n]))
  {
    hide Unpack, CheckOne, Trail, StaysInside, ContainedEntry;
    assert es == es[..n] + es[n..];
    CheckAllSplit(NOTHING_CHECKED, es[..n], es[n..], policy, limits);
    var s := CheckAll(NOTHING_CHECKED, es[..n], policy, limits).value;
    if n == 0 {
      assert LinksKnown(map[], s.links);
    } else {
      assert es[..n] == es[..n - 1] + [es[n - 1]];
      CheckedArchiveStaysInside(rule, es, policy, limits, n - 1);
      PrefixKeepsLinksKnown(rule, es[..n - 1], es[n - 1], policy, limits);
    }
    if n < |es| && UnpackAll(rule, map[], es[..n]).Some? {
      assert es[n..][0] == es[n];
      CheckedIsContained(s, es[n], policy, limits);
      AcceptedEntryStaysInside(rule, UnpackAll(rule, map[], es[..n]).value, s.links, es[n]);
    }
  }

  lemma {:induction false} UnpackAllSplit(rule: CaseRule, fs: Fs, xs: seq<Entry>, ys: seq<Entry>)
    ensures UnpackAll(rule, fs, xs + ys) ==
            match UnpackAll(rule, fs, xs) {
              case Some(next) => UnpackAll(rule, next, ys)
              case None => None
            }
    decreases |xs|
  {
    if xs == [] {
      assert xs + ys == ys;
    } else {
      assert (xs + ys)[1..] == xs[1..] + ys;
      match Unpack(rule, fs, xs[0]) {
        case Done(next, _) => UnpackAllSplit(rule, next, xs[1..], ys);
        case Skipped => UnpackAllSplit(rule, fs, xs[1..], ys);
        case Failed =>
      }
    }
  }

  lemma PrefixKeepsLinksKnown(rule: CaseRule, xs: seq<Entry>, e: Entry, policy: Policy, limits: Limits)
    requires CheckAll(NOTHING_CHECKED, xs + [e], policy, limits).Ok?
    requires var fs := UnpackAll(rule, map[], xs);
             CheckAll(NOTHING_CHECKED, xs, policy, limits).Ok? && fs.Some? ==>
               LinksKnown(fs.value, CheckAll(NOTHING_CHECKED, xs, policy, limits).value.links)
    ensures var fs := UnpackAll(rule, map[], xs + [e]);
            fs.Some? ==> LinksKnown(fs.value, CheckAll(NOTHING_CHECKED, xs + [e], policy, limits).value.links)
  {
    hide Unpack, CheckOne, Trail, ContainedEntry;
    CheckAllSplit(NOTHING_CHECKED, xs, [e], policy, limits);
    UnpackAllSplit(rule, map[], xs, [e]);
    assert [e][1..] == [];
    var s := CheckAll(NOTHING_CHECKED, xs, policy, limits).value;
    var fs := UnpackAll(rule, map[], xs);
    CheckedIsContained(s, e, policy, limits);
    if fs.Some? {
      UnpackKeepsLinksKnown(rule, fs.value, s.links, e);
    }
  }
}
