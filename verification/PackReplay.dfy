/**
 Packing and unpacking are inverse: the packed entries pass the symlink trail
 and replay to the tree they came from, also after `rename_root`.
 */
module PackReplay {
  import opened Machine
  import opened Paths
  import opened SymlinkTrail
  import opened Replay
  import opened Pack

  /** The children's names as the filesystem compares them. */
  function KeyNames(rule: CaseRule, kids: Forest): set<Name> {
    match kids
    case NoMore => {}
    case Child(name, _, rest) => {Key(rule, name)} + KeyNames(rule, rest)
  }

  /** Names a directory listing can hold, all the way down. */
  predicate Listable(kids: Forest) {
    match kids
    case NoMore => true
    case Child(name, tree, rest) => ValidName(name) && (tree.DirTree? ==> Listable(tree.kids)) && Listable(rest)
  }

  /** No two siblings that the filesystem takes for one. */
  predicate Distinct(rule: CaseRule, kids: Forest) {
    match kids
    case NoMore => true
    case Child(name, tree, rest) =>
      && Key(rule, name) !in KeyNames(rule, rest)
      && (tree.DirTree? ==> Distinct(rule, tree.kids))
      && Distinct(rule, rest)
  }

  predicate ValidForest(rule: CaseRule, kids: Forest) {
    Listable(kids) && Distinct(rule, kids)
  }

  /** A relative path that never climbs and that names can be joined to. */
  predicate Inside(path: seq<Byte>) {
    Joinable(path) && AllContained(path)
  }

  /** A tree as the filesystem shows it at `at`: every node but the special ones. */
  function TreeFs(rule: CaseRule, t: Tree, at: seq<Name>): Fs
    decreases t
  {
    match t
    case DirTree(kids, _) => map[at := Dir] + ForestFs(rule, kids, at)
    case FileTree(body, _) => map[at := File(body)]
    case LinkTree(target) => map[at := SymlinkTo(target)]
    case SpecialTree => map[]
  }

  function ForestFs(rule: CaseRule, kids: Forest, up: seq<Name>): Fs
    decreases kids
  {
    match kids
    case NoMore => map[]
    case Child(name, tree, rest) => TreeFs(rule, tree, up + [Key(rule, name)]) + ForestFs(rule, rest, up)
  }

  /** `p` lies below `up`, in or under a child whose key is in `keys`. */
  predicate UnderChild(p: seq<Name>, up: seq<Name>, keys: set<Name>) {
    |up| < |p| && p[..|up|] == up && p[|up|] in keys
  }

  lemma {:induction false} TreeFsIsUnder(rule: CaseRule, t: Tree, up: seq<Name>, name: Name)
    ensures forall p :: p in TreeFs(rule, t, up + [Key(rule, name)]) ==> UnderChild(p, up, {Key(rule, name)})
    decreases t
  {
    var at := up + [Key(rule, name)];
    if t.DirTree? {
      ForestFsIsUnder(rule, t.kids, at);
      forall p | p in ForestFs(rule, t.kids, at)
        ensures UnderChild(p, up, {Key(rule, name)})
      {
        assert p[..|at|] == at;
        assert p[..|up|] == at[..|up|] == up && p[|up|] == at[|up|];
      }
    }
  }

  lemma {:induction false} ForestFsIsUnder(rule: CaseRule, kids: Forest, up: seq<Name>)
    ensures forall p :: p in ForestFs(rule, kids, up) ==> UnderChild(p, up, KeyNames(rule, kids))
    decreases kids
  {
    if kids.Child? {
      TreeFsIsUnder(rule, kids.tree, up, kids.name);
      ForestFsIsUnder(rule, kids.rest, up);
    }
  }

  /** Every directory on the way from `cur` down `keys` exists. */
  ghost predicate DirsDown(fs: Fs, cur: seq<Name>, keys: seq<Name>) {
    forall k :: 0 < k <= |keys| ==> cur + keys[..k] in fs && fs[cur + keys[..k]].Dir?
  }

  lemma DirsDownTail(fs: Fs, cur: seq<Name>, keys: seq<Name>)
    requires keys != [] && DirsDown(fs, cur, keys)
    ensures var p := cur + [keys[0]];
            p in fs && fs[p].Dir? && DirsDown(fs, p, keys[1..]) && p + keys[1..] == cur + keys
  {
    var p := cur + [keys[0]];
    assert cur + keys[..1] == p;
    forall k | 0 < k <= |keys| - 1
      ensures p + keys[1..][..k] in fs && fs[p + keys[1..][..k]].Dir?
    {
      assert p + keys[1..][..k] == cur + keys[..k + 1];
    }
  }

  lemma {:induction false} MakeDirsExisting(rule: CaseRule, fs: Fs, cur: seq<Name>, names: seq<Name>, hops: nat)
    requires DirsDown(fs, cur, KeyPath(rule, names))
    ensures MakeDirs(rule, fs, cur, AsComponents(names), hops) == (fs, At(cur + KeyPath(rule, names), hops))
    decreases |names|
  {
    hide DirsDown;
    if names == [] {
      assert cur + KeyPath(rule, names) == cur;
    } else {
      TailOf(rule, names);
      DirsDownTail(fs, cur, KeyPath(rule, names));
      MakeDirsExisting(rule, fs, cur + [Key(rule, names[0])], names[1..], hops);
    }
  }

  /** The node a packed entry becomes. */
  function PackedNode(e: Entry): Node {
    if e.kind.Directory? then Dir
    else if e.kind.Symlink? && e.link.Some? then SymlinkTo(e.link.value)
    else File(e.body)
  }

  predicate IsPackedEntry(e: Entry) {
    e.kind.Directory? || e.kind.Regular? || (e.kind.Symlink? && e.link.Some?)
  }

  /** A packed entry whose parent exists and whose own name is free is put right there. */
  lemma UnpackInFreePlace(rule: CaseRule, fs: Fs, e: Entry, up: seq<Name>, name: Name)
    requires IsPackedEntry(e) && AllContained(e.path) && Names(e.path) == up + [name]
    requires DirsDown(fs, [], KeyPath(rule, up))
    requires KeyPath(rule, up) + [Key(rule, name)] !in fs
    ensures var at := KeyPath(rule, up) + [Key(rule, name)];
            Unpack(rule, fs, e) == Done(fs[at := PackedNode(e)], at)
  {
    hide Names, Components, AllContained, MakeDirs;
    ContainedLookup(rule, fs, e.path);
    assert DropLast(up + [name]) == up && Last(up + [name]) == name;
    MakeDirsExisting(rule, fs, [], up, SYMLOOP_MAX);
    assert [] + KeyPath(rule, up) == KeyPath(rule, up);
  }

  ghost predicate FreeBelow(fs: Fs, up: seq<Name>, keys: set<Name>) {
    forall p :: p in fs ==> !UnderChild(p, up, keys)
  }

  lemma FreeBelowFewer(fs: Fs, up: seq<Name>, few: set<Name>, keys: set<Name>)
    requires FreeBelow(fs, up, keys) && few <= keys
    ensures FreeBelow(fs, up, few)
  {
    forall p | p in fs
      ensures !UnderChild(p, up, few)
    {
      assert !UnderChild(p, up, keys);
    }
  }

  lemma UnpackOne(rule: CaseRule, fs: Fs, e: Entry)
    ensures UnpackAll(rule, fs, [e]) ==
            match Unpack(rule, fs, e) {
              case Done(next, _) => Some(next)
              case Skipped => Some(fs)
              case Failed => None
            }
  {
    hide Unpack;
    assert [e][1..] == [];
  }

  lemma SingleReplays(rule: CaseRule, fs: Fs, e: Entry, up: seq<Name>, name: Name)
    requires IsPackedEntry(e) && AllContained(e.path) && Names(e.path) == up + [name]
    requires DirsDown(fs, [], KeyPath(rule, up))
    requires FreeBelow(fs, KeyPath(rule, up), {Key(rule, name)})
    ensures UnpackAll(rule, fs, [e]) == Some(fs + map[KeyPath(rule, up) + [Key(rule, name)] := PackedNode(e)])
  {
    hide Names, Unpack, UnpackAll;
    var at := KeyPath(rule, up) + [Key(rule, name)];
    assert UnderChild(at, KeyPath(rule, up), {Key(rule, name)});
    UnpackInFreePlace(rule, fs, e, up, name);
    UnpackOne(rule, fs, e);
    assert fs + map[at := PackedNode(e)] == fs[at := PackedNode(e)];
  }

  lemma {:induction false} TreeReplays(rule: CaseRule, fs: Fs, t: Tree, path: seq<Byte>, up: seq<Name>, name: Name)
    requires Inside(path) && Names(path) == up + [name]
    requires t.DirTree? ==> ValidForest(rule, t.kids)
    requires DirsDown(fs, [], KeyPath(rule, up))
    requires FreeBelow(fs, KeyPath(rule, up), {Key(rule, name)})
    ensures UnpackAll(rule, fs, FlattenTree(t, path)) ==
            Some(fs + TreeFs(rule, t, KeyPath(rule, up) + [Key(rule, name)]))
    decreases t
  {
    hide Names, Unpack, UnpackAll;
    var at := KeyPath(rule, up) + [Key(rule, name)];
    match t
    case FileTree(body, mode) =>
      SingleReplays(rule, fs, FileEntry(path, mode, body), up, name);
    case LinkTree(target) =>
      SingleReplays(rule, fs, LinkEntry(path, target), up, name);
    case SpecialTree =>
      UnpackNothing(rule, fs);
      assert fs + map[] == fs;
    case DirTree(kids, mode) =>
      SingleReplays(rule, fs, DirEntry(path, mode), up, name);
      var fs1 := fs + map[at := Dir];
      KeyPathAppend(rule, up, [name]);
      assert KeyPath(rule, up + [name]) == at;
      NewDirIsReady(rule, fs, up, name, KeyNames(rule, kids));
      ForestReplays(rule, fs1, kids, path);
      UnpackAllSplit(rule, fs, [DirEntry(path, mode)], Flatten(kids, path));
      PlusAssociates(fs, map[at := Dir], ForestFs(rule, kids, at));
  }

  lemma UnpackNothing(rule: CaseRule, fs: Fs)
    ensures UnpackAll(rule, fs, []) == Some(fs)
  {
  }

  lemma DeeperIsUnder(p: seq<Name>, up: seq<Name>, key: Name, keys: set<Name>)
    ensures UnderChild(p, up + [key], keys) ==> UnderChild(p, up, {key})
  {
    if UnderChild(p, up + [key], keys) {
      assert p[..|up| + 1] == up + [key];
      assert p[..|up|] == (up + [key])[..|up|] && p[|up|] == (up + [key])[|up|];
    }
  }

  lemma PlusAssociates(a: Fs, b: Fs, c: Fs)
    ensures a + b + c == a + (b + c)
  {
  }

  /** A directory just made is reachable and empty. */
  lemma NewDirIsReady(rule: CaseRule, fs: Fs, up: seq<Name>, name: Name, keys: set<Name>)
    requires DirsDown(fs, [], KeyPath(rule, up))
    requires FreeBelow(fs, KeyPath(rule, up), {Key(rule, name)})
    ensures var at := KeyPath(rule, up) + [Key(rule, name)];
            var fs1 := fs + map[at := Dir];
            DirsDown(fs1, [], at) && FreeBelow(fs1, at, keys)
  {
    var above := KeyPath(rule, up);
    var at := above + [Key(rule, name)];
    var fs1 := fs + map[at := Dir];
    forall k | 0 < k <= |at|
      ensures [] + at[..k] in fs1 && fs1[[] + at[..k]].Dir?
    {
      if k <= |above| {
        assert [] + at[..k] == [] + above[..k];
      } else {
        assert [] + at[..k] == at;
      }
    }
    forall p | p in fs1
      ensures !UnderChild(p, at, keys)
    {
      DeeperIsUnder(p, above, Key(rule, name), keys);
    }
  }

  /** A packed forest replays to its own tree, next to whatever was there. */
  lemma {:induction false} ForestReplays(rule: CaseRule, fs: Fs, kids: Forest, base: seq<Byte>)
    requires Inside(base) && ValidForest(rule, kids)
    requires DirsDown(fs, [], KeyPath(rule, Names(base)))
    requires FreeBelow(fs, KeyPath(rule, Names(base)), KeyNames(rule, kids))
    ensures UnpackAll(rule, fs, Flatten(kids, base)) == Some(fs + ForestFs(rule, kids, KeyPath(rule, Names(base))))
    decreases kids
  {
    hide Names, Unpack, UnpackAll, UnderChild, DirsDown;
    var up := Names(base);
    match kids
    case NoMore =>
      UnpackNothing(rule, fs);
      assert fs + map[] == fs;
    case Child(name, tree, rest) =>
      var path := JoinName(base, name);
      JoinAddsName(base, name);
      FreeBelowFewer(fs, KeyPath(rule, up), {Key(rule, name)}, KeyNames(rule, kids));
      TreeReplays(rule, fs, tree, path, up, name);
      var t := TreeFs(rule, tree, KeyPath(rule, up) + [Key(rule, name)]);
      TreeFsIsUnder(rule, tree, KeyPath(rule, up), name);
      SiblingsStayFree(fs, t, KeyPath(rule, up), Key(rule, name), KeyNames(rule, rest));
      ForestReplays(rule, fs + t, rest, base);
      UnpackAllSplit(rule, fs, FlattenTree(tree, path), Flatten(rest, base));
      PlusAssociates(fs, t, ForestFs(rule, rest, KeyPath(rule, up)));
  }

  lemma SiblingsStayFree(fs: Fs, t: Fs, up: seq<Name>, key: Name, others: set<Name>)
    requires key !in others
    requires DirsDown(fs, [], up)
    requires FreeBelow(fs, up, {key} + others)
    requires forall p :: p in t ==> UnderChild(p, up, {key})
    ensures DirsDown(fs + t, [], up) && FreeBelow(fs + t, up, others)
  {
    forall k | 0 < k <= |up|
      ensures [] + up[..k] in fs + t && (fs + t)[[] + up[..k]].Dir?
    {
      assert |[] + up[..k]| == k;
    }
  }

  /** Unpacking a packed directory into an empty root gives the tree back, special files aside. */
  lemma PackedDirReplays(rule: CaseRule, kids: Forest, mode: nat, caps: Caps)
    requires ValidForest(rule, kids) && PackDir(kids, mode, caps).Fits?
    ensures UnpackAll(rule, map[], PackDir(kids, mode, caps).walked.out) == Some(ForestFs(rule, kids, []))
  {
    hide Flatten, ForestFs, UnpackAll, PackForest, Names, Components, AllContained;
    PackStaysUnderCaps(kids, mode, caps);
    var root := DirEntry(ROOT_NAME, mode);
    RootNameHasNoNames();
    UnpackOne(rule, map[], root);
    UnpackAllSplit(rule, map[], [root], Flatten(kids, ROOT_NAME));
    ForestReplays(rule, map[], kids, ROOT_NAME);
    assert KeyPath(rule, Names(ROOT_NAME)) == [];
    assert map[] + ForestFs(rule, kids, []) == ForestFs(rule, kids, []);
  }

  lemma RootNameHasNoNames()
    ensures Components(ROOT_NAME) == [CurDir] && Names(ROOT_NAME) == [] && Inside(ROOT_NAME)
  {
    PartsOfOne(ROOT_NAME);
    assert Components(ROOT_NAME) == [CurDir];
    assert [CurDir][1..] == [];
  }

  // ---- the trail -----------------------------------------------------------

  /** No link is recorded at `up` or above, nor at or below its children in `keys`. */
  ghost predicate NoLinksAround(links: set<seq<Name>>, up: seq<Name>, keys: set<Name>) {
    && (forall k :: 0 <= k <= |up| ==> up[..k] !in links)
    && (forall l :: l in links ==> !UnderChild(l, up, keys))
  }

  /** The trail accepts `es` and records nothing but paths under those children. */
  ghost predicate PassesTrail(links: set<seq<Name>>, es: seq<Entry>, up: seq<Name>, keys: set<Name>) {
    && TrailAll(links, es).Ok?
    && forall l :: l in TrailAll(links, es).value ==> l in links || UnderChild(l, up, keys)
  }

  lemma SinglePassesTrail(links: set<seq<Name>>, e: Entry, up: seq<Name>, name: Name)
    requires IsPackedEntry(e) && Names(e.path) == up + [name]
    requires NoLinksAround(links, Fold(up), {FoldName(name)})
    ensures PassesTrail(links, [e], Fold(up), {FoldName(name)})
    ensures e.kind.Directory? ==> TrailAll(links, [e]) == Ok(links)
  {
    hide Names;
    assert [e][1..] == [];
    assert Fold(up + [name]) == Fold(up) + [FoldName(name)];
    assert FoldName(FoldName(name)) == FoldName(name);
    forall k | 0 <= k < |up + [name]|
      ensures Fold(up + [name])[..k] !in links
    {
      assert Fold(up + [name])[..k] == Fold(up)[..k];
    }
    assert !CrossesSymlink(links, Names(e.path));
    assert UnderChild(Fold(up + [name]), Fold(up), {FoldName(name)});
    assert Trail(links, e) == Ok(if e.kind.Symlink? then links + {Fold(up + [name])} else links);
    assert TrailAll(links, [e]) == Trail(links, e);
  }

  lemma {:induction false} TreePassesTrail(links: set<seq<Name>>, t: Tree, path: seq<Byte>, up: seq<Name>, name: Name)
    requires Inside(path) && Names(path) == up + [name]
    requires t.DirTree? ==> ValidForest(AsciiFolding, t.kids)
    requires NoLinksAround(links, Fold(up), {FoldName(name)})
    ensures PassesTrail(links, FlattenTree(t, path), Fold(up), {FoldName(name)})
    decreases t
  {
    hide Names, TrailAll;
    match t
    case FileTree(body, mode) => SinglePassesTrail(links, FileEntry(path, mode, body), up, name);
    case LinkTree(target) => SinglePassesTrail(links, LinkEntry(path, target), up, name);
    case SpecialTree => TrailOfNothing(links);
    case DirTree(kids, mode) =>
      SinglePassesTrail(links, DirEntry(path, mode), up, name);
      NoLinksInside(links, up, name, KeyNames(AsciiFolding, kids));
      ForestPassesTrail(links, kids, path);
      TrailAllSplit(links, [DirEntry(path, mode)], Flatten(kids, path));
      forall l | l in TrailAll(links, FlattenTree(t, path)).value
        ensures l in links || UnderChild(l, Fold(up), {FoldName(name)})
      {
        assert Fold(up + [name]) == Fold(up) + [FoldName(name)];
        assert FoldName(FoldName(name)) == FoldName(name);
        DeeperIsUnder(l, Fold(up), FoldName(name), KeyNames(AsciiFolding, kids));
      }
  }

  lemma NoLinksInside(links: set<seq<Name>>, up: seq<Name>, name: Name, keys: set<Name>)
    requires NoLinksAround(links, Fold(up), {FoldName(name)})
    ensures NoLinksAround(links, Fold(up + [name]), keys)
  {
    var at := Fold(up + [name]);
    assert at == Fold(up) + [FoldName(name)];
    assert FoldName(FoldName(name)) == FoldName(name);
    assert UnderChild(at, Fold(up), {FoldName(name)});
    forall k | 0 <= k <= |at|
      ensures at[..k] !in links
    {
      assert k < |at| ==> at[..k] == Fold(up)[..k];
      assert k == |at| ==> at[..k] == at;
    }
    forall l | l in links
      ensures !UnderChild(l, at, keys)
    {
      DeeperIsUnder(l, Fold(up), FoldName(name), keys);
    }
  }

  /** A packed forest passes the trail, and leaves it clear for everything beside it. */
  lemma {:induction false} ForestPassesTrail(links: set<seq<Name>>, kids: Forest, base: seq<Byte>)
    requires Inside(base) && ValidForest(AsciiFolding, kids)
    requires NoLinksAround(links, Fold(Names(base)), KeyNames(AsciiFolding, kids))
    ensures PassesTrail(links, Flatten(kids, base), Fold(Names(base)), KeyNames(AsciiFolding, kids))
    decreases kids
  {
    hide Names, TrailAll;
    var up := Names(base);
    match kids
    case NoMore => TrailOfNothing(links);
    case Child(name, tree, rest) =>
      var path := JoinName(base, name);
      JoinAddsName(base, name);
      NoLinksFewer(links, Fold(up), {FoldName(name)}, KeyNames(AsciiFolding, kids));
      TreePassesTrail(links, tree, path, up, name);
      var after := TrailAll(links, FlattenTree(tree, path)).value;
      LinksBesideStayClear(links, after, Fold(up), name, KeyNames(AsciiFolding, rest));
      ForestPassesTrail(after, rest, base);
      TrailAllSplit(links, FlattenTree(tree, path), Flatten(rest, base));
  }

  lemma NoLinksFewer(links: set<seq<Name>>, up: seq<Name>, few: set<Name>, keys: set<Name>)
    requires NoLinksAround(links, up, keys) && few <= keys
    ensures NoLinksAround(links, up, few)
  {
    forall l | l in links
      ensures !UnderChild(l, up, few)
    {
      assert !UnderChild(l, up, keys);
    }
  }

  lemma LinksBesideStayClear(links: set<seq<Name>>, after: set<seq<Name>>, up: seq<Name>, name: Name, others: set<Name>)
    requires FoldName(name) !in others
    requires NoLinksAround(links, up, {FoldName(name)} + others)
    requires forall l :: l in after ==> l in links || UnderChild(l, up, {FoldName(name)})
    ensures NoLinksAround(after, up, others)
  {
    forall l | l in after
      ensures !UnderChild(l, up, others)
    {
      assert l in links ==> !UnderChild(l, up, {FoldName(name)} + others);
    }
    forall k | 0 <= k <= |up|
      ensures up[..k] !in after
    {
      assert |up[..k]| == k;
    }
  }

  /** Every packed directory passes the symlink trail. */
  lemma PackedDirPassesTrail(kids: Forest, mode: nat, caps: Caps)
    requires ValidForest(AsciiFolding, kids) && PackDir(kids, mode, caps).Fits?
    ensures TrailAll({}, PackDir(kids, mode, caps).walked.out).Ok?
  {
    PackStaysUnderCaps(kids, mode, caps);
    var root := DirEntry(ROOT_NAME, mode);
    RootNameHasNoNames();
    assert Trail({}, root) == Ok({});
    assert [root][1..] == [];
    TrailOfNothing({});
    assert TrailAll({}, [root]) == Ok({});
    ForestPassesTrail({}, kids, ROOT_NAME);
    TrailAllSplit({}, [root], Flatten(kids, ROOT_NAME));
  }

  // ---- rename_root ---------------------------------------------------------

  function JoinAll(base: seq<Byte>, names: seq<Name>): seq<Byte> {
    if names == [] then base else JoinName(JoinAll(base, names[..|names| - 1]), names[|names| - 1])
  }

  function Renamed(e: Entry, name: Name): Entry {
    e.(path := JoinAll(name, Names(e.path)))
  }

  function RenameRoot(es: seq<Entry>, name: Name): seq<Entry> {
    if es == [] then [] else [Renamed(es[0], name)] + RenameRoot(es[1..], name)
  }

  lemma {:induction false} RenameRootAppend(xs: seq<Entry>, ys: seq<Entry>, name: Name)
    ensures RenameRoot(xs + ys, name) == RenameRoot(xs, name) + RenameRoot(ys, name)
    decreases |xs|
  {
    hide Renamed;
    if xs == [] {
      assert xs + ys == ys;
    } else {
      assert (xs + ys)[1..] == xs[1..] + ys;
      RenameRootAppend(xs[1..], ys, name);
    }
  }

  lemma RenamedJoin(base: seq<Byte>, child: Name, name: Name)
    requires Joinable(base) && ValidName(child)
    ensures JoinAll(name, Names(JoinName(base, child))) == JoinName(JoinAll(name, Names(base)), child)
  {
    hide Names;
    JoinAddsName(base, child);
    assert (Names(base) + [child])[..|Names(base)|] == Names(base);
  }

  /** Renaming the root of a packed forest is packing it under another base. */
  lemma {:induction false} RenameRebasesForest(kids: Forest, base: seq<Byte>, name: Name)
    requires Joinable(base) && Listable(kids)
    ensures RenameRoot(Flatten(kids, base), name) == Flatten(kids, JoinAll(name, Names(base)))
    decreases kids
  {
    hide Names;
    if kids.Child? {
      var path := JoinName(base, kids.name);
      JoinAddsName(base, kids.name);
      RenamedJoin(base, kids.name, name);
      RenameRebasesTree(kids.tree, path, name);
      RenameRebasesForest(kids.rest, base, name);
      RenameRootAppend(FlattenTree(kids.tree, path), Flatten(kids.rest, base), name);
    }
  }

  lemma RenameOne(e: Entry, name: Name)
    ensures RenameRoot([e], name) == [Renamed(e, name)]
  {
    hide Renamed;
    assert [e][1..] == [];
  }

  method JoinRest(name: Name, rest: seq<Name>) returns (path: seq<Byte>)
    ensures path == JoinAll(name, rest)
  {
    path := name;
    for k := 0 to |rest|
      invariant path == JoinAll(name, rest[..k])
    {
      assert rest[..k + 1][..k] == rest[..k];
      path := JoinName(path, rest[k]);
    }
    assert rest[..|rest|] == rest;
  }

  /** `rename_root` as the loop it is. */
  method RenameRootLoop(es: seq<Entry>, name: Name) returns (out: seq<Entry>)
    ensures out == RenameRoot(es, name)
  {
    hide Names;
    out := [];
    for i := 0 to |es|
      invariant out == RenameRoot(es[..i], name)
    {
      var path := JoinRest(name, Names(es[i].path));
      out := out + [es[i].(path := path)];
      RenameOne(es[i], name);
      RenameRootAppend(es[..i], [es[i]], name);
      assert es[..i + 1] == es[..i] + [es[i]];
    }
    assert es[..|es|] == es;
  }

  lemma {:induction false} RenameRebasesTree(t: Tree, path: seq<Byte>, name: Name)
    requires Joinable(path) && (t.DirTree? ==> Listable(t.kids))
    ensures RenameRoot(FlattenTree(t, path), name) == FlattenTree(t, JoinAll(name, Names(path)))
    decreases t
  {
    hide Names;
    match t
    case DirTree(kids, mode) =>
      RenameOne(DirEntry(path, mode), name);
      RenameRebasesForest(kids, path, name);
      RenameRootAppend([DirEntry(path, mode)], Flatten(kids, path), name);
    case FileTree(body, mode) => RenameOne(FileEntry(path, mode, body), name);
    case LinkTree(target) => RenameOne(LinkEntry(path, target), name);
    case SpecialTree =>
  }

  /** A packed directory renamed to `name` is that directory packed under `name`. */
  lemma RenamedIsFlattened(kids: Forest, mode: nat, caps: Caps, name: Name)
    requires Listable(kids) && ValidName(name) && PackDir(kids, mode, caps).Fits?
    ensures RenameRoot(PackDir(kids, mode, caps).walked.out, name) == FlattenTree(DirTree(kids, mode), name)
  {
    PackStaysUnderCaps(kids, mode, caps);
    var root := DirEntry(ROOT_NAME, mode);
    RootNameHasNoNames();
    RenameRebasesForest(kids, ROOT_NAME, name);
    RenameRootAppend([root], Flatten(kids, ROOT_NAME), name);
    RenameOne(root, name);
  }

  /** A packed directory renamed to `name` replays to the same tree under `name`. */
  lemma RenamedDirReplays(rule: CaseRule, kids: Forest, mode: nat, caps: Caps, name: Name)
    requires ValidForest(rule, kids) && ValidName(name) && PackDir(kids, mode, caps).Fits?
    ensures UnpackAll(rule, map[], RenameRoot(PackDir(kids, mode, caps).walked.out, name)) ==
            Some(TreeFs(rule, DirTree(kids, mode), [Key(rule, name)]))
  {
    RenamedIsFlattened(kids, mode, caps, name);
    RenamedRootReplays(rule, kids, mode, name);
  }

  /** A renamed packed directory passes the symlink trail too. */
  lemma RenamedDirPassesTrail(kids: Forest, mode: nat, caps: Caps, name: Name)
    requires ValidForest(AsciiFolding, kids) && ValidName(name) && PackDir(kids, mode, caps).Fits?
    ensures TrailAll({}, RenameRoot(PackDir(kids, mode, caps).walked.out, name)).Ok?
  {
    hide Names, TrailAll, FlattenTree, PackDir;
    RenamedIsFlattened(kids, mode, caps, name);
    NamesOfName(name);
    assert [] + [name] == [name];
    TreePassesTrail({}, DirTree(kids, mode), name, [], name);
  }

  lemma RenamedRootReplays(rule: CaseRule, kids: Forest, mode: nat, name: Name)
    requires ValidForest(rule, kids) && ValidName(name)
    ensures UnpackAll(rule, map[], FlattenTree(DirTree(kids, mode), name)) ==
            Some(TreeFs(rule, DirTree(kids, mode), [Key(rule, name)]))
  {
    hide Names, UnpackAll, FlattenTree, TreeFs;
    NamesOfName(name);
    assert KeyPath(rule, []) == [];
    var t := DirTree(kids, mode);
    assert [] + [name] == [name] && KeyPath(rule, []) + [Key(rule, name)] == [Key(rule, name)];
    TreeReplays(rule, map[], t, name, [], name);
    assert map[] + TreeFs(rule, t, [Key(rule, name)]) == TreeFs(rule, t, [Key(rule, name)]);
  }
}
