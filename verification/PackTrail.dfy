/**
 Which directory trees survive the symlink trail once they are packed, told from
 the tree alone. The trail ignores ASCII case and the packer does not, so a tree
 the packer writes can be refused where it is unpacked.
 */
module PackTrail {
  import opened Machine
  import opened Paths
  import opened SymlinkTrail
  import opened Replay
  import opened Pack
  import opened PackReplay

  /** A node of a tree: the names that lead to it, and whether it is a symlink. */
  datatype Place = Place(at: seq<Name>, link: bool)

  /** The nodes of a tree in the order its listings give them, special files left out. */
  function TreePlaces(t: Tree, at: seq<Name>): seq<Place>
    decreases t
  {
    match t
    case DirTree(kids, _) => [Place(at, false)] + Places(kids, at)
    case FileTree(_, _) => [Place(at, false)]
    case LinkTree(_) => [Place(at, true)]
    case SpecialTree => []
  }

  function Places(kids: Forest, up: seq<Name>): seq<Place>
    decreases kids
  {
    match kids
    case NoMore => []
    case Child(name, tree, rest) => TreePlaces(tree, up + [name]) + Places(rest, up)
  }

  /** No node is listed after a symlink that sits, ignoring ASCII case, above it. */
  predicate NoLinkAbove(ps: seq<Place>) {
    forall i, j :: 0 <= i < j < |ps| && ps[i].link ==> !ProperPrefix(Fold(ps[i].at), Fold(ps[j].at))
  }

  /** The entries stand for the nodes, one by one. */
  predicate StandFor(es: seq<Entry>, ps: seq<Place>) {
    && |es| == |ps|
    && forall i :: 0 <= i < |es| ==>
         Names(es[i].path) == ps[i].at && es[i].kind.Symlink? == ps[i].link && !es[i].kind.Link?
  }

  lemma StandForBoth(xs: seq<Entry>, ps: seq<Place>, ys: seq<Entry>, qs: seq<Place>)
    requires StandFor(xs, ps) && StandFor(ys, qs)
    ensures StandFor(xs + ys, ps + qs)
  {
    hide Names;
  }

  lemma {:induction false} ForestStandsFor(kids: Forest, base: seq<Byte>)
    requires Joinable(base) && Listable(kids)
    ensures StandFor(Flatten(kids, base), Places(kids, Names(base)))
    decreases kids
  {
    hide Names, StandFor;
    match kids
    case NoMore => NothingStandsFor();
    case Child(name, tree, rest) =>
      var path := JoinName(base, name);
      JoinAddsName(base, name);
      TreeStandsFor(tree, path);
      ForestStandsFor(rest, base);
      StandForBoth(FlattenTree(tree, path), TreePlaces(tree, Names(path)),
                   Flatten(rest, base), Places(rest, Names(base)));
  }

  lemma {:induction false} TreeStandsFor(t: Tree, path: seq<Byte>)
    requires Joinable(path) && (t.DirTree? ==> Listable(t.kids))
    ensures StandFor(FlattenTree(t, path), TreePlaces(t, Names(path)))
    decreases t
  {
    hide Names;
    if t.DirTree? {
      ForestStandsFor(t.kids, path);
      StandForBoth([DirEntry(path, t.dirMode)], [Place(Names(path), false)],
                   Flatten(t.kids, path), Places(t.kids, Names(path)));
    }
  }

  lemma NothingStandsFor()
    ensures StandFor([], [])
  {
  }

  /** Packed entries pass the trail exactly if none lies below a link listed before it. */
  lemma TrailOfPlaces(es: seq<Entry>, ps: seq<Place>)
    requires StandFor(es, ps)
    ensures TrailAll({}, es).Ok? <==> NoLinkAbove(ps)
  {
    hide Names, TrailAll, TrailIsExact;
    assert es[..|es|] == es;
    TrailRefusesExactly(es, |es|);
    forall i | 0 <= i < |es|
      ensures ThroughSymlink(es, i) <==> BelowLink(ps, i)
    {
      ThroughIsBelow(es, ps, i);
    }
    if NoLinkAbove(ps) {
      forall i | 0 <= i < |es|
        ensures !ThroughSymlink(es, i)
      {
        assert !BelowLink(ps, i);
      }
    } else {
      var i, j :| 0 <= i < j < |ps| && ps[i].link && ProperPrefix(Fold(ps[i].at), Fold(ps[j].at));
      assert BelowLink(ps, j);
    }
  }

  ghost predicate BelowLink(ps: seq<Place>, j: nat)
    requires j < |ps|
  {
    exists i :: 0 <= i < j && ps[i].link && ProperPrefix(Fold(ps[i].at), Fold(ps[j].at))
  }

  lemma ThroughIsBelow(es: seq<Entry>, ps: seq<Place>, i: nat)
    requires StandFor(es, ps) && i < |es|
    ensures ThroughSymlink(es, i) <==> BelowLink(ps, i)
  {
    hide Names, ProperPrefix;
    forall j | 0 <= j < i
      ensures LeavesSymlink(es, j) <==> ps[j].link
    {
    }
  }

  /** A directory in front, which is no link, changes nothing. */
  lemma DirInFront(first: Place, ps: seq<Place>)
    requires !first.link
    ensures NoLinkAbove([first] + ps) <==> NoLinkAbove(ps)
  {
    hide ProperPrefix;
    var all := [first] + ps;
    if NoLinkAbove(ps) {
      forall i, j | 0 <= i < j < |all| && all[i].link
        ensures !ProperPrefix(Fold(all[i].at), Fold(all[j].at))
      {
        assert all[i] == ps[i - 1] && all[j] == ps[j - 1];
      }
    }
    if NoLinkAbove(all) {
      forall i, j | 0 <= i < j < |ps| && ps[i].link
        ensures !ProperPrefix(Fold(ps[i].at), Fold(ps[j].at))
      {
        assert all[i + 1] == ps[i] && all[j + 1] == ps[j];
      }
    }
  }

  /**
   A packed directory passes the symlink trail exactly if no node of its tree is
   listed after a link that sits, ignoring ASCII case, above it.
   */
  lemma PackedDirTrailExactly(kids: Forest, mode: nat, caps: Caps)
    requires Listable(kids) && PackDir(kids, mode, caps).Fits?
    ensures TrailAll({}, PackDir(kids, mode, caps).walked.out).Ok? <==> NoLinkAbove(Places(kids, []))
  {
    hide Flatten, TrailAll, Names, Places, NoLinkAbove, StandFor;
    PackStaysUnderCaps(kids, mode, caps);
    RootNameHasNoNames();
    ForestStandsFor(kids, ROOT_NAME);
    RootStandsFor(mode);
    StandForBoth([DirEntry(ROOT_NAME, mode)], [Place([], false)], Flatten(kids, ROOT_NAME), Places(kids, []));
    TrailOfPlaces(PackDir(kids, mode, caps).walked.out, [Place([], false)] + Places(kids, []));
    DirInFront(Place([], false), Places(kids, []));
  }

  lemma RootStandsFor(mode: nat)
    ensures StandFor([DirEntry(ROOT_NAME, mode)], [Place([], false)])
  {
    hide Names;
    RootNameHasNoNames();
  }

  /** Siblings that differ beyond ASCII case are enough, whatever their order. */
  lemma DistinctHasNoLinkAbove(kids: Forest)
    requires ValidForest(AsciiFolding, kids)
    ensures NoLinkAbove(Places(kids, []))
  {
    hide Flatten, TrailAll, Names, Places, NoLinkAbove, StandFor;
    RootNameHasNoNames();
    ForestStandsFor(kids, ROOT_NAME);
    ForestPassesTrail({}, kids, ROOT_NAME);
    TrailOfPlaces(Flatten(kids, ROOT_NAME), Places(kids, []));
  }

  // ---- the same tree under another root ------------------------------------

  /** The nodes of `ps` under one more directory. */
  ghost predicate Shifted(ps: seq<Place>, qs: seq<Place>, name: Name) {
    |ps| == |qs| && forall i :: 0 <= i < |ps| ==> ps[i].at == [name] + qs[i].at && ps[i].link == qs[i].link
  }

  lemma {:induction false} PlacesShift(kids: Forest, name: Name, up: seq<Name>)
    ensures Shifted(Places(kids, [name] + up), Places(kids, up), name)
    decreases kids
  {
    if kids.Child? {
      assert ([name] + up) + [kids.name] == [name] + (up + [kids.name]);
      TreePlacesShift(kids.tree, name, up + [kids.name]);
      PlacesShift(kids.rest, name, up);
    }
  }

  lemma {:induction false} TreePlacesShift(t: Tree, name: Name, at: seq<Name>)
    ensures Shifted(TreePlaces(t, [name] + at), TreePlaces(t, at), name)
    decreases t
  {
    if t.DirTree? {
      PlacesShift(t.kids, name, at);
    }
  }

  lemma PrefixShift(name: Name, a: seq<Name>, b: seq<Name>)
    ensures ProperPrefix(Fold([name] + a), Fold([name] + b)) <==> ProperPrefix(Fold(a), Fold(b))
  {
    assert Fold([name] + a) == [FoldName(name)] + Fold(a);
    assert Fold([name] + b) == [FoldName(name)] + Fold(b);
    if |a| < |b| {
      assert ([FoldName(name)] + Fold(b))[..|a| + 1] == [FoldName(name)] + Fold(b)[..|a|];
      assert ([FoldName(name)] + Fold(a))[1..] == Fold(a);
      assert ([FoldName(name)] + Fold(b)[..|a|])[1..] == Fold(b)[..|a|];
    }
  }

  lemma ShiftKeepsNoLinkAbove(ps: seq<Place>, qs: seq<Place>, name: Name)
    requires Shifted(ps, qs, name)
    ensures NoLinkAbove(ps) <==> NoLinkAbove(qs)
  {
    hide ProperPrefix;
    forall i, j | 0 <= i < j < |ps|
      ensures ProperPrefix(Fold(ps[i].at), Fold(ps[j].at)) <==> ProperPrefix(Fold(qs[i].at), Fold(qs[j].at))
    {
      PrefixShift(name, qs[i].at, qs[j].at);
    }
  }

  /** Renaming the root does not change whether a packed directory passes. */
  lemma RenamedDirTrailExactly(kids: Forest, mode: nat, caps: Caps, name: Name)
    requires Listable(kids) && ValidName(name) && PackDir(kids, mode, caps).Fits?
    ensures TrailAll({}, RenameRoot(PackDir(kids, mode, caps).walked.out, name)).Ok? <==>
            NoLinkAbove(Places(kids, []))
  {
    hide FlattenTree, TrailAll, Names, Places, NoLinkAbove, StandFor, Shifted, PackDir;
    RenamedIsFlattened(kids, mode, caps, name);
    NamesOfName(name);
    var t := DirTree(kids, mode);
    TreeStandsFor(t, name);
    TrailOfPlaces(FlattenTree(t, name), TreePlaces(t, [name]));
    DirInFront(Place([name], false), Places(kids, [name]));
    assert [name] + [] == [name];
    PlacesShift(kids, name, []);
    ShiftKeepsNoLinkAbove(Places(kids, [name]), Places(kids, []), name);
  }

  // ---- a tree that is packed and then refused ------------------------------

  const LOWER_A: Name := [97]
  const UPPER_A: Name := [65]

  function OnlyFile(file: Name, mode: nat): Forest {
    Child(file, FileTree([], mode), NoMore)
  }

  /** A symlink `a` listed before a directory `A` that holds a file. */
  function LinkBesideDir(target: seq<Byte>, file: Name, mode: nat): Forest {
    Child(LOWER_A, LinkTree(target), Child(UPPER_A, DirTree(OnlyFile(file, mode), mode), NoMore))
  }

  lemma LinkBesideDirIsValid(target: seq<Byte>, file: Name, mode: nat)
    requires ValidName(file)
    ensures ValidForest(CaseSensitive, LinkBesideDir(target, file, mode))
  {
    assert ValidForest(CaseSensitive, OnlyFile(file, mode));
    assert ValidForest(CaseSensitive, Child(UPPER_A, DirTree(OnlyFile(file, mode), mode), NoMore));
    assert LOWER_A[0] != UPPER_A[0];
  }

  lemma LinkBesideDirIsPacked(target: seq<Byte>, file: Name, mode: nat, caps: Caps)
    requires caps.entries >= 3 && caps.depth >= 1
    ensures PackDir(LinkBesideDir(target, file, mode), mode, caps).Fits?
  {
    hide JoinName;
    var inner := OnlyFile(file, mode);
    var w := Walked(0, 0, [DirEntry(ROOT_NAME, mode)]);
    var w1 := PackTree(w, LinkTree(target), JoinName(ROOT_NAME, LOWER_A), 0, caps).walked;
    var path := JoinName(ROOT_NAME, UPPER_A);
    var w2 := Admit(w1, DirEntry(path, mode), caps).walked;
    assert PackTree(w2, FileTree([], mode), JoinName(path, file), 1, caps).Fits?;
    assert PackForest(w2, inner, path, 1, caps).Fits?;
    assert PackTree(w1, DirTree(inner, mode), path, 0, caps).Fits?;
    assert PackForest(w1, Child(UPPER_A, DirTree(inner, mode), NoMore), ROOT_NAME, 0, caps).Fits?;
  }

  lemma LinkBesideDirHasLinkAbove(target: seq<Byte>, file: Name, mode: nat)
    ensures !NoLinkAbove(Places(LinkBesideDir(target, file, mode), []))
  {
    var inner := OnlyFile(file, mode);
    assert [UPPER_A] + [file] == [UPPER_A, file] && [] + [UPPER_A] == [UPPER_A] && [] + [LOWER_A] == [LOWER_A];
    assert Places(inner, [UPPER_A]) == [Place([UPPER_A, file], false)];
    var second := Child(UPPER_A, DirTree(inner, mode), NoMore);
    assert Places(second, []) == [Place([UPPER_A], false), Place([UPPER_A, file], false)];
    var ps := Places(LinkBesideDir(target, file, mode), []);
    assert ps == TreePlaces(LinkTree(target), [LOWER_A]) + Places(second, []);
    assert ps == [Place([LOWER_A], true), Place([UPPER_A], false), Place([UPPER_A, file], false)];
    assert FoldName(LOWER_A) == FoldName(UPPER_A);
    assert Fold(ps[2].at)[..1] == Fold(ps[0].at);
    assert ProperPrefix(Fold(ps[0].at), Fold(ps[2].at));
  }

  /**
   Such a tree is fine where case counts and is packed, yet the trail refuses it:
   for the trail the file lies below the link.
   */
  lemma LinkBesideDirRefused(target: seq<Byte>, file: Name, mode: nat, caps: Caps)
    requires ValidName(file)
    ensures var kids := LinkBesideDir(target, file, mode);
            && ValidForest(CaseSensitive, kids)
            && (caps.entries >= 3 && caps.depth >= 1 ==> PackDir(kids, mode, caps).Fits?)
            && (PackDir(kids, mode, caps).Fits? ==> TrailAll({}, PackDir(kids, mode, caps).walked.out).Err?)
  {
    hide TrailAll, PackDir, LinkBesideDir, Places, NoLinkAbove;
    var kids := LinkBesideDir(target, file, mode);
    LinkBesideDirIsValid(target, file, mode);
    LinkBesideDirHasLinkAbove(target, file, mode);
    if caps.entries >= 3 && caps.depth >= 1 {
      LinkBesideDirIsPacked(target, file, mode, caps);
    }
    if PackDir(kids, mode, caps).Fits? {
      PackedDirTrailExactly(kids, mode, caps);
    }
  }
}
