/**
 Packing a directory tree into entries under caps, and re-rooting the result.
 The partner of both is `Replay`: unpacking gives the tree back.
 */
module Pack {
  import opened Machine
  import opened TarFormat
  import opened Paths
  import opened SymlinkTrail

  /** What a regular file holds; its length fits the header's size field. */
  type FileBody = s: seq<Byte> | |s| <= U64_MAX witness []

  datatype Tree =
    | DirTree(kids: Forest, dirMode: nat)
    | FileTree(body: FileBody, fileMode: nat)
    | LinkTree(target: seq<Byte>)
    | SpecialTree

  /** The children of a directory, in the order its listing gives them. */
  datatype Forest = NoMore | Child(name: Name, tree: Tree, rest: Forest)

  datatype Caps = Caps(entries: nat, bytes: U64, depth: nat)

  datatype PackLimit = EntryCap | ByteCap | DepthCap

  /** A pack walk: what it counted and what it wrote. */
  datatype Walked = Walked(entries: nat, bytes: U64, out: seq<Entry>)

  datatype Outcome = Fits(walked: Walked) | Exceeds(limit: PackLimit)

  const SYMLINK_MODE: nat := 0x1FF

  function DirEntry(path: seq<Byte>, mode: nat): Entry {
    Entry(path, Directory, None, Some(mode), 0, [])
  }

  function FileEntry(path: seq<Byte>, mode: nat, body: FileBody): Entry {
    Entry(path, Regular, None, Some(mode), |body|, body)
  }

  function LinkEntry(path: seq<Byte>, target: seq<Byte>): Entry {
    Entry(path, Symlink, Some(target), Some(SYMLINK_MODE), 0, [])
  }

  /** `Walk::admit`, followed by writing the entry. */
  function Admit(w: Walked, e: Entry, caps: Caps): Outcome {
    var bytes := SaturatingAdd(w.bytes, e.size);
    if w.entries + 1 > caps.entries then Exceeds(EntryCap)
    else if bytes > caps.bytes then Exceeds(ByteCap)
    else Fits(Walked(w.entries + 1, bytes, w.out + [e]))
  }

  /** One listed child: `path` is its entry name. */
  function PackTree(w: Walked, t: Tree, path: seq<Byte>, depth: nat, caps: Caps): Outcome
    decreases t
  {
    match t
    case DirTree(kids, mode) =>
      if depth >= caps.depth then Exceeds(DepthCap)
      else
        var admitted := Admit(w, DirEntry(path, mode), caps);
        if admitted.Exceeds? then admitted
        else PackForest(admitted.walked, kids, path, depth + 1, caps)
    case FileTree(body, mode) => Admit(w, FileEntry(path, mode, body), caps)
    case LinkTree(target) => Admit(w, LinkEntry(path, target), caps)
    case SpecialTree => Fits(w)
  }

  function PackForest(w: Walked, kids: Forest, base: seq<Byte>, depth: nat, caps: Caps): Outcome
    decreases kids
  {
    match kids
    case NoMore => Fits(w)
    case Child(name, tree, rest) =>
      var first := PackTree(w, tree, JoinName(base, name), depth, caps);
      if first.Exceeds? then first else PackForest(first.walked, rest, base, depth, caps)
  }

  /** The walk as the source runs it: counters and output updated in place. */
  class Walk {
    const caps: Caps
    var entries: nat
    var bytes: U64
    var out: seq<Entry>

    constructor (caps: Caps)
      ensures this.caps == caps && Value() == Walked(0, 0, [])
    {
      this.caps := caps;
      entries, bytes, out := 0, 0, [];
    }

    ghost function Value(): Walked
      reads this
    {
      Walked(entries, bytes, out)
    }

    method Write(e: Entry) returns (limit: Option<PackLimit>)
      modifies this
      ensures match old(Admit(Value(), e, caps)) {
                case Fits(after) => limit == None && Value() == after
                case Exceeds(which) => limit == Some(which)
              }
    {
      entries := entries + 1;
      bytes := SaturatingAdd(bytes, e.size);
      if entries > caps.entries {
        return Some(EntryCap);
      }
      if bytes > caps.bytes {
        return Some(ByteCap);
      }
      out := out + [e];
      limit := None;
    }

    method AppendTree(kids: Forest, base: seq<Byte>, depth: nat) returns (limit: Option<PackLimit>)
      modifies this
      ensures match old(PackForest(Value(), kids, base, depth, caps)) {
                case Fits(after) => limit == None && Value() == after
                case Exceeds(which) => limit == Some(which)
              }
      decreases Weight(kids)
    {
      var rest := kids;
      limit := None;
      while rest.Child?
        invariant limit == None && Weight(rest) <= Weight(kids)
        invariant PackForest(Value(), rest, base, depth, caps) == old(PackForest(Value(), kids, base, depth, caps))
        decreases rest
      {
        var path := JoinName(base, rest.name);
        match rest.tree {
          case DirTree(inner, mode) =>
            if depth >= caps.depth {
              return Some(DepthCap);
            }
            limit := Write(DirEntry(path, mode));
            if limit == None {
              limit := AppendTree(inner, path, depth + 1);
            }
          case FileTree(body, mode) =>
            limit := Write(FileEntry(path, mode, body));
          case LinkTree(target) =>
            limit := Write(LinkEntry(path, target));
          case SpecialTree =>
        }
        if limit.Some? {
          return;
        }
        rest := rest.rest;
      }
    }
  }

  /** Number of children at every level, the measure of the walk. */
  ghost function Weight(kids: Forest): (n: nat) {
    match kids
    case NoMore => 0
    case Child(_, tree, rest) => 1 + (if tree.DirTree? then Weight(tree.kids) else 0) + Weight(rest)
  }

  // ---- what a pack writes --------------------------------------------------

  /** The entries of a tree in preorder, special files left out. */
  function FlattenTree(t: Tree, path: seq<Byte>): seq<Entry>
    decreases t
  {
    match t
    case DirTree(kids, mode) => [DirEntry(path, mode)] + Flatten(kids, path)
    case FileTree(body, mode) => [FileEntry(path, mode, body)]
    case LinkTree(target) => [LinkEntry(path, target)]
    case SpecialTree => []
  }

  function Flatten(kids: Forest, base: seq<Byte>): seq<Entry>
    decreases kids
  {
    match kids
    case NoMore => []
    case Child(name, tree, rest) => FlattenTree(tree, JoinName(base, name)) + Flatten(rest, base)
  }

  /** No directory is listed at `cap` levels below the root or deeper. */
  predicate DepthFits(kids: Forest, depth: nat, cap: nat) {
    match kids
    case NoMore => true
    case Child(_, tree, rest) =>
      && (tree.DirTree? ==> depth < cap && DepthFits(tree.kids, depth + 1, cap))
      && DepthFits(rest, depth, cap)
  }

  predicate TreeDepthFits(t: Tree, depth: nat, cap: nat) {
    t.DirTree? ==> depth < cap && DepthFits(t.kids, depth + 1, cap)
  }

  ghost predicate WithinCaps(w: Walked, caps: Caps) {
    w.entries <= caps.entries && w.bytes <= caps.bytes
  }

  /** The walk after writing `es`, with its counters still saturating. */
  ghost function After(w: Walked, es: seq<Entry>): Walked {
    Walked(w.entries + |es|, Saturate(w.bytes + TotalSize(es)), w.out + es)
  }

  lemma AfterAppend(w: Walked, xs: seq<Entry>, ys: seq<Entry>)
    ensures After(After(w, xs), ys) == After(w, xs + ys)
  {
    TotalSizeAppend(xs, ys);
    assert w.out + xs + ys == w.out + (xs + ys);
  }

  /** What a walk is expected to do with entries `es`: write them all, or hit a cap. */
  ghost predicate Walks(w: Walked, es: seq<Entry>, depthFits: bool, caps: Caps, o: Outcome) {
    && (o.Fits? <==> depthFits && WithinCaps(After(w, es), caps))
    && (o.Fits? ==> o.walked == After(w, es))
  }

  lemma WalksOne(w: Walked, e: Entry, caps: Caps)
    requires WithinCaps(w, caps)
    ensures Walks(w, [e], true, caps, Admit(w, e, caps))
  {
    TotalSizeOne(e);
  }

  lemma WalksThen(w: Walked, xs: seq<Entry>, xFits: bool, first: Outcome, ys: seq<Entry>, yFits: bool, o: Outcome,
                  caps: Caps)
    requires Walks(w, xs, xFits, caps, first)
    requires first.Exceeds? ==> o.Exceeds?
    requires first.Fits? ==> Walks(first.walked, ys, yFits, caps, o)
    ensures Walks(w, xs + ys, xFits && yFits, caps, o)
  {
    AfterAppend(w, xs, ys);
    TotalSizeAppend(xs, ys);
  }

  /**
   A pack succeeds exactly when the whole tree fits the caps, and then it has
   written exactly the preorder entries of the tree.
   */
  lemma {:induction false} PackWritesFlatten(w: Walked, kids: Forest, base: seq<Byte>, depth: nat, caps: Caps)
    requires WithinCaps(w, caps)
    ensures Walks(w, Flatten(kids, base), DepthFits(kids, depth, caps.depth), caps,
                  PackForest(w, kids, base, depth, caps))
    decreases kids
  {
    match kids
    case NoMore =>
      assert w.out + [] == w.out;
    case Child(name, tree, rest) =>
      var path := JoinName(base, name);
      PackTreeWritesFlatten(w, tree, path, depth, caps);
      var first := PackTree(w, tree, path, depth, caps);
      if first.Fits? {
        PackWritesFlatten(first.walked, rest, base, depth, caps);
      }
      WalksThen(w, FlattenTree(tree, path), TreeDepthFits(tree, depth, caps.depth), first,
                Flatten(rest, base), DepthFits(rest, depth, caps.depth),
                PackForest(w, kids, base, depth, caps), caps);
  }

  lemma {:induction false} PackTreeWritesFlatten(w: Walked, t: Tree, path: seq<Byte>, depth: nat, caps: Caps)
    requires WithinCaps(w, caps)
    ensures Walks(w, FlattenTree(t, path), TreeDepthFits(t, depth, caps.depth), caps,
                  PackTree(w, t, path, depth, caps))
    decreases t
  {
    match t
    case DirTree(kids, mode) =>
      var e := DirEntry(path, mode);
      WalksOne(w, e, caps);
      var first := Admit(w, e, caps);
      if depth < caps.depth {
        if first.Fits? {
          PackWritesFlatten(first.walked, kids, path, depth + 1, caps);
        }
        WalksThen(w, [e], true, first, Flatten(kids, path), DepthFits(kids, depth + 1, caps.depth),
                  PackTree(w, t, path, depth, caps), caps);
      }
    case FileTree(body, mode) =>
      WalksOne(w, FileEntry(path, mode, body), caps);
    case LinkTree(target) =>
      WalksOne(w, LinkEntry(path, target), caps);
    case SpecialTree =>
      assert w.out + [] == w.out;
  }

  const ROOT_NAME: seq<Byte> := [DOT]

  /** `pack_dir`: the root header is written without being counted. */
  function PackDir(kids: Forest, mode: nat, caps: Caps): Outcome {
    PackForest(Walked(0, 0, [DirEntry(ROOT_NAME, mode)]), kids, ROOT_NAME, 0, caps)
  }

  /** A finished pack holds at most `caps.entries + 1` entries and `caps.bytes` body bytes. */
  lemma PackStaysUnderCaps(kids: Forest, mode: nat, caps: Caps)
    requires PackDir(kids, mode, caps).Fits?
    ensures var out := PackDir(kids, mode, caps).walked.out;
            && out == [DirEntry(ROOT_NAME, mode)] + Flatten(kids, ROOT_NAME)
            && |out| <= caps.entries + 1
            && (caps.bytes < U64_MAX ==> TotalSize(out) <= caps.bytes)
  {
    var root := DirEntry(ROOT_NAME, mode);
    PackWritesFlatten(Walked(0, 0, [root]), kids, ROOT_NAME, 0, caps);
    TotalSizeAppend([root], Flatten(kids, ROOT_NAME));
    assert [root][1..] == [];
  }
}
