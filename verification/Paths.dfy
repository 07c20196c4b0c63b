/**
 Paths as `std::path` splits them on Unix, ASCII case folding, and joining
 names back into a path.
 */
module Paths {
  import opened Machine

  type Name = seq<Byte>

  const SLASH: Byte := 47
  const DOT: Byte := 46

  datatype Component = RootDir | CurDir | ParentDir | Normal(name: Name)

  /** Length of the text before the first slash of `raw`. */
  function FirstPart(raw: seq<Byte>): (n: nat)
    ensures n <= |raw|
    ensures SLASH !in raw[..n]
    ensures n < |raw| ==> raw[n] == SLASH
  {
    if raw == [] || raw[0] == SLASH then 0
    else 1 + FirstPart(raw[1..])
  }

  /** What one part between separators stands for; empty parts and `.` are dropped. */
  function PartComponents(part: seq<Byte>): seq<Component> {
    if part == [] || part == [DOT] then []
    else if part == [DOT, DOT] then [ParentDir]
    else [Normal(part)]
  }

  function Parts(raw: seq<Byte>): seq<Component>
    decreases |raw|
  {
    var n := FirstPart(raw);
    PartComponents(raw[..n]) + if n == |raw| then [] else Parts(raw[n + 1..])
  }

  /** `Path::components`: a leading slash and a leading `.` are kept. */
  function Components(raw: seq<Byte>): seq<Component> {
    if raw == [] then []
    else if raw[0] == SLASH then [RootDir] + Parts(raw)
    else if raw[0] == DOT && (|raw| == 1 || raw[1] == SLASH) then [CurDir] + Parts(raw)
    else Parts(raw)
  }

  /** `normal_components`: the plain names of a path, in order. */
  function NormalNames(cs: seq<Component>): seq<Name> {
    if cs == [] then []
    else (if cs[0].Normal? then [cs[0].name] else []) + NormalNames(cs[1..])
  }

  function Names(raw: seq<Byte>): seq<Name> {
    NormalNames(Components(raw))
  }

  /** Only relative, forward-moving components stay inside the root. */
  predicate IsContained(c: Component) {
    c.Normal? || c.CurDir?
  }

  predicate AllContained(raw: seq<Byte>) {
    forall i :: 0 <= i < |Components(raw)| ==> IsContained(Components(raw)[i])
  }

  function LowerByte(b: Byte): Byte {
    if 65 <= b <= 90 then b + 32 else b
  }

  function FoldName(n: Name): (r: Name)
    ensures |r| == |n|
  {
    seq(|n|, i requires 0 <= i < |n| => LowerByte(n[i]))
  }

  function Fold(p: seq<Name>): (r: seq<Name>)
    ensures |r| == |p|
    ensures forall i :: 0 <= i < |p| ==> r[i] == FoldName(p[i])
  {
    seq(|p|, i requires 0 <= i < |p| => FoldName(p[i]))
  }

  /** Two names fold alike exactly if they differ at most in the case of ASCII letters. */
  lemma FoldAlikeExactly(a: Name, b: Name)
    ensures FoldName(a) == FoldName(b) <==>
            |a| == |b| && forall i :: 0 <= i < |a| ==> SameLetter(a[i], b[i])
  {
    if |a| == |b| {
      forall i | 0 <= i < |a|
        ensures FoldName(a)[i] == FoldName(b)[i] <==> SameLetter(a[i], b[i])
      {
      }
    }
  }

  /** The same byte, or the upper and the lower case of one letter, A to Z being 65 to 90. */
  predicate SameLetter(x: Byte, y: Byte) {
    x == y || (65 <= x <= 90 && y == x + 32) || (65 <= y <= 90 && x == y + 32)
  }

  /** How a filesystem compares names. */
  datatype CaseRule = CaseSensitive | AsciiFolding

  function Key(rule: CaseRule, n: Name): (r: Name)
    ensures FoldName(r) == FoldName(n)
  {
    match rule
    case CaseSensitive => n
    case AsciiFolding =>
      assert FoldName(FoldName(n)) == FoldName(n);
      FoldName(n)
  }

  function KeyPath(rule: CaseRule, p: seq<Name>): (r: seq<Name>)
    ensures |r| == |p|
    ensures forall i :: 0 <= i < |p| ==> r[i] == Key(rule, p[i])
    ensures Fold(r) == Fold(p)
  {
    seq(|p|, i requires 0 <= i < |p| => Key(rule, p[i]))
  }

  lemma KeyPathAppend(rule: CaseRule, p: seq<Name>, q: seq<Name>)
    ensures KeyPath(rule, p + q) == KeyPath(rule, p) + KeyPath(rule, q)
  {
  }

  lemma FoldTake(p: seq<Name>, k: nat)
    requires k <= |p|
    ensures Fold(p[..k]) == Fold(p)[..k]
  {
  }

  /** What a directory listing can hold: no separator, not `.` or `..`, not empty. */
  predicate ValidName(n: Name) {
    n != [] && n != [DOT] && n != [DOT, DOT] && SLASH !in n
  }

  /** `Path::join` of one more name. */
  function JoinName(base: seq<Byte>, n: Name): seq<Byte> {
    if base == [] then n
    else if base[|base| - 1] == SLASH then base + n
    else base + [SLASH] + n
  }

  lemma {:induction false} FirstPartOfName(n: Name, tail: seq<Byte>)
    requires SLASH !in n
    ensures tail == [] || tail[0] == SLASH ==> FirstPart(n + tail) == |n|
    decreases |n|
  {
    if n != [] {
      assert (n + tail)[1..] == n[1..] + tail;
      FirstPartOfName(n[1..], tail);
    } else {
      assert n + tail == tail;
    }
  }

  /** A path splits at its first separator. */
  lemma PartsCut(part: seq<Byte>, tail: seq<Byte>)
    requires SLASH !in part
    ensures Parts(part + [SLASH] + tail) == PartComponents(part) + Parts(tail)
  {
    var all := part + [SLASH] + tail;
    assert all == part + ([SLASH] + tail);
    FirstPartOfName(part, [SLASH] + tail);
    assert all[..|part|] == part && all[|part| + 1..] == tail;
  }

  lemma PartsOfOne(part: seq<Byte>)
    requires SLASH !in part
    ensures Parts(part) == PartComponents(part)
  {
    FirstPartOfName(part, []);
    assert part + [] == part && part[..|part|] == part;
  }

  lemma {:induction false} PartsSnoc(base: seq<Byte>, n: Name)
    requires ValidName(n)
    ensures Parts(base + [SLASH] + n) == Parts(base) + [Normal(n)]
    decreases |base|
  {
    hide Parts;
    var k := FirstPart(base);
    PartsOfOne(n);
    if k < |base| {
      var part, tail := base[..k], base[k + 1..];
      assert base == part + [SLASH] + tail;
      PartsCut(part, tail);
      PartsSnoc(tail, n);
      PartsCut(part, tail + [SLASH] + n);
      assert base + [SLASH] + n == part + [SLASH] + (tail + [SLASH] + n);
    } else {
      assert base[..k] == base;
      PartsOfOne(base);
      PartsCut(base, n);
    }
  }

  lemma {:induction false} NormalNamesAppend(xs: seq<Component>, ys: seq<Component>)
    ensures NormalNames(xs + ys) == NormalNames(xs) + NormalNames(ys)
  {
    hide NormalNames;
    if xs == [] {
      assert xs + ys == ys;
      NoNormalNames();
    } else {
      assert (xs + ys)[1..] == xs[1..] + ys;
      NormalNamesAppend(xs[1..], ys);
      NormalNamesCons(xs + ys);
      NormalNamesCons(xs);
      var own := if xs[0].Normal? then [xs[0].name] else [];
      assert own + (NormalNames(xs[1..]) + NormalNames(ys)) == own + NormalNames(xs[1..]) + NormalNames(ys);
    }
  }

  lemma NoNormalNames()
    ensures NormalNames([]) == []
  {
  }

  lemma NormalNamesCons(cs: seq<Component>)
    requires cs != []
    ensures NormalNames(cs) == (if cs[0].Normal? then [cs[0].name] else []) + NormalNames(cs[1..])
  {
  }

  /** A base that names can be joined to: not empty and not ending in a separator. */
  predicate Joinable(base: seq<Byte>) {
    base != [] && base[|base| - 1] != SLASH
  }

  /** Joining a name adds exactly that name to what the path splits into. */
  lemma JoinAddsName(base: seq<Byte>, n: Name)
    requires Joinable(base) && ValidName(n)
    ensures Names(JoinName(base, n)) == Names(base) + [n]
    ensures Joinable(JoinName(base, n))
    ensures AllContained(base) ==> AllContained(JoinName(base, n))
  {
    hide Parts, NormalNames;
    JoinAddsComponent(base, n);
    NormalNamesAppend(Components(base), [Normal(n)]);
    OneNormalName(n);
  }

  lemma JoinAddsComponent(base: seq<Byte>, n: Name)
    requires Joinable(base) && ValidName(n)
    ensures JoinName(base, n) == base + [SLASH] + n
    ensures Components(JoinName(base, n)) == Components(base) + [Normal(n)]
  {
    hide Parts;
    PartsSnoc(base, n);
    assert (base + [SLASH] + n)[0] == base[0];
  }

  lemma OneNormalName(n: Name)
    ensures NormalNames([Normal(n)]) == [n]
  {
    assert [Normal(n)][1..] == [];
  }

  lemma NamesOfName(n: Name)
    requires ValidName(n)
    ensures Names(n) == [n] && Joinable(n) && AllContained(n)
  {
    PartsOfOne(n);
    assert n[0] == DOT && |n| == 1 ==> n == [DOT];
    assert Components(n) == [Normal(n)];
    OneNormalName(n);
  }

  // ---- contained paths -----------------------------------------------------

  function AsComponents(names: seq<Name>): (r: seq<Component>)
    ensures |r| == |names|
  {
    seq(|names|, i requires 0 <= i < |names| => Normal(names[i]))
  }

  predicate AllNormal(cs: seq<Component>) {
    forall i :: 0 <= i < |cs| ==> cs[i].Normal?
  }

  lemma {:induction false} PartsHaveNoCurDir(raw: seq<Byte>)
    ensures forall i :: 0 <= i < |Parts(raw)| ==> Parts(raw)[i].Normal? || Parts(raw)[i].ParentDir?
    decreases |raw|
  {
    var n := FirstPart(raw);
    if n < |raw| {
      PartsHaveNoCurDir(raw[n + 1..]);
    }
  }

  lemma {:induction false} NormalsAreTheirNames(cs: seq<Component>)
    requires AllNormal(cs)
    ensures AsComponents(NormalNames(cs)) == cs
  {
    if cs != [] {
      NormalsAreTheirNames(cs[1..]);
      assert NormalNames(cs) == [cs[0].name] + NormalNames(cs[1..]);
      assert cs == [cs[0]] + cs[1..];
    }
  }

  /** A contained path is its own normal names, perhaps after one leading `.`. */
  lemma ContainedShape(raw: seq<Byte>)
    requires AllContained(raw)
    ensures || Components(raw) == AsComponents(Names(raw))
            || Components(raw) == [CurDir] + AsComponents(Names(raw))
  {
    hide Parts, NormalNames;
    PartsHaveNoCurDir(raw);
    var cs := Components(raw);
    if cs != [] && cs[0].CurDir? {
      assert cs == [CurDir] + Parts(raw);
      forall i | 0 <= i < |Parts(raw)|
        ensures Parts(raw)[i].Normal?
      {
        assert cs[i + 1] == Parts(raw)[i] && IsContained(cs[i + 1]);
      }
      SkipCurDir(Parts(raw));
      NormalsAreTheirNames(Parts(raw));
    } else {
      assert AllNormal(cs);
      NormalsAreTheirNames(cs);
    }
  }

  lemma SkipCurDir(cs: seq<Component>)
    ensures NormalNames([CurDir] + cs) == NormalNames(cs)
  {
    assert ([CurDir] + cs)[1..] == cs;
  }
}
