/**
 `extract_libs` run by any number of processes that may crash at any step. The
 directory operations follow the `rename()` rules of IEEE Std 1003.1: a
 directory replaces a missing or empty one and nothing else.
 */
module Extraction {
  import opened Machine

  type Pid = nat

  /** `exposed` says whether group or other may write. */
  datatype File = Absent | Plain(bytes: seq<Byte>, exposed: bool)

  datatype Dir = Dir(krun: File, krunfw: File, exposed: bool)

  /** The embedded payloads, and whether a process's umask leaves group or other write bits. */
  datatype Bundle = Bundle(krun: seq<Byte>, krunfw: seq<Byte>, looseUmask: Pid -> bool)

  datatype Result = Success | IoFailure | NotPrivate

  /** Where a process is inside `extract_libs`. */
  datatype Pc =
    | Outside
    | CheckKrun | CheckKrunfw
    | VerifyBase | VerifyFinal | VerifyKrun | VerifyKrunfw
    | MakeBase | ChmodBase | ClearStaging | MakeStaging
    | CreateKrun | FillKrun | ChmodKrun
    | CreateKrunfw | FillKrunfw | ChmodKrunfw
    | Rename
    | RecheckKrun | RecheckKrunfw
    | CleanUp(outcome: Result)
    | Returned(result: Result)

  /** What happens next to a process; `IoError` is any failing system call. */
  datatype Move =
    | Start | Crash | Go | IoError
    | WriteBytes(count: nat)
    | RemoveKrun | RemoveKrunfw | RemoveDir

  /** What one process sees: the shared directories, its own staging directory and where it is. */
  datatype Local = Local(base: Option<bool>, final: Option<Dir>, mine: Option<Dir>, pc: Pc)

  predicate FinalHasKrun(l: Local) {
    l.final.Some? && l.final.value.krun.Plain?
  }

  predicate FinalHasKrunfw(l: Local) {
    l.final.Some? && l.final.value.krunfw.Plain?
  }

  predicate IsEmpty(d: Dir) {
    d.krun.Absent? && d.krunfw.Absent?
  }

  function Choose(l: Local, test: bool, yes: Pc, no: Pc): Option<Local> {
    Some(l.(pc := if test then yes else no))
  }

  /** The early return: both files exist, so each path must be private. */
  function Reuse(l: Local): Option<Local> {
    match l.pc
    case CheckKrun => Choose(l, FinalHasKrun(l), CheckKrunfw, MakeBase)
    case CheckKrunfw => Choose(l, FinalHasKrunfw(l), VerifyBase, MakeBase)
    case VerifyBase => Choose(l, l.base == Some(false), VerifyFinal, Returned(NotPrivate))
    case VerifyFinal => Choose(l, l.final.Some? && !l.final.value.exposed, VerifyKrun, Returned(NotPrivate))
    case VerifyKrun => Choose(l, FinalHasKrun(l) && !l.final.value.krun.exposed, VerifyKrunfw, Returned(NotPrivate))
    case VerifyKrunfw =>
      Choose(l, FinalHasKrunfw(l) && !l.final.value.krunfw.exposed, Returned(Success), Returned(NotPrivate))
    case _ => None
  }

  /** Making the directories a new copy is staged in. */
  function Prepare(l: Local, loose: bool): Option<Local> {
    match l.pc
    case MakeBase => Some(l.(base := if l.base.None? then Some(loose) else l.base, pc := ChmodBase))
    case ChmodBase => Some(l.(base := Some(false), pc := ClearStaging))
    case ClearStaging => Some(l.(pc := MakeStaging))
    case MakeStaging =>
      Some(l.(mine := if l.mine.None? then Some(Dir(Absent, Absent, loose)) else l.mine, pc := CreateKrun))
    case _ => None
  }

  /** `write_payload` of one library after the other. */
  function WritePayloads(b: Bundle, l: Local, loose: bool): Option<Local> {
    if l.mine.None? then None
    else
      var d := l.mine.value;
      match l.pc
      case CreateKrun => Some(l.(mine := Some(d.(krun := Plain([], loose))), pc := FillKrun))
      case FillKrun => if d.krun.Plain? && d.krun.bytes == b.krun then Some(l.(pc := ChmodKrun)) else None
      case ChmodKrun =>
        if d.krun.Plain? then Some(l.(mine := Some(d.(krun := Plain(d.krun.bytes, false))), pc := CreateKrunfw))
        else None
      case CreateKrunfw => Some(l.(mine := Some(d.(krunfw := Plain([], loose))), pc := FillKrunfw))
      case FillKrunfw => if d.krunfw.Plain? && d.krunfw.bytes == b.krunfw then Some(l.(pc := ChmodKrunfw)) else None
      case ChmodKrunfw =>
        if d.krunfw.Plain? then Some(l.(mine := Some(d.(krunfw := Plain(d.krunfw.bytes, false))), pc := Rename))
        else None
      case _ => None
  }

  /** The rename, and what follows when it fails. */
  function Publish(l: Local): Option<Local> {
    match l.pc
    case Rename =>
      if l.mine.Some? && (l.final.None? || IsEmpty(l.final.value)) then
        Some(l.(final := l.mine, mine := None, pc := Returned(Success)))
      else Some(l.(pc := RecheckKrun))
    case RecheckKrun => Choose(l, FinalHasKrun(l), RecheckKrunfw, CleanUp(IoFailure))
    case RecheckKrunfw => Choose(l, FinalHasKrunfw(l), CleanUp(Success), CleanUp(IoFailure))
    case CleanUp(outcome) => Some(l.(pc := Returned(outcome)))
    case _ => None
  }

  function Advance(b: Bundle, l: Local, loose: bool): Option<Local> {
    if Reuse(l).Some? then Reuse(l)
    else if Prepare(l, loose).Some? then Prepare(l, loose)
    else if WritePayloads(b, l, loose).Some? then WritePayloads(b, l, loose)
    else Publish(l)
  }

  /** The next `count` bytes of the payload being copied. */
  function WriteMore(b: Bundle, l: Local, count: nat): Option<Local> {
    if l.mine.None? then None
    else
      var d := l.mine.value;
      if l.pc.FillKrun? && d.krun.Plain? && |d.krun.bytes| + count <= |b.krun| then
        Some(l.(mine := Some(d.(krun := d.krun.(bytes := b.krun[..|d.krun.bytes| + count])))))
      else if l.pc.FillKrunfw? && d.krunfw.Plain? && |d.krunfw.bytes| + count <= |b.krunfw| then
        Some(l.(mine := Some(d.(krunfw := d.krunfw.(bytes := b.krunfw[..|d.krunfw.bytes| + count])))))
      else None
  }

  /** `remove_dir_all` removes one thing at a time and may stop anywhere. */
  function Remove(l: Local, m: Move): Option<Local> {
    if l.mine.None? || !(l.pc.ClearStaging? || l.pc.CleanUp?) then None
    else
      match m
      case RemoveKrun => Some(l.(mine := Some(l.mine.value.(krun := Absent))))
      case RemoveKrunfw => Some(l.(mine := Some(l.mine.value.(krunfw := Absent))))
      case _ => if IsEmpty(l.mine.value) then Some(l.(mine := None)) else None
  }

  /**
   A failing call ends the run, except that a file that cannot be seen counts as
   missing, a failed rename is looked into, and failed clean-ups are ignored.
   */
  function Fail(l: Local): Option<Local> {
    match l.pc
    case Outside => None
    case Returned(_) => None
    case CheckKrun => Some(l.(pc := MakeBase))
    case CheckKrunfw => Some(l.(pc := MakeBase))
    case ClearStaging => Some(l.(pc := MakeStaging))
    case Rename => Some(l.(pc := RecheckKrun))
    case RecheckKrun => Some(l.(pc := CleanUp(IoFailure)))
    case RecheckKrunfw => Some(l.(pc := CleanUp(IoFailure)))
    case CleanUp(outcome) => Some(l.(pc := Returned(outcome)))
    case _ => Some(l.(pc := Returned(IoFailure)))
  }

  function LocalNext(b: Bundle, l: Local, loose: bool, m: Move): Option<Local> {
    match m
    case Start => if l.pc.Outside? || l.pc.Returned? then Some(l.(pc := CheckKrun)) else None
    case Crash => Some(l.(pc := Outside))
    case Go => Advance(b, l, loose)
    case IoError => Fail(l)
    case WriteBytes(count) => WriteMore(b, l, count)
    case _ => Remove(l, m)
  }

  /** The whole system: staging directories are named by pid. */
  datatype State = State(base: Option<bool>, final: Option<Dir>, staging: map<Pid, Dir>, procs: map<Pid, Pc>)

  function View(s: State, p: Pid): Local {
    Local(s.base, s.final, if p in s.staging then Some(s.staging[p]) else None,
          if p in s.procs then s.procs[p] else Outside)
  }

  function Put(s: State, p: Pid, l: Local): State {
    State(l.base, l.final, if l.mine.Some? then s.staging[p := l.mine.value] else s.staging - {p}, s.procs[p := l.pc])
  }

  function Next(b: Bundle, s: State, p: Pid, m: Move): Option<State> {
    match LocalNext(b, View(s, p), b.looseUmask(p), m)
    case None => None
    case Some(l) => Some(Put(s, p, l))
  }

  // ---- the invariant -------------------------------------------------------

  predicate HasKrun(b: Bundle, d: Dir) {
    d.krun == Plain(b.krun, false)
  }

  /** Both libraries are there, whole and not writable by others. */
  predicate Complete(b: Bundle, d: Dir) {
    HasKrun(b, d) && d.krunfw == Plain(b.krunfw, false)
  }

  predicate Prefix(f: File, payload: seq<Byte>) {
    f.Plain? && f.bytes <= payload
  }

  /** The final directory is absent, or complete inside a private base. */
  predicate Published(b: Bundle, base: Option<bool>, final: Option<Dir>) {
    final.Some? ==> Complete(b, final.value) && base == Some(false)
  }

  /** Positions that need no private base yet, or say nothing about it. */
  predicate BeforeBase(pc: Pc) {
    pc.Outside? || pc.CheckKrun? || pc.CheckKrunfw? || pc.MakeBase? || pc.ChmodBase? || pc.Returned? || pc.VerifyBase?
  }

  /** Positions only reached when the final directory was seen. */
  predicate SawFinal(pc: Pc) {
    || pc == Returned(Success) || pc == CleanUp(Success) || pc.CheckKrunfw? || pc.RecheckKrunfw?
    || pc.VerifyBase? || pc.VerifyFinal? || pc.VerifyKrun? || pc.VerifyKrunfw?
  }

  /** What the staging directory holds at each position of the copy. */
  predicate Staged(b: Bundle, d: Dir, pc: Pc) {
    match pc
    case FillKrun => Prefix(d.krun, b.krun)
    case ChmodKrun => d.krun.Plain? && d.krun.bytes == b.krun
    case CreateKrunfw => HasKrun(b, d)
    case FillKrunfw => HasKrun(b, d) && Prefix(d.krunfw, b.krunfw)
    case ChmodKrunfw => HasKrun(b, d) && d.krunfw.Plain? && d.krunfw.bytes == b.krunfw
    case Rename => Complete(b, d)
    case _ => true
  }

  predicate Copying(pc: Pc) {
    || pc.CreateKrun? || pc.FillKrun? || pc.ChmodKrun?
    || pc.CreateKrunfw? || pc.FillKrunfw? || pc.ChmodKrunfw? || pc.Rename?
  }

  predicate LocalInv(b: Bundle, l: Local) {
    && Published(b, l.base, l.final)
    && (!BeforeBase(l.pc) ==> l.base == Some(false))
    && (SawFinal(l.pc) ==> l.final.Some?)
    && (Copying(l.pc) ==> l.mine.Some? && Staged(b, l.mine.value, l.pc))
  }

  ghost predicate Inv(b: Bundle, s: State) {
    forall p :: LocalInv(b, View(s, p))
  }

  /** A step never changes a final directory that is there, nor opens up the base. */
  predicate SharedStep(l: Local, l': Local) {
    && (l.final.Some? ==> l'.final == l.final)
    && (l.base == Some(false) ==> l'.base == Some(false))
  }

  lemma PayloadsKeepInv(b: Bundle, l: Local, loose: bool)
    requires LocalInv(b, l) && WritePayloads(b, l, loose).Some?
    ensures LocalInv(b, WritePayloads(b, l, loose).value) && SharedStep(l, WritePayloads(b, l, loose).value)
  {
  }

  lemma PublishKeepsInv(b: Bundle, l: Local)
    requires LocalInv(b, l) && Publish(l).Some?
    ensures LocalInv(b, Publish(l).value) && SharedStep(l, Publish(l).value)
  {
  }

  lemma AdvanceKeepsInv(b: Bundle, l: Local, loose: bool)
    requires LocalInv(b, l) && Advance(b, l, loose).Some?
    ensures LocalInv(b, Advance(b, l, loose).value) && SharedStep(l, Advance(b, l, loose).value)
  {
    hide WritePayloads, Publish;
    if WritePayloads(b, l, loose).Some? {
      PayloadsKeepInv(b, l, loose);
    } else if Publish(l).Some? {
      PublishKeepsInv(b, l);
    }
  }

  lemma LocalStepKeepsInv(b: Bundle, l: Local, loose: bool, m: Move)
    requires LocalInv(b, l) && LocalNext(b, l, loose, m).Some?
    ensures LocalInv(b, LocalNext(b, l, loose, m).value) && SharedStep(l, LocalNext(b, l, loose, m).value)
  {
    hide Advance;
    if m.Go? {
      AdvanceKeepsInv(b, l, loose);
    }
  }

  lemma PutAndView(s: State, p: Pid, l: Local, q: Pid)
    ensures View(Put(s, p, l), q) == if p == q then l else View(s, q).(base := l.base, final := l.final)
  {
  }

  lemma StepKeepsInv(b: Bundle, s: State, p: Pid, m: Move)
    requires Inv(b, s) && Next(b, s, p, m).Some?
    ensures Inv(b, Next(b, s, p, m).value)
    ensures s.final.Some? ==> Next(b, s, p, m).value.final == s.final
  {
    hide LocalNext;
    var l := LocalNext(b, View(s, p), b.looseUmask(p), m).value;
    LocalStepKeepsInv(b, View(s, p), b.looseUmask(p), m);
    forall q
      ensures LocalInv(b, View(Put(s, p, l), q))
    {
      PutAndView(s, p, l, q);
      assert LocalInv(b, View(s, q));
    }
    PutAndView(s, p, l, p);
  }

  // ---- every run -----------------------------------------------------------

  ghost predicate Reaches(b: Bundle, from: State, moves: seq<(Pid, Move)>, s: State)
    decreases |moves|
  {
    if moves == [] then from == s
    else
      var next := Next(b, from, moves[0].0, moves[0].1);
      next.Some? && Reaches(b, next.value, moves[1..], s)
  }

  /** No process inside, nothing published; the base and stale staging directories are arbitrary. */
  predicate Initial(s: State) {
    s.final.None? && s.procs == map[]
  }

  lemma InitialHasInv(b: Bundle, s: State)
    requires Initial(s)
    ensures Inv(b, s)
  {
  }

  lemma {:induction false} RunKeepsInv(b: Bundle, from: State, moves: seq<(Pid, Move)>, s: State)
    requires Inv(b, from) && Reaches(b, from, moves, s)
    ensures Inv(b, s)
    ensures from.final.Some? ==> s.final == from.final
    decreases |moves|
  {
    if moves != [] {
      hide Next, Inv;
      StepKeepsInv(b, from, moves[0].0, moves[0].1);
      RunKeepsInv(b, Next(b, from, moves[0].0, moves[0].1).value, moves[1..], s);
    }
  }

  /**
   Whatever the processes do and wherever they crash: the final directory is
   absent or complete, once there it never changes, and every success names two
   complete libraries.
   */
  lemma EveryRunIsSafe(b: Bundle, init: State, early: seq<(Pid, Move)>, mid: State, late: seq<(Pid, Move)>, s: State)
    requires Initial(init) && Reaches(b, init, early, mid) && Reaches(b, mid, late, s)
    ensures s.final.Some? ==> Complete(b, s.final.value)
    ensures mid.final.Some? ==> s.final == mid.final
    ensures forall p :: View(s, p).pc == Returned(Success) ==> s.final.Some? && Complete(b, s.final.value)
  {
    InitialHasInv(b, init);
    RunKeepsInv(b, init, early, mid);
    RunKeepsInv(b, mid, late, s);
    assert LocalInv(b, View(s, 0));
    forall p | View(s, p).pc == Returned(Success)
      ensures s.final.Some?
    {
      assert LocalInv(b, View(s, p));
    }
  }

  // ---- calling again -------------------------------------------------------

  /** Every directory was made under the same umask. */
  predicate MadeUnder(l: Local, loose: bool) {
    && (l.mine.Some? ==> l.mine.value.exposed == loose)
    && (l.final.Some? ==> l.final.value.exposed == loose)
  }

  lemma LocalStepKeepsUmask(b: Bundle, l: Local, loose: bool, m: Move)
    requires MadeUnder(l, loose) && LocalNext(b, l, loose, m).Some?
    ensures MadeUnder(LocalNext(b, l, loose, m).value, loose)
  {
  }

  ghost predicate AllMadeUnder(b: Bundle, s: State, loose: bool) {
    forall p :: b.looseUmask(p) == loose && MadeUnder(View(s, p), loose)
  }

  lemma StepKeepsUmask(b: Bundle, s: State, p: Pid, m: Move, loose: bool)
    requires AllMadeUnder(b, s, loose) && Next(b, s, p, m).Some?
    ensures AllMadeUnder(b, Next(b, s, p, m).value, loose)
  {
    hide LocalNext, MadeUnder;
    var l := LocalNext(b, View(s, p), b.looseUmask(p), m).value;
    LocalStepKeepsUmask(b, View(s, p), loose, m);
    forall q
      ensures b.looseUmask(q) == loose && MadeUnder(View(Put(s, p, l), q), loose)
    {
      PutAndView(s, p, l, q);
      UmaskOfOther(View(s, q), l, loose);
    }
  }

  lemma {:induction false} RunKeepsUmask(b: Bundle, from: State, moves: seq<(Pid, Move)>, s: State, loose: bool)
    requires AllMadeUnder(b, from, loose) && Reaches(b, from, moves, s)
    ensures AllMadeUnder(b, s, loose)
    decreases |moves|
  {
    hide Next, AllMadeUnder;
    if moves != [] {
      StepKeepsUmask(b, from, moves[0].0, moves[0].1, loose);
      RunKeepsUmask(b, Next(b, from, moves[0].0, moves[0].1).value, moves[1..], s, loose);
    }
  }

  lemma UmaskOfOther(l: Local, changed: Local, loose: bool)
    requires MadeUnder(l, loose) && MadeUnder(changed, loose)
    ensures MadeUnder(l.(base := changed.base, final := changed.final), loose)
  {
  }

  /** How many steps a call takes to answer once the libraries are there. */
  function ReuseLength(exposed: bool): nat {
    if exposed then 4 else 6
  }

  /** Where such a call is after `k` of them; `exposed` is the mode of the final directory. */
  function ReusePc(exposed: bool, k: nat): Pc
    requires k <= ReuseLength(exposed)
  {
    if k == 0 then CheckKrun
    else if k == 1 then CheckKrunfw
    else if k == 2 then VerifyBase
    else if k == 3 then VerifyFinal
    else if exposed then Returned(NotPrivate)
    else if k == 4 then VerifyKrun
    else if k == 5 then VerifyKrunfw
    else Returned(Success)
  }

  lemma ReuseStep(b: Bundle, l: Local, loose: bool, exposed: bool, k: nat)
    requires LocalInv(b, l) && l.final.Some? && l.final.value.exposed == exposed
    requires k <= ReuseLength(exposed) && l.pc == ReusePc(exposed, k)
    ensures Advance(b, l, loose) ==
            if k < ReuseLength(exposed) then Some(l.(pc := ReusePc(exposed, k + 1))) else None
  {
  }

  /** Process `p` takes none but ordinary steps; every other process does what it likes. */
  predicate OnlyGoes(moves: seq<(Pid, Move)>, p: Pid) {
    forall i :: 0 <= i < |moves| && moves[i].0 == p ==> moves[i].1 == Go
  }

  function StepsOf(moves: seq<(Pid, Move)>, p: Pid): nat {
    if moves == [] then 0 else (if moves[0].0 == p then 1 else 0) + StepsOf(moves[1..], p)
  }

  /** The facts that hold while a call reuses published libraries. */
  ghost predicate Reusing(b: Bundle, s: State, p: Pid, exposed: bool, k: nat) {
    && Inv(b, s) && s.final.Some? && s.final.value.exposed == exposed
    && k <= ReuseLength(exposed) && View(s, p).pc == ReusePc(exposed, k)
  }

  lemma ReusingStep(b: Bundle, s: State, p: Pid, exposed: bool, k: nat, q: Pid, m: Move)
    requires Reusing(b, s, p, exposed, k) && Next(b, s, q, m).Some? && (q == p ==> m == Go)
    ensures q == p ==> k < ReuseLength(exposed)
    ensures Reusing(b, Next(b, s, q, m).value, p, exposed, if q == p then k + 1 else k)
  {
    hide Advance, Inv, LocalInv, ReusePc;
    StepKeepsInv(b, s, q, m);
    InvOfOne(b, s, p);
    var l := LocalNext(b, View(s, q), b.looseUmask(q), m).value;
    PutAndView(s, q, l, p);
    if q == p {
      ReuseStep(b, View(s, p), b.looseUmask(p), exposed, k);
    }
  }

  lemma InvOfOne(b: Bundle, s: State, p: Pid)
    requires Inv(b, s)
    ensures LocalInv(b, View(s, p))
  {
  }

  lemma {:induction false} ReusingRun(b: Bundle, from: State, moves: seq<(Pid, Move)>, s: State, p: Pid,
                                      exposed: bool, k: nat)
    requires Reusing(b, from, p, exposed, k) && Reaches(b, from, moves, s) && OnlyGoes(moves, p)
    ensures Reusing(b, s, p, exposed, k + StepsOf(moves, p))
    decreases |moves|
  {
    hide Reusing, Next;
    if moves != [] {
      var q, m := moves[0].0, moves[0].1;
      ReusingStep(b, from, p, exposed, k, q, m);
      ReusingRun(b, Next(b, from, q, m).value, moves[1..], s, p, exposed, if q == p then k + 1 else k);
    }
  }

  /**
   Once the libraries are published, a call that meets no failure and no crash of
   its own goes through the same answers, whatever umasks the processes have and
   whatever the others do: it succeeds exactly when the published directory is not
   writable by group or other, and is refused otherwise.
   */
  lemma LaterCallSucceedsExactly(b: Bundle, init: State, early: seq<(Pid, Move)>, mid: State,
                                 late: seq<(Pid, Move)>, s: State, p: Pid)
    requires Initial(init) && Reaches(b, init, early, mid)
    requires mid.final.Some? && View(mid, p).pc.CheckKrun?
    requires Reaches(b, mid, late, s) && OnlyGoes(late, p)
    ensures var exposed := mid.final.value.exposed;
            && StepsOf(late, p) <= ReuseLength(exposed)
            && View(s, p).pc == ReusePc(exposed, StepsOf(late, p))
            && (StepsOf(late, p) < ReuseLength(exposed) ==> Next(b, s, p, Go).Some?)
            && (View(s, p).pc.Returned? ==> View(s, p).pc == Returned(if exposed then NotPrivate else Success))
  {
    hide Inv, Advance;
    InitialHasInv(b, init);
    RunKeepsInv(b, init, early, mid);
    ReusingRun(b, mid, late, s, p, mid.final.value.exposed, 0);
    InvOfOne(b, s, p);
    ReuseStep(b, View(s, p), b.looseUmask(p), mid.final.value.exposed, StepsOf(late, p));
  }

  /** Where every directory is made under one umask, that umask decides. */
  lemma UmaskDecides(b: Bundle, init: State, early: seq<(Pid, Move)>, mid: State,
                     late: seq<(Pid, Move)>, s: State, p: Pid, loose: bool)
    requires Initial(init) && AllMadeUnder(b, init, loose) && Reaches(b, init, early, mid)
    requires mid.final.Some? && View(mid, p).pc.CheckKrun?
    requires Reaches(b, mid, late, s) && OnlyGoes(late, p) && View(s, p).pc.Returned?
    ensures View(s, p).pc == Returned(if loose then NotPrivate else Success)
  {
    hide ReusePc, Reaches;
    RunKeepsUmask(b, init, early, mid, loose);
    assert MadeUnder(View(mid, p), loose);
    LaterCallSucceedsExactly(b, init, early, mid, late, s, p);
  }

  // ---- calls that meet no failure that counts -------------------------------------------

  /**
   Failures that must not matter: a file that cannot be seen, what cannot be
   cleared away, and a rename that finds the libraries published.
   */
  predicate Tolerated(l: Local) {
    || l.pc.CheckKrun? || l.pc.CheckKrunfw? || l.pc.ClearStaging? || l.pc.CleanUp?
    || (l.pc.Rename? && l.final.Some?)
  }

  /** In this run no step of `p` fails but where that must not matter. */
  ghost predicate OnlyTolerated(b: Bundle, from: State, moves: seq<(Pid, Move)>, p: Pid)
    decreases |moves|
  {
    moves == [] ||
    (&& (moves[0] == (p, IoError) ==> Tolerated(View(from, p)))
     && var next := Next(b, from, moves[0].0, moves[0].1);
     next.Some? ==> OnlyTolerated(b, next.value, moves[1..], p))
  }

  /** A process whose steps do not fail at all. */
  lemma {:induction false} NoErrorIsTolerated(b: Bundle, from: State, moves: seq<(Pid, Move)>, p: Pid)
    requires (p, IoError) !in moves
    ensures OnlyTolerated(b, from, moves, p)
    decreases |moves|
  {
    hide Next;
    if moves != [] && Next(b, from, moves[0].0, moves[0].1).Some? {
      NoErrorIsTolerated(b, Next(b, from, moves[0].0, moves[0].1).value, moves[1..], p);
    }
  }

  /**
   Where a call without failures can be: once it looks at a lost rename the
   libraries are there, and it is refused only what group or other may write.
   */
  predicate Unfailing(l: Local) {
    && (l.pc.RecheckKrun? ==> l.final.Some?)
    && l.pc != CleanUp(IoFailure) && l.pc != Returned(IoFailure)
    && l.pc != CleanUp(NotPrivate)
    && (l.pc == Returned(NotPrivate) ==> l.final.Some? && l.final.value.exposed)
  }

  lemma UnfailingReuse(b: Bundle, l: Local)
    requires LocalInv(b, l) && Unfailing(l) && Reuse(l).Some?
    ensures Unfailing(Reuse(l).value)
  {
  }

  lemma UnfailingPublish(b: Bundle, l: Local)
    requires LocalInv(b, l) && Unfailing(l) && Publish(l).Some?
    ensures Unfailing(Publish(l).value)
  {
  }

  lemma UnfailingAdvance(b: Bundle, l: Local, loose: bool)
    requires LocalInv(b, l) && Unfailing(l) && Advance(b, l, loose).Some?
    ensures Unfailing(Advance(b, l, loose).value)
  {
    hide LocalInv, Reuse, Publish;
    if Reuse(l).Some? {
      UnfailingReuse(b, l);
    } else if Publish(l).Some? {
      UnfailingPublish(b, l);
    }
  }

  lemma UnfailingStep(b: Bundle, l: Local, loose: bool, m: Move)
    requires LocalInv(b, l) && Unfailing(l) && (m.IoError? ==> Tolerated(l)) && LocalNext(b, l, loose, m).Some?
    ensures Unfailing(LocalNext(b, l, loose, m).value)
  {
    hide Advance, LocalInv;
    if m.Go? {
      UnfailingAdvance(b, l, loose);
    }
  }

  /** What others do to the shared directories does not matter. */
  lemma UnfailingBesides(b: Bundle, l: Local, mine: Local, mine': Local)
    requires Unfailing(l) && SharedStep(mine, mine') && l.final == mine.final
    ensures Unfailing(l.(base := mine'.base, final := mine'.final))
  {
  }

  lemma UnfailingNext(b: Bundle, s: State, p: Pid, q: Pid, m: Move)
    requires Inv(b, s) && Unfailing(View(s, p)) && Next(b, s, q, m).Some?
    requires q == p && m.IoError? ==> Tolerated(View(s, p))
    ensures Unfailing(View(Next(b, s, q, m).value, p))
  {
    hide LocalNext, Inv, LocalInv, Unfailing, Tolerated;
    InvOfOne(b, s, q);
    var l := LocalNext(b, View(s, q), b.looseUmask(q), m).value;
    LocalStepKeepsInv(b, View(s, q), b.looseUmask(q), m);
    PutAndView(s, q, l, p);
    if q == p {
      UnfailingStep(b, View(s, p), b.looseUmask(p), m);
    } else {
      UnfailingBesides(b, View(s, p), View(s, q), l);
    }
  }

  lemma {:induction false} UnfailingRun(b: Bundle, from: State, moves: seq<(Pid, Move)>, s: State, p: Pid)
    requires Inv(b, from) && Unfailing(View(from, p)) && Reaches(b, from, moves, s)
    requires OnlyTolerated(b, from, moves, p)
    ensures Unfailing(View(s, p))
    decreases |moves|
  {
    hide Next, Inv, Unfailing, Tolerated;
    if moves != [] {
      StepKeepsInv(b, from, moves[0].0, moves[0].1);
      UnfailingNext(b, from, p, moves[0].0, moves[0].1);
      UnfailingRun(b, Next(b, from, moves[0].0, moves[0].1).value, moves[1..], s, p);
    }
  }

  /** Steps left to an answer, at most. */
  function StepsLeft(pc: Pc): nat {
    match pc
    case Outside => 0
    case CheckKrun => 16
    case CheckKrunfw => 15
    case VerifyBase => 4
    case VerifyFinal => 3
    case VerifyKrun => 2
    case VerifyKrunfw => 1
    case MakeBase => 14
    case ChmodBase => 13
    case ClearStaging => 12
    case MakeStaging => 11
    case CreateKrun => 10
    case FillKrun => 9
    case ChmodKrun => 8
    case CreateKrunfw => 7
    case FillKrunfw => 6
    case ChmodKrunfw => 5
    case Rename => 4
    case RecheckKrun => 3
    case RecheckKrunfw => 2
    case CleanUp(_) => 1
    case Returned(_) => 0
  }

  /** The steps of `p`, failing ones too; writing and removing are counted by what they do instead. */
  function GoesOf(moves: seq<(Pid, Move)>, p: Pid): nat {
    if moves == [] then 0
    else (if moves[0] == (p, Go) || moves[0] == (p, IoError) then 1 else 0) + GoesOf(moves[1..], p)
  }

  /** `p` neither crashes nor calls again. */
  predicate OneCall(moves: seq<(Pid, Move)>, p: Pid) {
    forall i :: 0 <= i < |moves| && moves[i].0 == p ==> !moves[i].1.Crash? && !moves[i].1.Start?
  }

  lemma OneStepLess(b: Bundle, l: Local, loose: bool, m: Move)
    requires LocalNext(b, l, loose, m).Some? && !m.Crash? && !m.Start?
    ensures var next := LocalNext(b, l, loose, m).value.pc;
            if m.Go? || m.IoError? then StepsLeft(next) + 1 <= StepsLeft(l.pc) && !next.Outside? else next == l.pc
  {
    hide Advance, StepsLeft;
    if m.Go? {
      GoIsOneLess(b, l, loose);
    } else if m.IoError? {
      FailIsOneLess(l);
    }
  }

  lemma GoIsOneLess(b: Bundle, l: Local, loose: bool)
    requires Advance(b, l, loose).Some?
    ensures var next := Advance(b, l, loose).value.pc;
            StepsLeft(next) + 1 <= StepsLeft(l.pc) && !next.Outside?
  {
  }

  lemma FailIsOneLess(l: Local)
    requires Fail(l).Some?
    ensures StepsLeft(Fail(l).value.pc) + 1 <= StepsLeft(l.pc) && !Fail(l).value.pc.Outside?
  {
  }

  lemma {:induction false} CallIsBounded(b: Bundle, from: State, moves: seq<(Pid, Move)>, s: State, p: Pid)
    requires Reaches(b, from, moves, s) && OneCall(moves, p)
    ensures GoesOf(moves, p) + StepsLeft(View(s, p).pc) <= StepsLeft(View(from, p).pc)
    ensures !View(from, p).pc.Outside? ==> !View(s, p).pc.Outside?
    decreases |moves|
  {
    hide LocalNext, StepsLeft;
    if moves != [] {
      var q, m := moves[0].0, moves[0].1;
      var l := LocalNext(b, View(from, q), b.looseUmask(q), m).value;
      PutAndView(from, q, l, p);
      if q == p {
        OneStepLess(b, View(from, p), b.looseUmask(p), m);
      }
      CallIsBounded(b, Next(b, from, q, m).value, moves[1..], s, p);
    }
  }

  /** The move that brings a call on: the rest of the payload, or the next step. */
  function Onward(b: Bundle, l: Local): Move {
    if l.mine.Some? && l.pc.FillKrun? && l.mine.value.krun.Plain? && l.mine.value.krun.bytes != b.krun then
      WriteBytes(|b.krun| - Min(|l.mine.value.krun.bytes|, |b.krun|))
    else if l.mine.Some? && l.pc.FillKrunfw? && l.mine.value.krunfw.Plain? && l.mine.value.krunfw.bytes != b.krunfw then
      WriteBytes(|b.krunfw| - Min(|l.mine.value.krunfw.bytes|, |b.krunfw|))
    else Go
  }

  lemma CanGoOn(b: Bundle, l: Local, loose: bool)
    requires LocalInv(b, l) && !l.pc.Outside? && !l.pc.Returned?
    ensures LocalNext(b, l, loose, Onward(b, l)).Some?
    ensures Onward(b, l).WriteBytes? ==> Onward(b, LocalNext(b, l, loose, Onward(b, l)).value) == Go
  {
  }

  /**
   A call none of whose own steps fails, but where that must not matter, in every
   interleaving with any number of others that may fail and crash anywhere: it can
   always go on until it answers, takes at
   most sixteen steps to do so besides writing and removing, and answers with
   success, or with a refusal of a directory that group or other may write. It
   never answers with an I/O failure.
   */
  lemma FailureFreeCallAnswers(b: Bundle, init: State, early: seq<(Pid, Move)>, mid: State,
                               late: seq<(Pid, Move)>, s: State, p: Pid)
    requires Initial(init) && Reaches(b, init, early, mid) && View(mid, p).pc.CheckKrun?
    requires Reaches(b, mid, late, s) && OneCall(late, p) && OnlyTolerated(b, mid, late, p)
    ensures GoesOf(late, p) <= 16
    ensures var pc := View(s, p).pc;
            && (!pc.Returned? ==> Next(b, s, p, Onward(b, View(s, p))).Some?)
            && (pc.Returned? ==>
                  || pc.result == Success
                  || (pc.result == NotPrivate && s.final.Some? && s.final.value.exposed))
  {
    hide Inv, LocalInv, LocalNext, StepsLeft, Reaches, Onward, OnlyTolerated;
    InitialHasInv(b, init);
    RunKeepsInv(b, init, early, mid);
    RunKeepsInv(b, mid, late, s);
    UnfailingRun(b, mid, late, s, p);
    CallIsBounded(b, mid, late, s, p);
    SixteenSteps();
    InvOfOne(b, s, p);
    if !View(s, p).pc.Returned? {
      CanGoOn(b, View(s, p), b.looseUmask(p));
    }
  }

  lemma SixteenSteps()
    ensures StepsLeft(CheckKrun) == 16 && StepsLeft(Rename) == 4
  {
  }

  /**
   A call that has staged whole copies succeeds, whether its own rename wins or
   another process has published first, at most four steps later.
   */
  lemma RenamingCallSucceeds(b: Bundle, init: State, early: seq<(Pid, Move)>, mid: State,
                             late: seq<(Pid, Move)>, s: State, p: Pid)
    requires Initial(init) && Reaches(b, init, early, mid) && View(mid, p).pc.Rename?
    requires Reaches(b, mid, late, s) && OneCall(late, p) && OnlyTolerated(b, mid, late, p)
    ensures GoesOf(late, p) <= 4
    ensures var pc := View(s, p).pc;
            && (!pc.Returned? ==> Next(b, s, p, Go).Some?)
            && (pc.Returned? ==> pc.result == Success && s.final.Some? && Complete(b, s.final.value))
  {
    hide Inv, LocalInv, LocalNext, StepsLeft, Reaches, Complete, OnlyTolerated;
    InitialHasInv(b, init);
    RunKeepsInv(b, init, early, mid);
    UnfailingRun(b, mid, late, s, p);
    PublishingRun(b, mid, late, s, p);
    CallIsBounded(b, mid, late, s, p);
    SixteenSteps();
    EveryRunIsSafe(b, init, early, mid, late, s);
    RunKeepsInv(b, mid, late, s);
    InvOfOne(b, s, p);
    if !View(s, p).pc.Returned? {
      CanGoOn(b, View(s, p), b.looseUmask(p));
    }
  }

  /** Positions from the rename on, refusals left out. */
  predicate Publishing(pc: Pc) {
    || pc.Rename? || pc.RecheckKrun? || pc.RecheckKrunfw? || pc.CleanUp?
    || (pc.Returned? && pc.result != NotPrivate)
  }

  lemma PublishingStep(b: Bundle, l: Local, loose: bool, m: Move)
    requires Publishing(l.pc) && Unfailing(l) && (m.IoError? ==> Tolerated(l)) && !m.Crash? && !m.Start?
    requires LocalNext(b, l, loose, m).Some?
    ensures Publishing(LocalNext(b, l, loose, m).value.pc)
  {
  }

  lemma {:induction false} PublishingRun(b: Bundle, from: State, moves: seq<(Pid, Move)>, s: State, p: Pid)
    requires Inv(b, from) && Unfailing(View(from, p)) && Publishing(View(from, p).pc)
    requires Reaches(b, from, moves, s) && OneCall(moves, p) && OnlyTolerated(b, from, moves, p)
    ensures Publishing(View(s, p).pc)
    ensures !View(s, p).pc.FillKrun? && !View(s, p).pc.FillKrunfw?
    decreases |moves|
  {
    hide LocalNext, Inv, Unfailing, Tolerated;
    if moves != [] {
      var q, m := moves[0].0, moves[0].1;
      var l := LocalNext(b, View(from, q), b.looseUmask(q), m).value;
      PutAndView(from, q, l, p);
      StepKeepsInv(b, from, q, m);
      UnfailingNext(b, from, p, q, m);
      if q == p {
        PublishingStep(b, View(from, p), b.looseUmask(p), m);
      }
      PublishingRun(b, Next(b, from, q, m).value, moves[1..], s, p);
    }
  }

  // ---- a run that publishes ------------------------------------------------

  const NOTHING_THERE := State(None, None, map[], map[])

  /** Moves of one process alone. */
  function Alone(b: Bundle, l: Local, loose: bool, ms: seq<Move>): Option<Local>
    decreases |ms|
  {
    if ms == [] then Some(l)
    else
      match LocalNext(b, l, loose, ms[0])
      case None => None
      case Some(next) => Alone(b, next, loose, ms[1..])
  }

  lemma {:induction false} AloneAppend(b: Bundle, l: Local, loose: bool, xs: seq<Move>, ys: seq<Move>)
    requires Alone(b, l, loose, xs).Some?
    ensures Alone(b, l, loose, xs + ys) == Alone(b, Alone(b, l, loose, xs).value, loose, ys)
    decreases |xs|
  {
    hide LocalNext;
    if xs == [] {
      assert xs + ys == ys;
    } else {
      assert (xs + ys)[1..] == xs[1..] + ys;
      AloneAppend(b, LocalNext(b, l, loose, xs[0]).value, loose, xs[1..], ys);
    }
  }

  lemma AloneStep(b: Bundle, l: Local, loose: bool, m: Move, ms: seq<Move>)
    ensures Alone(b, l, loose, [m] + ms) ==
            match LocalNext(b, l, loose, m) {
              case None => None
              case Some(next) => Alone(b, next, loose, ms)
            }
  {
    hide LocalNext;
    assert ([m] + ms)[1..] == ms;
  }

  function By(p: Pid, ms: seq<Move>): (r: seq<(Pid, Move)>)
    ensures |r| == |ms|
  {
    seq(|ms|, i requires 0 <= i < |ms| => (p, ms[i]))
  }

  lemma {:induction false} AloneReaches(b: Bundle, s: State, p: Pid, l: Local, ms: seq<Move>)
    requires Alone(b, l, b.looseUmask(p), ms).Some?
    ensures Reaches(b, Put(s, p, l), By(p, ms), Put(s, p, Alone(b, l, b.looseUmask(p), ms).value))
    decreases |ms|
  {
    hide LocalNext, Put, View;
    PutAndView(s, p, l, p);
    if ms != [] {
      var next := LocalNext(b, l, b.looseUmask(p), ms[0]).value;
      PutTwice(s, p, l, next);
      assert By(p, ms)[1..] == By(p, ms[1..]);
      AloneReaches(b, s, p, next, ms[1..]);
    }
  }

  lemma PutTwice(s: State, p: Pid, l: Local, next: Local)
    ensures Put(Put(s, p, l), p, next) == Put(s, p, next)
  {
    assert Put(Put(s, p, l), p, next).staging == Put(s, p, next).staging;
    assert Put(Put(s, p, l), p, next).procs == Put(s, p, next).procs;
  }

  /** From the first look to an empty staging directory. */
  const STAGE: seq<Move> := [Go, Go, Go, Go, Go]

  /** One payload: created, written whole in one go, closed and marked. */
  function CopyMoves(payload: seq<Byte>): seq<Move> {
    [Go, WriteBytes(|payload|), Go, Go]
  }

  lemma StagesAlone(b: Bundle, loose: bool)
    ensures Alone(b, Local(None, None, None, CheckKrun), loose, STAGE) ==
            Some(Local(Some(false), None, Some(Dir(Absent, Absent, loose)), CreateKrun))
  {
    hide Alone;
    var l := Local(None, None, None, CheckKrun);
    AloneStep(b, l, loose, Go, [Go, Go, Go, Go]);
    AloneStep(b, l.(pc := MakeBase), loose, Go, [Go, Go, Go]);
    AloneStep(b, l.(base := Some(loose), pc := ChmodBase), loose, Go, [Go, Go]);
    AloneStep(b, l.(base := Some(false), pc := ClearStaging), loose, Go, [Go]);
    AloneStep(b, l.(base := Some(false), pc := MakeStaging), loose, Go, []);
    assert STAGE == [Go] + [Go, Go, Go, Go] && [Go, Go, Go, Go] == [Go] + [Go, Go, Go];
    assert [Go, Go, Go] == [Go] + [Go, Go] && [Go, Go] == [Go] + [Go] && [Go] == [Go] + [];
    NoMoves(b, Local(Some(false), None, Some(Dir(Absent, Absent, loose)), CreateKrun), loose);
  }

  lemma NoMoves(b: Bundle, l: Local, loose: bool)
    ensures Alone(b, l, loose, []) == Some(l)
  {
  }

  lemma CopySteps(payload: seq<Byte>)
    ensures CopyMoves(payload) == [Go] + ([WriteBytes(|payload|)] + ([Go] + ([Go] + [])))
  {
  }

  lemma CopiesKrunAlone(b: Bundle, loose: bool)
    ensures Alone(b, Local(Some(false), None, Some(Dir(Absent, Absent, loose)), CreateKrun), loose,
                  CopyMoves(b.krun)) ==
            Some(Local(Some(false), None, Some(Dir(Plain(b.krun, false), Absent, loose)), CreateKrunfw))
  {
    hide Alone;
    CopySteps(b.krun);
    var l := Local(Some(false), None, Some(Dir(Absent, Absent, loose)), CreateKrun);
    var empty := l.(mine := Some(Dir(Plain([], loose), Absent, loose)), pc := FillKrun);
    var filled := l.(mine := Some(Dir(Plain(b.krun, loose), Absent, loose)), pc := FillKrun);
    assert b.krun[..|b.krun|] == b.krun;
    AloneStep(b, l, loose, Go, [WriteBytes(|b.krun|)] + ([Go] + ([Go] + [])));
    AloneStep(b, empty, loose, WriteBytes(|b.krun|), [Go] + ([Go] + []));
    AloneStep(b, filled, loose, Go, [Go] + []);
    AloneStep(b, filled.(pc := ChmodKrun), loose, Go, []);
    NoMoves(b, l.(mine := Some(Dir(Plain(b.krun, false), Absent, loose)), pc := CreateKrunfw), loose);
  }

  lemma CopiesKrunfwAlone(b: Bundle, loose: bool)
    ensures Alone(b, Local(Some(false), None, Some(Dir(Plain(b.krun, false), Absent, loose)), CreateKrunfw), loose,
                  CopyMoves(b.krunfw)) ==
            Some(Local(Some(false), None, Some(Dir(Plain(b.krun, false), Plain(b.krunfw, false), loose)), Rename))
  {
    hide Alone;
    CopySteps(b.krunfw);
    var first := Plain(b.krun, false);
    var l := Local(Some(false), None, Some(Dir(first, Absent, loose)), CreateKrunfw);
    var empty := l.(mine := Some(Dir(first, Plain([], loose), loose)), pc := FillKrunfw);
    var filled := l.(mine := Some(Dir(first, Plain(b.krunfw, loose), loose)), pc := FillKrunfw);
    assert b.krunfw[..|b.krunfw|] == b.krunfw;
    AloneStep(b, l, loose, Go, [WriteBytes(|b.krunfw|)] + ([Go] + ([Go] + [])));
    AloneStep(b, empty, loose, WriteBytes(|b.krunfw|), [Go] + ([Go] + []));
    AloneStep(b, filled, loose, Go, [Go] + []);
    AloneStep(b, filled.(pc := ChmodKrunfw), loose, Go, []);
    NoMoves(b, l.(mine := Some(Dir(first, Plain(b.krunfw, false), loose)), pc := Rename), loose);
  }

  /** A first call from start to success, and the start of a second one. */
  function PublishMoves(b: Bundle): seq<Move> {
    STAGE + CopyMoves(b.krun) + CopyMoves(b.krunfw) + [Go, Start]
  }

  function PublishedBy(b: Bundle, loose: bool): Local {
    Local(Some(false), Some(Dir(Plain(b.krun, false), Plain(b.krunfw, false), loose)), None, CheckKrun)
  }

  lemma PublishesAlone(b: Bundle, loose: bool)
    ensures Alone(b, Local(None, None, None, CheckKrun), loose, PublishMoves(b)) == Some(PublishedBy(b, loose))
  {
    hide Alone, CopyMoves, LocalNext;
    var l := Local(None, None, None, CheckKrun);
    StagesAlone(b, loose);
    CopiesKrunAlone(b, loose);
    CopiesKrunfwAlone(b, loose);
    AloneAppend(b, l, loose, STAGE, CopyMoves(b.krun));
    AloneAppend(b, l, loose, STAGE + CopyMoves(b.krun), CopyMoves(b.krunfw));
    AloneAppend(b, l, loose, STAGE + CopyMoves(b.krun) + CopyMoves(b.krunfw), [Go, Start]);
    RenamesAlone(b, loose);
  }

  lemma RenamesAlone(b: Bundle, loose: bool)
    ensures Alone(b, Local(Some(false), None, Some(Dir(Plain(b.krun, false), Plain(b.krunfw, false), loose)), Rename),
                  loose, [Go, Start]) ==
            Some(PublishedBy(b, loose))
  {
    hide Alone;
    var d := Dir(Plain(b.krun, false), Plain(b.krunfw, false), loose);
    assert [Go, Start] == [Go] + ([Start] + []);
    AloneStep(b, Local(Some(false), None, Some(d), Rename), loose, Go, [Start] + []);
    AloneStep(b, Local(Some(false), Some(d), None, Returned(Success)), loose, Start, []);
    NoMoves(b, PublishedBy(b, loose), loose);
  }

  /** The whole of it, from the call on. */
  function FirstRun(b: Bundle, p: Pid): seq<(Pid, Move)> {
    [(p, Start)] + By(p, PublishMoves(b))
  }

  /** For every bundle and umask some run publishes the libraries and calls again. */
  lemma SomeRunPublishes(b: Bundle, p: Pid)
    ensures Initial(NOTHING_THERE)
    ensures Reaches(b, NOTHING_THERE, FirstRun(b, p), Put(NOTHING_THERE, p, PublishedBy(b, b.looseUmask(p))))
    ensures View(Put(NOTHING_THERE, p, PublishedBy(b, b.looseUmask(p))), p) == PublishedBy(b, b.looseUmask(p))
  {
    hide Alone, PublishMoves;
    var loose := b.looseUmask(p);
    var l := Local(None, None, None, CheckKrun);
    PublishesAlone(b, loose);
    AloneReaches(b, NOTHING_THERE, p, l, PublishMoves(b));
    assert Next(b, NOTHING_THERE, p, Start) == Some(Put(NOTHING_THERE, p, l));
    assert FirstRun(b, p)[1..] == By(p, PublishMoves(b));
    PutAndView(NOTHING_THERE, p, PublishedBy(b, loose), p);
  }

  /** The input: under a loose umask the very process that extracted the libraries is refused them. */
  lemma LooseUmaskIsRefused(b: Bundle, p: Pid)
    requires b.looseUmask(p)
    ensures Reaches(b, NOTHING_THERE, FirstRun(b, p), Put(NOTHING_THERE, p, PublishedBy(b, true)))
    ensures exists s, late ::
              && Reaches(b, Put(NOTHING_THERE, p, PublishedBy(b, true)), late, s)
              && OnlyGoes(late, p) && View(s, p).pc == Returned(NotPrivate)
  {
    hide LocalNext, Alone;
    var l := PublishedBy(b, true);
    var ms := [Go, Go, Go, Go];
    SomeRunPublishes(b, p);
    RefusedAlone(b, true);
    AloneReaches(b, NOTHING_THERE, p, l, ms);
    var last := l.(pc := Returned(NotPrivate));
    PutAndView(NOTHING_THERE, p, last, p);
    assert OnlyGoes(By(p, ms), p);
  }

  /** Another input: a process with a strict umask is refused what one with a loose umask published. */
  lemma StrictUmaskIsRefused(b: Bundle, p: Pid, q: Pid)
    requires p != q && b.looseUmask(p) && !b.looseUmask(q)
    ensures exists s, late ::
              && Reaches(b, Put(NOTHING_THERE, p, PublishedBy(b, true)), late, s)
              && View(s, q).pc == Returned(NotPrivate)
  {
    hide LocalNext, Alone;
    var mid := Put(NOTHING_THERE, p, PublishedBy(b, true));
    var l := PublishedBy(b, true);
    var ms := [Go, Go, Go, Go];
    PutAndView(NOTHING_THERE, p, l, q);
    StartsAt(b, mid, q, l);
    RefusedAlone(b, false);
    AloneReaches(b, mid, q, l, ms);
    var last := l.(pc := Returned(NotPrivate));
    var late := [(q, Start)] + By(q, ms);
    assert late[1..] == By(q, ms);
    assert Reaches(b, mid, late, Put(mid, q, last));
    PutAndView(mid, q, last, q);
  }

  lemma StartsAt(b: Bundle, s: State, q: Pid, l: Local)
    requires View(s, q) == l.(pc := Outside) && l.pc.CheckKrun?
    ensures Next(b, s, q, Start) == Some(Put(s, q, l))
  {
  }

  lemma RefusedAlone(b: Bundle, loose: bool)
    ensures Alone(b, PublishedBy(b, true), loose, [Go, Go, Go, Go]) ==
            Some(PublishedBy(b, true).(pc := Returned(NotPrivate)))
  {
    hide Alone;
    var l := PublishedBy(b, true);
    AloneStep(b, l, loose, Go, [Go, Go, Go]);
    AloneStep(b, l.(pc := CheckKrunfw), loose, Go, [Go, Go]);
    AloneStep(b, l.(pc := VerifyBase), loose, Go, [Go]);
    AloneStep(b, l.(pc := VerifyFinal), loose, Go, []);
    assert [Go, Go, Go, Go] == [Go] + [Go, Go, Go];
    assert [Go, Go, Go] == [Go] + [Go, Go] && [Go, Go] == [Go] + [Go] && [Go] == [Go] + [];
    NoMoves(b, l.(pc := Returned(NotPrivate)), loose);
  }

  // ---- libraries that were there before ------------------------------------

  function Goes(n: nat): (r: seq<Move>)
    ensures |r| == n
  {
    seq(n, _ => Go)
  }

  lemma GoesStep(b: Bundle, l: Local, loose: bool, n: nat)
    requires Advance(b, l, loose).Some?
    ensures Alone(b, l, loose, Goes(n + 1)) == Alone(b, Advance(b, l, loose).value, loose, Goes(n))
  {
    hide Advance;
    assert Goes(n + 1)[1..] == Goes(n);
  }

  /** Neither the directories nor the libraries may be written by group or other. */
  predicate AllPrivate(base: bool, final: Dir) {
    !base && !final.exposed && final.krun.Plain? && !final.krun.exposed && final.krunfw.Plain? && !final.krunfw.exposed
  }

  /**
   Two libraries that are there already, whoever made them and whatever they hold,
   are used exactly if both of them and both directories are private.
   */
  lemma FoundLibrariesAreVetted(b: Bundle, l: Local, loose: bool)
    requires l.pc.CheckKrun? && l.base.Some? && l.final.Some?
    requires l.final.value.krun.Plain? && l.final.value.krunfw.Plain?
    ensures var answer := if AllPrivate(l.base.value, l.final.value) then Success else NotPrivate;
            exists n :: 3 <= n <= 6 && Alone(b, l, loose, Goes(n)) == Some(l.(pc := Returned(answer)))
  {
    hide Alone, Goes;
    var d := l.final.value;
    var n := if l.base.value then 3 else if d.exposed then 4 else if d.krun.exposed then 5 else 6;
    GoesStep(b, l, loose, n - 1);
    GoesStep(b, l.(pc := CheckKrunfw), loose, n - 2);
    GoesStep(b, l.(pc := VerifyBase), loose, n - 3);
    if n > 3 {
      GoesStep(b, l.(pc := VerifyFinal), loose, n - 4);
    }
    if n > 4 {
      GoesStep(b, l.(pc := VerifyKrun), loose, n - 5);
    }
    if n > 5 {
      GoesStep(b, l.(pc := VerifyKrunfw), loose, n - 6);
    }
    var answer := if AllPrivate(l.base.value, d) then Success else NotPrivate;
    NoGoes(b, l.(pc := Returned(answer)), loose);
    assert Alone(b, l, loose, Goes(n)) == Some(l.(pc := Returned(answer)));
  }

  lemma NoGoes(b: Bundle, l: Local, loose: bool)
    ensures Alone(b, l, loose, Goes(0)) == Some(l)
  {
  }

  // ---- the directory calls -------------------------------------------------

  /** A rename takes place exactly if nothing, or an empty directory, is in its way. */
  lemma RenameReplacesOnlyEmpty(b: Bundle, l: Local, loose: bool)
    requires l.pc.Rename? && l.mine.Some?
    ensures Advance(b, l, loose) ==
            if l.final.None? || (l.final.value.krun == Absent && l.final.value.krunfw == Absent) then
              Some(Local(l.base, l.mine, None, Returned(Success)))
            else Some(l.(pc := RecheckKrun))
  {
  }

  /** Before staging and after losing a race a process can remove its staging directory, files first. */
  lemma CanRemoveStaging(b: Bundle, l: Local, loose: bool)
    requires (l.pc.ClearStaging? || l.pc.CleanUp?) && l.mine.Some?
    ensures Alone(b, l, loose, [RemoveKrun, RemoveKrunfw, RemoveDir]) == Some(l.(mine := None))
    ensures !IsEmpty(l.mine.value) ==> LocalNext(b, l, loose, RemoveDir).None?
  {
    hide Alone;
    var d := l.mine.value;
    assert [RemoveKrun, RemoveKrunfw, RemoveDir] == [RemoveKrun] + ([RemoveKrunfw] + ([RemoveDir] + []));
    AloneStep(b, l, loose, RemoveKrun, [RemoveKrunfw] + ([RemoveDir] + []));
    AloneStep(b, l.(mine := Some(d.(krun := Absent))), loose, RemoveKrunfw, [RemoveDir] + []);
    AloneStep(b, l.(mine := Some(d.(krun := Absent, krunfw := Absent))), loose, RemoveDir, []);
    NoMoves(b, l.(mine := None), loose);
  }
}
