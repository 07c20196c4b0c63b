/**
 Changing the limits of the sandbox cgroup: the checks before the first write,
 and writes that are all made or put back.
 */
module LimitWrites {
  import opened Machine

  datatype File = Controllers | SubtreeControl | MemoryMax | CpuMax | PidsMax

  type Files = map<File, string>

  datatype Limits = Limits(memoryBytes: Option<nat>, nanoCpus: Option<nat>, pidsMax: Option<nat>)

  const CPU_PERIOD_MICROS: nat := 100_000
  const NANOS_PER_CPU: nat := 1_000_000_000
  const MIN_CPU_QUOTA_MICROS: nat := 1_000

  // ---- text ----------------------------------------------------------------

  /** Unicode's White_Space, as `char::is_whitespace` has it. */
  predicate IsSpace(c: char) {
    var n := c as int;
    || 0x09 <= n <= 0x0D || n == 0x20 || n == 0x85 || n == 0xA0 || n == 0x1680
    || 0x2000 <= n <= 0x200A || n == 0x2028 || n == 0x2029 || n == 0x202F || n == 0x205F || n == 0x3000
  }

  function TrimStart(s: string): (r: string)
    ensures r != [] ==> !IsSpace(r[0])
    ensures |r| <= |s| && r == s[|s| - |r|..]
  {
    if s == [] || !IsSpace(s[0]) then s else TrimStart(s[1..])
  }

  function TrimEnd(s: string): (r: string)
    ensures r != [] ==> !IsSpace(r[|r| - 1])
    ensures r <= s
  {
    if s == [] || !IsSpace(s[|s| - 1]) then s else TrimEnd(s[..|s| - 1])
  }

  function Trim(s: string): string {
    TrimEnd(TrimStart(s))
  }

  /** Trimming twice changes nothing, so trimmed text is the same up to whitespace. */
  lemma TrimIsStable(s: string)
    ensures Trim(Trim(s)) == Trim(s)
  {
    var t := Trim(s);
    if t != [] {
      assert t[0] == TrimStart(s)[0];
    }
  }

  /** `split_whitespace().any(|c| c == word)`. */
  predicate HasWord(text: string, word: string)
    decreases |text|
  {
    var t := TrimStart(text);
    if t == [] then false
    else
      var n := WordLength(t);
      t[..n] == word || HasWord(t[n..], word)
  }

  function WordLength(t: string): (n: nat)
    requires t != [] && !IsSpace(t[0])
    ensures 0 < n <= |t|
  {
    if |t| == 1 || IsSpace(t[1]) then 1 else 1 + WordLength(t[1..])
  }

  function LimitText(value: nat): string {
    if value == 0 then "max" else Decimal(value)
  }

  function CpuMaxText(nanoCpus: nat): string {
    if nanoCpus == 0 then "max " + Decimal(CPU_PERIOD_MICROS)
    else
      var share := nanoCpus * CPU_PERIOD_MICROS / NANOS_PER_CPU;
      var quota := if share < MIN_CPU_QUOTA_MICROS then MIN_CPU_QUOTA_MICROS else share;
      Decimal(quota) + " " + Decimal(CPU_PERIOD_MICROS)
  }

  // ---- the cgroup ----------------------------------------------------------

  /** Which write calls the kernel refuses, and what a controller request does to its file. */
  datatype Kernel = Kernel(refuses: nat -> bool, enable: (string, string) -> string)

  datatype WriteOutcome = AllWritten | Unreadable | PutBack(failedAt: nat, stuck: seq<File>)

  type Write = (File, string)

  predicate DistinctFiles(writes: seq<Write>) {
    forall i, j :: 0 <= i < j < |writes| ==> writes[i].0 != writes[j].0
  }

  /** Files of `writes[..n]`. */
  predicate Among(f: File, writes: seq<Write>, n: nat)
    requires n <= |writes|
  {
    exists i :: 0 <= i < n && writes[i].0 == f
  }

  /** The first `n` writes made, everything else as in `start`. */
  ghost predicate Written(start: Files, now: Files, writes: seq<Write>, n: nat)
    requires n <= |writes|
  {
    && (forall i :: 0 <= i < n ==> writes[i].0 in now && now[writes[i].0] == writes[i].1)
    && (forall f :: f in start && !Among(f, writes, n) ==> f in now && now[f] == start[f])
    && (forall f :: f in now ==> f in start)
  }

  /** Of `n` made writes, the first `m` tried to be put back, all but those in `stuck`. */
  ghost predicate Restored(start: Files, now: Files, writes: seq<Write>, n: nat, m: nat, stuck: seq<File>)
    requires m <= n <= |writes|
  {
    && (forall f :: f in stuck ==> Among(f, writes, m))
    && (forall i :: 0 <= i < n ==> RestoredAt(start, now, writes, m, stuck, i))
    && (forall f :: f in start && !Among(f, writes, n) ==> f in now && now[f] == start[f])
    && (forall f :: f in now ==> f in start)
  }

  /** Whether the kernel refuses the `i`-th write call after the first `calls`. */
  predicate Refuses(k: Kernel, calls: nat, i: nat) {
    k.refuses(calls + i)
  }

  /** The first `m` put-back calls, from `calls` on, left exactly the refused files in `stuck`. */
  ghost predicate StuckExactly(k: Kernel, calls: nat, writes: seq<Write>, m: nat, stuck: seq<File>)
    requires m <= |writes|
  {
    && (forall f :: f in stuck ==> Among(f, writes, m))
    && (forall i :: 0 <= i < m ==> (writes[i].0 in stuck <==> Refuses(k, calls, i)))
  }

  /** The outcome follows from which calls the kernel refuses. */
  ghost predicate Follows(k: Kernel, calls: nat, writes: seq<Write>, r: WriteOutcome) {
    match r
    case Unreadable => true
    case AllWritten => forall i :: 0 <= i < |writes| ==> !Refuses(k, calls, i)
    case PutBack(n, stuck) =>
      && n < |writes|
      && (forall i :: 0 <= i < n ==> !Refuses(k, calls, i))
      && Refuses(k, calls, n)
      && StuckExactly(k, calls + n + 1, writes, n, stuck)
  }

  predicate Readable(files: Files, writes: seq<Write>) {
    forall i :: 0 <= i < |writes| ==> writes[i].0 in files
  }

  /** The rollback from write `m` on: each earlier write is put back or added to `stuck`. */
  function RolledBack(k: Kernel, files: Files, calls: nat, writes: seq<Write>, m: nat, n: nat,
                      before: Files, stuck: seq<File>): (Files, seq<File>)
    requires m <= n <= |writes| && Readable(before, writes)
    decreases n - m
  {
    if m == n then (files, stuck)
    else
      var f := writes[m].0;
      if k.refuses(calls) then RolledBack(k, files, calls + 1, writes, m + 1, n, before, stuck + [f])
      else RolledBack(k, files[f := Trim(before[f])], calls + 1, writes, m + 1, n, before, stuck)
  }

  /** The writes from `i` on: all are made, or a refused one has the earlier ones put back. */
  function WrittenFrom(k: Kernel, files: Files, calls: nat, writes: seq<Write>, i: nat,
                       before: Files): (Files, WriteOutcome)
    requires i <= |writes| && Readable(before, writes)
    decreases |writes| - i
  {
    if i == |writes| then (files, AllWritten)
    else if k.refuses(calls) then
      var (back, stuck) := RolledBack(k, files, calls + 1, writes, 0, i, before, []);
      (back, PutBack(i, stuck))
    else WrittenFrom(k, files[writes[i].0 := writes[i].1], calls + 1, writes, i + 1, before)
  }

  /** `write_all_or_none`, from the calls the kernel refuses. */
  function WroteAllOrNone(k: Kernel, files: Files, calls: nat, writes: seq<Write>): (Files, WriteOutcome) {
    if Readable(files, writes) then WrittenFrom(k, files, calls, writes, 0, files) else (files, Unreadable)
  }

  class Cgroup {
    const kernel: Kernel
    var files: Files
    var calls: nat

    constructor (kernel: Kernel, files: Files)
      ensures this.kernel == kernel && this.files == files && calls == 0
    {
      this.kernel, this.files, calls := kernel, files, 0;
    }

    /** `std::fs::write`: a refused write leaves the file alone. */
    method Put(f: File, text: string) returns (ok: bool)
      modifies this
      ensures ok == !kernel.refuses(old(calls)) && calls == old(calls) + 1
      ensures files == if ok then old(files)[f := text] else old(files)
    {
      ok := !kernel.refuses(calls);
      calls := calls + 1;
      if ok {
        files := files[f := text];
      }
    }

    /** The rollback: earlier writes are put back in order, and those that fail are named. */
    method PutBackWritten(writes: seq<Write>, done: nat, before: Files) returns (stuck: seq<File>)
      requires done <= |writes| && DistinctFiles(writes) && Readable(before, writes)
      requires Written(before, files, writes, done)
      modifies this
      ensures (files, stuck) == old(RolledBack(kernel, files, calls, writes, 0, done, before, []))
      ensures Restored(before, files, writes, done, done, stuck)
      ensures StuckExactly(kernel, old(calls), writes, done, stuck)
    {
      hide Restored, StuckExactly, Written, Trim, DistinctFiles;
      stuck := [];
      NothingRestored(before, files, writes, done);
      NothingStuck(kernel, calls, writes);
      RollbackRestores(kernel, before, files, calls, writes, 0, done, []);
      var m: nat := 0;
      while m < done
        invariant m <= done
        invariant RolledBack(kernel, files, calls, writes, m, done, before, stuck) ==
                  old(RolledBack(kernel, files, calls, writes, 0, done, before, []))
      {
        var f := writes[m].0;
        var ok := Put(f, Trim(before[f]));
        if !ok {
          stuck := stuck + [f];
        }
        m := m + 1;
      }
    }

    method CanReadAll(writes: seq<Write>) returns (ok: bool)
      ensures ok == Readable(files, writes)
    {
      for i := 0 to |writes|
        invariant forall j :: 0 <= j < i ==> writes[j].0 in files
      {
        if writes[i].0 !in files {
          return false;
        }
      }
      ok := true;
    }

    /** Old texts are read first; then every file is written, or the written ones are put back. */
    method WriteAllOrNone(writes: seq<Write>) returns (r: WriteOutcome)
      requires DistinctFiles(writes)
      modifies this
      ensures (files, r) == old(WroteAllOrNone(kernel, files, calls, writes))
      ensures r == Unreadable <==> !Readable(old(files), writes)
      ensures Leaves(old(files), files, writes, r)
      ensures Follows(kernel, old(calls), writes, r)
    {
      hide Leaves, Follows, RolledBack, Written, DistinctFiles, Readable, Restored, StuckExactly;
      WritesLeave(kernel, files, calls, writes);
      var readable := CanReadAll(writes);
      if !readable {
        return Unreadable;
      }
      var before := files;
      var done: nat := 0;
      NothingWritten(before, writes);
      while done < |writes|
        invariant done <= |writes|
        invariant Written(before, files, writes, done)
        invariant WrittenFrom(kernel, files, calls, writes, done, before) ==
                  old(WrittenFrom(kernel, files, calls, writes, 0, files))
      {
        ghost var was := files;
        var ok := Put(writes[done].0, writes[done].1);
        if !ok {
          var stuck := PutBackWritten(writes, done, before);
          return PutBack(done, stuck);
        }
        ReadableAt(before, writes, done);
        OneMoreWritten(before, was, writes, done);
        done := done + 1;
      }
      r := AllWritten;
    }
  }

  lemma ReadableAt(files: Files, writes: seq<Write>, i: nat)
    requires Readable(files, writes) && i < |writes|
    ensures writes[i].0 in files
  {
  }

  /** What an outcome says about the files: all as asked, or all as before but for the files named. */
  ghost predicate Leaves(start: Files, now: Files, writes: seq<Write>, r: WriteOutcome) {
    match r
    case Unreadable => now == start
    case AllWritten => Written(start, now, writes, |writes|)
    case PutBack(n, stuck) => n < |writes| && Restored(start, now, writes, n, n, stuck)
  }

  /** Rolling back restores every file whose put-back call is granted. */
  lemma {:induction false} RollbackRestores(k: Kernel, start: Files, now: Files, calls: nat, writes: seq<Write>,
                                            m: nat, n: nat, stuck: seq<File>)
    requires m <= n <= |writes| && DistinctFiles(writes) && Readable(start, writes)
    requires Restored(start, now, writes, n, m, stuck) && StuckExactly(k, calls, writes, m, stuck)
    ensures var (back, named) := RolledBack(k, now, calls + m, writes, m, n, start, stuck);
            Restored(start, back, writes, n, n, named) && StuckExactly(k, calls, writes, n, named)
    decreases n - m
  {
    hide Restored, StuckExactly, Trim, DistinctFiles;
    if m < n {
      var f := writes[m].0;
      var ok := !k.refuses(calls + m);
      var next := if ok then now[f := Trim(start[f])] else now;
      var named := if ok then stuck else stuck + [f];
      assert Refuses(k, calls, m) == !ok;
      OneMoreRestored(start, now, next, writes, n, m, stuck, named, ok);
      OneMoreStuck(k, calls, writes, m, stuck, named);
      RollbackRestores(k, start, next, calls, writes, m + 1, n, named);
    }
  }

  lemma {:induction false} WritingLeaves(k: Kernel, start: Files, now: Files, calls: nat, writes: seq<Write>, i: nat)
    requires i <= |writes| && DistinctFiles(writes) && Readable(start, writes)
    requires Written(start, now, writes, i) && forall j :: 0 <= j < i ==> !Refuses(k, calls, j)
    ensures var (last, r) := WrittenFrom(k, now, calls + i, writes, i, start);
            Leaves(start, last, writes, r) && Follows(k, calls, writes, r) && !r.Unreadable?
    decreases |writes| - i
  {
    hide Written, Restored, StuckExactly, RolledBack, DistinctFiles, Readable;
    if i < |writes| {
      assert Refuses(k, calls, i) == k.refuses(calls + i);
      if k.refuses(calls + i) {
        NothingRestored(start, now, writes, i);
        NothingStuck(k, calls + i + 1, writes);
        RollbackRestores(k, start, now, calls + i + 1, writes, 0, i, []);
      } else {
        ReadableAt(start, writes, i);
        OneMoreWritten(start, now, writes, i);
        WritingLeaves(k, start, now[writes[i].0 := writes[i].1], calls, writes, i + 1);
      }
    }
  }

  /** The outcome and the files after `write_all_or_none` follow from the calls refused. */
  lemma WritesLeave(k: Kernel, files: Files, calls: nat, writes: seq<Write>)
    requires DistinctFiles(writes)
    ensures var (last, r) := WroteAllOrNone(k, files, calls, writes);
            && Leaves(files, last, writes, r) && Follows(k, calls, writes, r)
            && (r == Unreadable <==> !Readable(files, writes))
  {
    hide Written, Restored, StuckExactly, WrittenFrom, DistinctFiles, Readable;
    if Readable(files, writes) {
      NothingWritten(files, writes);
      WritingLeaves(k, files, files, calls, writes, 0);
    }
  }

  lemma NothingWritten(start: Files, writes: seq<Write>)
    ensures Written(start, start, writes, 0)
  {
  }

  lemma NothingRestored(start: Files, now: Files, writes: seq<Write>, n: nat)
    requires n <= |writes| && Written(start, now, writes, n) && Readable(start, writes)
    ensures Restored(start, now, writes, n, 0, [])
  {
    hide Trim;
    forall i | 0 <= i < n
      ensures RestoredAt(start, now, writes, 0, [], i)
    {
      assert writes[i].0 in start && now[writes[i].0] == writes[i].1;
    }
  }

  lemma NothingStuck(k: Kernel, calls: nat, writes: seq<Write>)
    ensures StuckExactly(k, calls, writes, 0, [])
  {
  }

  lemma OneMoreWritten(start: Files, now: Files, writes: seq<Write>, n: nat)
    requires n < |writes| && DistinctFiles(writes) && Written(start, now, writes, n) && writes[n].0 in start
    ensures Written(start, now[writes[n].0 := writes[n].1], writes, n + 1)
  {
  }

  lemma OneMoreStuck(k: Kernel, calls: nat, writes: seq<Write>, m: nat, named: seq<File>, stuck: seq<File>)
    requires m < |writes| && DistinctFiles(writes) && StuckExactly(k, calls, writes, m, named)
    requires stuck == if Refuses(k, calls, m) then named + [writes[m].0] else named
    ensures StuckExactly(k, calls, writes, m + 1, stuck)
  {
    assert !Among(writes[m].0, writes, m);
    forall f | f in stuck
      ensures Among(f, writes, m + 1)
    {
      if f in named {
        var i :| 0 <= i < m && writes[i].0 == f;
        assert writes[i].0 == f;
      } else {
        assert writes[m].0 == f;
      }
    }
  }

  /** What the rollback has left in the file of write `i` after `m` put-back calls. */
  ghost predicate RestoredAt(start: Files, now: Files, writes: seq<Write>, m: nat, stuck: seq<File>, i: nat)
    requires i < |writes|
  {
    && writes[i].0 in start && writes[i].0 in now
    && now[writes[i].0] == if i < m && writes[i].0 !in stuck then Trim(start[writes[i].0]) else writes[i].1
  }

  lemma OneMoreRestored(start: Files, was: Files, now: Files, writes: seq<Write>, n: nat, m: nat,
                        named: seq<File>, stuck: seq<File>, ok: bool)
    requires m < n <= |writes| && DistinctFiles(writes) && Restored(start, was, writes, n, m, named)
    requires writes[m].0 in start
    requires now == if ok then was[writes[m].0 := Trim(start[writes[m].0])] else was
    requires stuck == if ok then named else named + [writes[m].0]
    ensures Restored(start, now, writes, n, m + 1, stuck)
  {
    hide Trim, RestoredAt;
    var here, next := writes[m].0, m + 1;
    AmongEarlier(writes, m, named);
    forall i | 0 <= i < n
      ensures RestoredAt(start, now, writes, next, stuck, i)
    {
      RestoresAt(start, was, now, writes, m, named, stuck, ok, i);
    }
    forall f | f in stuck
      ensures Among(f, writes, m + 1)
    {
      AmongMore(f, writes, m, named);
    }
    assert Among(here, writes, n);
  }

  lemma AmongEarlier(writes: seq<Write>, m: nat, named: seq<File>)
    requires m < |writes| && DistinctFiles(writes) && forall f :: f in named ==> Among(f, writes, m)
    ensures writes[m].0 !in named
  {
  }

  lemma AmongMore(f: File, writes: seq<Write>, m: nat, named: seq<File>)
    requires m < |writes| && (f in named ==> Among(f, writes, m)) && (f in named || f == writes[m].0)
    ensures Among(f, writes, m + 1)
  {
    if f in named {
      var i :| 0 <= i < m && writes[i].0 == f;
      assert writes[i].0 == f;
    } else {
      assert writes[m].0 == f;
    }
  }

  lemma RestoresAt(start: Files, was: Files, now: Files, writes: seq<Write>, m: nat,
                   named: seq<File>, stuck: seq<File>, ok: bool, i: nat)
    requires i < |writes| && m < |writes| && DistinctFiles(writes) && writes[m].0 !in named
    requires RestoredAt(start, was, writes, m, named, m) && RestoredAt(start, was, writes, m, named, i)
    requires now == if ok then was[writes[m].0 := Trim(start[writes[m].0])] else was
    requires stuck == if ok then named else named + [writes[m].0]
    ensures RestoredAt(start, now, writes, m + 1, stuck, i)
  {
    hide Trim;
    assert i < m ==> writes[i].0 != writes[m].0;
    assert m < i ==> writes[m].0 != writes[i].0;
  }

  // ---- apply ---------------------------------------------------------------

  /** The kernel lacks a controller some limit needs. */
  predicate Unsupported(files: Files, l: Limits) {
    || (l.memoryBytes.Some? && MemoryMax !in files)
    || Controllers !in files
    || (l.nanoCpus.Some? && !HasWord(files[Controllers], "cpu"))
    || (l.pidsMax.Some? && !HasWord(files[Controllers], "pids"))
  }

  /** `enable`: the files after it, the write calls made so far, and whether it worked. */
  function Enabled(k: Kernel, files: Files, calls: nat, controller: string): (Files, nat, bool) {
    if SubtreeControl !in files then (files, calls, false)
    else if HasWord(files[SubtreeControl], controller) then (files, calls, true)
    else if k.refuses(calls) then (files, calls + 1, false)
    else (files[SubtreeControl := k.enable(files[SubtreeControl], "+" + controller)], calls + 1, true)
  }

  function Writes(l: Limits): seq<Write> {
    (if l.memoryBytes.Some? then [(MemoryMax, LimitText(l.memoryBytes.value))] else [])
    + (if l.nanoCpus.Some? then [(CpuMax, CpuMaxText(l.nanoCpus.value))] else [])
    + (if l.pidsMax.Some? then [(PidsMax, LimitText(l.pidsMax.value))] else [])
  }

  /** Enabling every controller the limits need, in order. */
  function EnabledFor(k: Kernel, files: Files, calls: nat, l: Limits): (Files, nat, bool) {
    var (f1, c1, ok1) := if l.nanoCpus.Some? then Enabled(k, files, calls, "cpu") else (files, calls, true);
    if !ok1 then (f1, c1, false)
    else if l.pidsMax.Some? then Enabled(k, f1, c1, "pids")
    else (f1, c1, true)
  }

  /** Nothing but the controller switches differs. */
  ghost predicate LimitsUntouched(a: Files, b: Files) {
    a.Keys == b.Keys && forall f :: f in a && f != SubtreeControl ==> b[f] == a[f]
  }

  datatype Applied = Refused | NotEnabled | Tried(outcome: WriteOutcome)

  /** `apply`, from the calls the kernel refuses. */
  function ApplyResult(k: Kernel, files: Files, calls: nat, l: Limits): (Files, Applied) {
    if Unsupported(files, l) then (files, Refused)
    else
      var (enabled, next, ok) := EnabledFor(k, files, calls, l);
      if !ok then (enabled, NotEnabled)
      else
        var (last, outcome) := WroteAllOrNone(k, enabled, next, Writes(l));
        (last, Tried(outcome))
  }

  /** `apply`. */
  method Apply(g: Cgroup, l: Limits) returns (r: Applied)
    modifies g
    ensures (g.files, r) == old(ApplyResult(g.kernel, g.files, g.calls, l))
    ensures r.Refused? <==> Unsupported(old(g.files), l)
    ensures r.Refused? ==> g.files == old(g.files)
    ensures var (enabled, calls, ok) := old(EnabledFor(g.kernel, g.files, g.calls, l));
            && LimitsUntouched(old(g.files), enabled)
            && (r.NotEnabled? ==> !ok && g.files == enabled)
            && (r.Tried? ==>
                  && ok && Follows(g.kernel, calls, Writes(l), r.outcome)
                  && Leaves(enabled, g.files, Writes(l), r.outcome))
  {
    hide HasWord, CpuMaxText, LimitText, Follows, Leaves, WroteAllOrNone;
    EnablingTouchesNoLimit(g.kernel, g.files, g.calls, l);
    if l.memoryBytes.Some? && MemoryMax !in g.files {
      return Refused;
    }
    if Controllers !in g.files {
      return Refused;
    }
    var available := g.files[Controllers];
    if l.nanoCpus.Some? && !HasWord(available, "cpu") {
      return Refused;
    }
    if l.pidsMax.Some? && !HasWord(available, "pids") {
      return Refused;
    }
    if l.nanoCpus.Some? {
      var ok := Enable(g, "cpu");
      if !ok {
        return NotEnabled;
      }
    }
    if l.pidsMax.Some? {
      var ok := Enable(g, "pids");
      if !ok {
        return NotEnabled;
      }
    }
    var outcome := g.WriteAllOrNone(Writes(l));
    r := Tried(outcome);
  }

  method Enable(g: Cgroup, controller: string) returns (ok: bool)
    modifies g
    ensures (g.files, g.calls, ok) == old(Enabled(g.kernel, g.files, g.calls, controller))
  {
    hide HasWord;
    if SubtreeControl !in g.files {
      return false;
    }
    if HasWord(g.files[SubtreeControl], controller) {
      return true;
    }
    ok := g.Put(SubtreeControl, g.kernel.enable(g.files[SubtreeControl], "+" + controller));
  }

  lemma EnablingTouchesNoLimit(k: Kernel, files: Files, calls: nat, l: Limits)
    ensures LimitsUntouched(files, EnabledFor(k, files, calls, l).0)
  {
    hide HasWord;
  }

  // ---- a failed request that leaves a change -------------------------------

  lemma {:induction false} TrimStartAppend(text: string, tail: string)
    ensures TrimStart(text + tail) == if TrimStart(text) == [] then TrimStart(tail) else TrimStart(text) + tail
  {
    hide IsSpace;
    if text == [] {
      assert text + tail == tail;
    } else {
      assert (text + tail)[1..] == text[1..] + tail;
      TrimStartAppend(text[1..], tail);
    }
  }

  lemma {:induction false} WordLengthAppend(t: string, tail: string)
    requires t != [] && !IsSpace(t[0]) && (tail == [] || IsSpace(tail[0]))
    ensures !IsSpace((t + tail)[0]) && WordLength(t + tail) == WordLength(t)
  {
    hide IsSpace;
    if |t| > 1 && !IsSpace(t[1]) {
      assert (t + tail)[1..] == t[1..] + tail;
      WordLengthAppend(t[1..], tail);
    }
  }

  predicate IsWord(w: string) {
    w != [] && forall i :: 0 <= i < |w| ==> !IsSpace(w[i])
  }

  lemma {:induction false} WholeWord(w: string)
    requires IsWord(w)
    ensures WordLength(w) == |w|
  {
    if |w| > 1 {
      WholeWord(w[1..]);
    }
  }

  lemma HasWordUnfold(text: string, word: string)
    ensures HasWord(text, word) <==>
            var t := TrimStart(text);
            t != [] && (t[..WordLength(t)] == word || HasWord(t[WordLength(t)..], word))
  {
    hide IsSpace, TrimStart, WordLength;
  }

  lemma NoWordInNothing(word: string)
    ensures !HasWord([], word)
  {
  }

  lemma TrimmedWord(w: string)
    requires IsWord(w)
    ensures TrimStart([' '] + w) == w
  {
    hide IsSpace;
    SpaceIsSpace();
    assert ([' '] + w)[1..] == w;
  }

  lemma OnlyWord(added: string, word: string)
    requires IsWord(added)
    ensures HasWord([' '] + added, word) <==> word == added
  {
    hide HasWord, TrimStart, WordLength, IsSpace;
    TrimmedWord(added);
    WholeWord(added);
    HasWordUnfold([' '] + added, word);
    assert added[|added|..] == [] && added[..|added|] == added;
    NoWordInNothing(word);
  }

  /** Adding a word to a list of words adds that word and no other. */
  lemma {:induction false} WordAdded(text: string, added: string, word: string)
    requires IsWord(added)
    ensures HasWord(text + ([' '] + added), word) <==> HasWord(text, word) || word == added
    decreases |text|
  {
    hide HasWord, IsSpace, TrimStart, WordLength, IsWord;
    var tail := [' '] + added;
    HasWordUnfold(text, word);
    HasWordUnfold(text + tail, word);
    TrimStartAppend(text, tail);
    var t := TrimStart(text);
    if t == [] {
      HasWordUnfold(tail, word);
      OnlyWord(added, word);
    } else {
      SpaceIsSpace();
      WordLengthAppend(t, tail);
      var n := WordLength(t);
      assert (t + tail)[..n] == t[..n] && (t + tail)[n..] == t[n..] + tail;
      WordAdded(t[n..], added, word);
    }
  }

  lemma SpaceIsSpace()
    ensures IsSpace(' ')
  {
  }

  /** A kernel that turns on what it is asked to and nothing else. */
  ghost predicate Obeys(k: Kernel) {
    && (forall text, w :: HasWord(k.enable(text, "+cpu"), w) <==> HasWord(text, w) || w == "cpu")
    && (forall text, w :: HasWord(k.enable(text, "+pids"), w) <==> HasWord(text, w) || w == "pids")
  }

  /** Grants every write call but those numbered in `calls`. */
  function Refusing(calls: set<nat>): Kernel {
    Kernel(i => i in calls, (text, request) => text + ([' '] + if request == "+cpu" then "cpu" else "pids"))
  }

  lemma RefusingObeys(calls: set<nat>)
    ensures Obeys(Refusing(calls))
  {
    hide HasWord;
    assert IsWord("cpu") && IsWord("pids");
    var k := Refusing(calls);
    forall text, w
      ensures HasWord(k.enable(text, "+cpu"), w) <==> HasWord(text, w) || w == "cpu"
      ensures HasWord(k.enable(text, "+pids"), w) <==> HasWord(text, w) || w == "pids"
    {
      WordAdded(text, "cpu", w);
      WordAdded(text, "pids", w);
    }
  }

  /** Whether a controller is asked for and not on yet. */
  predicate CpuToEnable(files: Files, l: Limits) {
    l.nanoCpus.Some? && SubtreeControl in files && !HasWord(files[SubtreeControl], "cpu")
  }

  predicate PidsToEnable(files: Files, l: Limits) {
    l.pidsMax.Some? && SubtreeControl in files && !HasWord(files[SubtreeControl], "pids")
  }

  /** How many controllers are to be switched on. */
  function ToSwitch(files: Files, l: Limits): nat {
    (if CpuToEnable(files, l) then 1 else 0) + (if PidsToEnable(files, l) then 1 else 0)
  }

  /** The limit writes leave the controller switches alone. */
  lemma WritesAreLimits(l: Limits)
    ensures DistinctFiles(Writes(l))
    ensures forall i :: 0 <= i < |Writes(l)| ==> Writes(l)[i].0 in {MemoryMax, CpuMax, PidsMax}
  {
    hide LimitText, CpuMaxText;
  }

  lemma WritesKeepSwitches(k: Kernel, files: Files, calls: nat, l: Limits)
    ensures var last := WroteAllOrNone(k, files, calls, Writes(l)).0;
            && (SubtreeControl in last <==> SubtreeControl in files)
            && (SubtreeControl in files ==> last[SubtreeControl] == files[SubtreeControl])
  {
    hide WroteAllOrNone, Writes, DistinctFiles, Follows, Readable, Trim;
    WritesAreLimits(l);
    var writes := Writes(l);
    WritesLeave(k, files, calls, writes);
    assert forall n :: 0 <= n <= |writes| ==> !Among(SubtreeControl, writes, n);
  }

  /** Some controller is on in one text and off in the other. */
  predicate SwitchesDiffer(a: string, b: string) {
    HasWord(a, "cpu") != HasWord(b, "cpu") || HasWord(a, "pids") != HasWord(b, "pids")
  }

  /** `apply` fails and the controller switches are not what they were. */
  predicate FailsWithSwitchesChanged(k: Kernel, files: Files, calls: nat, l: Limits) {
    var (last, r) := ApplyResult(k, files, calls, l);
    && r != Tried(AllWritten)
    && SubtreeControl in files && SubtreeControl in last && SwitchesDiffer(last[SubtreeControl], files[SubtreeControl])
  }

  /** With nothing left to enable, enabling does nothing. */
  lemma NothingToEnable(k: Kernel, files: Files, calls: nat, l: Limits)
    requires !CpuToEnable(files, l) && !PidsToEnable(files, l)
    ensures EnabledFor(k, files, calls, l).0 == files
    ensures EnabledFor(k, files, calls, l).2 ==> EnabledFor(k, files, calls, l).1 == calls
    ensures SubtreeControl in files ==> EnabledFor(k, files, calls, l).2
  {
    hide HasWord;
  }

  /** Switching controllers on, when none of those calls is refused. */
  lemma SwitchesOn(calls: nat, refused: set<nat>, files: Files, l: Limits)
    requires CpuToEnable(files, l) || PidsToEnable(files, l)
    requires forall c :: calls <= c < calls + ToSwitch(files, l) ==> c !in refused
    ensures var (enabled, next, ok) := EnabledFor(Refusing(refused), files, calls, l);
            && ok && SubtreeControl in enabled && SwitchesDiffer(enabled[SubtreeControl], files[SubtreeControl])
            && next == calls + ToSwitch(files, l)
  {
    hide HasWord;
    RefusingObeys(refused);
    var k := Refusing(refused);
    assert "+" + "cpu" == "+cpu" && "+" + "pids" == "+pids";
    var text := files[SubtreeControl];
    var one := k.enable(text, "+cpu");
    assert HasWord(one, "cpu") && (HasWord(one, "pids") <==> HasWord(text, "pids"));
    assert HasWord(k.enable(text, "+pids"), "pids");
    assert HasWord(k.enable(one, "+pids"), "cpu") && HasWord(k.enable(one, "+pids"), "pids");
  }

  /** The first input: every controller is switched on, and then the first limit write is refused. */
  lemma RefusedLimitLeavesSwitchesOn(files: Files, calls: nat, l: Limits)
    requires !Unsupported(files, l) && (CpuToEnable(files, l) || PidsToEnable(files, l))
    ensures var k := Refusing({calls + ToSwitch(files, l)});
            Obeys(k) && FailsWithSwitchesChanged(k, files, calls, l)
  {
    hide HasWord, Unsupported, EnabledFor, ToSwitch, WroteAllOrNone, Obeys, Writes;
    var last := calls + ToSwitch(files, l);
    var k := Refusing({last});
    RefusingObeys({last});
    SwitchesOn(calls, {last}, files, l);
    var (enabled, next, ok) := EnabledFor(k, files, calls, l);
    WritesKeepSwitches(k, enabled, next, l);
    SomeLimitIsWritten(files, l);
    FirstRefusedFails(k, enabled, next, Writes(l));
  }

  lemma SomeLimitIsWritten(files: Files, l: Limits)
    requires CpuToEnable(files, l) || PidsToEnable(files, l)
    ensures Writes(l) != []
  {
    hide LimitText, CpuMaxText, HasWord;
  }

  lemma FirstRefusedFails(k: Kernel, files: Files, calls: nat, writes: seq<Write>)
    requires writes != [] && k.refuses(calls)
    ensures WroteAllOrNone(k, files, calls, writes).1 != AllWritten
  {
  }

  /** The second input: cpu is switched on and pids is refused. */
  lemma RefusedPidsLeavesCpuOn(files: Files, calls: nat, l: Limits)
    requires !Unsupported(files, l) && CpuToEnable(files, l) && PidsToEnable(files, l)
    ensures var k := Refusing({calls + 1});
            && Obeys(k) && FailsWithSwitchesChanged(k, files, calls, l)
            && ApplyResult(k, files, calls, l).1 == NotEnabled
  {
    hide HasWord, Unsupported, WroteAllOrNone;
    var k := Refusing({calls + 1});
    RefusingObeys({calls + 1});
    assert "+" + "cpu" == "+cpu";
    var text := k.enable(files[SubtreeControl], "+cpu");
    assert HasWord(text, "cpu") && !HasWord(text, "pids");
    var enabled := files[SubtreeControl := text];
    assert enabled[SubtreeControl] == text;
    assert EnabledFor(k, files, calls, l) == (enabled, calls + 2, false);
  }

  /**
   A failing `apply` can leave a controller switched on if and only if it is not
   refused outright and asks for a controller that is not on yet.
   */
  lemma FailureLeavesSwitchesExactly(files: Files, calls: nat, l: Limits)
    ensures (exists k :: Obeys(k) && FailsWithSwitchesChanged(k, files, calls, l)) <==>
            !Unsupported(files, l) && (CpuToEnable(files, l) || PidsToEnable(files, l))
  {
    hide Obeys, HasWord, Unsupported, EnabledFor, CpuToEnable, PidsToEnable, WroteAllOrNone, Writes;
    if !Unsupported(files, l) && (CpuToEnable(files, l) || PidsToEnable(files, l)) {
      RefusedLimitLeavesSwitchesOn(files, calls, l);
    }
    forall k | Obeys(k) && FailsWithSwitchesChanged(k, files, calls, l)
      ensures !Unsupported(files, l) && (CpuToEnable(files, l) || PidsToEnable(files, l))
    {
      var (enabled, next, ok) := EnabledFor(k, files, calls, l);
      WritesKeepSwitches(k, enabled, next, l);
      if !CpuToEnable(files, l) && !PidsToEnable(files, l) {
        NothingToEnable(k, files, calls, l);
      }
    }
  }

  // ---- a failed request that leaves any change -----------------------------

  /** A space at the end hides no word and adds none. */
  lemma {:induction false} SpaceAdded(text: string, space: char, word: string)
    requires IsSpace(space)
    ensures HasWord(text + [space], word) <==> HasWord(text, word)
    decreases |text|
  {
    hide HasWord, IsSpace, TrimStart, WordLength;
    HasWordUnfold(text, word);
    HasWordUnfold(text + [space], word);
    TrimStartAppend(text, [space]);
    var t := TrimStart(text);
    if t == [] {
      TrimmedSpace(space);
    } else {
      WordLengthAppend(t, [space]);
      var n := WordLength(t);
      assert (t + [space])[..n] == t[..n] && (t + [space])[n..] == t[n..] + [space];
      SpaceAdded(t[n..], space, word);
    }
  }

  lemma TrimmedSpace(space: char)
    requires IsSpace(space)
    ensures TrimStart([space]) == []
  {
    hide IsSpace;
    assert [space][1..] == [];
  }

  lemma {:induction false} TrimEndKeepsWords(text: string, word: string)
    ensures HasWord(TrimEnd(text), word) <==> HasWord(text, word)
    decreases |text|
  {
    hide HasWord, IsSpace;
    if text != [] && IsSpace(text[|text| - 1]) {
      var n := |text| - 1;
      assert text[..n] + [text[n]] == text;
      SpaceAdded(text[..n], text[n], word);
      TrimEndKeepsWords(text[..n], word);
    }
  }

  lemma TrimStartKeepsWords(text: string, word: string)
    ensures HasWord(TrimStart(text), word) <==> HasWord(text, word)
  {
    hide HasWord, IsSpace, WordLength;
    HasWordUnfold(text, word);
    HasWordUnfold(TrimStart(text), word);
    TrimStartTwice(text);
  }

  lemma TrimStartTwice(text: string)
    ensures TrimStart(TrimStart(text)) == TrimStart(text)
  {
    hide IsSpace;
  }

  /** Surrounding whitespace carries no controllers. */
  lemma TrimKeepsWords(text: string, word: string)
    ensures HasWord(Trim(text), word) <==> HasWord(text, word)
  {
    hide HasWord, TrimStart, TrimEnd;
    TrimEndKeepsWords(TrimStart(text), word);
    TrimStartKeepsWords(text, word);
  }

  /** Files that hold the same texts up to surrounding whitespace. */
  ghost predicate SameTexts(a: Files, b: Files) {
    a.Keys == b.Keys && forall f :: f in a ==> Trim(a[f]) == Trim(b[f])
  }

  /** `apply` fails and some file, up to surrounding whitespace, is not what it was. */
  ghost predicate FailsChanged(k: Kernel, files: Files, calls: nat, l: Limits) {
    var (last, r) := ApplyResult(k, files, calls, l);
    r != Tried(AllWritten) && !SameTexts(files, last)
  }

  /** A write but the last whose text is new. */
  predicate IsNews(files: Files, writes: seq<Write>, i: nat)
    requires Readable(files, writes)
  {
    i + 1 < |writes| && Trim(writes[i].1) != Trim(files[writes[i].0])
  }

  ghost predicate SomeNews(files: Files, writes: seq<Write>) {
    Readable(files, writes) && exists i :: 0 <= i < |writes| && IsNews(files, writes, i)
  }

  /** What a caller can see beforehand: something to enable, or a limit before the last that is new. */
  ghost predicate CanChange(files: Files, l: Limits) {
    && !Unsupported(files, l)
    && (|| CpuToEnable(files, l) || PidsToEnable(files, l)
        || (SubtreeControl in files && SomeNews(files, Writes(l))))
  }

  /** A file that a failed batch of writes changed is one of them, before the one refused. */
  lemma ChangedWriteIsNews(start: Files, now: Files, writes: seq<Write>, n: nat, stuck: seq<File>)
    requires n < |writes| && Readable(start, writes) && Restored(start, now, writes, n, n, stuck)
    ensures !SameTexts(start, now) ==> SomeNews(start, writes)
  {
    hide Trim;
    if !SameTexts(start, now) {
      KeysStay(start, now, writes, n, stuck);
      var f :| f in start && Trim(start[f]) != Trim(now[f]);
      assert Among(f, writes, n);
      var i :| 0 <= i < n && writes[i].0 == f;
      assert RestoredAt(start, now, writes, n, stuck, i);
      TrimIsStable(start[f]);
      assert IsNews(start, writes, i);
    }
  }

  lemma KeysStay(start: Files, now: Files, writes: seq<Write>, n: nat, stuck: seq<File>)
    requires n <= |writes| && Restored(start, now, writes, n, n, stuck)
    ensures start.Keys == now.Keys
  {
    hide Trim;
    forall f | f in start
      ensures f in now
    {
      if Among(f, writes, n) {
        var i :| 0 <= i < n && writes[i].0 == f;
        assert RestoredAt(start, now, writes, n, stuck, i);
      }
    }
  }

  lemma ChangedFailureCanChange(k: Kernel, files: Files, calls: nat, l: Limits)
    ensures FailsChanged(k, files, calls, l) ==> CanChange(files, l)
  {
    hide HasWord, Unsupported, EnabledFor, CpuToEnable, PidsToEnable, WroteAllOrNone, SomeNews, Readable, Restored,
      Written, Writes, DistinctFiles, SameTexts;
    SameAsItself(files);
    if FailsChanged(k, files, calls, l) && !CpuToEnable(files, l) && !PidsToEnable(files, l) {
      NothingToEnable(k, files, calls, l);
      WritesAreLimits(l);
      WritesLeave(k, files, calls, Writes(l));
      var (last, outcome) := WroteAllOrNone(k, files, calls, Writes(l));
      ChangedWriteIsNews(files, last, Writes(l), outcome.failedAt, outcome.stuck);
      EarlyWriteNeedsSwitches(k, files, calls, l);
    }
  }

  lemma SameAsItself(files: Files)
    ensures SameTexts(files, files)
  {
  }

  /** With two limits to write, one of them needs a controller. */
  lemma EarlyWriteNeedsSwitches(k: Kernel, files: Files, calls: nat, l: Limits)
    ensures SomeNews(files, Writes(l)) && EnabledFor(k, files, calls, l).2 ==> SubtreeControl in files
  {
    hide HasWord, LimitText, CpuMaxText, Trim;
    if SomeNews(files, Writes(l)) {
      var i :| 0 <= i < |Writes(l)| && IsNews(files, Writes(l), i);
      assert |Writes(l)| >= 2;
    }
  }

  /** The third input: the last limit write is refused, and so is the put-back of write `i`. */
  function LastRefused(calls: nat, writes: seq<Write>, i: nat): set<nat>
    requires i < |writes|
  {
    {calls + |writes| - 1, calls + |writes| + i}
  }

  /**
   If the kernel refuses the last write, but none before it, and then the put-back
   of write `i`, the batch fails and the file of write `i` keeps its new text.
   */
  lemma RefusedLastChanges(k: Kernel, files: Files, calls: nat, writes: seq<Write>, i: nat)
    requires DistinctFiles(writes) && Readable(files, writes) && i + 1 < |writes|
    requires Refuses(k, calls, |writes| - 1) && Refuses(k, calls + |writes|, i)
    requires forall j :: 0 <= j < |writes| - 1 ==> !Refuses(k, calls, j)
    ensures var (last, r) := WroteAllOrNone(k, files, calls, writes);
            r.PutBack? && writes[i].0 in last && last[writes[i].0] == writes[i].1
  {
    hide WroteAllOrNone, Trim, Restored, StuckExactly, DistinctFiles;
    WritesLeave(k, files, calls, writes);
    var (last, r) := WroteAllOrNone(k, files, calls, writes);
    var n := |writes| - 1;
    assert r.PutBack? && r.failedAt == n;
    PutBackAt(k, calls + n + 1, files, last, writes, n, r.stuck, i);
  }

  lemma RefusedCalls(calls: nat, writes: seq<Write>, i: nat)
    requires i + 1 < |writes|
    ensures var k, n := Refusing(LastRefused(calls, writes, i)), |writes| - 1;
            && Refuses(k, calls, n) && (forall j :: 0 <= j < n ==> !Refuses(k, calls, j))
            && Refuses(k, calls + |writes|, i)
  {
  }

  /** What a rollback leaves in the file of write `i`. */
  lemma PutBackAt(k: Kernel, calls: nat, start: Files, now: Files, writes: seq<Write>, n: nat, stuck: seq<File>, i: nat)
    requires i < n <= |writes| && Restored(start, now, writes, n, n, stuck) && StuckExactly(k, calls, writes, n, stuck)
    ensures writes[i].0 in start && writes[i].0 in now
    ensures now[writes[i].0] == if Refuses(k, calls, i) then writes[i].1 else Trim(start[writes[i].0])
  {
    hide Trim;
    assert RestoredAt(start, now, writes, n, stuck, i);
  }

  /**
   A failing `apply` can leave a file changed, up to surrounding whitespace, if and
   only if it is not refused outright and there is a controller to switch on, or a
   limit before the last one that is new.
   */
  lemma FailureChangesExactly(files: Files, calls: nat, l: Limits)
    ensures (exists k :: Obeys(k) && FailsChanged(k, files, calls, l)) <==> CanChange(files, l)
  {
    hide Obeys, Unsupported, CpuToEnable, PidsToEnable, HasWord, Trim, EnabledFor, WroteAllOrNone, Readable,
      Writes, LastRefused, DistinctFiles, Refusing, SwitchesDiffer;
    if CanChange(files, l) {
      if CpuToEnable(files, l) || PidsToEnable(files, l) {
        RefusedLimitLeavesSwitchesOn(files, calls, l);
        var k := Refusing({calls + ToSwitch(files, l)});
        var last := ApplyResult(k, files, calls, l).0;
        if SameTexts(files, last) {
          SameTextSameSwitches(last[SubtreeControl], files[SubtreeControl]);
        }
        assert FailsChanged(k, files, calls, l);
      } else {
        var writes := Writes(l);
        var i :| 0 <= i < |writes| && IsNews(files, writes, i);
        var k := Refusing(LastRefused(calls, writes, i));
        RefusingObeys(LastRefused(calls, writes, i));
        NothingToEnable(k, files, calls, l);
        WritesAreLimits(l);
        RefusedCalls(calls, writes, i);
        RefusedLastChanges(k, files, calls, writes, i);
        assert FailsChanged(k, files, calls, l);
      }
    }
    forall k | Obeys(k) && FailsChanged(k, files, calls, l)
      ensures CanChange(files, l)
    {
      ChangedFailureCanChange(k, files, calls, l);
    }
  }

  /** Lists that are the same up to surrounding whitespace name the same controllers. */
  lemma SameTextSameSwitches(a: string, b: string)
    requires Trim(a) == Trim(b)
    ensures !SwitchesDiffer(a, b)
  {
    hide HasWord, Trim;
    TrimKeepsWords(a, "cpu");
    TrimKeepsWords(a, "pids");
    TrimKeepsWords(b, "cpu");
    TrimKeepsWords(b, "pids");
  }

  // ---- what the texts say --------------------------------------------------

  /** The number a run of decimal digits stands for. */
  function Number(text: string): int {
    if text == [] then 0 else 10 * Number(text[..|text| - 1]) + (text[|text| - 1] as int - '0' as int)
  }

  predicate AllDigits(text: string) {
    forall i :: 0 <= i < |text| ==> '0' <= text[i] <= '9'
  }

  lemma {:induction false} DecimalReadsBack(n: nat)
    ensures AllDigits(Decimal(n)) && Number(Decimal(n)) == n
    ensures n > 0 ==> Decimal(n)[0] != '0'
    decreases n
  {
    var text := Decimal(n);
    assert text[..|text| - 1] == if n < 10 then [] else Decimal(n / 10);
    assert text[|text| - 1] == Digit(n % 10);
    if n >= 10 {
      DecimalReadsBack(n / 10);
    }
  }

  /** Zero lifts a limit; any other number is written in decimal. */
  lemma LimitTextMeans(value: nat)
    ensures value == 0 ==> LimitText(value) == "max"
    ensures value > 0 ==> AllDigits(LimitText(value)) && Number(LimitText(value)) == value
  {
    hide Decimal, Number;
    DecimalReadsBack(value);
  }

  /**
   The quota is the share of a period of 100000 microseconds, rounded down, that the
   asked number of CPUs makes, but never less than 1000; zero lifts the limit.
   */
  lemma CpuMaxTextMeans(nanoCpus: nat)
    ensures nanoCpus == 0 ==> CpuMaxText(nanoCpus) == "max 100000"
    ensures nanoCpus > 0 ==>
              exists quota: string ::
                && CpuMaxText(nanoCpus) == quota + " 100000" && AllDigits(quota) && 1000 <= Number(quota)
                && nanoCpus < (Number(quota) + 1) * 10_000
                && (Number(quota) > 1000 ==> Number(quota) * 10_000 <= nanoCpus)
  {
    hide Decimal, Number;
    PeriodText();
    if nanoCpus > 0 {
      var share := nanoCpus * CPU_PERIOD_MICROS / NANOS_PER_CPU;
      ShareOfPeriod(nanoCpus);
      var quota := if share < MIN_CPU_QUOTA_MICROS then MIN_CPU_QUOTA_MICROS else share;
      DecimalReadsBack(quota);
      assert CpuMaxText(nanoCpus) == Decimal(quota) + " 100000";
    }
  }

  lemma ShareOfPeriod(nanoCpus: nat)
    ensures nanoCpus * CPU_PERIOD_MICROS / NANOS_PER_CPU == nanoCpus / 10_000
  {
  }

  lemma PeriodText()
    ensures Decimal(100_000) == "100000"
    ensures "max " + "100000" == "max 100000"
  {
    assert Decimal(1) == "1" && Decimal(10) == Decimal(1) + "0";
    assert Decimal(100) == Decimal(10) + "0" && Decimal(1000) == Decimal(100) + "0";
    assert Decimal(10_000) == Decimal(1000) + "0";
  }

  /** The limits asked for, and no others, are written, each to its own file. */
  lemma WritesAreTheRequest(l: Limits, w: Write)
    ensures w in Writes(l) <==>
            || (w.0 == MemoryMax && l.memoryBytes.Some? && w.1 == LimitText(l.memoryBytes.value))
            || (w.0 == CpuMax && l.nanoCpus.Some? && w.1 == CpuMaxText(l.nanoCpus.value))
            || (w.0 == PidsMax && l.pidsMax.Some? && w.1 == LimitText(l.pidsMax.value))
  {
    hide LimitText, CpuMaxText;
    var a: seq<Write> := if l.memoryBytes.Some? then [(MemoryMax, LimitText(l.memoryBytes.value))] else [];
    var b: seq<Write> := if l.nanoCpus.Some? then [(CpuMax, CpuMaxText(l.nanoCpus.value))] else [];
    var c: seq<Write> := if l.pidsMax.Some? then [(PidsMax, LimitText(l.pidsMax.value))] else [];
    assert Writes(l) == a + b + c;
    assert w in a + b + c <==> w in a || w in b || w in c;
  }
}
