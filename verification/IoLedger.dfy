/**
 The I/O ledger of the stats sampler: it is updated sample by sample with
 saturating counters, and is proved to equal a sum over all runs of all
 processes taken at once.
 */
module IoLedger {
  import opened Machine

  type Pid = nat

  datatype Io = Io(read: U64, write: U64)

  /** An exact total, with no machine limit. */
  datatype Sum = Sum(read: nat, write: nat)

  type Sample = map<Pid, Io>

  function Plus(a: Sum, b: Sum): Sum {
    Sum(a.read + b.read, a.write + b.write)
  }

  function Exact(a: Io): Sum {
    Sum(a.read, a.write)
  }

  const ZERO := Sum(0, 0)

  function Clamp(s: Sum): Io {
    Io(Saturate(s.read), Saturate(s.write))
  }

  predicate AtMost(a: Sum, b: Sum) {
    a.read <= b.read && a.write <= b.write
  }

  /** `add`: saturating, field by field. */
  function Add(a: Io, b: Io): Io {
    Io(SaturatingAdd(a.read, b.read), SaturatingAdd(a.write, b.write))
  }

  /** Clamping early or late makes no difference. */
  lemma AddClamps(s: Sum, b: Io)
    ensures Add(Clamp(s), b) == Clamp(Plus(s, Exact(b)))
  {
  }

  ghost function Total(m: Sample): Sum
    decreases |m|
  {
    if m == map[] then ZERO
    else
      var k: Pid :| k in m;
      Plus(Exact(m[k]), Total(m - {k}))
  }

  lemma TotalOfNone()
    ensures Total(map[]) == ZERO
  {
  }

  /** The total does not depend on which process is counted first. */
  lemma {:induction false} TotalAnyOrder(m: Sample, k: Pid)
    requires k in m
    ensures Total(m) == Plus(Exact(m[k]), Total(m - {k}))
    decreases |m|
  {
    var first: Pid :| first in m && Total(m) == Plus(Exact(m[first]), Total(m - {first}));
    if first != k {
      TotalAnyOrder(m - {first}, k);
      TotalAnyOrder(m - {k}, first);
      assert m - {first} - {k} == m - {k} - {first};
      assert (m - {first})[k] == m[k] && (m - {k})[first] == m[first];
      var rest := Total(m - {first} - {k});
      assert Total(m - {first}) == Plus(Exact(m[k]), rest);
      assert Total(m - {k}) == Plus(Exact(m[first]), rest);
      assert Plus(Exact(m[first]), Plus(Exact(m[k]), rest)) == Plus(Exact(m[k]), Plus(Exact(m[first]), rest));
    }
  }

  /** A process that is gone, or whose counters went back: its reading is final. */
  predicate EndsHere(last: Io, now: Sample, pid: Pid) {
    pid !in now || now[pid].read < last.read || now[pid].write < last.write
  }

  /** The readings an update retires: all but those the new sample goes on from. */
  function Ended(live: Sample, now: Sample): (r: Sample)
    ensures forall pid :: pid in r <==>
              pid in live && !(pid in now && live[pid].read <= now[pid].read && live[pid].write <= now[pid].write)
    ensures forall pid :: pid in r ==> r[pid] == live[pid]
  {
    map pid | pid in live && EndsHere(live[pid], now, pid) :: live[pid]
  }

  /** The same, with the processes in `left` not looked at yet. */
  function EndedBut(live: Sample, now: Sample, left: set<Pid>): Sample {
    map pid | pid in live && pid !in left && EndsHere(live[pid], now, pid) :: live[pid]
  }

  lemma EndedButOne(live: Sample, now: Sample, left: set<Pid>, pid: Pid)
    requires pid in left && pid in live
    ensures var before := EndedBut(live, now, left);
            && pid !in before
            && EndedBut(live, now, left - {pid}) ==
               (if EndsHere(live[pid], now, pid) then before[pid := live[pid]] else before)
  {
  }

  /** Counting one more reading. */
  lemma CountOne(base: Sum, before: Sample, pid: Pid, io: Io)
    requires pid !in before
    ensures Add(Clamp(Plus(base, Total(before))), io) == Clamp(Plus(base, Total(before[pid := io])))
  {
    hide Total;
    TotalAnyOrder(before[pid := io], pid);
    assert before[pid := io] - {pid} == before;
    AddClamps(Plus(base, Total(before)), io);
  }

  /** The retired sum once the processes outside `left` have been looked at. */
  ghost function RetiredBut(base: Io, live: Sample, now: Sample, left: set<Pid>): Io {
    Clamp(Plus(Exact(base), Total(EndedBut(live, now, left))))
  }

  lemma NothingRetired(base: Io, live: Sample, now: Sample)
    ensures RetiredBut(base, live, now, live.Keys) == base
  {
    TotalOfNone();
    assert EndedBut(live, now, live.Keys) == map[];
  }

  /** Looking at one more process. */
  lemma RetireOne(base: Io, live: Sample, now: Sample, left: set<Pid>, pid: Pid)
    requires pid in left && pid in live
    ensures RetiredBut(base, live, now, left - {pid}) ==
            if EndsHere(live[pid], now, pid) then Add(RetiredBut(base, live, now, left), live[pid])
            else RetiredBut(base, live, now, left)
  {
    hide Total, Clamp, Plus, Exact, EndedBut, EndsHere, Add;
    EndedButOne(live, now, left, pid);
    if EndsHere(live[pid], now, pid) {
      CountOne(Exact(base), EndedBut(live, now, left), pid, live[pid]);
    }
  }

  lemma AllRetired(base: Io, live: Sample, now: Sample)
    ensures RetiredBut(base, live, now, {}) == Clamp(Plus(Exact(base), Total(Ended(live, now))))
  {
    hide Total;
    assert EndedBut(live, now, {}) == Ended(live, now);
  }

  /** The total of `base` and of the readings outside `left`. */
  ghost function CountedBut(base: Io, live: Sample, left: set<Pid>): Io {
    Clamp(Plus(Exact(base), Total(live - left)))
  }

  lemma NothingCounted(base: Io, live: Sample)
    ensures CountedBut(base, live, live.Keys) == base
  {
    TotalOfNone();
    assert live - live.Keys == map[];
  }

  lemma CountOneMore(base: Io, live: Sample, left: set<Pid>, pid: Pid)
    requires pid in left && pid in live
    ensures CountedBut(base, live, left - {pid}) == Add(CountedBut(base, live, left), live[pid])
  {
    hide Total, Clamp, Plus, Exact, Add;
    CountOne(Exact(base), live - left, pid, live[pid]);
    assert live - (left - {pid}) == (live - left)[pid := live[pid]];
  }

  /** The ledger's value between updates. */
  datatype Ledger = Ledger(live: Sample, retired: Io)

  const EMPTY := Ledger(map[], Io(0, 0))

  ghost function Updated(l: Ledger, now: Sample): Ledger {
    Ledger(now, Clamp(Plus(Exact(l.retired), Total(Ended(l.live, now)))))
  }

  ghost function LedgerTotal(l: Ledger): Io {
    Clamp(Plus(Exact(l.retired), Total(l.live)))
  }

  class IoLedger {
    var live: Sample
    var retired: Io

    constructor ()
      ensures Value() == EMPTY
    {
      live, retired := map[], Io(0, 0);
    }

    ghost function Value(): Ledger
      reads this
    {
      Ledger(live, retired)
    }

    /** Visits the live processes in any order. */
    method Update(now: Sample)
      modifies this
      ensures Value() == Updated(old(Value()), now)
    {
      hide RetiredBut, EndsHere, Add, Ended;
      var left := live.Keys;
      NothingRetired(retired, live, now);
      while left != {}
        invariant live == old(live) && left <= live.Keys
        invariant retired == RetiredBut(old(retired), live, now, left)
        decreases left
      {
        var pid: Pid :| pid in left;
        RetireOne(old(retired), live, now, left, pid);
        if EndsHere(live[pid], now, pid) {
          retired := Add(retired, live[pid]);
        }
        left := left - {pid};
      }
      AllRetired(old(retired), live, now);
      live := now;
    }

    /** The fold over the live readings, again in any order. */
    method TotalNow() returns (sum: Io)
      ensures sum == LedgerTotal(Value())
    {
      hide CountedBut, Add;
      var left := live.Keys;
      sum := retired;
      NothingCounted(retired, live);
      while left != {}
        invariant left <= live.Keys
        invariant sum == CountedBut(retired, live, left)
        decreases left
      {
        var pid: Pid :| pid in left;
        CountOneMore(retired, live, left, pid);
        sum := Add(sum, live[pid]);
        left := left - {pid};
      }
      AllCounted(retired, live);
    }
  }

  lemma AllCounted(base: Io, live: Sample)
    ensures CountedBut(base, live, {}) == Clamp(Plus(Exact(base), Total(live)))
  {
    hide Total;
    assert live - {} == live;
  }

  // ---- the batch definition ------------------------------------------------

  /** `pid` is in the next sample too, and neither of its counters is lower there. */
  predicate Continues(samples: seq<Sample>, pid: Pid, i: nat)
    requires i < |samples| && pid in samples[i]
  {
    && i + 1 < |samples| && pid in samples[i + 1]
    && samples[i][pid].read <= samples[i + 1][pid].read
    && samples[i][pid].write <= samples[i + 1][pid].write
  }

  /** Consecutive samples in which `pid` is present and neither counter goes back. */
  ghost predicate IsRun(samples: seq<Sample>, pid: Pid, from: nat, to: nat) {
    && from <= to < |samples|
    && (forall i :: from <= i <= to ==> pid in samples[i])
    && (forall i :: from <= i < to ==> pid in samples[i] && Continues(samples, pid, i))
  }

  /** A run that no sample before or after it extends. */
  ghost predicate IsMaximalRun(samples: seq<Sample>, pid: Pid, from: nat, to: nat) {
    && IsRun(samples, pid, from, to)
    && !Continues(samples, pid, to)
    && (from > 0 ==> !(pid in samples[from - 1] && Continues(samples, pid, from - 1)))
  }

  /** The last readings of the runs that end at sample `i`. */
  function EndingAt(samples: seq<Sample>, i: nat): Sample
    requires i < |samples|
  {
    map pid | pid in samples[i] && !Continues(samples, pid, i) :: samples[i][pid]
  }

  /** Every run's last reading, over the first `n` samples. */
  ghost function BatchTotal(samples: seq<Sample>, n: nat): Sum
    requires n <= |samples|
  {
    if n == 0 then ZERO else Plus(BatchTotal(samples, n - 1), Total(EndingAt(samples, n - 1)))
  }

  /** A reading counts exactly when it ends a maximal run. */
  lemma EndingIsMaximalRun(samples: seq<Sample>, pid: Pid, to: nat)
    requires to < |samples|
    ensures pid in EndingAt(samples, to) <==> exists from: nat :: IsMaximalRun(samples, pid, from, to)
  {
    if pid in EndingAt(samples, to) {
      assert IsRun(samples, pid, to, to);
      var from := LongestRun(samples, pid, to, to);
      assert IsMaximalRun(samples, pid, from, to);
    }
  }

  lemma {:induction false} LongestRun(samples: seq<Sample>, pid: Pid, from: nat, to: nat) returns (first: nat)
    requires IsRun(samples, pid, from, to)
    ensures IsRun(samples, pid, first, to)
    ensures first > 0 ==> !(pid in samples[first - 1] && Continues(samples, pid, first - 1))
    decreases from
  {
    first := from;
    if from > 0 && pid in samples[from - 1] && Continues(samples, pid, from - 1) {
      first := LongestRun(samples, pid, from - 1, to);
    }
  }

  lemma RunsNest(samples: seq<Sample>, pid: Pid, a: nat, b: nat, to: nat)
    requires IsRun(samples, pid, a, to) && a < b <= to
    ensures pid in samples[b - 1] && Continues(samples, pid, b - 1)
  {
  }

  /** Two maximal runs of a process that end together are the same run. */
  lemma {:induction false} MaximalRunIsUnique(samples: seq<Sample>, pid: Pid, a: nat, b: nat, to: nat)
    requires IsMaximalRun(samples, pid, a, to) && IsMaximalRun(samples, pid, b, to)
    ensures a == b
  {
    if a < b {
      RunsNest(samples, pid, a, b, to);
    } else if b < a {
      RunsNest(samples, pid, b, a, to);
    }
  }

  /** The ledger after a sequence of samples. */
  ghost function After(samples: seq<Sample>): Ledger {
    if samples == [] then EMPTY else Updated(After(samples[..|samples| - 1]), samples[|samples| - 1])
  }

  lemma {:induction false} BatchOfPrefix(samples: seq<Sample>, n: nat)
    requires n < |samples|
    ensures BatchTotal(samples, n) == BatchTotal(samples[..n + 1], n)
    decreases n
  {
    hide Total;
    if n > 0 {
      BatchOfPrefix(samples, n - 1);
      BatchOfPrefix(samples[..n + 1], n - 1);
      assert samples[..n + 1][..n] == samples[..n];
      assert EndingAt(samples, n - 1) == EndingAt(samples[..n + 1], n - 1);
    }
  }

  lemma AfterLast(samples: seq<Sample>)
    requires samples != []
    ensures After(samples) == Updated(After(samples[..|samples| - 1]), samples[|samples| - 1])
  {
  }

  lemma EndingBeforeLast(samples: seq<Sample>, i: nat)
    requires i + 1 < |samples|
    ensures EndingAt(samples, i) == Ended(samples[i], samples[i + 1])
  {
  }

  /** What is retired after `samples` is every run that ended before the last one. */
  lemma {:induction false} RetiredIsBatch(samples: seq<Sample>)
    requires samples != []
    ensures After(samples).retired == Clamp(BatchTotal(samples, |samples| - 1))
    ensures After(samples).live == samples[|samples| - 1]
    decreases |samples|
  {
    hide Total, After, Ended, EndingAt, Clamp, Plus, Exact;
    var n := |samples| - 1;
    AfterLast(samples);
    if n == 0 {
      assert samples[..n] == [];
      FirstSample(samples[0]);
      ClampZero();
    } else {
      RetiredIsBatch(samples[..n]);
      BatchOfPrefix(samples, n - 1);
      EndingBeforeLast(samples, n - 1);
      ClampTwice(BatchTotal(samples, n - 1), Total(Ended(samples[n - 1], samples[n])));
    }
  }

  lemma FirstSample(now: Sample)
    ensures Updated(After([]), now) == Ledger(now, Io(0, 0))
  {
    hide Total;
    TotalOfNone();
    assert Ended(map[], now) == map[];
  }

  lemma ClampZero()
    ensures Clamp(ZERO) == Io(0, 0)
  {
  }

  lemma ClampTwice(a: Sum, b: Sum)
    ensures Clamp(Plus(Exact(Clamp(a)), b)) == Clamp(Plus(a, b))
  {
  }

  /**
   The incremental ledger equals the batch: after any samples its total is the
   saturated sum, over all maximal runs, of the run's last reading.
   */
  lemma LedgerIsBatch(samples: seq<Sample>)
    ensures LedgerTotal(After(samples)) == Clamp(BatchTotal(samples, |samples|))
  {
    hide Total, Clamp, Plus, Exact;
    if samples == [] {
      NothingCountedYet();
    } else {
      RetiredIsBatch(samples);
      var n := |samples| - 1;
      assert EndingAt(samples, n) == samples[n];
      ClampTwice(BatchTotal(samples, n), Total(samples[n]));
    }
  }

  lemma NothingCountedYet()
    ensures LedgerTotal(After([])) == Clamp(ZERO) == Io(0, 0)
  {
    TotalOfNone();
  }

  lemma EndedWithout(m: Sample, x: Sample, k: Pid)
    requires k in m
    ensures EndsHere(m[k], x, k) ==> Ended(m - {k}, x) == Ended(m, x) - {k}
    ensures !EndsHere(m[k], x, k) ==> Ended(m - {k}, x - {k}) == Ended(m, x)
  {
  }

  /** What was live is covered by what ended and what is live now. */
  lemma {:induction false} LiveIsCovered(m: Sample, x: Sample)
    ensures AtMost(Total(m), Plus(Total(Ended(m, x)), Total(x)))
    decreases |m|
  {
    hide Total;
    TotalOfNone();
    if m != map[] {
      var k: Pid :| k in m;
      TotalAnyOrder(m, k);
      EndedWithout(m, x, k);
      if EndsHere(m[k], x, k) {
        TotalAnyOrder(Ended(m, x), k);
        LiveIsCovered(m - {k}, x);
      } else {
        TotalAnyOrder(x, k);
        LiveIsCovered(m - {k}, x - {k});
      }
    }
  }

  /** One more sample never lowers the total. */
  lemma TotalNeverDecreases(samples: seq<Sample>, now: Sample)
    ensures var before, after := LedgerTotal(After(samples)), LedgerTotal(After(samples + [now]));
            before.read <= after.read && before.write <= after.write
  {
    hide Total, BatchTotal, After;
    var all := samples + [now];
    assert all[..|samples|] == samples;
    AfterLast(all);
    UpdateNeverLowers(After(samples), now);
  }

  lemma UpdateNeverLowers(l: Ledger, now: Sample)
    ensures var before, after := LedgerTotal(l), LedgerTotal(Updated(l, now));
            before.read <= after.read && before.write <= after.write
  {
    hide Total;
    LiveIsCovered(l.live, now);
    ClampTwice(Plus(Exact(l.retired), Total(Ended(l.live, now))), Total(now));
  }

  // ---- a process that never goes away --------------------------------------

  /** `pid` is in every sample and its counters never go down. */
  predicate Steady(samples: seq<Sample>, pid: Pid) {
    forall i :: 0 <= i < |samples| ==> pid in samples[i] && (i + 1 < |samples| ==> Continues(samples, pid, i))
  }

  /** The samples of a machine on which `pid` never ran. */
  function Without(samples: seq<Sample>, pid: Pid): (r: seq<Sample>)
    ensures |r| == |samples| && forall i :: 0 <= i < |r| ==> r[i] == samples[i] - {pid}
  {
    seq(|samples|, i requires 0 <= i < |samples| => samples[i] - {pid})
  }

  /** Before the last sample a steady process ends no run and changes none of the others. */
  lemma SteadyEndsNothing(samples: seq<Sample>, pid: Pid, i: nat)
    requires Steady(samples, pid) && i + 1 < |samples|
    ensures EndingAt(samples, i) == EndingAt(Without(samples, pid), i)
  {
    var few, less := EndingAt(samples, i), EndingAt(Without(samples, pid), i);
    forall q | q in samples[i] && q != pid
      ensures Continues(samples, q, i) <==> Continues(Without(samples, pid), q, i)
    {
    }
    assert few.Keys == less.Keys;
  }

  lemma {:induction false} SteadyBefore(samples: seq<Sample>, pid: Pid, n: nat)
    requires Steady(samples, pid) && n < |samples|
    ensures BatchTotal(samples, n) == BatchTotal(Without(samples, pid), n)
    decreases n
  {
    hide Total, EndingAt, Without, Steady, Continues;
    if n > 0 {
      SteadyBefore(samples, pid, n - 1);
      SteadyEndsNothing(samples, pid, n - 1);
    }
  }

  lemma AllEndAtLast(samples: seq<Sample>)
    requires samples != []
    ensures EndingAt(samples, |samples| - 1) == samples[|samples| - 1]
  {
  }

  /**
   A process that stays, and whose counters never go down, adds its last reading
   to the total, once: the rest is what the ledger shows without that process.
   */
  lemma SteadyCountsOnce(samples: seq<Sample>, pid: Pid)
    requires Steady(samples, pid) && samples != []
    ensures LedgerTotal(After(samples)) ==
            Add(LedgerTotal(After(Without(samples, pid))), samples[|samples| - 1][pid])
  {
    hide Total, EndingAt, Continues, LedgerTotal, After, Add, Clamp;
    var n, rest := |samples| - 1, Without(samples, pid);
    LedgerIsBatch(samples);
    LedgerIsBatch(rest);
    SteadyBefore(samples, pid, n);
    AllEndAtLast(samples);
    AllEndAtLast(rest);
    TotalAnyOrder(samples[n], pid);
    AddClamps(BatchTotal(rest, n + 1), samples[n][pid]);
    assert BatchTotal(samples, n + 1) == Plus(BatchTotal(rest, n + 1), Exact(samples[n][pid]));
  }
}
