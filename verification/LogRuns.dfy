/**
 What whole runs of the log printer show: which bytes, on which stream, and
 with which stamps, however the output was cut into chunks.
 */
module LogRuns {
  import opened Machine
  import opened LogLines
  import opened LogPrinter

  predicate AllTimed(outs: seq<Output>) {
    forall i :: 0 <= i < |outs| ==> outs[i].Data? ==> outs[i].chunk.at.Some?
  }

  function Datas(cs: seq<Chunk>): (r: seq<Output>)
    ensures |r| == |cs|
  {
    seq(|cs|, i requires 0 <= i < |cs| => Data(cs[i]))
  }

  function ChunksIn(outs: seq<Output>): seq<Chunk> {
    if outs == [] then [] else (if outs[0].Data? then [outs[0].chunk] else []) + ChunksIn(outs[1..])
  }

  lemma {:induction false} AcceptedSplit(o: Options, p: Printer, xs: seq<Output>, ys: seq<Output>)
    ensures var (mid, first) := AcceptedAll(o, p, xs);
            var (last, second) := AcceptedAll(o, mid, ys);
            AcceptedAll(o, p, xs + ys).0 == last && AcceptedAll(o, p, xs + ys).1 == first + second
    decreases |xs|
  {
    hide Accepted;
    if xs == [] {
      assert xs + ys == ys;
    } else {
      assert (xs + ys)[1..] == xs[1..] + ys;
      var (next, head) := Accepted(o, p, xs[0]);
      AcceptedSplit(o, next, xs[1..], ys);
      var (mid, first) := AcceptedAll(o, next, xs[1..]);
      var (last, second) := AcceptedAll(o, mid, ys);
      assert head + (first + second) == head + first + second;
    }
  }

  lemma HoldStep(o: Options, p: Printer, c: Chunk)
    requires p.replaying && c.at.Some?
    ensures Accepted(o, p, Data(c)).0 == p.(held := p.held + if Passes(o, c) then [c] else [])
    ensures Accepted(o, p, Data(c)).1 == []
  {
    assert p.held + [] == p.held;
    assert p == p.(held := p.held + []);
  }

  /** While the replay lasts, passing chunks are held and nothing is printed. */
  lemma {:induction false} ReplayHolds(o: Options, p: Printer, cs: seq<Chunk>)
    requires p.replaying && AllTimed(Datas(cs))
    ensures AcceptedAll(o, p, Datas(cs)).0 == p.(held := p.held + Passing(o, cs))
    ensures AcceptedAll(o, p, Datas(cs)).1 == []
    decreases |cs|
  {
    hide Accepted, Passes;
    if cs == [] {
      assert p.held + [] == p.held;
      assert p == p.(held := p.held + []);
    } else {
      var outs := Datas(cs);
      assert outs[0].chunk.at.Some?;
      assert outs[1..] == Datas(cs[1..]);
      assert forall i :: 0 <= i < |cs| - 1 ==> Datas(cs[1..])[i] == outs[i + 1];
      HoldStep(o, p, cs[0]);
      var one := if Passes(o, cs[0]) then [cs[0]] else [];
      ReplayHolds(o, p.(held := p.held + one), cs[1..]);
      assert p.held + one + Passing(o, cs[1..]) == p.held + (one + Passing(o, cs[1..]));
    }
  }

  lemma NothingReleased(o: Options)
    ensures Released(o, []) == []
  {
  }

  /** Once the replay is over, ending it again changes and prints nothing. */
  lemma SecondFinishPrintsNothing(o: Options, p: Printer)
    ensures var once := Finished(o, p).0;
            Finished(o, once).0 == once && Finished(o, once).1 == []
  {
    NothingReleased(o);
  }

  /** One live step that does not warn: a passing chunk is rendered, anything else prints nothing. */
  lemma LiveStep(o: Options, p: Printer, out: Output)
    requires !p.replaying && p.held == [] && (p.warned || (out.Data? ==> out.chunk.at.Some?))
    ensures var (starts, printed) := RenderAll(o, p.starts, Passing(o, ChunksIn([out])));
            Accepted(o, p, out).0 == p.(starts := starts) && Accepted(o, p, out).1 == printed
  {
    assert [out][1..] == [];
    match out
    case ReplayEnd =>
      NothingReleased(o);
    case Data(c) =>
      assert ChunksIn([out]) == [c];
      assert [c][1..] == [];
      if Passes(o, c) {
        assert Passing(o, [c]) == [c];
        RenderSnoc(o, p.starts, [], c);
        assert [] + [c] == [c];
      } else {
        assert Passing(o, [c]) == [];
      }
  }

  lemma {:induction false} ChunksInAppend(xs: seq<Output>, ys: seq<Output>)
    ensures ChunksIn(xs + ys) == ChunksIn(xs) + ChunksIn(ys)
  {
    if xs == [] {
      assert xs + ys == ys;
    } else {
      assert (xs + ys)[1..] == xs[1..] + ys;
      ChunksInAppend(xs[1..], ys);
      var head := if xs[0].Data? then [xs[0].chunk] else [];
      assert head + (ChunksIn(xs[1..]) + ChunksIn(ys)) == head + ChunksIn(xs[1..]) + ChunksIn(ys);
    }
  }

  lemma {:induction false} PassingAppend(o: Options, xs: seq<Chunk>, ys: seq<Chunk>)
    ensures Passing(o, xs + ys) == Passing(o, xs) + Passing(o, ys)
    decreases |xs|
  {
    if xs == [] {
      assert xs + ys == ys;
    } else {
      assert (xs + ys)[1..] == xs[1..] + ys;
      PassingAppend(o, xs[1..], ys);
    }
  }

  /** Once live, the printer renders the passing chunks; further replay ends print nothing. */
  lemma {:induction false} LivePrints(o: Options, p: Printer, outs: seq<Output>)
    requires !p.replaying && p.held == [] && (p.warned || AllTimed(outs))
    ensures var (starts, printed) := RenderAll(o, p.starts, Passing(o, ChunksIn(outs)));
            AcceptedAll(o, p, outs).0 == p.(starts := starts) && AcceptedAll(o, p, outs).1 == printed
    decreases |outs|
  {
    hide Accepted, Render;
    if outs != [] {
      var out, rest := outs[0], outs[1..];
      LiveStep(o, p, out);
      var (next, first) := Accepted(o, p, out);
      LivePrints(o, next, rest);
      assert [out] + rest == outs;
      ChunksInAppend([out], rest);
      PassingAppend(o, ChunksIn([out]), ChunksIn(rest));
      RenderAppend(o, p.starts, Passing(o, ChunksIn([out])), Passing(o, ChunksIn(rest)));
    }
  }

  /** The printer before anything came, as if it had warned already when `warned`. */
  function Fresh(o: Options, warned: bool): Printer {
    Start(o).(warned := warned)
  }

  /** The chunks shown when `replayed` is held until a replay end and `live` follows. */
  function ShownSplit(o: Options, replayed: seq<Chunk>, live: seq<Output>): seq<Chunk> {
    (if o.tail.Some? then TailChunks(Passing(o, replayed), o.tail.value) else Passing(o, replayed))
    + Passing(o, ChunksIn(live))
  }

  lemma SplitRun(o: Options, warned: bool, replayed: seq<Chunk>, live: seq<Output>)
    requires AllTimed(Datas(replayed)) && (warned || AllTimed(live))
    ensures AcceptedAll(o, Fresh(o, warned), Datas(replayed) + [ReplayEnd] + live).1 ==
            RenderAll(o, Starts(true, true), ShownSplit(o, replayed, live)).1
  {
    hide Accepted, Render, TailChunks, Passing, AcceptedAll, RenderAll;
    var outs := Datas(replayed) + [ReplayEnd] + live;
    if o.tail.Some? {
      TailRun(o, warned, replayed, live);
    } else {
      LivePrints(o, Fresh(o, warned), outs);
      ChunksInAppend(Datas(replayed) + [ReplayEnd], live);
      ChunksInAppend(Datas(replayed), [ReplayEnd]);
      ChunksOfDatas(replayed);
      NoChunkInEnd();
      assert replayed + [] == replayed;
      PassingAppend(o, replayed, ChunksIn(live));
    }
  }

  lemma NoChunkInEnd()
    ensures ChunksIn([ReplayEnd]) == []
  {
  }

  lemma {:induction false} ChunksOfDatas(cs: seq<Chunk>)
    ensures ChunksIn(Datas(cs)) == cs
  {
    if cs != [] {
      ChunksOfDatas(cs[1..]);
      assert Datas(cs)[1..] == Datas(cs[1..]);
    }
  }

  lemma TailRun(o: Options, warned: bool, replayed: seq<Chunk>, live: seq<Output>)
    requires o.tail.Some? && AllTimed(Datas(replayed)) && (warned || AllTimed(live))
    ensures AcceptedAll(o, Fresh(o, warned), Datas(replayed) + [ReplayEnd] + live).1 ==
            RenderAll(o, Starts(true, true), ShownSplit(o, replayed, live)).1
  {
    hide Accepted, Render, TailChunks, Passing, AcceptedAll, RenderAll;
    var p := Fresh(o, warned);
    var cs := Passing(o, replayed);
    ReplayHolds(o, p, replayed);
    assert p.held + cs == cs;
    var held := p.(held := cs);
    EndReleases(o, held);
    var (mid, first) := RenderAll(o, p.starts, TailChunks(cs, o.tail.value));
    var done := Printer(false, [], mid, p.warned);
    AcceptedSplit(o, p, Datas(replayed), [ReplayEnd]);
    AcceptedSplit(o, p, Datas(replayed) + [ReplayEnd], live);
    LivePrints(o, done, live);
    RenderAppend(o, p.starts, TailChunks(cs, o.tail.value), Passing(o, ChunksIn(live)));
    assert [] + first == first;
  }

  lemma EndReleases(o: Options, p: Printer)
    requires o.tail.Some?
    ensures var (starts, printed) := RenderAll(o, p.starts, TailChunks(p.held, o.tail.value));
            AcceptedAll(o, p, [ReplayEnd]) == (Printer(false, [], starts, p.warned), printed)
  {
    hide Render, TailChunks, RenderAll;
    assert [ReplayEnd][1..] == [];
    var (next, first) := Accepted(o, p, ReplayEnd);
    assert AcceptedAll(o, next, []) == (next, []);
    assert first + [] == first;
  }

  // ---- any run -------------------------------------------------------------

  /** What ends a replay: its marker, or a chunk without a time. */
  predicate EndsReplay(out: Output) {
    out.ReplayEnd? || out.chunk.at.None?
  }

  function FirstEnd(outs: seq<Output>): (n: nat)
    ensures n <= |outs| && (n < |outs| ==> EndsReplay(outs[n]))
    ensures forall i :: 0 <= i < n ==> !EndsReplay(outs[i])
  {
    if outs == [] || EndsReplay(outs[0]) then 0
    else
      var n := FirstEnd(outs[1..]);
      assert forall i :: 0 < i < 1 + n ==> outs[i] == outs[1..][i - 1];
      1 + n
  }

  predicate IsUntimed(out: Output) {
    out.Data? && out.chunk.at.None?
  }

  function FirstUntimed(outs: seq<Output>): (n: nat)
    ensures n <= |outs| && (n < |outs| ==> IsUntimed(outs[n])) && AllTimed(outs[..n])
  {
    if outs == [] || IsUntimed(outs[0]) then 0
    else
      var n := FirstUntimed(outs[1..]);
      assert outs[..1 + n] == [outs[0]] + outs[1..][..n];
      1 + n
  }

  /** The chunks a run shows: the tail of what was replayed, then what came live. */
  function Shown(o: Options, outs: seq<Output>): seq<Chunk> {
    var e := FirstEnd(outs);
    if o.tail.Some? then
      TailChunks(Passing(o, ChunksIn(outs[..e])), o.tail.value) + Passing(o, ChunksIn(outs[e..]))
    else Passing(o, ChunksIn(outs))
  }

  /** The warning that times are missing, if they were asked for and some are. */
  function Warning(o: Options, outs: seq<Output>): seq<Printable> {
    if (o.since.Some? || o.timestamps) && FirstUntimed(outs) < |outs| then [Printable(Stderr, o.warning)] else []
  }

  lemma {:induction false} TimedDatas(outs: seq<Output>)
    requires forall i :: 0 <= i < |outs| ==> !EndsReplay(outs[i])
    ensures outs == Datas(ChunksIn(outs)) && AllTimed(outs)
  {
    if outs != [] {
      assert !EndsReplay(outs[0]);
      TimedDatas(outs[1..]);
      assert Datas(ChunksIn(outs)) == [outs[0]] + Datas(ChunksIn(outs[1..]));
    }
  }

  lemma ShownIsSplit(o: Options, outs: seq<Output>, live: seq<Output>)
    requires ChunksIn(live) == ChunksIn(outs[FirstEnd(outs)..])
    ensures Shown(o, outs) == ShownSplit(o, ChunksIn(outs[..FirstEnd(outs)]), live)
  {
    hide TailChunks, Passing, ChunksIn;
    var e := FirstEnd(outs);
    assert outs == outs[..e] + outs[e..];
    ChunksInAppend(outs[..e], outs[e..]);
    PassingAppend(o, ChunksIn(outs[..e]), ChunksIn(outs[e..]));
  }

  /** A chunk without a time acts as a replay end before itself. */
  lemma UntimedEndsReplay(o: Options, p: Printer, c: Chunk)
    requires p.warned && c.at.None?
    ensures var (mid, first) := Accepted(o, p, ReplayEnd);
            var (last, second) := Accepted(o, mid, Data(c));
            p.replaying ==> Accepted(o, p, Data(c)).0 == last && Accepted(o, p, Data(c)).1 == first + second
  {
    hide Render, RenderAll, Released;
    assert p.(warned := true) == p;
    assert forall s: seq<Printable> :: [] + s == s;
  }

  lemma UntimedRun(o: Options, p: Printer, c: Chunk, rest: seq<Output>)
    requires p.warned && p.replaying && c.at.None?
    ensures AcceptedAll(o, p, [Data(c)] + rest).1 == AcceptedAll(o, p, [ReplayEnd] + ([Data(c)] + rest)).1
  {
    hide Accepted;
    UntimedEndsReplay(o, p, c);
    assert ([Data(c)] + rest)[1..] == rest && ([ReplayEnd] + ([Data(c)] + rest))[1..] == [Data(c)] + rest;
    var (mid, first) := Accepted(o, p, ReplayEnd);
    var (last, second) := Accepted(o, mid, Data(c));
    var more := AcceptedAll(o, last, rest).1;
    assert first + (second + more) == first + second + more;
  }

  /** A run of a printer that has already warned. */
  lemma QuietRun(o: Options, outs: seq<Output>)
    ensures AcceptedAll(o, Fresh(o, true), outs + [ReplayEnd]).1 ==
            RenderAll(o, Starts(true, true), Shown(o, outs)).1
  {
    hide Accepted, AcceptedAll, RenderAll, Shown, ShownSplit, ChunksIn;
    var e := FirstEnd(outs);
    var replayed := ChunksIn(outs[..e]);
    TimedDatas(outs[..e]);
    NoChunkInEnd();
    if e == |outs| {
      assert outs[..e] == outs && outs[e..] == [];
      assert outs + [ReplayEnd] == Datas(replayed) + [ReplayEnd] + [];
      ShownIsSplit(o, outs, []);
      SplitRun(o, true, replayed, []);
    } else if outs[e].ReplayEnd? {
      var live := outs[e + 1..] + [ReplayEnd];
      assert outs + [ReplayEnd] == Datas(replayed) + [ReplayEnd] + live;
      ChunksInAppend(outs[e + 1..], [ReplayEnd]);
      assert outs[e..] == [ReplayEnd] + outs[e + 1..];
      ChunksInAppend([ReplayEnd], outs[e + 1..]);
      ShownIsSplit(o, outs, live);
      SplitRun(o, true, replayed, live);
    } else {
      QuietUntimed(o, outs);
    }
  }

  lemma QuietUntimed(o: Options, outs: seq<Output>)
    requires FirstEnd(outs) < |outs| && IsUntimed(outs[FirstEnd(outs)])
    ensures AcceptedAll(o, Fresh(o, true), outs + [ReplayEnd]).1 ==
            RenderAll(o, Starts(true, true), Shown(o, outs)).1
  {
    hide Accepted, AcceptedAll, RenderAll, Shown, ShownSplit, ChunksIn;
    var e := FirstEnd(outs);
    var replayed := ChunksIn(outs[..e]);
    TimedDatas(outs[..e]);
    var live := outs[e..] + [ReplayEnd];
    assert outs + [ReplayEnd] == Datas(replayed) + live;
    assert Datas(replayed) + [ReplayEnd] + live == Datas(replayed) + ([ReplayEnd] + live);
    NoChunkInEnd();
    ChunksInAppend(outs[e..], [ReplayEnd]);
    assert ChunksIn(outs[e..]) + [] == ChunksIn(outs[e..]);
    ShownIsSplit(o, outs, live);
    SplitRun(o, true, replayed, live);
    AcceptedSplit(o, Fresh(o, true), Datas(replayed), live);
    AcceptedSplit(o, Fresh(o, true), Datas(replayed), [ReplayEnd] + live);
    var p := AcceptedAll(o, Fresh(o, true), Datas(replayed)).0;
    var rest := outs[e + 1..] + [ReplayEnd];
    assert live == [Data(outs[e].chunk)] + rest;
    if o.tail.Some? {
      ReplayHolds(o, Fresh(o, true), replayed);
      UntimedRun(o, p, outs[e].chunk, rest);
    } else {
      LivePrints(o, Fresh(o, true), Datas(replayed));
      EndAgain(o, p, live);
    }
  }

  /** Ending a replay that is over changes nothing. */
  lemma EndAgain(o: Options, p: Printer, live: seq<Output>)
    requires !p.replaying && p.held == []
    ensures AcceptedAll(o, p, [ReplayEnd] + live).1 == AcceptedAll(o, p, live).1
  {
    hide Accepted;
    assert ([ReplayEnd] + live)[1..] == live;
    EndStep(o, p);
    assert forall s: seq<Printable> :: [] + s == s;
  }

  lemma EndStep(o: Options, p: Printer)
    requires !p.replaying && p.held == []
    ensures Accepted(o, p, ReplayEnd).0 == p && Accepted(o, p, ReplayEnd).1 == []
  {
    NothingReleased(o);
  }

  /** Whether the printer warned before only changes whether it warns again. */
  lemma WarnStep(o: Options, p: Printer, out: Output)
    ensures var warn := IsUntimed(out) && (o.since.Some? || o.timestamps) && !p.warned;
            var quiet := Accepted(o, p.(warned := true), out);
            && Accepted(o, p, out).0 == quiet.0.(warned := p.warned || warn)
            && Accepted(o, p, out).1 == (if warn then [Printable(Stderr, o.warning)] else []) + quiet.1
  {
    hide Render, RenderAll, Released;
    var q := p.(warned := true);
    assert forall s: seq<Printable> :: [] + s == s;
    if IsUntimed(out) {
      var notice := Untimed(o, p).1;
      var warn := if (o.since.Some? || o.timestamps) && !p.warned then [Printable(Stderr, o.warning)] else [];
      assert Untimed(o, p).1 == warn + Untimed(o, q).1;
      var printed := Timed(o, Untimed(o, q).0, out.chunk).1;
      assert Timed(o, Untimed(o, p).0, out.chunk).1 == printed;
      assert warn + Untimed(o, q).1 + printed == warn + (Untimed(o, q).1 + printed);
    }
  }

  /** Without a chunk that would make it warn, a printer prints as if it had warned. */
  lemma {:induction false} NoWarningRun(o: Options, p: Printer, outs: seq<Output>)
    requires p.warned || AllTimed(outs) || !(o.since.Some? || o.timestamps)
    ensures AcceptedAll(o, p, outs).0 == AcceptedAll(o, p.(warned := true), outs).0.(warned := p.warned)
    ensures AcceptedAll(o, p, outs).1 == AcceptedAll(o, p.(warned := true), outs).1
    decreases |outs|
  {
    hide Accepted;
    if outs != [] {
      WarnStep(o, p, outs[0]);
      var (next, first) := Accepted(o, p, outs[0]);
      KeepsWarned(o, p.(warned := true), outs[0]);
      assert next.(warned := true) == Accepted(o, p.(warned := true), outs[0]).0;
      assert [] + Accepted(o, p.(warned := true), outs[0]).1 == Accepted(o, p.(warned := true), outs[0]).1;
      NoWarningRun(o, next, outs[1..]);
    }
  }

  lemma KeepsWarned(o: Options, p: Printer, out: Output)
    requires p.warned
    ensures Accepted(o, p, out).0.warned
  {
    hide Render, RenderAll, Released;
  }

  /**
   The whole output of any run, its end included, however the output was cut into
   chunks: the chunks it shows, rendered in order, and at most one warning, just
   before what the first chunk without a time prints.
   */
  lemma RunPrintsShown(o: Options, outs: seq<Output>)
    ensures var all := RenderAll(o, Starts(true, true), Shown(o, outs)).1;
            var before := AcceptedAll(o, Start(o), outs[..FirstUntimed(outs)]).1;
            && before <= all
            && AcceptedAll(o, Start(o), outs + [ReplayEnd]).1 == before + Warning(o, outs) + all[|before|..]
  {
    hide Accepted, AcceptedAll, RenderAll, Shown;
    QuietRun(o, outs);
    var all := RenderAll(o, Starts(true, true), Shown(o, outs)).1;
    var u := FirstUntimed(outs);
    var early, late := outs[..u], outs[u..] + [ReplayEnd];
    assert outs + [ReplayEnd] == early + late;
    NoWarningRun(o, Start(o), early);
    assert Start(o).(warned := true) == Fresh(o, true);
    AcceptedSplit(o, Start(o), early, late);
    AcceptedSplit(o, Fresh(o, true), early, late);
    var p := AcceptedAll(o, Start(o), early).0;
    WarnOnce(o, p, outs);
    var before := AcceptedAll(o, Start(o), early).1;
    var rest := AcceptedAll(o, p.(warned := true), late).1;
    StaysWarned(o, Fresh(o, true), early);
    assert p.(warned := true) == AcceptedAll(o, Fresh(o, true), early).0;
    assert all == before + rest;
    assert before + (Warning(o, outs) + rest) == before + Warning(o, outs) + rest;
  }

  lemma {:induction false} StaysWarned(o: Options, p: Printer, outs: seq<Output>)
    requires p.warned
    ensures AcceptedAll(o, p, outs).0.warned
    decreases |outs|
  {
    hide Accepted;
    if outs != [] {
      KeepsWarned(o, p, outs[0]);
      StaysWarned(o, Accepted(o, p, outs[0]).0, outs[1..]);
    }
  }

  /** From the first chunk without a time on, there is one warning or none, and it comes first. */
  lemma WarnOnce(o: Options, p: Printer, outs: seq<Output>)
    requires !p.warned
    ensures var late := outs[FirstUntimed(outs)..] + [ReplayEnd];
            AcceptedAll(o, p, late).1 == Warning(o, outs) + AcceptedAll(o, p.(warned := true), late).1
  {
    hide Accepted;
    var u := FirstUntimed(outs);
    var late := outs[u..] + [ReplayEnd];
    var quiet := p.(warned := true);
    if Warning(o, outs) == [] {
      NoWarningRun(o, p, late);
      assert [] + AcceptedAll(o, quiet, late).1 == AcceptedAll(o, quiet, late).1;
    } else {
      assert late[0] == outs[u];
      WarnStep(o, p, late[0]);
      KeepsWarned(o, quiet, late[0]);
      var (next, first) := Accepted(o, quiet, late[0]);
      assert next.(warned := true) == next;
      assert Accepted(o, p, late[0]).0 == next;
      var rest := AcceptedAll(o, next, late[1..]).1;
      assert Warning(o, outs) + first + rest == Warning(o, outs) + (first + rest);
    }
  }

  // ---- without stamps ------------------------------------------------------

  function Plain(cs: seq<Chunk>): (r: seq<Printable>)
    ensures |r| == |cs|
  {
    seq(|cs|, i requires 0 <= i < |cs| => Printable(cs[i].stream, cs[i].bytes))
  }

  /** With timestamps off, what is shown is printed byte for byte on its own stream. */
  lemma {:induction false} PlainOutput(o: Options, starts: Starts, cs: seq<Chunk>)
    requires !o.timestamps
    ensures RenderAll(o, starts, cs) == (starts, Plain(cs))
    decreases |cs|
  {
    if cs != [] {
      PlainOutput(o, starts, cs[1..]);
      assert Plain(cs) == [Printable(cs[0].stream, cs[0].bytes)] + Plain(cs[1..]);
    }
  }

  /** One byte with where it came from and when. */
  datatype Tagged = Tagged(byte: Byte, stream: Stream, at: Option<Time>)

  function TagChunk(c: Chunk): (r: seq<Tagged>)
    ensures |r| == |c.bytes|
  {
    seq(|c.bytes|, i requires 0 <= i < |c.bytes| => Tagged(c.bytes[i], c.stream, c.at))
  }

  function Tag(cs: seq<Chunk>): (r: seq<Tagged>)
    ensures |r| == |Bytes(cs)|
  {
    if cs == [] then [] else TagChunk(cs[0]) + Tag(cs[1..])
  }

  lemma {:induction false} DroppedTags(cs: seq<Chunk>, skip: nat)
    requires skip <= |Bytes(cs)|
    ensures Tag(DropBytes(cs, skip)) == Tag(cs)[skip..]
    decreases |cs|
  {
    if cs != [] {
      var c, rest := cs[0], cs[1..];
      var dropped := Min(skip, |c.bytes|);
      DroppedTags(rest, skip - dropped);
      var kept := DropBytes(rest, skip - dropped);
      DropFromTwo(TagChunk(c), Tag(rest), skip);
      if dropped < |c.bytes| {
        TagCut(c, dropped, kept);
      } else {
        assert DropBytes(cs, skip) == kept;
      }
    }
  }

  lemma TagCut(c: Chunk, dropped: nat, kept: seq<Chunk>)
    requires dropped <= |c.bytes|
    ensures Tag([c.(bytes := c.bytes[dropped..])] + kept) == TagChunk(c)[dropped..] + Tag(kept)
  {
    var cut := c.(bytes := c.bytes[dropped..]);
    assert TagChunk(cut) == TagChunk(c)[dropped..];
    assert ([cut] + kept)[1..] == kept;
  }

  lemma DropFromTwo<T>(a: seq<T>, b: seq<T>, k: nat)
    requires k <= |a| + |b|
    ensures (a + b)[k..] == if k <= |a| then a[k..] + b else b[k - |a|..]
  {
  }

  lemma {:induction false} FoundTailIsTail(s: seq<Byte>, n: nat, k: nat)
    requires k <= |s| && forall j :: 0 <= j < k && LineStart(s, j) ==> Lines(s[j..]) > n
    ensures IsTail(s, n, FindTail(s, n, k))
    decreases |s| - k
  {
    if !(k == |s| || (LineStart(s, k) && Lines(s[k..]) <= n)) {
      FoundTailIsTail(s, n, k + 1);
    }
  }

  /**
   `--tail` keeps the longest run of at most `lines` whole last lines of the
   replayed bytes taken together, each byte still on its stream and with its time.
   */
  lemma TailKeepsLastLines(cs: seq<Chunk>, lines: nat)
    ensures exists k: nat :: k <= |Tag(cs)| && IsTail(Bytes(cs), lines, k) && Tag(TailChunks(cs, lines)) == Tag(cs)[k..]
  {
    hide FindTail;
    var k := TailStart(Bytes(cs), lines);
    FoundTailIsTail(Bytes(cs), lines, 0);
    DroppedTags(cs, k);
    assert IsTail(Bytes(cs), lines, k);
  }

  // ---- with stamps ---------------------------------------------------------

  /** What was printed on one stream. */
  function OnStream(ps: seq<Printable>, st: Stream): seq<Byte> {
    if ps == [] then [] else (if ps[0].stream == st then ps[0].bytes else []) + OnStream(ps[1..], st)
  }

  /** A byte with the time of the chunk that held it. */
  type Timestamped = (Byte, Option<Time>)

  /** The bytes of one stream, each with the time of its chunk. */
  function TimedBytes(cs: seq<Chunk>, st: Stream): seq<Timestamped> {
    if cs == [] then []
    else (if cs[0].stream == st then WithTime(cs[0].bytes, cs[0].at) else []) + TimedBytes(cs[1..], st)
  }

  function WithTime(bytes: seq<Byte>, at: Option<Time>): (r: seq<Timestamped>)
    ensures |r| == |bytes|
  {
    seq(|bytes|, i requires 0 <= i < |bytes| => (bytes[i], at))
  }

  /** Whether a stamp is due after `b`; bytes without a time leave that as it was. */
  predicate StartsAfter(b: Timestamped, start: bool) {
    if b.1.Some? then b.0 == NEWLINE else start
  }

  /**
   The reference: one stamp in front of every line, that of the line's first byte.
   Bytes without a time pass through and start no line.
   */
  function StampLines(stamp: Time -> seq<Byte>, t: seq<Timestamped>, start: bool): seq<Byte> {
    if t == [] then []
    else
      (if start && t[0].1.Some? then stamp(t[0].1.value) + [SPACE] else [])
      + [t[0].0] + StampLines(stamp, t[1..], StartsAfter(t[0], start))
  }

  predicate EndsTimed(t: seq<Timestamped>, start: bool) {
    if t == [] then start else EndsTimed(t[1..], StartsAfter(t[0], start))
  }

  lemma {:induction false} StampLinesAppend(stamp: Time -> seq<Byte>, x: seq<Timestamped>, y: seq<Timestamped>,
                                            start: bool)
    ensures StampLines(stamp, x + y, start) == StampLines(stamp, x, start) + StampLines(stamp, y, EndsTimed(x, start))
    decreases |x|
  {
    hide StartsAfter;
    if x == [] {
      assert x + y == y;
    } else {
      assert (x + y)[1..] == x[1..] + y;
      var next := StartsAfter(x[0], start);
      StampLinesAppend(stamp, x[1..], y, next);
      var head := (if start && x[0].1.Some? then stamp(x[0].1.value) + [SPACE] else []) + [x[0].0];
      var mid, tail := StampLines(stamp, x[1..], next), StampLines(stamp, y, EndsTimed(x, start));
      assert head + (mid + tail) == head + mid + tail;
    }
  }

  lemma {:induction false} StampedIsStampLines(stamp: Time -> seq<Byte>, bytes: seq<Byte>, at: Time, start: bool)
    ensures Stamped(stamp(at), bytes, start) == StampLines(stamp, WithTime(bytes, Some(at)), start)
    ensures EndsTimed(WithTime(bytes, Some(at)), start) == EndsLine(bytes, start)
    decreases |bytes|
  {
    if bytes != [] {
      StampedIsStampLines(stamp, bytes[1..], at, bytes[0] == NEWLINE);
      assert WithTime(bytes, Some(at))[1..] == WithTime(bytes[1..], Some(at));
    }
  }

  lemma {:induction false} UntimedIsPlain(stamp: Time -> seq<Byte>, bytes: seq<Byte>, start: bool)
    ensures StampLines(stamp, WithTime(bytes, None), start) == bytes
    ensures EndsTimed(WithTime(bytes, None), start) == start
    decreases |bytes|
  {
    if bytes != [] {
      UntimedIsPlain(stamp, bytes[1..], start);
      assert WithTime(bytes, None)[1..] == WithTime(bytes[1..], None);
      assert [bytes[0]] + bytes[1..] == bytes;
    }
  }

  /** One chunk, printed, is its bytes stamped line by line. */
  lemma RenderIsStampLines(o: Options, starts: Starts, c: Chunk)
    requires o.timestamps
    ensures var (next, printed) := Render(o, starts, c);
            && printed.stream == c.stream
            && printed.bytes == StampLines(o.stamp, WithTime(c.bytes, c.at), starts.Of(c.stream))
            && next == starts.With(c.stream, EndsTimed(WithTime(c.bytes, c.at), starts.Of(c.stream)))
  {
    hide Stamped, StampLines, EndsTimed, EndsLine;
    if c.at.Some? {
      StampedIsStampLines(o.stamp, c.bytes, c.at.value, starts.Of(c.stream));
    } else {
      UntimedIsPlain(o.stamp, c.bytes, starts.Of(c.stream));
    }
  }

  /**
   With timestamps on, each stream carries exactly one stamp per line begun in
   it, that of the chunk with the line's first byte, wherever chunks are cut and
   however the two streams interleave.
   */
  lemma {:induction false} StampsOncePerLine(o: Options, starts: Starts, cs: seq<Chunk>, st: Stream)
    requires o.timestamps
    ensures OnStream(RenderAll(o, starts, cs).1, st) == StampLines(o.stamp, TimedBytes(cs, st), starts.Of(st))
    decreases |cs|
  {
    hide StampLines, EndsTimed, Render;
    if cs == [] {
      StampsNothing(o.stamp, starts.Of(st));
    } else {
      var c := cs[0];
      var (next, first) := Render(o, starts, c);
      RenderIsStampLines(o, starts, c);
      StampsOncePerLine(o, next, cs[1..], st);
      assert ([first] + RenderAll(o, next, cs[1..]).1)[1..] == RenderAll(o, next, cs[1..]).1;
      if c.stream == st {
        StampLinesAppend(o.stamp, WithTime(c.bytes, c.at), TimedBytes(cs[1..], st), starts.Of(st));
      } else {
        assert [] + TimedBytes(cs[1..], st) == TimedBytes(cs[1..], st);
      }
    }
  }

  lemma StampsNothing(stamp: Time -> seq<Byte>, start: bool)
    ensures StampLines(stamp, [], start) == []
  {
  }

  /** What follows the first space. */
  function AfterSpace(s: seq<Byte>): (r: Option<seq<Byte>>)
    ensures r.Some? ==> |r.value| < |s|
  {
    if s == [] then None else if s[0] == SPACE then Some(s[1..]) else AfterSpace(s[1..])
  }

  /** Takes the stamps out again: at every line start, everything up to the first space. */
  function Unstamp(s: seq<Byte>, start: bool): seq<Byte>
    decreases |s|, start
  {
    if s == [] then []
    else if start then
      match AfterSpace(s)
      case None => []
      case Some(rest) => Unstamp(rest, false)
    else [s[0]] + Unstamp(s[1..], s[0] == NEWLINE)
  }

  lemma {:induction false} AfterSpaceOfStamp(stamp: seq<Byte>, rest: seq<Byte>)
    requires SPACE !in stamp
    ensures AfterSpace(stamp + [SPACE] + rest) == Some(rest)
    decreases |stamp|
  {
    var s := stamp + [SPACE] + rest;
    if stamp == [] {
      assert s[1..] == rest;
    } else {
      assert s[1..] == stamp[1..] + [SPACE] + rest;
      AfterSpaceOfStamp(stamp[1..], rest);
    }
  }

  function RawBytes(t: seq<Timestamped>): (r: seq<Byte>)
    ensures |r| == |t|
  {
    seq(|t|, i requires 0 <= i < |t| => t[i].0)
  }

  lemma StampLinesUnfold(stamp: Time -> seq<Byte>, t: seq<Timestamped>, start: bool)
    requires t != [] && t[0].1.Some?
    ensures StampLines(stamp, t, start) ==
            (if start then stamp(t[0].1.value) + [SPACE] else []) + [t[0].0]
            + StampLines(stamp, t[1..], t[0].0 == NEWLINE)
  {
  }

  lemma Rebracket(a: seq<Byte>, b: seq<Byte>, c: seq<Byte>)
    ensures a + b + c == a + (b + c)
  {
  }

  lemma StampLinesCons(stamp: Time -> seq<Byte>, t: seq<Timestamped>, start: bool)
    requires t != [] && t[0].1.Some?
    ensures var line := [t[0].0] + StampLines(stamp, t[1..], t[0].0 == NEWLINE);
            StampLines(stamp, t, start) == if start then stamp(t[0].1.value) + [SPACE] + line else line
  {
    hide StampLines;
    StampLinesUnfold(stamp, t, start);
    Rebracket(if start then stamp(t[0].1.value) + [SPACE] else [], [t[0].0],
              StampLines(stamp, t[1..], t[0].0 == NEWLINE));
    if !start {
      Rebracket([], [t[0].0], StampLines(stamp, t[1..], t[0].0 == NEWLINE));
    }
  }

  lemma UnstampByte(b: Byte, rest: seq<Byte>)
    ensures Unstamp([b] + rest, false) == [b] + Unstamp(rest, b == NEWLINE)
  {
    assert ([b] + rest)[1..] == rest;
  }

  lemma UnstampLine(stamp: seq<Byte>, line: seq<Byte>)
    requires SPACE !in stamp
    ensures Unstamp(stamp + [SPACE] + line, true) == Unstamp(line, false)
  {
    AfterSpaceOfStamp(stamp, line);
  }

  lemma RawCons(t: seq<Timestamped>)
    requires t != []
    ensures RawBytes(t) == [t[0].0] + RawBytes(t[1..])
  {
  }

  /** Removing the stamps gives back the raw bytes. */
  lemma {:induction false} StampsComeOff(stamp: Time -> seq<Byte>, t: seq<Timestamped>, start: bool)
    requires forall at :: SPACE !in stamp(at)
    requires forall i :: 0 <= i < |t| ==> t[i].1.Some?
    ensures Unstamp(StampLines(stamp, t, start), start) == RawBytes(t)
    decreases |t|
  {
    hide StampLines, Unstamp, RawBytes;
    if t == [] {
      StampsNothing(stamp, start);
      NothingToUnstamp(start);
    } else {
      var ends := t[0].0 == NEWLINE;
      var rest := StampLines(stamp, t[1..], ends);
      StampLinesCons(stamp, t, start);
      RawCons(t);
      UnstampByte(t[0].0, rest);
      StampsComeOff(stamp, t[1..], ends);
      if start {
        UnstampLine(stamp(t[0].1.value), [t[0].0] + rest);
      }
    }
  }

  lemma NothingToUnstamp(start: bool)
    ensures Unstamp([], start) == [] && RawBytes([]) == []
  {
  }

  // ---- whole runs ----------------------------------------------------------

  /** What a run prints from its first output to its end. */
  function Printed(o: Options, outs: seq<Output>): seq<Printable> {
    AcceptedAll(o, Start(o), outs + [ReplayEnd]).1
  }

  /** The chunk has no time, or one from `since` on and before `until`. */
  predicate InTime(o: Options, at: Option<Time>) {
    match at
    case None => true
    case Some(t) => !(o.since.Some? && t < o.since.value) && !(o.until.Some? && t >= o.until.value)
  }

  /** One chunk among others is kept exactly if its time is in range. */
  lemma PassingKeepsInTime(o: Options, xs: seq<Chunk>, c: Chunk, ys: seq<Chunk>)
    ensures Passing(o, xs + [c] + ys) == Passing(o, xs) + (if InTime(o, c.at) then [c] else []) + Passing(o, ys)
  {
    hide Passing;
    PassingAppend(o, xs + [c], ys);
    PassingAppend(o, xs, [c]);
    PassingOne(o, c);
  }

  lemma PassingOne(o: Options, c: Chunk)
    ensures Passing(o, [c]) == if InTime(o, c.at) then [c] else []
  {
    assert [c][1..] == [];
  }

  lemma {:induction false} PassingIsInTime(o: Options, cs: seq<Chunk>)
    ensures forall i :: 0 <= i < |Passing(o, cs)| ==> InTime(o, Passing(o, cs)[i].at)
  {
    if cs != [] {
      PassingIsInTime(o, cs[1..]);
    }
  }

  lemma {:induction false} DropKeepsInTime(o: Options, cs: seq<Chunk>, skip: nat)
    requires forall i :: 0 <= i < |cs| ==> InTime(o, cs[i].at)
    ensures forall i :: 0 <= i < |DropBytes(cs, skip)| ==> InTime(o, DropBytes(cs, skip)[i].at)
    decreases |cs|
  {
    if cs != [] {
      DropKeepsInTime(o, cs[1..], skip - Min(skip, |cs[0].bytes|));
    }
  }

  /** A run shows no chunk from before `since`, nor from `until` on. */
  lemma ShownIsInTime(o: Options, outs: seq<Output>, i: nat)
    requires i < |Shown(o, outs)|
    ensures var at := Shown(o, outs)[i].at;
            && (at.Some? && o.since.Some? ==> at.value >= o.since.value)
            && (at.Some? && o.until.Some? ==> at.value < o.until.value)
  {
    hide Passing, DropBytes;
    var e := FirstEnd(outs);
    PassingIsInTime(o, ChunksIn(outs));
    PassingIsInTime(o, ChunksIn(outs[..e]));
    PassingIsInTime(o, ChunksIn(outs[e..]));
    if o.tail.Some? {
      var held := Passing(o, ChunksIn(outs[..e]));
      DropKeepsInTime(o, held, TailStart(Bytes(held), o.tail.value));
    }
    assert InTime(o, Shown(o, outs)[i].at);
  }

  /** With timestamps off, a run prints exactly what it shows, and the warning where one is due. */
  lemma PlainRun(o: Options, outs: seq<Output>)
    requires !o.timestamps
    ensures exists k :: && 0 <= k <= |Shown(o, outs)|
                        && Printed(o, outs) ==
                           Plain(Shown(o, outs))[..k] + Warning(o, outs) + Plain(Shown(o, outs))[k..]
  {
    hide AcceptedAll, RenderAll, Shown, Warning;
    RunPrintsShown(o, outs);
    PlainOutput(o, Starts(true, true), Shown(o, outs));
    var before := AcceptedAll(o, Start(o), outs[..FirstUntimed(outs)]).1;
    assert before == Plain(Shown(o, outs))[..|before|];
  }

  lemma {:induction false} OnStreamAppend(xs: seq<Printable>, ys: seq<Printable>, st: Stream)
    ensures OnStream(xs + ys, st) == OnStream(xs, st) + OnStream(ys, st)
  {
    if xs == [] {
      assert xs + ys == ys;
    } else {
      assert (xs + ys)[1..] == xs[1..] + ys;
      OnStreamAppend(xs[1..], ys, st);
      var head := if xs[0].stream == st then xs[0].bytes else [];
      assert head + (OnStream(xs[1..], st) + OnStream(ys, st)) == head + OnStream(xs[1..], st) + OnStream(ys, st);
    }
  }

  /** What a run prints on a stream: the rendered chunks it shows, with the warning somewhere in them. */
  lemma RunOnStream(o: Options, outs: seq<Output>, st: Stream)
    ensures var all := OnStream(RenderAll(o, Starts(true, true), Shown(o, outs)).1, st);
            exists k :: 0 <= k <= |all| &&
                        OnStream(Printed(o, outs), st) == all[..k] + OnStream(Warning(o, outs), st) + all[k..]
  {
    hide AcceptedAll, RenderAll, Shown, Warning, OnStream;
    RunPrintsShown(o, outs);
    var all := RenderAll(o, Starts(true, true), Shown(o, outs)).1;
    var before := AcceptedAll(o, Start(o), outs[..FirstUntimed(outs)]).1;
    var rest := all[|before|..];
    assert all == before + rest;
    OnStreamAppend(before, rest, st);
    OnStreamAppend(before + Warning(o, outs), rest, st);
    OnStreamAppend(before, Warning(o, outs), st);
    var k := |OnStream(before, st)|;
    assert OnStream(all, st)[..k] == OnStream(before, st) && OnStream(all, st)[k..] == OnStream(rest, st);
  }

  /** The warning goes to standard error and nowhere else. */
  lemma WarningOnStream(o: Options, outs: seq<Output>, st: Stream)
    ensures OnStream(Warning(o, outs), st) == if st.Stderr? && Warning(o, outs) != [] then o.warning else []
  {
    hide FirstUntimed;
    var w := [Printable(Stderr, o.warning)];
    assert w[1..] == [];
    assert o.warning + OnStream(w[1..], st) == o.warning && [] + OnStream(w[1..], st) == [];
  }

  predicate ChunksTimed(cs: seq<Chunk>) {
    forall i :: 0 <= i < |cs| ==> cs[i].at.Some?
  }

  lemma {:induction false} TimedBytesAreTimed(cs: seq<Chunk>, st: Stream)
    requires ChunksTimed(cs)
    ensures forall i :: 0 <= i < |TimedBytes(cs, st)| ==> TimedBytes(cs, st)[i].1.Some?
  {
    if cs != [] {
      TimedBytesAreTimed(cs[1..], st);
    }
  }

  /**
   With timestamps on, a run stamps every line it shows once; the warning, if one
   is due, stands somewhere on standard error. Where every chunk shown has a time,
   taking the stamps out leaves the bytes shown.
   */
  lemma StampedRun(o: Options, outs: seq<Output>, st: Stream)
    requires o.timestamps
    requires forall at :: SPACE !in o.stamp(at)
    ensures var stamped := StampLines(o.stamp, TimedBytes(Shown(o, outs), st), true);
            var warning := if st.Stderr? && Warning(o, outs) != [] then o.warning else [];
            && (exists k :: 0 <= k <= |stamped| &&
                            OnStream(Printed(o, outs), st) == stamped[..k] + warning + stamped[k..])
            && (ChunksTimed(Shown(o, outs)) ==> Unstamp(stamped, true) == RawBytes(TimedBytes(Shown(o, outs), st)))
  {
    hide AcceptedAll, RenderAll, Shown, StampLines, Unstamp, Warning, OnStream;
    RunOnStream(o, outs, st);
    WarningOnStream(o, outs, st);
    StampsOncePerLine(o, Starts(true, true), Shown(o, outs), st);
    if ChunksTimed(Shown(o, outs)) {
      TimedBytesAreTimed(Shown(o, outs), st);
      StampsComeOff(o.stamp, TimedBytes(Shown(o, outs), st), true);
    }
  }
}
