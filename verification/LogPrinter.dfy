/**
 What `ward logs` prints: `--tail`, `--since`, `--until` and `--timestamps`
 over a stream of chunks cut at arbitrary places.
 */
module LogPrinter {
  import opened Machine
  import opened LogLines

  const SPACE: Byte := 32

  datatype Stream = Stdout | Stderr

  datatype Starts = Starts(out: bool, err: bool) {
    predicate Of(st: Stream) {
      if st.Stdout? then out else err
    }

    function With(st: Stream, value: bool): Starts {
      if st.Stdout? then Starts(value, err) else Starts(out, value)
    }
  }

  type Time = int

  datatype Chunk = Chunk(stream: Stream, at: Option<Time>, bytes: seq<Byte>)

  datatype Output = Data(chunk: Chunk) | ReplayEnd

  datatype Printable = Printable(stream: Stream, bytes: seq<Byte>)

  /** `stamp` is how a time is written in front of a line. */
  datatype Options = Options(tail: Option<nat>, since: Option<Time>, until: Option<Time>, timestamps: bool,
                             stamp: Time -> seq<Byte>, warning: seq<Byte>)

  /** The printer between two calls. */
  datatype Printer = Printer(replaying: bool, held: seq<Chunk>, starts: Starts, warned: bool)

  function Start(o: Options): Printer {
    Printer(o.tail.Some?, [], Starts(true, true), false)
  }

  // ---- one chunk -----------------------------------------------------------

  /** `bytes` with `stamp` and a space in front of every line that begins in it. */
  function Stamped(stamp: seq<Byte>, bytes: seq<Byte>, start: bool): seq<Byte> {
    if bytes == [] then []
    else (if start then stamp + [32] else []) + [bytes[0]] + Stamped(stamp, bytes[1..], bytes[0] == 10)
  }

  /** Whether what follows `bytes` begins a line. */
  predicate EndsLine(bytes: seq<Byte>, start: bool) {
    if bytes == [] then start else bytes[|bytes| - 1] == NEWLINE
  }

  /** A run of bytes with no line ending but perhaps at its end goes through as one piece. */
  lemma {:induction false} StampedLine(stamp: seq<Byte>, line: seq<Byte>, rest: seq<Byte>, start: bool)
    requires line != [] && NEWLINE !in line[..|line| - 1]
    ensures Stamped(stamp, line + rest, start) ==
            (if start then stamp + [SPACE] else []) + line + Stamped(stamp, rest, line[|line| - 1] == NEWLINE)
    decreases |line|
  {
    var all := line + rest;
    assert all[1..] == line[1..] + rest;
    if |line| == 1 {
      assert line[1..] + rest == rest && line == [line[0]];
    } else {
      assert line[0] == line[..|line| - 1][0];
      assert line[1..][..|line| - 2] == line[..|line| - 1][1..];
      StampedLine(stamp, line[1..], rest, false);
      StampedGlue(stamp, line, rest, start);
    }
  }

  lemma StampedGlue(stamp: seq<Byte>, line: seq<Byte>, rest: seq<Byte>, start: bool)
    requires |line| > 1
    ensures var head := if start then stamp + [SPACE] else [];
            var tail := Stamped(stamp, rest, line[|line| - 1] == NEWLINE);
            head + [line[0]] + ([] + line[1..] + tail) == head + line + tail
  {
    assert [line[0]] + line[1..] == line;
  }

  /** Length of the first piece of `bytes`, its line ending included. */
  method LineLength(bytes: seq<Byte>) returns (n: nat)
    requires bytes != []
    ensures 0 < n <= |bytes| && NEWLINE !in bytes[..n - 1]
    ensures bytes[n - 1] == NEWLINE || n == |bytes|
  {
    n := 1;
    while n < |bytes| && bytes[n - 1] != NEWLINE
      invariant 0 < n <= |bytes| && NEWLINE !in bytes[..n - 1]
    {
      assert bytes[..n] == bytes[..n - 1] + [bytes[n - 1]];
      n := n + 1;
    }
  }

  /** `prefix_lines`, line by line. */
  method PrefixLines(stamp: seq<Byte>, bytes: seq<Byte>, atLineStart: bool) returns (out: seq<Byte>, next: bool)
    ensures out == Stamped(stamp, bytes, atLineStart)
    ensures next == EndsLine(bytes, atLineStart)
  {
    hide Stamped, EndsLine;
    out, next := [], atLineStart;
    EndsNothing(atLineStart);
    var done: nat := 0;
    assert bytes[0..] == bytes && bytes[..0] == [];
    while done < |bytes|
      invariant done <= |bytes|
      invariant out + Stamped(stamp, bytes[done..], next) == Stamped(stamp, bytes, atLineStart)
      invariant next == EndsLine(bytes[..done], atLineStart)
    {
      var n := LineLength(bytes[done..]);
      var line := bytes[done..][..n];
      OneMoreLine(stamp, bytes, done, n, next, out, atLineStart);
      out := out + (if next then stamp + [SPACE] else []) + line;
      next := line[n - 1] == NEWLINE;
      done := done + n;
    }
    StampedNothing(stamp, next);
    assert bytes[done..] == [] && bytes[..done] == bytes;
  }

  lemma EndsNothing(start: bool)
    ensures EndsLine([], start) == start
  {
  }

  /** One turn of the line loop. */
  lemma OneMoreLine(stamp: seq<Byte>, bytes: seq<Byte>, done: nat, n: nat, start: bool, out: seq<Byte>, first: bool)
    requires done + n <= |bytes| && 0 < n && NEWLINE !in bytes[done..][..n - 1]
    ensures var line := bytes[done..][..n];
            var ends := line[n - 1] == NEWLINE;
            && out + (if start then stamp + [SPACE] else []) + line + Stamped(stamp, bytes[done + n..], ends) ==
               out + Stamped(stamp, bytes[done..], start)
            && EndsLine(bytes[..done + n], first) == ends
  {
    hide Stamped;
    var rest := bytes[done..];
    var line := rest[..n];
    assert rest == line + rest[n..] && line[..n - 1] == rest[..n - 1];
    assert rest[n..] == bytes[done + n..] && bytes[..done + n][done + n - 1] == line[n - 1];
    StampedLine(stamp, line, rest[n..], start);
    Associates(out, if start then stamp + [SPACE] else [], line, Stamped(stamp, rest[n..], line[n - 1] == NEWLINE));
  }

  lemma Associates(a: seq<Byte>, b: seq<Byte>, c: seq<Byte>, d: seq<Byte>)
    ensures a + b + c + d == a + (b + c + d)
  {
  }

  lemma StampedNothing(stamp: seq<Byte>, start: bool)
    ensures Stamped(stamp, [], start) == []
  {
  }

  // ---- the printer on values -----------------------------------------------

  predicate Passes(o: Options, c: Chunk) {
    c.at.Some? ==>
      && (o.since.Some? ==> o.since.value <= c.at.value)
      && (o.until.Some? ==> c.at.value < o.until.value)
  }

  function Passing(o: Options, cs: seq<Chunk>): seq<Chunk> {
    if cs == [] then [] else (if Passes(o, cs[0]) then [cs[0]] else []) + Passing(o, cs[1..])
  }

  function Render(o: Options, starts: Starts, c: Chunk): (Starts, Printable) {
    if c.at.Some? && o.timestamps then
      (starts.With(c.stream, EndsLine(c.bytes, starts.Of(c.stream))),
       Printable(c.stream, Stamped(o.stamp(c.at.value), c.bytes, starts.Of(c.stream))))
    else (starts, Printable(c.stream, c.bytes))
  }

  function RenderAll(o: Options, starts: Starts, cs: seq<Chunk>): (Starts, seq<Printable>)
    decreases |cs|
  {
    if cs == [] then (starts, [])
    else
      var (next, first) := Render(o, starts, cs[0]);
      var (last, rest) := RenderAll(o, next, cs[1..]);
      (last, [first] + rest)
  }

  function Bytes(cs: seq<Chunk>): seq<Byte> {
    if cs == [] then [] else cs[0].bytes + Bytes(cs[1..])
  }

  /** The chunks with their first `skip` bytes cut off; emptied chunks go. */
  function DropBytes(cs: seq<Chunk>, skip: nat): seq<Chunk> {
    if cs == [] then []
    else
      var dropped := Min(skip, |cs[0].bytes|);
      (if dropped < |cs[0].bytes| then [cs[0].(bytes := cs[0].bytes[dropped..])] else [])
      + DropBytes(cs[1..], skip - dropped)
  }

  /** `tail_chunks`. */
  function TailChunks(cs: seq<Chunk>, lines: nat): seq<Chunk> {
    DropBytes(cs, TailStart(Bytes(cs), lines))
  }

  function Released(o: Options, held: seq<Chunk>): seq<Chunk> {
    if o.tail.Some? then TailChunks(held, o.tail.value) else []
  }

  function Finished(o: Options, p: Printer): (Printer, seq<Printable>) {
    var (starts, printed) := RenderAll(o, p.starts, Released(o, p.held));
    (Printer(false, [], starts, p.warned), printed)
  }

  function Timed(o: Options, p: Printer, c: Chunk): (Printer, seq<Printable>) {
    if !Passes(o, c) then (p, [])
    else if p.replaying then (p.(held := p.held + [c]), [])
    else
      var (starts, printed) := Render(o, p.starts, c);
      (p.(starts := starts), [printed])
  }

  /** A chunk without a time: warn once if times were asked for, and end the replay. */
  function Untimed(o: Options, p: Printer): (Printer, seq<Printable>) {
    var warn := (o.since.Some? || o.timestamps) && !p.warned;
    var p1 := p.(warned := p.warned || warn);
    var notice := if warn then [Printable(Stderr, o.warning)] else [];
    if p1.replaying then
      var (p2, printed) := Finished(o, p1);
      (p2, notice + printed)
    else (p1, notice)
  }

  function Accepted(o: Options, p: Printer, out: Output): (Printer, seq<Printable>) {
    match out
    case ReplayEnd => Finished(o, p)
    case Data(c) =>
      var (p1, notice) := if c.at.None? then Untimed(o, p) else (p, []);
      var (p2, printed) := Timed(o, p1, c);
      (p2, notice + printed)
  }

  function AcceptedAll(o: Options, p: Printer, outs: seq<Output>): (Printer, seq<Printable>)
    decreases |outs|
  {
    if outs == [] then (p, [])
    else
      var (next, first) := Accepted(o, p, outs[0]);
      var (last, rest) := AcceptedAll(o, next, outs[1..]);
      (last, first + rest)
  }

  /** The chunks and sizes the loop of `tail_chunks` keeps. */
  method KeepTail(chunks: seq<Chunk>, lines: nat) returns (kept: seq<Chunk>)
    ensures kept == TailChunks(chunks, lines)
  {
    hide TailStart, DropBytes;
    var all := Bytes(chunks);
    var tail := LastLines(all, lines);
    var skip := |all| - |tail|;
    kept := [];
    assert chunks[0..] == chunks;
    for i := 0 to |chunks|
      invariant 0 <= skip
      invariant kept + DropBytes(chunks[i..], skip) == TailChunks(chunks, lines)
    {
      var bytes := chunks[i].bytes;
      var dropped := Min(skip, |bytes|);
      DropBytesStep(chunks, i, skip);
      skip := skip - dropped;
      if dropped < |bytes| {
        kept := kept + [chunks[i].(bytes := bytes[dropped..])];
      }
    }
    assert chunks[|chunks|..] == [];
    DropBytesOfNone(skip);
  }

  lemma DropBytesStep(cs: seq<Chunk>, i: nat, skip: nat)
    requires i < |cs|
    ensures var dropped := Min(skip, |cs[i].bytes|);
            DropBytes(cs[i..], skip) ==
            (if dropped < |cs[i].bytes| then [cs[i].(bytes := cs[i].bytes[dropped..])] else [])
            + DropBytes(cs[i + 1..], skip - dropped)
  {
    assert cs[i..][1..] == cs[i + 1..];
  }

  lemma DropBytesOfNone(skip: nat)
    ensures DropBytes([], skip) == []
  {
  }

  /** The printer as the source keeps it: fields changed by each call. */
  class LogPrinter {
    const options: Options
    var replaying: bool
    var held: seq<Chunk>
    var starts: Starts
    var warned: bool

    constructor (options: Options)
      ensures this.options == options && Value() == Start(options)
    {
      this.options := options;
      replaying, held, starts, warned := options.tail.Some?, [], Starts(true, true), false;
    }

    ghost function Value(): Printer
      reads this
    {
      Printer(replaying, held, starts, warned)
    }

    method RenderChunk(c: Chunk) returns (printed: Printable)
      modifies this`starts
      ensures (starts, printed) == Render(options, old(starts), c)
    {
      if c.at.Some? && options.timestamps {
        var out, next := PrefixLines(options.stamp(c.at.value), c.bytes, starts.Of(c.stream));
        starts := starts.With(c.stream, next);
        return Printable(c.stream, out);
      }
      printed := Printable(c.stream, c.bytes);
    }

    method Finish() returns (printed: seq<Printable>)
      modifies this
      ensures (Value(), printed) == old(Finished(options, Value()))
    {
      hide TailChunks, Render;
      replaying := false;
      var chunks := held;
      held := [];
      printed := [];
      if options.tail.None? {
        return;
      }
      var kept := KeepTail(chunks, options.tail.value);
      ghost var first := starts;
      for i := 0 to |kept|
        invariant !replaying && held == [] && warned == old(warned)
        invariant RenderAll(options, first, kept[..i]) == (starts, printed)
      {
        ghost var before := starts;
        var one := RenderChunk(kept[i]);
        RenderSnoc(options, first, kept[..i], kept[i]);
        assert kept[..i + 1] == kept[..i] + [kept[i]];
        printed := printed + [one];
      }
      assert kept[..|kept|] == kept;
    }

    method AcceptTimed(c: Chunk) returns (printed: seq<Printable>)
      modifies this
      ensures (Value(), printed) == old(Timed(options, Value(), c))
    {
      if options.since.Some? && c.at.Some? && c.at.value < options.since.value {
        return [];
      }
      if options.until.Some? && c.at.Some? && c.at.value >= options.until.value {
        return [];
      }
      if replaying {
        held := held + [c];
        return [];
      }
      var one := RenderChunk(c);
      printed := [one];
    }

    method DaemonIsOld() returns (printed: seq<Printable>)
      modifies this
      ensures (Value(), printed) == old(Untimed(options, Value()))
    {
      hide Finished;
      printed := [];
      if (options.since.Some? || options.timestamps) && !warned {
        warned := true;
        printed := [Printable(Stderr, options.warning)];
      }
      if replaying {
        var more := Finish();
        printed := printed + more;
      }
    }

    method Accept(output: Output) returns (printed: seq<Printable>)
      modifies this
      ensures (Value(), printed) == old(Accepted(options, Value(), output))
    {
      hide Finished, Timed, Untimed;
      match output {
        case ReplayEnd =>
          printed := Finish();
        case Data(c) =>
          printed := [];
          if c.at.None? {
            printed := DaemonIsOld();
          }
          var more := AcceptTimed(c);
          printed := printed + more;
      }
    }
  }

  lemma {:induction false} RenderAppend(o: Options, starts: Starts, xs: seq<Chunk>, ys: seq<Chunk>)
    ensures var (mid, first) := RenderAll(o, starts, xs);
            var (last, second) := RenderAll(o, mid, ys);
            RenderAll(o, starts, xs + ys).0 == last && RenderAll(o, starts, xs + ys).1 == first + second
    decreases |xs|
  {
    hide Render;
    if xs == [] {
      assert xs + ys == ys;
    } else {
      assert (xs + ys)[1..] == xs[1..] + ys;
      var (next, head) := Render(o, starts, xs[0]);
      RenderAppend(o, next, xs[1..], ys);
      var (mid, first) := RenderAll(o, next, xs[1..]);
      var (last, second) := RenderAll(o, mid, ys);
      assert [head] + (first + second) == [head] + first + second;
    }
  }

  lemma RenderSnoc(o: Options, starts: Starts, cs: seq<Chunk>, c: Chunk)
    ensures var (mid, first) := RenderAll(o, starts, cs);
            var (last, one) := Render(o, mid, c);
            RenderAll(o, starts, cs + [c]).0 == last && RenderAll(o, starts, cs + [c]).1 == first + [one]
  {
    hide Render;
    RenderAppend(o, starts, cs, [c]);
    var (mid, first) := RenderAll(o, starts, cs);
    var (last, one) := Render(o, mid, c);
    assert [c][1..] == [];
    assert RenderAll(o, last, []) == (last, []);
    assert RenderAll(o, mid, [c]).1 == [one] + [];
  }
}
