/**
 The bounded process listing of `top`: which rows it keeps, and why what it
 returns always fits one agent frame once encoded.
 */
module Listing {
  import opened Machine
  import opened Protobuf
  import opened Framing

  const MAX_ROWS: nat := 4096
  const MAX_COLUMNS: nat := 32
  const MAX_TABLE_BYTES: nat := MAX_FRAME_BYTES / 2
  const FIELD_OVERHEAD_BYTES: nat := 4

  type Row = seq<seq<Byte>>

  /** A directory of `/proc`: skipped, or selected with its formatted fields. */
  datatype Candidate = Skipped | Selected(fields: Row)

  datatype Table = Table(titles: seq<seq<Byte>>, rows: seq<Row>)

  // ---- titles --------------------------------------------------------------

  const FULL_TITLES: seq<string> := ["UID", "PID", "PPID", "C", "STIME", "TTY", "TIME", "CMD"]
  const SHORT_TITLES: seq<string> := ["PID", "TTY", "TIME", "CMD"]
  const BSD_TITLES: seq<string> :=
    ["USER", "PID", "%CPU", "%MEM", "VSZ", "RSS", "TTY", "STAT", "START", "TIME", "COMMAND"]
  /** The headers an `-o` list can name. */
  const OUTPUT_TITLES: seq<string> :=
    ["PID", "PPID", "UID", "USER", "COMMAND", "CMD", "TIME", "STIME", "TT", "STAT", "VSZ", "RSS", "%CPU", "%MEM", "C"]

  /** Titles a parsed query can have. */
  predicate FromQuery(titles: seq<string>) {
    || titles == FULL_TITLES || titles == SHORT_TITLES || titles == BSD_TITLES
    || (1 <= |titles| <= MAX_COLUMNS && forall i :: 0 <= i < |titles| ==> titles[i] in OUTPUT_TITLES)
  }

  function Ascii(s: string): (r: seq<Byte>)
    ensures |r| == |s|
  {
    seq(|s|, i requires 0 <= i < |s| => if s[i] as int < 128 then s[i] as int else 63)
  }

  function AsciiAll(ss: seq<string>): (r: seq<seq<Byte>>)
    ensures |r| == |ss|
    ensures forall i :: 0 <= i < |ss| ==> r[i] == Ascii(ss[i])
  {
    seq(|ss|, i requires 0 <= i < |ss| => Ascii(ss[i]))
  }

  predicate FewShortTitles(titles: seq<seq<Byte>>) {
    |titles| <= MAX_COLUMNS && forall i :: 0 <= i < |titles| ==> |titles[i]| <= 7
  }

  lemma QueryTitlesAreShort(titles: seq<string>)
    requires FromQuery(titles)
    ensures FewShortTitles(AsciiAll(titles))
  {
    forall i | 0 <= i < |titles|
      ensures |titles[i]| <= 7
    {
      assert titles == FULL_TITLES || titles == SHORT_TITLES || titles == BSD_TITLES || titles[i] in OUTPUT_TITLES;
    }
  }

  // ---- the rows kept -------------------------------------------------------

  function RowCost(row: Row): nat {
    if row == [] then 0 else |row[0]| + 4 + RowCost(row[1..])
  }

  function Cost(rows: seq<Row>): nat {
    if rows == [] then 0 else Cost(rows[..|rows| - 1]) + RowCost(rows[|rows| - 1])
  }

  function Rows(cs: seq<Candidate>): seq<Row> {
    if cs == [] then []
    else Rows(cs[..|cs| - 1]) + (if cs[|cs| - 1].Selected? then [cs[|cs| - 1].fields] else [])
  }

  predicate WithinBudget(rows: seq<Row>) {
    |rows| <= 4096 && Cost(rows) <= 1024 * 1024
  }

  lemma CostSnoc(rows: seq<Row>, row: Row)
    ensures Cost(rows + [row]) == Cost(rows) + RowCost(row)
  {
    assert (rows + [row])[..|rows|] == rows;
  }

  lemma {:induction false} RowsPrefix(cs: seq<Candidate>, i: nat)
    requires i <= |cs|
    ensures Rows(cs[..i]) <= Rows(cs)
    decreases |cs| - i
  {
    if i == |cs| {
      assert cs[..i] == cs;
    } else {
      RowsPrefix(cs, i + 1);
      assert cs[..i + 1][..i] == cs[..i];
    }
  }

  /** Cost of one row, added up field by field. */
  method AddUp(row: Row) returns (cost: nat)
    ensures cost == RowCost(row)
  {
    cost := 0;
    var i: nat := 0;
    assert row[0..] == row;
    while i < |row|
      invariant i <= |row| && cost + RowCost(row[i..]) == RowCost(row)
    {
      assert row[i..][1..] == row[i + 1..];
      cost := cost + |row[i]| + FIELD_OVERHEAD_BYTES;
      i := i + 1;
    }
  }

  /** `t` holds the longest prefix of the selected processes that meets both caps. */
  predicate Lists(cs: seq<Candidate>, titles: seq<seq<Byte>>, t: Table) {
    && t.titles == titles
    && t.rows <= Rows(cs) && WithinBudget(t.rows)
    && (|t.rows| < |Rows(cs)| ==> !WithinBudget(Rows(cs)[..|t.rows| + 1]))
  }

  /**
   The loop of `list`: it keeps the selected processes from the first on, and
   stops at the first one that would pass a cap.
   */
  method List(cs: seq<Candidate>, titles: seq<seq<Byte>>) returns (t: Table)
    ensures Lists(cs, titles, t)
  {
    hide Rows, Cost, RowCost, WithinBudget;
    var rows: seq<Row> := [];
    var bytes: nat := 0;
    NoRows(cs);
    var i := 0;
    while i < |cs|
      invariant 0 <= i <= |cs|
      invariant rows == Rows(cs[..i]) && bytes == Cost(rows) && WithinBudget(rows)
    {
      OneMoreRow(cs, i);
      if cs[i].Selected? {
        var fields := cs[i].fields;
        var cost := AddUp(fields);
        bytes := bytes + cost;
        CostSnoc(rows, fields);
        BudgetWithOneMore(rows, fields);
        if |rows| >= MAX_ROWS || bytes > MAX_TABLE_BYTES {
          return Table(titles, rows);
        }
        rows := rows + [fields];
      }
      i := i + 1;
    }
    assert cs[..i] == cs;
    t := Table(titles, rows);
  }

  lemma NoRows(cs: seq<Candidate>)
    ensures Rows(cs[..0]) == [] && Cost([]) == 0 && WithinBudget([])
  {
  }

  lemma BudgetWithOneMore(rows: seq<Row>, row: Row)
    requires WithinBudget(rows)
    ensures WithinBudget(rows + [row]) <==> |rows| < MAX_ROWS && Cost(rows) + RowCost(row) <= MAX_TABLE_BYTES
  {
    hide Cost, RowCost;
    CostSnoc(rows, row);
  }

  /** The next process adds its row, or nothing, to a prefix of all the rows. */
  lemma OneMoreRow(cs: seq<Candidate>, i: nat)
    requires i < |cs|
    ensures var rows := Rows(cs[..i]);
            && rows <= Rows(cs)
            && (cs[i].Skipped? ==> Rows(cs[..i + 1]) == rows)
            && (cs[i].Selected? ==>
                  && Rows(cs[..i + 1]) == rows + [cs[i].fields]
                  && |rows| < |Rows(cs)| && Rows(cs)[..|rows| + 1] == rows + [cs[i].fields])
  {
    assert cs[..i + 1][..i] == cs[..i];
    RowsPrefix(cs, i);
    RowsPrefix(cs, i + 1);
  }

  // ---- the encoded size ----------------------------------------------------

  /** Field 1 of `Processes` and of `ProcessRow`. */
  const TEXT_TAG: Byte := 10
  /** Field 2 of `Processes`, `rows`. */
  const ROW_TAG: Byte := 18
  /** Field 9 of `Event`, `processes`. */
  const PROCESSES_TAG: Byte := 74

  /** A repeated string field. */
  function EncodeTexts(texts: seq<seq<Byte>>): seq<Byte> {
    if texts == [] then [] else LenField(TEXT_TAG, texts[0]) + EncodeTexts(texts[1..])
  }

  function EncodeRows(rows: seq<Row>): seq<Byte> {
    if rows == [] then []
    else EncodeRows(rows[..|rows| - 1]) + LenField(ROW_TAG, EncodeTexts(rows[|rows| - 1]))
  }

  /** The event that carries a listing. */
  function EncodeTable(t: Table): seq<Byte> {
    LenField(PROCESSES_TAG, EncodeTexts(t.titles) + EncodeRows(t.rows))
  }

  lemma {:induction false} RowIsWithinCost(row: Row)
    requires RowCost(row) <= MAX_TABLE_BYTES
    ensures |EncodeTexts(row)| <= RowCost(row)
  {
    if row != [] {
      RowIsWithinCost(row[1..]);
      VarintLength(|row[0]|);
    }
  }

  lemma {:induction false} RowsAreWithinCost(rows: seq<Row>)
    requires Cost(rows) <= MAX_TABLE_BYTES
    ensures |EncodeRows(rows)| <= Cost(rows) + 4 * |rows|
  {
    if rows != [] {
      var row := rows[|rows| - 1];
      RowsAreWithinCost(rows[..|rows| - 1]);
      RowIsWithinCost(row);
      VarintLength(|EncodeTexts(row)|);
    }
  }

  lemma {:induction false} TitlesAreSmall(titles: seq<seq<Byte>>)
    requires forall i :: 0 <= i < |titles| ==> |titles[i]| <= 7
    ensures |EncodeTexts(titles)| <= 9 * |titles|
  {
    if titles != [] {
      TitlesAreSmall(titles[1..]);
      VarintLength(|titles[0]|);
    }
  }

  /** Every listing within the budget is a frame `write_frame` accepts. */
  lemma ListingFitsAFrame(t: Table)
    requires FewShortTitles(t.titles) && WithinBudget(t.rows)
    ensures Writable(EncodeTable(t))
  {
    hide EncodeTexts, EncodeRows, Cost;
    TitlesAreSmall(t.titles);
    RowsAreWithinCost(t.rows);
    VarintLength(|EncodeTexts(t.titles) + EncodeRows(t.rows)|);
  }

  // ---- the answer ----------------------------------------------------------

  /** Field 10 of `Event`, `top_error`. */
  const TOP_ERROR_TAG: Byte := 82

  /** Field 1 of `TopError`, left out when empty. */
  function EncodeTopError(message: seq<Byte>): seq<Byte> {
    LenField(TOP_ERROR_TAG, if message == [] then [] else LenField(TEXT_TAG, message))
  }

  /** The parsed arguments, or why they are not supported. */
  datatype Query = Parsed(titles: seq<string>) | Rejected(message: seq<Byte>)

  datatype Answer = Listed(t: Table) | Told | Unreadable | NotWritten(error: WriteError)

  /**
   `answer_top`. `found` is None when `/proc` cannot be read, and then nothing is
   written. A listing is always written; an error message if it fits a frame.
   */
  method AnswerTop(query: Query, found: Option<seq<Candidate>>, sink: Sink) returns (r: Answer)
    requires query.Parsed? ==> FromQuery(query.titles)
    modifies sink
    ensures query.Parsed? && found.None? ==> r == Unreadable && sink.data == old(sink.data)
    ensures query.Parsed? && found.Some? ==>
              && r.Listed? && Lists(found.value, AsciiAll(query.titles), r.t) && Writable(EncodeTable(r.t))
              && sink.data == old(sink.data) + Encode(EncodeTable(r.t))
    ensures query.Rejected? ==> (r == Told <==> |query.message| <= LONGEST_MESSAGE)
    ensures query.Rejected? && r == Told ==>
              && Writable(EncodeTopError(query.message))
              && sink.data == old(sink.data) + Encode(EncodeTopError(query.message))
    ensures query.Rejected? && r != Told ==> r.NotWritten? && sink.data == old(sink.data)
  {
    hide FromQuery, Writable, Lists, EncodeTable, EncodeTopError, Encode, FewShortTitles, WithinBudget;
    match query
    case Rejected(message) =>
      MessageFitsExactly(message);
      var error := sink.WriteFrame(EncodeTopError(message));
      r := if error.None? then Told else NotWritten(error.value);
    case Parsed(titles) =>
      if found.None? {
        return Unreadable;
      }
      var t := List(found.value, AsciiAll(titles));
      ListedFits(found.value, titles, t);
      var _ := sink.WriteFrame(EncodeTable(t));
      r := Listed(t);
  }

  lemma ListedFits(cs: seq<Candidate>, titles: seq<string>, t: Table)
    requires FromQuery(titles) && Lists(cs, AsciiAll(titles), t)
    ensures Writable(EncodeTable(t))
  {
    hide FromQuery, FewShortTitles, WithinBudget, EncodeTable, Writable;
    QueryTitlesAreShort(titles);
    ListingFitsAFrame(t);
  }

  /** Two tags and two lengths of three bytes go around a message of this size. */
  const LONGEST_MESSAGE: nat := MAX_FRAME_BYTES - 8

  /** An error message is written exactly up to a length just below the frame cap. */
  lemma MessageFitsExactly(message: seq<Byte>)
    ensures Writable(EncodeTopError(message)) <==> |message| <= LONGEST_MESSAGE
  {
    hide Varint;
    VarintLength(|message|);
    var inner := if message == [] then [] else LenField(TEXT_TAG, message);
    VarintLength(|inner|);
  }
}
