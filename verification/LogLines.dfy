/**
 Lines of log output: how many a text has, and `last_lines`, the part of it
 that makes up the last few.
 */
module LogLines {
  import opened Machine

  const NEWLINE: Byte := 10

  function Newlines(s: seq<Byte>): nat {
    if s == [] then 0 else (if s[0] == 10 then 1 else 0) + Newlines(s[1..])
  }

  /** Number of lines, a last one without its line ending included. */
  function Lines(s: seq<Byte>): nat {
    Newlines(s) + (if s != [] && s[|s| - 1] != NEWLINE then 1 else 0)
  }

  /** A place a tail may start: the start of a line, or the end. */
  predicate LineStart(s: seq<Byte>, k: nat) {
    k <= |s| && (k == 0 || k == |s| || s[k - 1] == NEWLINE)
  }

  /** The suffix at `k` starts a line, has at most `n` lines, and is the longest such. */
  ghost predicate IsTail(s: seq<Byte>, n: nat, k: nat) {
    && LineStart(s, k) && Lines(s[k..]) <= n
    && forall j :: 0 <= j < k && LineStart(s, j) ==> Lines(s[j..]) > n
  }

  function FindTail(s: seq<Byte>, n: nat, k: nat): (r: nat)
    requires k <= |s|
    ensures k <= r <= |s|
    decreases |s| - k
  {
    if k == |s| || (LineStart(s, k) && Lines(s[k..]) <= n) then k else FindTail(s, n, k + 1)
  }

  /** Where the last `n` lines of `s` start. */
  function TailStart(s: seq<Byte>, n: nat): (r: nat)
    ensures r <= |s|
  {
    FindTail(s, n, 0)
  }

  lemma {:induction false} FindTailIsFirst(s: seq<Byte>, n: nat, k: nat, tail: nat)
    requires k <= tail && IsTail(s, n, tail)
    ensures FindTail(s, n, k) == tail
    decreases |s| - k
  {
    if k < tail {
      FindTailIsFirst(s, n, k + 1, tail);
    }
  }

  lemma {:induction false} NewlinesAppend(x: seq<Byte>, y: seq<Byte>)
    ensures Newlines(x + y) == Newlines(x) + Newlines(y)
  {
    if x == [] {
      assert x + y == y;
    } else {
      assert (x + y)[1..] == x[1..] + y;
      NewlinesAppend(x[1..], y);
    }
  }

  lemma NewlinesCut(s: seq<Byte>, k: nat)
    requires k <= |s|
    ensures Newlines(s) == Newlines(s[..k]) + Newlines(s[k..])
  {
    assert s == s[..k] + s[k..];
    NewlinesAppend(s[..k], s[k..]);
  }

  lemma NewlineOne(b: Byte)
    ensures Newlines([b]) == if b == NEWLINE then 1 else 0
  {
    assert [b][1..] == [];
  }

  lemma {:induction false} NoNewlines(s: seq<Byte>)
    requires NEWLINE !in s
    ensures Newlines(s) == 0
  {
    if s != [] {
      NoNewlines(s[1..]);
    }
  }

  /** The last newline before `start`, as `rposition` finds it. */
  method LastNewline(s: seq<Byte>, start: nat) returns (at: Option<nat>)
    requires start <= |s|
    ensures at.None? ==> NEWLINE !in s[..start]
    ensures at.Some? ==> at.value < start && s[at.value] == NEWLINE && NEWLINE !in s[at.value + 1..start]
  {
    var i := start;
    while i > 0
      invariant 0 <= i <= start && NEWLINE !in s[i..start]
    {
      if s[i - 1] == NEWLINE {
        return Some(i - 1);
      }
      assert s[i - 1..start] == [s[i - 1]] + s[i..start];
      i := i - 1;
    }
    assert s[..start] == s[0..start];
    at := None;
  }

  /** The text without its final line ending. */
  function Body(s: seq<Byte>): (r: seq<Byte>)
    ensures r <= s
  {
    if s != [] && s[|s| - 1] == NEWLINE then s[..|s| - 1] else s
  }

  /** Nonempty text has one line more than its body has newlines. */
  lemma LinesOfBody(s: seq<Byte>)
    requires s != []
    ensures Lines(s) == Newlines(Body(s)) + 1
  {
    if s[|s| - 1] == NEWLINE {
      NewlinesCut(s, |s| - 1);
      NewlineOne(NEWLINE);
      assert s[|s| - 1..] == [NEWLINE];
    }
  }

  /** A suffix that is a tail: it follows a newline and its body holds `n - 1` newlines. */
  lemma SuffixIsTail(s: seq<Byte>, n: nat, k: nat)
    requires 0 < n && 0 < k < |s| && s[k - 1] == NEWLINE
    requires Newlines(Body(s[k..])) == n - 1
    ensures IsTail(s, n, k)
  {
    LinesOfBody(s[k..]);
    forall j | 0 <= j < k && LineStart(s, j)
      ensures Lines(s[j..]) > n
    {
      LongerSuffix(s, j, k);
    }
  }

  lemma LongerSuffix(s: seq<Byte>, j: nat, k: nat)
    requires j < k < |s| && s[k - 1] == NEWLINE
    ensures Lines(s[j..]) > Lines(s[k..])
  {
    var t := s[j..];
    NewlinesCut(t, k - j);
    assert t[k - j..] == s[k..];
    NewlinesCut(t[..k - j], k - j - 1);
    assert t[..k - j][k - j - 1..] == [NEWLINE];
    NewlineOne(NEWLINE);
  }

  lemma BodyOfSuffix(s: seq<Byte>, k: nat)
    requires k < |s|
    ensures k <= |Body(s)| && Body(s[k..]) == Body(s)[k..]
  {
    assert s[k..][|s[k..]| - 1] == s[|s| - 1];
  }

  /** `last_lines`: the longest run of whole last lines, at most `count` of them. */
  method LastLines(output: seq<Byte>, count: nat) returns (tail: seq<Byte>)
    ensures tail == output[TailStart(output, count)..]
    ensures IsTail(output, count, TailStart(output, count))
  {
    hide Newlines, FindTail;
    var body := Body(output);
    var start: nat := |body|;
    var i := 0;
    NoNewlines(body[start..]);
    while i < count
      invariant i <= count && start <= |body|
      invariant Newlines(body[start..]) == i
      invariant i > 0 ==> start < |body| && body[start] == NEWLINE
    {
      var newline := LastNewline(body, start);
      if newline.None? {
        AllIsTail(output, count, start);
        FindTailIsFirst(output, count, 0, 0);
        assert output[0..] == output;
        return output;
      }
      NewlineMove(body, newline.value, start);
      start := newline.value;
      i := i + 1;
    }
    if count == 0 {
      NothingIsTail(output);
      FindTailIsFirst(output, 0, 0, |output|);
      return [];
    }
    TailAfterNewline(output, count, start);
    FindTailIsFirst(output, count, 0, start + 1);
    tail := output[start + 1..];
  }

  lemma NewlineMove(s: seq<Byte>, at: nat, start: nat)
    requires at < start <= |s| && s[at] == NEWLINE && NEWLINE !in s[at + 1..start]
    ensures Newlines(s[at..]) == Newlines(s[start..]) + 1
  {
    NewlinesCut(s[at..], 1);
    assert s[at..][..1] == [NEWLINE] && s[at..][1..] == s[at + 1..];
    NewlineOne(NEWLINE);
    NewlinesCut(s[at + 1..], start - at - 1);
    assert s[at + 1..][..start - at - 1] == s[at + 1..start] && s[at + 1..][start - at - 1..] == s[start..];
    NoNewlines(s[at + 1..start]);
  }

  lemma AllIsTail(s: seq<Byte>, n: nat, start: nat)
    requires start <= |Body(s)| && NEWLINE !in Body(s)[..start] && Newlines(Body(s)[start..]) < n
    ensures IsTail(s, n, 0)
  {
    assert s[0..] == s;
    NewlinesCut(Body(s), start);
    NoNewlines(Body(s)[..start]);
    if s != [] {
      LinesOfBody(s);
    }
  }

  lemma NothingIsTail(s: seq<Byte>)
    ensures IsTail(s, 0, |s|)
  {
    forall j | 0 <= j < |s|
      ensures Lines(s[j..]) > 0
    {
      LinesOfBody(s[j..]);
    }
  }

  lemma TailAfterNewline(s: seq<Byte>, n: nat, start: nat)
    requires 0 < n && start < |Body(s)| && Body(s)[start] == NEWLINE && Newlines(Body(s)[start..]) == n
    ensures IsTail(s, n, start + 1) && start + 1 < |s|
  {
    var k := start + 1;
    assert k < |s|;
    BodyOfSuffix(s, k);
    NewlinesCut(Body(s)[start..], 1);
    assert Body(s)[start..][..1] == [NEWLINE] && Body(s)[start..][1..] == Body(s)[k..];
    NewlineOne(NEWLINE);
    SuffixIsTail(s, n, k);
  }
}
