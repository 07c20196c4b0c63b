/**
 The path escaper of `ward diff`. Paths are bytes, mostly UTF-8 (RFC 3629); the
 printed form must stay on one line and be decodable. It decodes to the exact
 bytes for precisely the paths that hold no encoded C1 control character.
 */
module Escape {
  import opened Machine

  /** Unicode scalar values, the characters of the printed text. */
  type Scalar = nat

  const BACKSLASH: Scalar := 92
  const LETTER_X: Scalar := 120

  // ---- UTF-8 ---------------------------------------------------------------

  /** What starts a byte string: a character, or bytes that form none. */
  datatype Unit = Char(scalar: Scalar, size: nat) | Bad(size: nat)

  predicate IsTail(b: Byte) {
    0x80 <= b <= 0xBF
  }

  /** Second bytes allowed after the first byte of a three-byte character. */
  predicate Second3(first: Byte, b: Byte) {
    IsTail(b) && (first == 0xE0 ==> 0xA0 <= b) && (first == 0xED ==> b <= 0x9F)
  }

  /** Second bytes allowed after the first byte of a four-byte character. */
  predicate Second4(first: Byte, b: Byte) {
    IsTail(b) && (first == 0xF0 ==> 0x90 <= b) && (first == 0xF4 ==> b <= 0x8F)
  }

  function Scalar2(a: int, b: int): int {
    (a - 0xC0) * 64 + (b - 0x80)
  }

  function Scalar3(a: int, b: int, c: int): int {
    ((a - 0xE0) * 64 + (b - 0x80)) * 64 + (c - 0x80)
  }

  function Scalar4(a: int, b: int, c: int, d: int): int {
    (((a - 0xF0) * 64 + (b - 0x80)) * 64 + (c - 0x80)) * 64 + (d - 0x80)
  }

  /** A character cut off by the end of the text, or by a byte that does not belong. */
  function Unit2(s: seq<Byte>): Unit
    requires s != [] && 0xC2 <= s[0] <= 0xDF
  {
    if |s| < 2 then Bad(|s|)
    else if IsTail(s[1]) then Char(Scalar2(s[0], s[1]), 2)
    else Bad(1)
  }

  function Unit3(s: seq<Byte>): Unit
    requires s != [] && 0xE0 <= s[0] <= 0xEF
  {
    if |s| < 2 then Bad(|s|)
    else if !Second3(s[0], s[1]) then Bad(1)
    else if |s| < 3 || !IsTail(s[2]) then Bad(2)
    else Char(Scalar3(s[0], s[1], s[2]), 3)
  }

  function Unit4(s: seq<Byte>): Unit
    requires s != [] && 0xF0 <= s[0] <= 0xF4
  {
    if |s| < 2 then Bad(|s|)
    else if !Second4(s[0], s[1]) then Bad(1)
    else if |s| < 3 || !IsTail(s[2]) then Bad(2)
    else if |s| < 4 || !IsTail(s[3]) then Bad(3)
    else Char(Scalar4(s[0], s[1], s[2], s[3]), 4)
  }

  /** The validator's view of the start of `s`, `error_len` included. */
  function First(s: seq<Byte>): (u: Unit)
    requires s != []
    ensures 0 < u.size <= |s|
  {
    if s[0] < 0x80 then Char(s[0], 1)
    else if 0xC2 <= s[0] <= 0xDF then Unit2(s)
    else if 0xE0 <= s[0] <= 0xEF then Unit3(s)
    else if 0xF0 <= s[0] <= 0xF4 then Unit4(s)
    else Bad(1)
  }

  /** The encoding of section 3 of RFC 3629. */
  function Utf8(c: Scalar): seq<Byte> {
    if c < 0x80 then [c]
    else if c < 0x800 then [0xC0 + c / 64, 0x80 + c % 64]
    else if c < 0x1_0000 then [0xE0 + c / 4096, 0x80 + c / 64 % 64, 0x80 + c % 64]
    else if c < 0x20_0000 then
      [0xF0 + c / 262_144, 0x80 + c / 4096 % 64, 0x80 + c / 64 % 64, 0x80 + c % 64]
    else []
  }

  lemma Encodes2(a: Byte, b: Byte)
    requires 0xC2 <= a <= 0xDF && IsTail(b)
    ensures Utf8(Scalar2(a, b)) == [a, b]
  {
    Split64(a - 0xC0, b - 0x80);
  }

  lemma Encodes3(a: Byte, b: Byte, c: Byte)
    requires 0xE0 <= a <= 0xEF && Second3(a, b) && IsTail(c)
    ensures Utf8(Scalar3(a, b, c)) == [a, b, c]
  {
    hide Utf8;
    var x: int, y: int, z: int := a - 0xE0, b - 0x80, c - 0x80;
    Split64(x * 64 + y, z);
    Split64(x, y);
    Utf8Three(Scalar3(a, b, c));
  }

  lemma Utf8Three(n: nat)
    requires 0x800 <= n < 0x1_0000
    ensures Utf8(n) == [0xE0 + n / 64 / 64, 0x80 + n / 64 % 64, 0x80 + n % 64]
  {
    DivideTwice(n);
  }

  lemma Encodes4(a: Byte, b: Byte, c: Byte, d: Byte)
    requires 0xF0 <= a <= 0xF4 && Second4(a, b) && IsTail(c) && IsTail(d)
    ensures Utf8(Scalar4(a, b, c, d)) == [a, b, c, d]
  {
    hide Utf8;
    var x: int, y: int, z: int, w: int := a - 0xF0, b - 0x80, c - 0x80, d - 0x80;
    var top: int := x * 64 + y;
    Split64(top * 64 + z, w);
    Split64(top, z);
    Split64(x, y);
    Utf8Four(Scalar4(a, b, c, d));
  }

  lemma Utf8Four(n: nat)
    requires 0x1_0000 <= n < 0x20_0000
    ensures Utf8(n) == [0xF0 + n / 64 / 64 / 64, 0x80 + n / 64 / 64 % 64, 0x80 + n / 64 % 64, 0x80 + n % 64]
  {
    DivideTwice(n);
    DivideThrice(n);
  }

  lemma DivideTwice(n: nat)
    ensures n / 4096 == n / 64 / 64
  {
  }

  lemma DivideThrice(n: nat)
    ensures n / 262_144 == n / 64 / 64 / 64
  {
  }

  lemma Split64(high: nat, low: nat)
    requires low < 64
    ensures (high * 64 + low) / 64 == high && (high * 64 + low) % 64 == low
  {
  }

  /** A decoded character encodes back to the bytes it came from. */
  lemma CharEncodesBack(s: seq<Byte>)
    requires s != [] && First(s).Char?
    ensures Utf8(First(s).scalar) == s[..First(s).size]
  {
    hide Scalar2, Scalar3, Scalar4;
    var n := First(s).size;
    if n == 2 {
      Encodes2(s[0], s[1]);
    } else if n == 3 {
      Encodes3(s[0], s[1], s[2]);
    } else if n == 4 {
      Encodes4(s[0], s[1], s[2], s[3]);
    }
  }

  /** After its first byte, a unit holds only tail bytes. */
  lemma UnitHasTails(s: seq<Byte>, i: nat)
    requires s != [] && 0 < i < First(s).size
    ensures IsTail(s[i])
  {
  }

  // ---- escaping ------------------------------------------------------------

  predicate IsControl(c: Scalar) {
    c < 0x20 || 0x7F <= c <= 0x9F
  }

  function HexDigit(n: nat): Scalar
    requires n < 16
  {
    if n < 10 then 48 + n else 87 + n
  }

  /** `\xNN`. */
  function HexEscape(b: Byte): seq<Scalar> {
    [BACKSLASH, LETTER_X, HexDigit(b / 16), HexDigit(b % 16)]
  }

  /** One valid character; every control character is below U+0100. */
  function EscapeChar(c: Scalar): seq<Scalar> {
    if c == BACKSLASH then [BACKSLASH, BACKSLASH]
    else if IsControl(c) then HexEscape(c)
    else [c]
  }

  function HexAll(bytes: seq<Byte>): seq<Scalar> {
    if bytes == [] then [] else HexEscape(bytes[0]) + HexAll(bytes[1..])
  }

  /** The escaped form, one unit after the other. */
  function Escaped(path: seq<Byte>): seq<Scalar>
    decreases |path|
  {
    if path == [] then []
    else
      var u := First(path);
      (if u.Char? then EscapeChar(u.scalar) else HexAll(path[..u.size])) + Escaped(path[u.size..])
  }

  /** `from_utf8`: the characters before the first error, their length, and the error's length. */
  function FromUtf8(s: seq<Byte>): (r: (seq<Scalar>, nat, nat))
    ensures r.1 + r.2 <= |s|
    ensures s != [] ==> 0 < r.1 + r.2
    decreases |s|
  {
    if s == [] then ([], 0, 0)
    else
      match First(s)
      case Bad(size) => ([], 0, size)
      case Char(c, size) =>
        var (more, valid, bad) := FromUtf8(s[size..]);
        ([c] + more, size + valid, bad)
  }

  function EscapeChars(cs: seq<Scalar>): seq<Scalar> {
    if cs == [] then [] else EscapeChar(cs[0]) + EscapeChars(cs[1..])
  }

  lemma EscapedUnit(s: seq<Byte>)
    requires s != []
    ensures var u := First(s);
            Escaped(s) == (if u.Char? then EscapeChar(u.scalar) else HexAll(s[..u.size])) + Escaped(s[u.size..])
  {
    hide First, EscapeChar;
  }

  lemma FromUtf8Unit(s: seq<Byte>)
    requires s != []
    ensures var u := First(s);
            var r := FromUtf8(s[u.size..]);
            FromUtf8(s).0 == (if u.Char? then [u.scalar] + r.0 else []) &&
            FromUtf8(s).1 == (if u.Char? then u.size + r.1 else 0) &&
            FromUtf8(s).2 == (if u.Char? then r.2 else u.size)
  {
    hide First;
  }

  lemma EscapeCharsCons(c: Scalar, cs: seq<Scalar>)
    ensures EscapeChars([c] + cs) == EscapeChar(c) + EscapeChars(cs)
  {
    hide EscapeChar;
    assert ([c] + cs)[1..] == cs;
  }

  function Runs(chars: seq<Scalar>, bad: seq<Byte>, rest: seq<Byte>): seq<Scalar> {
    EscapeChars(chars) + HexAll(bad) + Escaped(rest)
  }

  lemma RunsCons(c: Scalar, chars: seq<Scalar>, bad: seq<Byte>, rest: seq<Byte>)
    ensures EscapeChar(c) + Runs(chars, bad, rest) == Runs([c] + chars, bad, rest)
  {
    hide EscapeChar, EscapeChars, HexAll, Escaped;
    EscapeCharsCons(c, chars);
    Glue(EscapeChar(c), EscapeChars(chars), HexAll(bad), Escaped(rest));
  }

  lemma RunsBad(bad: seq<Byte>, rest: seq<Byte>)
    ensures HexAll(bad) + Escaped(rest) == Runs([], bad, rest)
  {
    hide HexAll, Escaped;
    Glue([], [], HexAll(bad), Escaped(rest));
  }

  lemma RunsOfNothing(s: seq<Byte>)
    requires s == []
    ensures FromUtf8(s).1 == 0 && FromUtf8(s).2 == 0
    ensures Escaped(s) == Runs(FromUtf8(s).0, s, s)
  {
    hide EscapeChar;
  }

  lemma RunsChar(s: seq<Byte>)
    requires s != [] && First(s).Char?
    requires var rest := s[First(s).size..];
             var r := FromUtf8(rest);
             Escaped(rest) == Runs(r.0, rest[r.1..r.1 + r.2], rest[r.1 + r.2..])
    ensures var r := FromUtf8(s);
            Escaped(s) == Runs(r.0, s[r.1..r.1 + r.2], s[r.1 + r.2..])
  {
    hide First, Escaped, FromUtf8, EscapeChar, HexAll, Runs;
    var u := First(s);
    var rest := s[u.size..];
    var r := FromUtf8(rest);
    EscapedUnit(s);
    FromUtf8Unit(s);
    assert rest[r.1..r.1 + r.2] == s[u.size + r.1..u.size + r.1 + r.2];
    assert rest[r.1 + r.2..] == s[u.size + r.1 + r.2..];
    RunsCons(u.scalar, r.0, rest[r.1..r.1 + r.2], rest[r.1 + r.2..]);
  }

  /** The valid characters, then the bad bytes, then the rest. */
  lemma {:induction false} EscapedByRuns(s: seq<Byte>)
    ensures var r := FromUtf8(s);
            Escaped(s) == Runs(r.0, s[r.1..r.1 + r.2], s[r.1 + r.2..])
    decreases |s|
  {
    hide First, Escaped, FromUtf8, EscapeChar, HexAll, Runs;
    if s == [] {
      RunsOfNothing(s);
      assert s[0..0] == s && s[0..] == s;
    } else if First(s).Char? {
      EscapedByRuns(s[First(s).size..]);
      RunsChar(s);
    } else {
      var n := First(s).size;
      EscapedUnit(s);
      FromUtf8Unit(s);
      assert s[0..n] == s[..n];
      RunsBad(s[..n], s[n..]);
    }
  }

  lemma Glue(a: seq<Scalar>, b: seq<Scalar>, c: seq<Scalar>, d: seq<Scalar>)
    ensures a + (b + c + d) == a + b + c + d
  {
  }

  lemma {:induction false} EscapeCharsSnoc(cs: seq<Scalar>, c: Scalar)
    ensures EscapeChars(cs + [c]) == EscapeChars(cs) + EscapeChar(c)
  {
    hide EscapeChar;
    if cs == [] {
      assert cs + [c] == [c] && [c][1..] == [];
    } else {
      assert (cs + [c])[1..] == cs[1..] + [c];
      EscapeCharsSnoc(cs[1..], c);
      assert EscapeChar(cs[0]) + (EscapeChars(cs[1..]) + EscapeChar(c)) ==
             EscapeChar(cs[0]) + EscapeChars(cs[1..]) + EscapeChar(c);
    }
  }

  lemma {:induction false} HexAllSnoc(bytes: seq<Byte>, b: Byte)
    ensures HexAll(bytes + [b]) == HexAll(bytes) + HexEscape(b)
  {
    hide HexEscape;
    if bytes == [] {
      assert bytes + [b] == [b] && [b][1..] == [];
    } else {
      assert (bytes + [b])[1..] == bytes[1..] + [b];
      HexAllSnoc(bytes[1..], b);
      assert HexEscape(bytes[0]) + (HexAll(bytes[1..]) + HexEscape(b)) ==
             HexEscape(bytes[0]) + HexAll(bytes[1..]) + HexEscape(b);
    }
  }

  method PushChars(cs: seq<Scalar>) returns (out: seq<Scalar>)
    ensures out == EscapeChars(cs)
  {
    hide EscapeChar;
    out := [];
    for i := 0 to |cs|
      invariant out == EscapeChars(cs[..i])
    {
      EscapeCharsSnoc(cs[..i], cs[i]);
      assert cs[..i + 1] == cs[..i] + [cs[i]];
      out := out + EscapeChar(cs[i]);
    }
    assert cs[..|cs|] == cs;
  }

  method PushBytes(bytes: seq<Byte>) returns (out: seq<Scalar>)
    ensures out == HexAll(bytes)
  {
    hide HexEscape;
    out := [];
    for i := 0 to |bytes|
      invariant out == HexAll(bytes[..i])
    {
      HexAllSnoc(bytes[..i], bytes[i]);
      assert bytes[..i + 1] == bytes[..i] + [bytes[i]];
      out := out + HexEscape(bytes[i]);
    }
    assert bytes[..|bytes|] == bytes;
  }

  /** `escape`: runs of valid text and the bad bytes between them, until nothing is left. */
  method EscapePath(path: seq<Byte>) returns (out: seq<Scalar>)
    ensures out == Escaped(path)
  {
    hide Escaped, FromUtf8, EscapeChars, HexAll;
    out := [];
    var rest := path;
    while rest != []
      invariant out + Escaped(rest) == Escaped(path)
      decreases |rest|
    {
      var (chars, valid, bad) := FromUtf8(rest);
      EscapedByRuns(rest);
      var text := PushChars(chars);
      var hex := PushBytes(rest[valid..valid + bad]);
      Glue(out, text, hex, Escaped(rest[valid + bad..]));
      out := out + text + hex;
      rest := rest[valid + bad..];
    }
    EscapedNothing();
  }

  lemma EscapedNothing()
    ensures Escaped([]) == []
  {
  }

  // ---- decoding ------------------------------------------------------------

  predicate IsHex(c: Scalar) {
    48 <= c <= 57 || 97 <= c <= 102
  }

  function HexValue(c: Scalar): nat
    requires IsHex(c)
    ensures HexValue(c) < 16
  {
    if c <= 57 then c - 48 else c - 87
  }

  /** Reads the escapes back: a doubled backslash is a backslash, `\xNN` a byte, anything else itself. */
  function Decoded(text: seq<Scalar>): seq<Byte>
    decreases |text|
  {
    if text == [] then []
    else if |text| >= 2 && text[0] == BACKSLASH && text[1] == BACKSLASH then [BACKSLASH] + Decoded(text[2..])
    else if |text| >= 4 && text[0] == BACKSLASH && text[1] == LETTER_X && IsHex(text[2]) && IsHex(text[3]) then
      [16 * HexValue(text[2]) + HexValue(text[3])] + Decoded(text[4..])
    else Utf8(text[0]) + Decoded(text[1..])
  }

  lemma DecodedHex(b: Byte, rest: seq<Scalar>)
    ensures Decoded(HexEscape(b) + rest) == [b] + Decoded(rest)
  {
    var text := HexEscape(b) + rest;
    assert text[4..] == rest;
  }

  lemma {:induction false} DecodedHexAll(bytes: seq<Byte>, rest: seq<Scalar>)
    ensures Decoded(HexAll(bytes) + rest) == bytes + Decoded(rest)
    decreases |bytes|
  {
    hide Decoded, HexEscape;
    if bytes == [] {
      assert HexAll(bytes) + rest == rest;
    } else {
      var more := HexAll(bytes[1..]) + rest;
      assert HexAll(bytes) + rest == HexEscape(bytes[0]) + more;
      DecodedHex(bytes[0], more);
      DecodedHexAll(bytes[1..], rest);
      assert [bytes[0]] + (bytes[1..] + Decoded(rest)) == bytes + Decoded(rest);
    }
  }

  /** C1 controls come back as one byte, every other character as itself. */
  function Recovered(c: Scalar): seq<Byte> {
    if 0x80 <= c <= 0x9F then [c] else Utf8(c)
  }

  lemma DecodedChar(c: Scalar, rest: seq<Scalar>)
    ensures Decoded(EscapeChar(c) + rest) == Recovered(c) + Decoded(rest)
  {
    if c == BACKSLASH {
      assert ([BACKSLASH, BACKSLASH] + rest)[2..] == rest;
    } else if IsControl(c) {
      DecodedHex(c, rest);
    } else {
      assert ([c] + rest)[1..] == rest;
    }
  }

  predicate IsC1(u: Unit) {
    u.Char? && 0x80 <= u.scalar <= 0x9F
  }

  /** The path with every encoded C1 control shrunk to its last byte. */
  function Shrunk(path: seq<Byte>): (r: seq<Byte>)
    ensures |r| <= |path|
    decreases |path|
  {
    if path == [] then []
    else
      var u := First(path);
      (if IsC1(u) then [u.scalar] else path[..u.size]) + Shrunk(path[u.size..])
  }

  lemma {:induction false} DecodingShrinks(path: seq<Byte>)
    ensures Decoded(Escaped(path)) == Shrunk(path)
    decreases |path|
  {
    if path != [] {
      hide First, Decoded, EscapeChar, HexAll, Utf8;
      var u := First(path);
      var rest := Escaped(path[u.size..]);
      DecodingShrinks(path[u.size..]);
      if u.Char? {
        DecodedChar(u.scalar, rest);
        CharEncodesBack(path);
      } else {
        DecodedHexAll(path[..u.size], rest);
      }
    }
  }

  /** The two bytes of an encoded C1 control, at `i`. */
  predicate C1At(path: seq<Byte>, i: nat) {
    i + 1 < |path| && path[i] == 0xC2 && path[i + 1] <= 0x9F && 0x80 <= path[i + 1]
  }

  ghost predicate HasC1(path: seq<Byte>) {
    exists i :: 0 <= i < |path| && C1At(path, i)
  }

  /** The byte pair is decoded as a C1 control wherever it stands first. */
  lemma C1IsAPair(path: seq<Byte>)
    requires path != []
    ensures IsC1(First(path)) <==> C1At(path, 0)
    ensures IsC1(First(path)) ==> First(path).size == 2 && |path| >= 2
  {
  }

  /** The pair never straddles two units: it is at the start or in the rest. */
  lemma C1StartsAUnit(path: seq<Byte>)
    requires path != []
    ensures HasC1(path) <==> C1At(path, 0) || HasC1(path[First(path).size..])
  {
    hide First;
    var n := First(path).size;
    var rest := path[n..];
    if HasC1(path) && !C1At(path, 0) {
      var i :| 0 <= i < |path| && C1At(path, i);
      if i < n {
        UnitHasTails(path, i);
      }
      assert n <= i;
      assert C1At(rest, i - n);
    }
    if HasC1(rest) {
      var i :| 0 <= i < |rest| && C1At(rest, i);
      assert C1At(path, n + i);
    }
  }

  lemma ShrunkUnit(path: seq<Byte>)
    requires path != []
    ensures var n := First(path).size;
            (C1At(path, 0) ==> |Shrunk(path)| == |Shrunk(path[n..])| + 1 && n == 2) &&
            (!C1At(path, 0) ==> Shrunk(path) == path[..n] + Shrunk(path[n..]))
  {
    hide First;
    C1IsAPair(path);
  }

  lemma {:induction false} ShrinksExactly(path: seq<Byte>)
    ensures !HasC1(path) ==> Shrunk(path) == path
    ensures HasC1(path) ==> |Shrunk(path)| < |path|
    decreases |path|
  {
    hide First, HasC1, Shrunk, C1At;
    if path == [] {
      NothingHasNoC1();
    } else {
      var n := First(path).size;
      ShrunkUnit(path);
      C1StartsAUnit(path);
      ShrinksExactly(path[n..]);
      assert path[..n] + path[n..] == path;
    }
  }

  lemma NothingHasNoC1()
    ensures !HasC1([])
  {
  }

  /**
   The printed path decodes to the exact bytes if and only if the path holds no
   byte C2 followed by a byte from 80 to 9F.
   */
  lemma DecodesExactly(path: seq<Byte>)
    ensures Decoded(Escaped(path)) == path <==> !HasC1(path)
  {
    hide Decoded, Escaped, Shrunk, HasC1;
    DecodingShrinks(path);
    ShrinksExactly(path);
  }

  /** Distinct paths with no encoded C1 control never print alike. */
  lemma EscapedIsInjective(p: seq<Byte>, q: seq<Byte>)
    requires !HasC1(p) && !HasC1(q) && Escaped(p) == Escaped(q)
    ensures p == q
  {
    hide Decoded, Escaped, HasC1;
    DecodesExactly(p);
    DecodesExactly(q);
  }

  /** No decoder recovers every path: these two print the same. */
  lemma C1Collides()
    ensures Escaped([0xC2, 0x85]) == Escaped([0x85])
  {
    var pair, lone: seq<Byte> := [0xC2, 0x85], [0x85];
    EscapedUnit(pair);
    EscapedUnit(lone);
    EscapedNothing();
    assert pair[2..] == [] && lone[1..] == [] && lone[..1] == lone;
    assert HexAll(lone) == HexEscape(0x85) + HexAll(lone[1..]);
  }

  predicate NoControls(text: seq<Scalar>) {
    forall i :: 0 <= i < |text| ==> !(0 <= text[i] <= 31) && !(127 <= text[i] <= 159)
  }

  lemma {:induction false} HexAllHasNoControls(bytes: seq<Byte>)
    ensures NoControls(HexAll(bytes))
  {
    if bytes != [] {
      HexAllHasNoControls(bytes[1..]);
    }
  }

  lemma EscapeCharHasNoControls(c: Scalar)
    ensures NoControls(EscapeChar(c))
  {
  }

  /** No control character is ever printed, so the path stays on its line. */
  lemma {:induction false} EscapedHasNoControls(path: seq<Byte>)
    ensures NoControls(Escaped(path))
    decreases |path|
  {
    if path == [] {
      EscapedNothing();
    } else {
      hide First, HexAll, Escaped, EscapeChar;
      var u := First(path);
      EscapedHasNoControls(path[u.size..]);
      HexAllHasNoControls(path[..u.size]);
      EscapedUnit(path);
      if u.Char? {
        EscapeCharHasNoControls(u.scalar);
      }
    }
  }

  // ---- what ordinary text prints as ----------------------------------------

  /** Unicode scalar values: no surrogates, nothing above U+10FFFF. */
  predicate IsScalar(c: Scalar) {
    c < 0xD800 || 0xE000 <= c < 0x11_0000
  }

  /** The parts of a number that its encoding is made of. */
  lemma Base64(n: nat)
    ensures n == n / 64 * 64 + n % 64 && n % 64 < 64
  {
  }

  lemma Decodes2(c: Scalar, s: seq<Byte>)
    requires 0x80 <= c < 0x800 && Utf8(c) <= s
    ensures First(s) == Char(c, 2)
  {
    Base64(c);
    assert s[0] == 0xC0 + c / 64 && s[1] == 0x80 + c % 64;
  }

  lemma Decodes3(c: Scalar, s: seq<Byte>)
    requires 0x800 <= c < 0x1_0000 && IsScalar(c) && Utf8(c) <= s
    ensures First(s) == Char(c, 3)
  {
    hide Utf8;
    Utf8Three(c);
    Base64(c);
    Base64(c / 64);
    assert s[0] == 0xE0 + c / 64 / 64 && s[1] == 0x80 + c / 64 % 64 && s[2] == 0x80 + c % 64;
    Second3Of(c);
  }

  lemma Second3Of(c: Scalar)
    requires 0x800 <= c < 0x1_0000 && IsScalar(c)
    ensures 0 <= c / 64 / 64 <= 15 && Second3(0xE0 + c / 64 / 64, 0x80 + c / 64 % 64)
  {
    Base64(c);
    Base64(c / 64);
  }

  lemma Decodes4(c: Scalar, s: seq<Byte>)
    requires 0x1_0000 <= c && IsScalar(c) && Utf8(c) <= s
    ensures First(s) == Char(c, 4)
  {
    hide Utf8;
    Utf8Four(c);
    Base64(c);
    Base64(c / 64);
    Base64(c / 64 / 64);
    assert s[0] == 0xF0 + c / 64 / 64 / 64 && s[1] == 0x80 + c / 64 / 64 % 64;
    assert s[2] == 0x80 + c / 64 % 64 && s[3] == 0x80 + c % 64;
    Second4Of(c);
  }

  lemma Second4Of(c: Scalar)
    requires 0x1_0000 <= c && IsScalar(c)
    ensures 0 <= c / 64 / 64 / 64 <= 4 && Second4(0xF0 + c / 64 / 64 / 64, 0x80 + c / 64 / 64 % 64)
  {
    Base64(c);
    Base64(c / 64);
    Base64(c / 64 / 64);
  }

  /** Every character is decoded wherever its encoding stands first. */
  lemma EncodedIsDecoded(c: Scalar, s: seq<Byte>)
    requires IsScalar(c) && Utf8(c) <= s
    ensures s != [] && First(s) == Char(c, |Utf8(c)|)
  {
    hide First;
    if c < 0x80 {
      Decodes1(c, s);
    } else if c < 0x800 {
      Decodes2(c, s);
    } else if c < 0x1_0000 {
      Decodes3(c, s);
    } else {
      Decodes4(c, s);
    }
  }

  lemma Decodes1(c: Scalar, s: seq<Byte>)
    requires c < 0x80 && Utf8(c) <= s
    ensures First(s) == Char(c, 1)
  {
  }

  /** The validator finds exactly the characters: a byte string starts with one if and only if it is decoded. */
  lemma FirstIsExact(s: seq<Byte>, c: Scalar)
    requires s != [] && IsScalar(c)
    ensures (First(s).Char? && First(s).scalar == c) <==> Utf8(c) <= s
  {
    hide First, Utf8;
    if Utf8(c) <= s {
      EncodedIsDecoded(c, s);
    }
    if First(s).Char? {
      CharEncodesBack(s);
    }
  }

  /** Nothing but a Unicode scalar value is ever decoded. */
  lemma FirstIsScalar(s: seq<Byte>)
    requires s != [] && First(s).Char?
    ensures IsScalar(First(s).scalar)
  {
  }

  function Utf8All(cs: seq<Scalar>): seq<Byte> {
    if cs == [] then [] else Utf8(cs[0]) + Utf8All(cs[1..])
  }

  /** The printed form of one character of valid text. */
  function PrintedChar(c: Scalar): seq<Scalar> {
    if c == 92 then [92, 92]
    else if c <= 31 || 127 <= c <= 159 then [92, 120, LowerHex(c / 16), LowerHex(c % 16)]
    else [c]
  }

  /** The lower-case hexadecimal digits, 48 being `0` and 97 being `a`. */
  function LowerHex(n: nat): Scalar {
    if n <= 9 then 48 + n else 97 + (n - 10)
  }

  function PrintedAll(cs: seq<Scalar>): seq<Scalar> {
    if cs == [] then [] else PrintedChar(cs[0]) + PrintedAll(cs[1..])
  }

  lemma EscapeCharPrints(c: Scalar)
    ensures EscapeChar(c) == PrintedChar(c)
  {
  }

  /**
   Valid text prints character by character: a backslash doubled, a control
   character as `\xNN`, and every other character, a space included, as itself.
   */
  lemma {:induction false} ValidTextPrints(cs: seq<Scalar>)
    requires forall i :: 0 <= i < |cs| ==> IsScalar(cs[i])
    ensures Escaped(Utf8All(cs)) == PrintedAll(cs)
    decreases |cs|
  {
    hide First, Utf8, EscapeChar, PrintedChar, Escaped;
    if cs == [] {
      EscapedNothing();
    } else {
      var s, rest := Utf8All(cs), Utf8All(cs[1..]);
      assert Utf8(cs[0]) <= s && s[|Utf8(cs[0])|..] == rest;
      EncodedIsDecoded(cs[0], s);
      EscapedUnit(s);
      EscapeCharPrints(cs[0]);
      ValidTextPrints(cs[1..]);
    }
  }

  /** A byte that starts no character prints as `\xNN`. */
  lemma BadBytePrints(b: Byte)
    ensures HexEscape(b) == [92, 120, LowerHex(b / 16), LowerHex(b % 16)]
  {
  }
}
