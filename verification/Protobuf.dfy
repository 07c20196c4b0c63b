/**
 The little of the Protocol Buffers encoding the agent's messages need: base-128
 varints and length-delimited fields with one-byte tags.
 */
module Protobuf {
  import opened Machine

  function Varint(n: nat): (r: seq<Byte>)
    ensures r != []
  {
    if n < 128 then [n] else [n % 128 + 128] + Varint(n / 128)
  }

  /** The number at the start of `s` and how many bytes it takes. */
  function ReadVarint(s: seq<Byte>): (r: Option<(nat, nat)>)
    ensures r.Some? ==> 0 < r.value.1 <= |s|
  {
    if s == [] then None
    else if s[0] < 128 then Some((s[0], 1))
    else
      match ReadVarint(s[1..])
      case None => None
      case Some((high, size)) => Some((high * 128 + s[0] - 128, size + 1))
  }

  lemma {:induction false} VarintReadsBack(n: nat, rest: seq<Byte>)
    ensures ReadVarint(Varint(n) + rest) == Some((n, |Varint(n)|))
    decreases n
  {
    var s := Varint(n) + rest;
    if n >= 128 {
      VarintReadsBack(n / 128, rest);
      assert s[1..] == Varint(n / 128) + rest;
    }
  }

  /** A varint takes one byte for every seven bits. */
  lemma VarintLength(n: nat)
    ensures n < 128 ==> |Varint(n)| == 1
    ensures n < 0x4000 ==> |Varint(n)| <= 2
    ensures n < 0x20_0000 ==> |Varint(n)| <= 3
    ensures n < 0x1000_0000 ==> |Varint(n)| <= 4
    ensures n >= 0x4000 ==> |Varint(n)| >= 3
  {
    if n >= 128 {
      var a := n / 128;
      assert |Varint(n)| == 1 + |Varint(a)|;
      if a >= 128 {
        var b := a / 128;
        assert |Varint(a)| == 1 + |Varint(b)|;
        if b >= 128 {
          assert |Varint(b)| == 1 + |Varint(b / 128)|;
        }
      }
    }
  }

  /** A length-delimited field. */
  function LenField(tag: Byte, body: seq<Byte>): seq<Byte> {
    [tag] + Varint(|body|) + body
  }

  /** The body of a message that is one length-delimited field and nothing else. */
  function ReadLenField(tag: Byte, s: seq<Byte>): Option<seq<Byte>> {
    if s == [] || s[0] != tag then None
    else
      match ReadVarint(s[1..])
      case None => None
      case Some((length, size)) => if |s| == 1 + size + length then Some(s[1 + size..]) else None
  }

  lemma LenFieldReadsBack(tag: Byte, body: seq<Byte>)
    ensures ReadLenField(tag, LenField(tag, body)) == Some(body)
  {
    var s := LenField(tag, body);
    assert s[1..] == Varint(|body|) + body;
    VarintReadsBack(|body|, body);
  }
}
