/**
 Machine-level vocabulary shared by every module: bytes, 64-bit counters with
 saturating addition, and the usual Option type.
 */
module Machine {

  type Byte = b: int | 0 <= b < 256

  const U64_MAX: nat := 0xFFFF_FFFF_FFFF_FFFF

  type U64 = n: int | 0 <= n <= 0xFFFF_FFFF_FFFF_FFFF

  datatype Option<+T> = None | Some(value: T)

  function Min(a: int, b: int): (r: int)
    ensures r <= a && r <= b && (r == a || r == b)
  {
    if a <= b then a else b
  }

  /** Clamps an exact sum to what a 64-bit counter can hold. */
  function Saturate(n: nat): (r: U64)
    ensures r <= n
    ensures r < U64_MAX ==> r == n
  {
    if n <= U64_MAX then n else U64_MAX
  }

  /** `u64::saturating_add`. */
  function SaturatingAdd(a: U64, b: U64): (r: U64)
    ensures r == Saturate(a + b)
  {
    if a + b <= U64_MAX then a + b else U64_MAX
  }

  function Concat<T>(parts: seq<seq<T>>): (r: seq<T>)
  {
    if parts == [] then [] else parts[0] + Concat(parts[1..])
  }

  lemma {:induction false} ConcatAppend<T>(xs: seq<seq<T>>, ys: seq<seq<T>>)
    ensures Concat(xs + ys) == Concat(xs) + Concat(ys)
  {
    hide Concat;
    if xs == [] {
      assert xs + ys == ys;
      ConcatNothing<T>();
    } else {
      ConcatAppend(xs[1..], ys);
      ConcatCons(xs + ys);
      ConcatCons(xs);
      assert (xs + ys)[1..] == xs[1..] + ys;
      assert xs[0] + (Concat(xs[1..]) + Concat(ys)) == xs[0] + Concat(xs[1..]) + Concat(ys);
    }
  }

  lemma ConcatNothing<T>()
    ensures Concat<T>([]) == []
  {
  }

  lemma ConcatCons<T>(parts: seq<seq<T>>)
    requires parts != []
    ensures Concat(parts) == parts[0] + Concat(parts[1..])
  {
  }

  lemma ConcatOne<T>(part: seq<T>)
    ensures Concat([part]) == part
  {
    var none: seq<seq<T>> := [];
    assert [part][1..] == none;
  }

  lemma ConcatSnoc<T>(parts: seq<seq<T>>, last: seq<T>)
    ensures Concat(parts + [last]) == Concat(parts) + last
  {
    ConcatAppend(parts, [last]);
    ConcatOne(last);
  }

  function Digit(n: nat): char
    requires n < 10
  {
    "0123456789"[n]
  }

  /** A number in decimal, as `to_string` writes it. */
  function Decimal(n: nat): (r: string)
    ensures r != []
  {
    if n < 10 then [Digit(n)] else Decimal(n / 10) + [Digit(n % 10)]
  }
}
