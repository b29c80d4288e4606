/** Machine-level value types and the few sequence facts shared by every component. */
module Bytes {
  type Byte = x: int | 0 <= x < 0x100
  type U16 = x: int | 0 <= x < 0x1_0000
  type U32 = x: int | 0 <= x < 0x1_0000_0000

  /** Largest value of an unsigned 32-bit counter; incrementing it wraps to zero. */
  const U32_MAX: U32 := 0xFFFF_FFFF

  datatype Option<+T> = None | Some(value: T)

  /** Unsigned 32-bit conversion of an unbounded size or index: multiples of 2^32 are lost. */
  function ToU32(x: nat): (r: U32)
    ensures x <= U32_MAX ==> r == x
  {
    if x <= U32_MAX then x else ToU32(x - 0x1_0000_0000)
  }

  lemma {:induction false} ToU32IsRemainder(x: nat)
    ensures ToU32(x) == x % 0x1_0000_0000
  {
    if x > U32_MAX {
      ToU32IsRemainder(x - 0x1_0000_0000);
      assert x % 0x1_0000_0000 == (x - 0x1_0000_0000) % 0x1_0000_0000;
    }
  }

  /** All but the first `k` elements. */
  function After<T>(s: seq<T>, k: nat): (r: seq<T>)
    requires k <= |s|
    ensures |r| == |s| - k
  {
    if k == 0 then s else s[k..]
  }

  function Flatten<T>(xs: seq<seq<T>>): (r: seq<T>) {
    if xs == [] then [] else xs[0] + Flatten(xs[1..])
  }

  lemma Reassociate<T>(a: seq<T>, b: seq<T>, c: seq<T>)
    ensures a + (b + c) == (a + b) + c
  {
  }

  lemma {:induction false} FlattenConcat<T>(xs: seq<seq<T>>, ys: seq<seq<T>>)
    ensures Flatten(xs + ys) == Flatten(xs) + Flatten(ys)
  {
    if xs == [] {
      assert xs + ys == ys;
    } else {
      assert (xs + ys)[1..] == xs[1..] + ys;
      var a, b, c := xs[0], Flatten(xs[1..]), Flatten(ys);
      assert Flatten(xs + ys) == a + (b + c) by { FlattenConcat(xs[1..], ys); }
      assert a + (b + c) == (a + b) + c;
    }
  }

  lemma FlattenOne<T>(x: seq<T>)
    ensures Flatten([x]) == x
  {
    assert [x][1..] == [];
  }
}
