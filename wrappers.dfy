/** Optional values and results with an error, used wherever the Go code
    returns a nil pointer, a `(value, ok)` pair or a `(value, err)` pair,
    and Go's map read. */
module Wrappers {

  datatype Option<+T> = None | Some(value: T) {
    function GetOr(default: T): T {
      match this
      case Some(v) => v
      case None => default
    }
  }

  datatype Result<+T, +E> = Ok(value: T) | Err(error: E)

  lemma AppendAssoc<T>(a: seq<T>, b: seq<T>, c: seq<T>)
    ensures (a + b) + c == a + (b + c)
  {
  }

  /** A Go map read: a missing key gives the zero value. */
  function Lookup<K, V>(m: map<K, V>, k: K, zero: V): V {
    if k in m then m[k] else zero
  }
}

/** Fixed-width integers of Go, as ranges of the unbounded `int`, and the
    explicit truncations Go performs on conversion. */
module Ints {

  const TWO_TO_THE_32: int := 0x1_0000_0000
  const TWO_TO_THE_63: int := 0x8000_0000_0000_0000
  const TWO_TO_THE_64: int := 0x1_0000_0000_0000_0000

  type byte = x: int | 0 <= x < 0x100
  type uint32 = x: int | 0 <= x < 0x1_0000_0000
  type int32 = x: int | -0x8000_0000 <= x < 0x8000_0000
  type int64 = x: int | -0x8000_0000_0000_0000 <= x < 0x8000_0000_0000_0000
  type uint64 = x: int | 0 <= x < 0x1_0000_0000_0000_0000

  type Bytes = seq<byte>

  /** Go's `uint32(x)` for any integer `x`: keeps the low 32 bits (two's
      complement), which is Dafny's Euclidean remainder. */
  function ToUint32(x: int): (r: uint32)
    ensures 0 <= x < TWO_TO_THE_32 ==> r == x
  {
    x % 0x1_0000_0000
  }

  /** `x++` on a Go uint32: the successor, wrapped to 32 bits. */
  function Inc32(x: uint32): (r: uint32)
    ensures r == ToUint32(x + 1)
  {
    if x == TWO_TO_THE_32 - 1 then 0 else x + 1
  }

  /** Truncating a sum is truncating the sum of the truncations. */
  lemma AddUint32(a: nat, b: nat)
    ensures ToUint32(ToUint32(a) + ToUint32(b)) == ToUint32(a + b)
  {
    var m := TWO_TO_THE_32;
    assert a == (a / m) * m + a % m;
    assert b == (b / m) * m + b % m;
    assert a + b == (a / m + b / m) * m + (a % m + b % m);
    ModMultiple(a % m + b % m, a / m + b / m);
  }

  lemma {:induction false} ModMultiple(x: nat, k: nat)
    ensures (k * TWO_TO_THE_32 + x) % TWO_TO_THE_32 == x % TWO_TO_THE_32
  {
    if k > 0 {
      ModMultiple(x, k - 1);
      assert k * TWO_TO_THE_32 + x == ((k - 1) * TWO_TO_THE_32 + x) + TWO_TO_THE_32;
    }
  }

  /** Counting a uint32 up once is truncating the count plus one. */
  lemma Inc32OfCount(k: nat)
    ensures Inc32(ToUint32(k)) == ToUint32(k + 1)
  {
    AddUint32(k, 1);
  }

  /** Truncation never increases a natural number. */
  lemma ToUint32AtMost(k: nat)
    ensures ToUint32(k) <= k
  {
  }
}
