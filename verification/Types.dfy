/** Fixed-width values of the node software: bytes, machine integers, hashes and addresses. */
module Types {

  type byte = b: int | 0 <= b < 256

  const U32: int := 0x1_0000_0000
  const U64: int := 0x1_0000_0000_0000_0000
  const I63: int := 0x8000_0000_0000_0000

  type uint32 = x: int | 0 <= x < U32
  type uint64 = x: int | 0 <= x < U64
  type int64 = x: int | -I63 <= x < I63

  type Hash = h: seq<byte> | |h| == 32 witness seq(32, _ => 0)
  type Address = a: seq<byte> | |a| == 20 witness seq(20, _ => 0)

  const ZERO_HASH: Hash := [0, 0, 0, 0, 0, 0, 0, 0, 0, 0, 0, 0, 0, 0, 0, 0, 0, 0, 0, 0, 0, 0, 0, 0, 0, 0, 0, 0, 0, 0, 0, 0]
  const ZERO_ADDRESS: Address := [0, 0, 0, 0, 0, 0, 0, 0, 0, 0, 0, 0, 0, 0, 0, 0, 0, 0, 0, 0]

  /** SHA-256 is a parameter everywhere: every result holds for any function of this type. */
  type HashFn = seq<byte> -> Hash

  datatype Option<+T> = None | Some(value: T)

  ghost predicate Distinct<T>(s: seq<T>) {
    forall i, j | 0 <= i < j < |s| :: s[i] != s[j]
  }

  ghost function SetOf<T>(s: seq<T>): set<T> {
    set x | x in s
  }

  /** Unsigned 64-bit wrap-around. */
  function Wrap64(x: int): uint64 {
    x % U64
  }

  /** Signed 64-bit wrap-around. */
  function WrapInt64(x: int): int64 {
    (x + I63) % U64 - I63
  }

  datatype Transaction = Transaction(
    id: Hash, from: Address, to: Address, value: uint64, nonce: uint64, timestamp: int64, signature: seq<byte>)

  lemma {:induction false} SplitEqual<T>(a: seq<T>, b: seq<T>, c: seq<T>, d: seq<T>)
    requires |a| == |c| && a + b == c + d
    ensures a == c && b == d
  {
    assert a == (a + b)[..|a|] && b == (a + b)[|a|..];
    assert c == (c + d)[..|a|] && d == (c + d)[|a|..];
  }

  lemma {:induction false} RemovedIsSmaller<K, V>(m: map<K, V>, k: K)
    requires k in m
    ensures |m - {k}| < |m|
  {
  }

  function Pow2(k: nat): (r: nat)
    ensures r > 0
  {
    if k == 0 then 1 else 2 * Pow2(k - 1)
  }
}
