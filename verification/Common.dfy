/** Bytes and the 256-bit hash values that every component exchanges. */
module Common {
  type byte = b: int | 0 <= b < 256

  const UINT256_SIZE := 32

  type Uint256 = h: seq<byte> | |h| == 32 witness seq(32, _ => 0)

  /** `EMPTY_HASH`: the all-zero value, used as "nothing cached". */
  const EMPTY_HASH: Uint256 :=
    [0, 0, 0, 0, 0, 0, 0, 0, 0, 0, 0, 0, 0, 0, 0, 0, 0, 0, 0, 0, 0, 0, 0, 0, 0, 0, 0, 0, 0, 0, 0, 0]

  type Bytes = seq<byte>

  /** How many values a uint32 has. */
  const U32_SIZE: nat := 0x1_0000_0000

  datatype Option<+T> = None | Some(value: T)

  predicate Distinct<T(==)>(s: seq<T>)
  {
    forall i, j :: 0 <= i < j < |s| ==> s[i] != s[j]
  }

  function Reversed<T>(s: seq<T>): (r: seq<T>)
    ensures |r| == |s| && forall i :: 0 <= i < |s| ==> r[i] == s[|s| - 1 - i]
  {
    seq(|s|, i requires 0 <= i < |s| => s[|s| - 1 - i])
  }

  type Pair = (Uint256, Uint256)

  /** Two different inputs of a pair hash with the same result. */
  predicate Collides(f: (Uint256, Uint256) -> Uint256, c: (Pair, Pair))
  {
    c.0 != c.1 && f(c.0.0, c.0.1) == f(c.1.0, c.1.1)
  }

  /** No input in one set collides with one in the other. */
  ghost predicate Apart(f: (Uint256, Uint256) -> Uint256, a: set<Pair>, b: set<Pair>)
  {
    forall p, q :: p in a && q in b ==> !Collides(f, (p, q))
  }

  lemma Assoc<T>(a: seq<T>, b: seq<T>, c: seq<T>)
    ensures a + b + c == a + (b + c)
  {
  }
}
