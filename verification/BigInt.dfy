/** The integers of the virtual machine, common/bigint.go: an integer and its shortest
    little-endian two's complement form. The magnitude of an integer in big-endian bytes
    is what the big-integer library gives and takes. */
module BigInt {
  import opened Common
  import opened Wire

  // ---------- the meaning of bytes ----------

  /** Two's complement, little-endian. */
  function Value(b: Bytes): int
  {
    if b == [] then 0
    else if b[|b| - 1] >= 128 then FromLE(b) - Pow256(|b|)
    else FromLE(b)
  }

  lemma ReversedTwice(b: Bytes)
    ensures Reversed(Reversed(b)) == b
  {
  }

  /** The magnitude in as few bytes as possible, least significant first. */
  function Magnitude(n: nat): (b: Bytes)
    ensures n == 0 <==> b == []
  {
    if n == 0 then [] else [n % 256] + Magnitude(n / 256)
  }

  /** `big.Int.Bytes` and `big.Int.SetBytes`. */
  function BigEndian(n: nat): Bytes
  {
    Reversed(Magnitude(n))
  }

  function FromBigEndian(b: Bytes): nat
  {
    FromLE(Reversed(b))
  }

  function Complement(b: Bytes): (c: Bytes)
    ensures |c| == |b| && forall i :: 0 <= i < |b| ==> c[i] == 255 - b[i]
  {
    seq(|b|, i requires 0 <= i < |b| => 255 - b[i])
  }

  /** Adds one, with carry. */
  function Increment(b: Bytes): (c: Bytes)
    ensures |c| == |b|
  {
    if b == [] then []
    else if b[0] == 255 then [0] + Increment(b[1..])
    else [b[0] + 1] + b[1..]
  }

  // ---------- arithmetic ----------

  lemma Regroup(x: nat, p: nat, lo: nat, c: nat)
    ensures c + 256 * (lo + x * p) == (c + 256 * lo) + x * (256 * p)
  {
  }

  /** The last byte is the most significant. */
  lemma {:induction false} LastByte(b: Bytes, x: byte)
    ensures FromLE(b + [x]) == FromLE(b) + x * Pow256(|b|)
  {
    if b == [] {
      assert [] + [x] == [x];
      assert FromLE([x]) == x + 256 * FromLE([x][1..]);
    } else {
      LastByte(b[1..], x);
      assert (b + [x])[1..] == b[1..] + [x];
      Regroup(x, Pow256(|b| - 1), FromLE(b[1..]), b[0]);
    }
  }

  lemma TopDigit(lo: nat, x: byte, p: nat)
    requires lo < p
    ensures x >= 128 <==> 2 * (lo + x * p) >= 256 * p
  {
    if x >= 128 {
      assert x * p >= 128 * p;
    } else {
      assert x * p <= 127 * p;
    }
  }

  /** The top bit says whether the value is in the upper half. */
  lemma TopBit(b: Bytes)
    requires b != []
    ensures b[|b| - 1] >= 128 <==> 2 * FromLE(b) >= Pow256(|b|)
  {
    var n := |b| - 1;
    var init, x, p := b[..n], b[n], Pow256(n);
    assert b == init + [x];
    LastByte(init, x);
    FromLERoundTrip(init);
    TopDigit(FromLE(init), x, p);
  }

  lemma {:induction false} MagnitudeValue(n: nat)
    ensures FromLE(Magnitude(n)) == n
    ensures n > 0 ==> n >= Pow256(|Magnitude(n)| - 1)
  {
    if n > 0 {
      MagnitudeValue(n / 256);
      assert Magnitude(n)[1..] == Magnitude(n / 256);
    }
  }

  lemma {:induction false} ComplementValue(b: Bytes)
    ensures FromLE(Complement(b)) == Pow256(|b|) - 1 - FromLE(b)
  {
    if b != [] {
      ComplementValue(b[1..]);
      assert Complement(b)[1..] == Complement(b[1..]);
    }
  }

  lemma {:induction false} IncrementValue(b: Bytes)
    requires FromLE(b) + 1 < Pow256(|b|)
    ensures FromLE(Increment(b)) == FromLE(b) + 1
  {
    if b != [] {
      assert Increment(b)[1..] == if b[0] == 255 then Increment(b[1..]) else b[1..];
      if b[0] == 255 { IncrementValue(b[1..]); }
    }
  }

  // ---------- round trip ----------

  /** `BigIntToNeoBytes` as a function. */
  function ToNeo(v: int): Bytes
  {
    if v == 0 then []
    else if v < 0 then
      var b := Increment(Complement(Magnitude(-v)));
      if b != [] && b[|b| - 1] < 128 then b + [255] else b
    else
      var b := Magnitude(v);
      if b[|b| - 1] >= 128 then b + [0] else b
  }

  /** The negated magnitude, modulo its length. */
  lemma Negated(n: nat)
    requires n > 0
    ensures var m := Magnitude(n); var b := Increment(Complement(m));
      |b| == |m| > 0 && FromLE(b) == Pow256(|m|) - n
  {
    var m := Magnitude(n);
    MagnitudeValue(n);
    FromLERoundTrip(m);
    ComplementValue(m);
    IncrementValue(Complement(m));
  }

  lemma AppendValue(b: Bytes, x: byte)
    requires b != [] && (x == 0 || x == 255)
    ensures Value(b + [x]) == if x == 0 then FromLE(b) else FromLE(b) - Pow256(|b|)
  {
    hide FromLE;
    LastByte(b, x);
    var c, p := b + [x], Pow256(|b|);
    assert |c| == |b| + 1 && c[|b|] == x && Pow256(|c|) == 256 * p;
    assert x == 255 ==> x * p == 255 * p;
  }

  /** The bytes of an integer mean that integer. */
  lemma NeoValue(v: int)
    ensures Value(ToNeo(v)) == v
  {
    hide Pow256, FromLE, Magnitude, Increment, Complement;
    if v < 0 {
      Negated(-v);
      AppendValue(Increment(Complement(Magnitude(-v))), 255);
    } else if v > 0 {
      MagnitudeValue(v);
      AppendValue(Magnitude(v), 0);
    }
  }

  lemma {:induction false} PowGrows(m: nat, n: nat)
    requires m <= n
    ensures Pow256(m) <= Pow256(n)
    decreases n
  {
    if m < n { PowGrows(m, n - 1); }
  }

  /** What `n` bytes can hold. */
  lemma ValueRange(b: Bytes)
    ensures b != [] ==> 0 - Pow256(|b|) <= 2 * Value(b) < Pow256(|b|)
    ensures b == [] ==> Value(b) == 0
  {
    FromLERoundTrip(b);
    if b != [] { TopBit(b); }
  }

  /** `v` does not fit into one byte less. */
  lemma NeoNeeds(v: int)
    requires v != 0
    ensures var n := |ToNeo(v)|;
      n > 0 && (n > 1 ==> 2 * v >= Pow256(n - 1) || 2 * v < 0 - Pow256(n - 1))
  {
    hide FromLE, Magnitude, Increment, Complement;
    if v < 0 {
      var m := Magnitude(-v);
      var b := Increment(Complement(m));
      MagnitudeValue(-v);
      Negated(-v);
      TopBit(b);
    } else {
      MagnitudeValue(v);
      TopBit(Magnitude(v));
    }
  }

  lemma NeoZero()
    ensures ToNeo(0) == []
  {
  }

  /** No shorter bytes mean that integer. */
  lemma NeoShortest(v: int, b: Bytes)
    requires Value(b) == v
    ensures |ToNeo(v)| <= |b|
  {
    hide FromLE, Magnitude, Increment, Complement, ToNeo, Pow256;
    if v == 0 {
      assert ToNeo(0) == [] by { NeoZero(); }
    } else {
      NeoNeeds(v);
      ValueRange(b);
      var n := |ToNeo(v)|;
      if |b| < n { PowGrows(|b|, n - 1); }
    }
  }

  // ---------- as the source runs it ----------

  method BytesReverse(a: array<byte>)
    modifies a
    ensures a[..] == Reversed(old(a[..]))
  {
    var n, i, j := a.Length, 0, a.Length - 1;
    while i < j
      invariant 0 <= i <= n && i + j == n - 1
      invariant forall k :: 0 <= k < i ==> a[k] == old(a[n - 1 - k])
      invariant forall k :: j < k < n ==> a[k] == old(a[n - 1 - k])
      invariant forall k :: i <= k <= j ==> a[k] == old(a[k])
      decreases j - i
    {
      a[i], a[j] := a[j], a[i];
      i, j := i + 1, j - 1;
    }
  }

  method ComplementInPlace(a: array<byte>)
    modifies a
    ensures a[..] == Complement(old(a[..]))
  {
    for i := 0 to a.Length
      invariant forall k :: 0 <= k < i ==> a[k] == 255 - old(a[k])
      invariant forall k :: i <= k < a.Length ==> a[k] == old(a[k])
    {
      a[i] := 255 - a[i];
    }
  }

  /** Below `i` all bytes are 255. */
  lemma {:induction false} IncrementAt(b: Bytes, i: nat, k: nat)
    requires i <= |b| && k < |b| && forall j :: 0 <= j < i ==> b[j] == 255
    requires i < |b| ==> b[i] != 255
    ensures Increment(b)[k] == if k < i then 0 else if k == i then b[i] + 1 else b[k]
    decreases |b|
  {
    if i > 0 && k > 0 { IncrementAt(b[1..], i - 1, k - 1); }
  }

  /** Adds one: turns leading 255s to 0, and stops at the first byte that is not. */
  method IncrementInPlace(a: array<byte>)
    modifies a
    ensures a[..] == Increment(old(a[..]))
  {
    hide Increment;
    ghost var was := a[..];
    var i := 0;
    while i < a.Length && a[i] == 255
      invariant 0 <= i <= a.Length
      invariant forall k :: 0 <= k < i ==> a[k] == 0 && was[k] == 255
      invariant forall k :: i <= k < a.Length ==> a[k] == was[k]
    {
      a[i] := 0;
      i := i + 1;
    }
    if i < a.Length {
      a[i] := a[i] + 1;
    }
    forall k | 0 <= k < a.Length ensures a[k] == Increment(was)[k] {
      IncrementAt(was, i, k);
    }
  }

  method Copied(b: Bytes) returns (a: array<byte>)
    ensures fresh(a) && a[..] == b
  {
    a := new byte[|b|](i requires 0 <= i < |b| => b[i]);
  }

  /** `BigIntToNeoBytes`: what it gives means `v`, in as few bytes as possible. */
  method BigIntToNeoBytes(v: int) returns (r: Bytes)
    ensures r == ToNeo(v) && Value(r) == v
  {
    hide Increment, Complement, Magnitude, FromLE, Pow256, Value, Reversed;
    NeoValue(v);
    var n := if v < 0 then -v else v;
    var bytes := BigEndian(n);
    ReversedTwice(Magnitude(n));
    if |bytes| == 0 {
      return [];
    }
    var bs := Copied(bytes);
    BytesReverse(bs);
    assert bs[..] == Magnitude(n);
    if v < 0 {
      ComplementInPlace(bs);
      IncrementInPlace(bs);
      r := bs[..];
      if r[|r| - 1] < 128 {
        r := r + [255];
      }
    } else {
      r := bs[..];
      if r[|r| - 1] >= 128 {
        r := r + [0];
      }
    }
  }

  lemma ReversedComplement(b: Bytes)
    ensures Reversed(Complement(Reversed(b))) == Complement(b)
  {
  }

  /** `BigIntFromNeoBytes`: the meaning of any bytes. */
  method BigIntFromNeoBytes(ba: Bytes) returns (v: int)
    ensures v == Value(ba)
  {
    hide FromLE, Pow256, Reversed, Complement;
    if |ba| == 0 {
      return 0;
    }
    var bytes := Copied(ba);
    BytesReverse(bytes);
    ReversedTwice(ba);
    ReversedComplement(ba);
    if bytes[0] >= 128 {
      ComplementInPlace(bytes);
      ComplementValue(ba);
      var magnitude := FromBigEndian(bytes[..]) + 1;
      return -magnitude;
    }
    v := FromBigEndian(bytes[..]);
  }
}
