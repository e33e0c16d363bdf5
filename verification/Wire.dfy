/** The byte format of common/zero_copy_sink.go and common/zero_copy_source.go: little-endian
    integers, the variable-length integer in its shortest form, and lists of fields, each
    with a strict reader that is the inverse of its writer. */
module Wire {
  import opened Common

  const U64_SIZE: nat := 0x1_0000_0000_0000_0000

  datatype Parsed<+T> = Parsed(value: T, rest: Bytes)

  // ---------- little-endian integers ----------

  function Pow256(n: nat): (p: nat)
    ensures p > 0
  {
    if n == 0 then 1 else 256 * Pow256(n - 1)
  }

  /** The low `n` bytes of `v`, least significant first. */
  function LE(v: nat, n: nat): (b: Bytes)
    ensures |b| == n
    decreases n
  {
    if n == 0 then [] else [v % 256] + LE(v / 256, n - 1)
  }

  function FromLE(b: Bytes): nat
  {
    if b == [] then 0 else b[0] + 256 * FromLE(b[1..])
  }

  lemma {:induction false} LERoundTrip(v: nat, n: nat)
    requires v < Pow256(n)
    ensures FromLE(LE(v, n)) == v
    decreases n
  {
    if n > 0 {
      LERoundTrip(v / 256, n - 1);
      assert LE(v, n)[1..] == LE(v / 256, n - 1);
    }
  }

  lemma SplitLow(low: byte, high: nat)
    ensures (low + 256 * high) % 256 == low && (low + 256 * high) / 256 == high
  {
  }

  lemma {:induction false} FromLERoundTrip(b: Bytes)
    ensures FromLE(b) < Pow256(|b|) && LE(FromLE(b), |b|) == b
  {
    if b != [] {
      var low, high: nat := b[0], FromLE(b[1..]);
      FromLERoundTrip(b[1..]);
      SplitLow(low, high);
      assert LE(low + 256 * high, |b|) == [low] + LE(high, |b| - 1);
      assert b == [low] + b[1..];
    }
  }

  lemma Widths()
    ensures Pow256(1) == 0x100 && Pow256(2) == 0x1_0000 && Pow256(4) == 0x1_0000_0000 && Pow256(8) == U64_SIZE
  {
    assert Pow256(3) == 256 * Pow256(2);
    assert Pow256(5) == 256 * Pow256(4);
    assert Pow256(7) == 256 * (256 * Pow256(5));
  }

  // ---------- variable-length integers ----------

  function VarUintSize(v: nat): nat
  {
    if v < 0xFD then 1 else if v <= 0xFFFF then 3 else if v <= 0xFFFF_FFFF then 5 else 9
  }

  function EncodeVarUint(v: nat): (b: Bytes)
    ensures |b| == VarUintSize(v)
  {
    if v < 0xFD then [v]
    else if v <= 0xFFFF then [0xFD] + LE(v, 2)
    else if v <= 0xFFFF_FFFF then [0xFE] + LE(v, 4)
    else [0xFF] + LE(v, 8)
  }

  /** How many bytes follow a first byte. */
  function Width(first: byte): nat
  {
    if first == 0xFD then 2 else if first == 0xFE then 4 else if first == 0xFF then 8 else 0
  }

  /** A variable-length integer in any form, as `NextVarUint` reads it; `None` at the end
      of the data. */
  function ReadVarUint(s: Bytes): Option<Parsed<nat>>
  {
    if s == [] || |s| < 1 + Width(s[0]) then None
    else
      var w := Width(s[0]);
      Some(Parsed(if w == 0 then s[0] else FromLE(s[1..1 + w]), s[1 + w..]))
  }

  /** Only the shortest form is regular. */
  predicate Regular(s: Bytes)
    requires ReadVarUint(s).Some?
  {
    VarUintSize(ReadVarUint(s).value.value) == 1 + Width(s[0])
  }

  function DecodeVarUint(s: Bytes): Option<Parsed<nat>>
  {
    if ReadVarUint(s).Some? && Regular(s) then ReadVarUint(s) else None
  }

  lemma VarUintRoundTrip(v: nat, rest: Bytes)
    requires v < U64_SIZE
    ensures DecodeVarUint(EncodeVarUint(v) + rest) == Some(Parsed(v, rest))
  {
    hide LE, FromLE, Pow256;
    var s := EncodeVarUint(v) + rest;
    var w := VarUintSize(v) - 1;
    Widths();
    if w > 0 {
      assert v < Pow256(w);
      LERoundTrip(v, w);
      assert s[1..1 + w] == LE(v, w);
    }
    assert s[1 + w..] == rest;
  }

  /** Accepted bytes are the encoding of what they are read as. */
  lemma VarUintReencodes(s: Bytes)
    ensures var d := DecodeVarUint(s);
      d.Some? ==> d.value.value < U64_SIZE && s == EncodeVarUint(d.value.value) + d.value.rest
  {
    hide LE, FromLE, Pow256;
    if DecodeVarUint(s).Some? {
      var v, w := DecodeVarUint(s).value.value, Width(s[0]);
      Widths();
      FromLERoundTrip(s[1..1 + w]);
      assert s == [s[0]] + s[1..1 + w] + s[1 + w..];
      assert EncodeVarUint(v) == [s[0]] + s[1..1 + w];
    }
  }

  lemma VarUintExtends(s: Bytes, q: Bytes)
    requires DecodeVarUint(s).Some?
    ensures var d := DecodeVarUint(s).value; DecodeVarUint(s + q) == Some(Parsed(d.value, d.rest + q))
  {
    hide FromLE;
    var w := Width(s[0]);
    assert (s + q)[1..1 + w] == s[1..1 + w];
    assert (s + q)[1 + w..] == s[1 + w..] + q;
  }

  // ---------- fields ----------

  datatype Field = Fixed(size: nat) | VarUint | VarBytes

  datatype Val = Raw(bytes: Bytes) | Num(n: nat)

  predicate Fits(f: Field, v: Val)
  {
    match f
    case Fixed(n) => v.Raw? && |v.bytes| == n
    case VarUint => v.Num? && v.n < U64_SIZE
    case VarBytes => v.Raw? && |v.bytes| < U64_SIZE
  }

  function EncodeField(f: Field, v: Val): Bytes
    requires Fits(f, v)
  {
    match f
    case Fixed(_) => v.bytes
    case VarUint => EncodeVarUint(v.n)
    case VarBytes => EncodeVarUint(|v.bytes|) + v.bytes
  }

  function ReadField(f: Field, s: Bytes): Option<Parsed<Val>>
  {
    match f
    case Fixed(n) => if |s| < n then None else Some(Parsed(Raw(s[..n]), s[n..]))
    case VarUint =>
      var d := DecodeVarUint(s);
      if d.None? then None else Some(Parsed(Num(d.value.value), d.value.rest))
    case VarBytes =>
      var d := DecodeVarUint(s);
      if d.None? || |d.value.rest| < d.value.value then None
      else Some(Parsed(Raw(d.value.rest[..d.value.value]), d.value.rest[d.value.value..]))
  }

  lemma FieldRoundTrip(f: Field, v: Val, rest: Bytes)
    requires Fits(f, v)
    ensures ReadField(f, EncodeField(f, v) + rest) == Some(Parsed(v, rest))
  {
    hide DecodeVarUint, EncodeVarUint;
    match f
    case Fixed(_) =>
    case VarUint => VarUintRoundTrip(v.n, rest);
    case VarBytes =>
      VarUintRoundTrip(|v.bytes|, v.bytes + rest);
      assert EncodeField(f, v) + rest == EncodeVarUint(|v.bytes|) + (v.bytes + rest);
      assert (v.bytes + rest)[..|v.bytes|] == v.bytes && (v.bytes + rest)[|v.bytes|..] == rest;
  }

  lemma FieldReencodes(f: Field, s: Bytes)
    requires ReadField(f, s).Some?
    ensures var d := ReadField(f, s).value; Fits(f, d.value) && s == EncodeField(f, d.value) + d.rest
  {
    hide DecodeVarUint, EncodeVarUint;
    VarUintReencodes(s);
    if f.VarBytes? {
      var d := DecodeVarUint(s).value;
      assert d.rest == d.rest[..d.value] + d.rest[d.value..];
    }
  }

  lemma FieldExtends(f: Field, s: Bytes, q: Bytes)
    requires ReadField(f, s).Some?
    ensures var d := ReadField(f, s).value; ReadField(f, s + q) == Some(Parsed(d.value, d.rest + q))
  {
    hide DecodeVarUint;
    if !f.Fixed? {
      VarUintExtends(s, q);
      var d := DecodeVarUint(s).value;
      if f.VarBytes? {
        assert (d.rest + q)[..d.value] == d.rest[..d.value];
        assert (d.rest + q)[d.value..] == d.rest[d.value..] + q;
      }
    } else {
      assert (s + q)[..f.size] == s[..f.size] && (s + q)[f.size..] == s[f.size..] + q;
    }
  }

  // ---------- lists of fields ----------

  predicate AllFit(fs: seq<Field>, vs: seq<Val>)
  {
    |fs| == |vs| && forall i :: 0 <= i < |fs| ==> Fits(fs[i], vs[i])
  }

  function Encode(fs: seq<Field>, vs: seq<Val>): Bytes
    requires AllFit(fs, vs)
  {
    if fs == [] then []
    else
      var n := |fs| - 1;
      Encode(fs[..n], vs[..n]) + EncodeField(fs[n], vs[n])
  }

  function After(before: Parsed<seq<Val>>, d: Option<Parsed<Val>>): Option<Parsed<seq<Val>>>
  {
    if d.None? then None else Some(Parsed(before.value + [d.value.value], d.value.rest))
  }

  /** Reads the fields in turn, and stops at the first that fails. */
  function Read(fs: seq<Field>, s: Bytes): (r: Option<Parsed<seq<Val>>>)
    ensures r.Some? ==> |r.value.value| == |fs|
  {
    if fs == [] then Some(Parsed([], s))
    else
      var n := |fs| - 1;
      match Read(fs[..n], s)
      case None => None
      case Some(before) => After(before, ReadField(fs[n], before.rest))
  }

  lemma Nothing(s: Bytes)
    ensures Encode([], []) == [] && [] + s == s && Read([], s) == Some(Parsed([], s))
  {
  }

  lemma ReadLast(fs: seq<Field>, f: Field, s: Bytes)
    ensures Read(fs + [f], s) ==
      if Read(fs, s).None? then None else After(Read(fs, s).value, ReadField(f, Read(fs, s).value.rest))
  {
    assert (fs + [f])[..|fs|] == fs;
  }

  lemma EncodeLast(fs: seq<Field>, vs: seq<Val>, f: Field, v: Val)
    requires AllFit(fs, vs) && Fits(f, v)
    ensures Encode(fs + [f], vs + [v]) == Encode(fs, vs) + EncodeField(f, v)
  {
    assert (fs + [f])[..|fs|] == fs && (vs + [v])[..|fs|] == vs;
  }

  lemma {:induction false} RoundTrip(fs: seq<Field>, vs: seq<Val>, rest: Bytes)
    requires AllFit(fs, vs)
    ensures Read(fs, Encode(fs, vs) + rest) == Some(Parsed(vs, rest))
    decreases |fs|
  {
    hide Read, Encode, Fits, ReadField, EncodeField;
    if fs == [] {
      assert vs == [];
      Nothing(rest);
    } else {
      var n := |fs| - 1;
      var init, us, f, v := fs[..n], vs[..n], fs[n], vs[n];
      assert fs == init + [f] && vs == us + [v];
      var tail := EncodeField(f, v) + rest;
      RoundTrip(init, us, tail);
      FieldRoundTrip(f, v, rest);
      EncodeLast(init, us, f, v);
      ReadLast(init, f, Encode(init, us) + tail);
      assert Encode(fs, vs) + rest == Encode(init, us) + tail;
    }
  }

  lemma {:induction false} Reencodes(fs: seq<Field>, s: Bytes)
    requires Read(fs, s).Some?
    ensures var d := Read(fs, s).value; AllFit(fs, d.value) && s == Encode(fs, d.value) + d.rest
    decreases |fs|
  {
    hide Read, Encode, ReadField, EncodeField, Fits;
    if fs == [] {
      Nothing(s);
    } else {
      var n := |fs| - 1;
      var init, f := fs[..n], fs[n];
      assert fs == init + [f];
      ReadLast(init, f, s);
      Reencodes(init, s);
      var b := Read(init, s).value;
      FieldReencodes(f, b.rest);
      var d := ReadField(f, b.rest).value;
      EncodeLast(init, b.value, f, d.value);
      var head, last := Encode(init, b.value), EncodeField(f, d.value);
      assert head + (last + d.rest) == head + last + d.rest;
    }
  }

  /** What is read does not depend on what follows. */
  lemma {:induction false} Extends(fs: seq<Field>, s: Bytes, q: Bytes)
    requires Read(fs, s).Some?
    ensures var d := Read(fs, s).value; Read(fs, s + q) == Some(Parsed(d.value, d.rest + q))
    decreases |fs|
  {
    if fs != [] {
      hide ReadField;
      var n := |fs| - 1;
      Extends(fs[..n], s, q);
      FieldExtends(fs[n], Read(fs[..n], s).value.rest, q);
    }
  }

  /** Two results in a row. */
  function Both(a: Option<Parsed<seq<Val>>>, gs: seq<Field>): Option<Parsed<seq<Val>>>
  {
    if a.None? || Read(gs, a.value.rest).None? then None
    else Some(Parsed(a.value.value + Read(gs, a.value.rest).value.value, Read(gs, a.value.rest).value.rest))
  }

  lemma AfterBoth(a: Parsed<seq<Val>>, b: Parsed<seq<Val>>, d: Option<Parsed<Val>>)
    ensures After(Parsed(a.value + b.value, b.rest), d) ==
      if d.None? then None else Some(Parsed(a.value + After(b, d).value.value, After(b, d).value.rest))
  {
    if d.Some? { assert a.value + b.value + [d.value.value] == a.value + (b.value + [d.value.value]); }
  }

  /** Reading two lists of fields is reading one and then the other. */
  lemma {:induction false} ReadBoth(fs: seq<Field>, gs: seq<Field>, s: Bytes)
    ensures Read(fs + gs, s) == Both(Read(fs, s), gs)
    decreases |gs|
  {
    hide Read, ReadField;
    if gs == [] {
      assert fs + gs == fs;
      if Read(fs, s).Some? {
        Nothing(Read(fs, s).value.rest);
        assert Read(fs, s).value.value + [] == Read(fs, s).value.value;
      }
    } else {
      var n := |gs| - 1;
      var init, g := gs[..n], gs[n];
      assert gs == init + [g] && fs + gs == (fs + init) + [g];
      ReadBoth(fs, init, s);
      ReadLast(fs + init, g, s);
      if Read(fs, s).Some? {
        var a := Read(fs, s).value;
        ReadLast(init, g, a.rest);
        if Read(init, a.rest).Some? {
          AfterBoth(a, Read(init, a.rest).value, ReadField(g, Read(init, a.rest).value.rest));
        }
      }
    }
  }

  // ---------- lists built one by one ----------

  lemma Five<T>(a: T, b: T, c: T, d: T, e: T)
    ensures [] + [a] + [b] + [c] + [d] + [e] == [a, b, c, d, e]
  {
  }

  lemma Nine<T>(a: T, b: T, c: T, d: T, e: T, f: T, g: T, h: T, i: T)
    ensures [] + [a] + [b] + [c] + [d] + [e] + [f] + [g] + [h] + [i] == [a, b, c, d, e, f, g, h, i]
  {
    Five(a, b, c, d, e);
    assert [a, b, c, d, e] + [f] + [g] == [a, b, c, d, e, f, g];
  }

  lemma Six<T>(a: T, b: T, c: T, d: T, e: T, f: T)
    ensures [] + [a] + [b] + [c] + [d] + [e] + [f] == [a, b, c, d, e, f]
  {
    Five(a, b, c, d, e);
  }

  lemma Seven<T>(a: T, b: T, c: T, d: T, e: T, f: T, g: T)
    ensures var s := [a, b, c, d, e, f, g];
      && [] + [a] == s[..1] && [] + [a] + [b] + [c] == s[..3] && [] + [a] + [b] + [c] + [d] == s[..4]
      && [] + [a] + [b] + [c] + [d] + [e] == s[..5] && [] + [a] + [b] + [c] + [d] + [e] + [f] == s[..6]
      && [] + [a] + [b] + [c] + [d] + [e] + [f] + [g] == s == s[..7]
  {
    Five(a, b, c, d, e);
    Six(a, b, c, d, e, f);
    assert [] + [a] + [b] + [c] == [a, b, c];
    assert [a, b, c] + [d] == [a, b, c, d];
    assert [a, b, c, d, e, f] + [g] == [a, b, c, d, e, f, g];
  }
}
