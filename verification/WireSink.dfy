/** `ZeroCopySink` of common/zero_copy_sink.go: a buffer that is resliced while there is
    room and copied to a larger one when there is not. A ghost log of the fields written
    since a mark says what the buffer holds. */
module WireSink {
  import opened Common
  import opened Wire

  /** After `base`, exactly these fields were written. */
  ghost predicate Holds(contents: Bytes, base: Bytes, fields: seq<Field>, vals: seq<Val>)
  {
    AllFit(fields, vals) && contents == base + Encode(fields, vals)
  }

  lemma HoldsNext(contents: Bytes, base: Bytes, fields: seq<Field>, vals: seq<Val>, f: Field, v: Val)
    requires Holds(contents, base, fields, vals) && Fits(f, v)
    ensures Holds(contents + EncodeField(f, v), base, fields + [f], vals + [v])
  {
    hide Fits, EncodeField, Encode;
    EncodeLast(fields, vals, f, v);
    Assoc(base, Encode(fields, vals), EncodeField(f, v));
  }

  class ZeroCopySink {
    var buf: array<byte>
    var len: nat
    ghost var base: Bytes
    ghost var fields: seq<Field>
    ghost var vals: seq<Val>

    ghost predicate Valid()
      reads this, buf
    {
      len <= buf.Length && Holds(buf[..len], base, fields, vals)
    }

    ghost function Contents(): Bytes
      reads this, buf
      requires len <= buf.Length
    {
      buf[..len]
    }

    constructor (capacity: nat)
      ensures Valid() && Contents() == [] && fresh(buf) && fields == [] && vals == [] && base == []
    {
      buf, len := new byte[capacity](_ => 0), 0;
      base, fields, vals := [], [], [];
    }

    /** Starts a new log here. */
    ghost method Mark()
      requires Valid()
      modifies `base, `fields, `vals
      ensures Valid() && base == Contents() && fields == [] && vals == []
    {
      base, fields, vals := Contents(), [], [];
    }

    method TryGrowByReslice(n: nat) returns (at: nat, ok: bool)
      requires len <= buf.Length
      modifies `len
      ensures ok == (n <= buf.Length - old(len))
      ensures if ok then at == old(len) && len == old(len) + n else len == old(len)
    {
      if n <= buf.Length - len {
        at, len, ok := len, len + n, true;
      } else {
        at, ok := 0, false;
      }
    }

    /** Makes room by doubling; what was written moves along. */
    method Grow(n: nat) returns (at: nat)
      requires len <= buf.Length
      modifies `buf, `len
      ensures at == old(len) && len == at + n <= buf.Length && buf[..at] == old(Contents())
      ensures buf == old(buf) || fresh(buf)
    {
      var ok;
      at, ok := TryGrowByReslice(n);
      if ok {
        return;
      }
      var l := len;
      var larger := new byte[2 * buf.Length + n](_ => 0);
      forall i | 0 <= i < l {
        larger[i] := buf[i];
      }
      assert larger[..l] == buf[..l];
      buf, len := larger, l + n;
      at := l;
    }

    /** Room for `n` bytes, in which anything may stand. */
    method NextBytes(n: nat) returns (at: nat)
      requires len <= buf.Length
      modifies `buf, `len
      ensures at == old(len) && len == at + n <= buf.Length && buf[..at] == old(Contents())
      ensures buf == old(buf) || fresh(buf)
    {
      var ok;
      at, ok := TryGrowByReslice(n);
      if !ok {
        at := Grow(n);
      }
    }

    method BackUp(n: nat)
      requires n <= len <= buf.Length
      modifies `len
      ensures len == old(len) - n
    {
      len := len - n;
    }

    /** Copies `p` into the room at `at`. */
    method Put(at: nat, p: Bytes)
      requires at + |p| <= len <= buf.Length
      modifies buf
      ensures buf[..at] == old(buf[..at]) && buf[at..at + |p|] == p
      ensures buf[..at + |p|] == old(buf[..at]) + p
    {
      forall i | 0 <= i < |p| {
        buf[at + i] := p[i];
      }
    }

    /** A first byte and what follows it. */
    method PutTagged(at: nat, tag: byte, p: Bytes)
      requires at + 1 + |p| <= len <= buf.Length
      modifies buf
      ensures buf[..at + 1 + |p|] == old(buf[..at]) + ([tag] + p)
    {
      buf[at] := tag;
      Put(at + 1, p);
      assert buf[..at + 1][..at] == old(buf[..at]);
      assert buf[..at + 1 + |p|] == buf[..at + 1] + buf[at + 1..at + 1 + |p|];
    }

    method WriteBytes(p: Bytes)
      requires Valid()
      modifies this, buf
      ensures Valid() && base == old(base) && (buf == old(buf) || fresh(buf))
      ensures fields == old(fields) + [Fixed(|p|)] && vals == old(vals) + [Raw(p)]
    {
      hide Holds;
      HoldsNext(Contents(), base, fields, vals, Fixed(|p|), Raw(p));
      var at := NextBytes(|p|);
      Put(at, p);
      fields, vals := fields + [Fixed(|p|)], vals + [Raw(p)];
    }

    method WriteByte(b: byte)
      requires Valid()
      modifies this, buf
      ensures Valid() && base == old(base) && (buf == old(buf) || fresh(buf))
      ensures fields == old(fields) + [Fixed(1)] && vals == old(vals) + [Raw([b])]
    {
      hide Holds;
      HoldsNext(Contents(), base, fields, vals, Fixed(1), Raw([b]));
      var at := NextBytes(1);
      PutTagged(at, b, []);
      assert [b] + [] == [b];
      fields, vals := fields + [Fixed(1)], vals + [Raw([b])];
    }

    /** `WriteUint16`, `WriteUint32` and `WriteUint64`. */
    method WriteUint(v: nat, n: nat)
      requires Valid() && v < Pow256(n)
      modifies this, buf
      ensures Valid() && base == old(base) && (buf == old(buf) || fresh(buf))
      ensures fields == old(fields) + [Fixed(n)] && vals == old(vals) + [Raw(LE(v, n))]
    {
      hide Holds, LE;
      HoldsNext(Contents(), base, fields, vals, Fixed(n), Raw(LE(v, n)));
      var at := NextBytes(n);
      Put(at, LE(v, n));
      fields, vals := fields + [Fixed(n)], vals + [Raw(LE(v, n))];
    }

    /** Takes room for the longest form, and gives back what the shortest does not use. */
    method PutVarUint(v: nat) returns (size: nat)
      requires len <= buf.Length && v < U64_SIZE
      modifies `buf, `len, buf
      ensures len <= buf.Length && Contents() == old(Contents()) + EncodeVarUint(v) && size == VarUintSize(v)
      ensures buf == old(buf) || fresh(buf)
    {
      hide LE;
      var at := NextBytes(9);
      if v < 0xFD {
        PutTagged(at, v, []);
        size := 1;
      } else if v <= 0xFFFF {
        PutTagged(at, 0xFD, LE(v, 2));
        size := 3;
      } else if v <= 0xFFFF_FFFF {
        PutTagged(at, 0xFE, LE(v, 4));
        size := 5;
      } else {
        PutTagged(at, 0xFF, LE(v, 8));
        size := 9;
      }
      BackUp(9 - size);
    }

    method WriteVarUint(v: nat) returns (size: nat)
      requires Valid() && v < U64_SIZE
      modifies this, buf
      ensures Valid() && base == old(base) && (buf == old(buf) || fresh(buf))
      ensures fields == old(fields) + [VarUint] && vals == old(vals) + [Num(v)] && size == VarUintSize(v)
    {
      hide Holds, EncodeVarUint;
      HoldsNext(Contents(), base, fields, vals, VarUint, Num(v));
      size := PutVarUint(v);
      fields, vals := fields + [VarUint], vals + [Num(v)];
    }

    method WriteVarBytes(p: Bytes) returns (size: nat)
      requires Valid() && |p| < U64_SIZE
      modifies this, buf
      ensures Valid() && base == old(base) && (buf == old(buf) || fresh(buf))
      ensures fields == old(fields) + [VarBytes] && vals == old(vals) + [Raw(p)]
      ensures size == |EncodeField(VarBytes, Raw(p))|
    {
      hide Holds, EncodeVarUint;
      HoldsNext(Contents(), base, fields, vals, VarBytes, Raw(p));
      Assoc(Contents(), EncodeVarUint(|p|), p);
      size := PutVarUint(|p|);
      size := size + |p|;
      var at := NextBytes(|p|);
      Put(at, p);
      fields, vals := fields + [VarBytes], vals + [Raw(p)];
    }
  }
}
