/** Counted lists of byte strings, as core/types/header.go and core/types/cross_state.go
    read and write them. The count is a uint64 that the loops convert to a signed int: a
    count of 2^63 or more is negative there, and no item is read. */
module WireList {
  import opened Common
  import opened Wire
  import opened WireSource
  import opened WireSink

  const INT_LIMIT: nat := U64_SIZE / 2

  function Repeat(n: nat): (fs: seq<Field>)
    ensures |fs| == n && forall i :: 0 <= i < n ==> fs[i] == VarBytes
  {
    seq(n, _ => VarBytes)
  }

  function Vals(items: seq<Bytes>): (vs: seq<Val>)
    ensures |vs| == |items| && forall i :: 0 <= i < |items| ==> vs[i] == Raw(items[i])
  {
    seq(|items|, i requires 0 <= i < |items| => Raw(items[i]))
  }

  function Items(vs: seq<Val>): (items: seq<Bytes>)
    ensures |items| == |vs| && forall i :: 0 <= i < |vs| && vs[i].Raw? ==> items[i] == vs[i].bytes
  {
    seq(|vs|, i requires 0 <= i < |vs| => if vs[i].Raw? then vs[i].bytes else [])
  }

  predicate ListFits(items: seq<Bytes>)
  {
    |items| < INT_LIMIT && AllFit(Repeat(|items|), Vals(items))
  }

  function EncodeList(items: seq<Bytes>): Bytes
    requires ListFits(items)
  {
    EncodeVarUint(|items|) + Encode(Repeat(|items|), Vals(items))
  }

  /** How often the loop runs for a count. */
  function Rounds(count: nat): nat
  {
    if count < INT_LIMIT then count else 0
  }

  function ReadList(s: Bytes): Option<Parsed<seq<Bytes>>>
  {
    match DecodeVarUint(s)
    case None => None
    case Some(c) =>
      match Read(Repeat(Rounds(c.value)), c.rest)
      case None => None
      case Some(d) => Some(Parsed(Items(d.value), d.rest))
  }

  /** The data begins with a count that the loop takes for negative. */
  predicate HugeCount(s: Bytes)
  {
    DecodeVarUint(s).Some? && DecodeVarUint(s).value.value >= INT_LIMIT
  }

  lemma ItemsOfVals(items: seq<Bytes>)
    ensures Items(Vals(items)) == items
  {
  }

  lemma ListRoundTrip(items: seq<Bytes>, rest: Bytes)
    requires ListFits(items)
    ensures ReadList(EncodeList(items) + rest) == Some(Parsed(items, rest))
    ensures !HugeCount(EncodeList(items) + rest)
  {
    hide DecodeVarUint, EncodeVarUint, Read, Encode;
    var body := Encode(Repeat(|items|), Vals(items));
    assert EncodeList(items) + rest == EncodeVarUint(|items|) + (body + rest);
    VarUintRoundTrip(|items|, body + rest);
    RoundTrip(Repeat(|items|), Vals(items), rest);
    ItemsOfVals(items);
  }

  lemma ListExtends(s: Bytes, q: Bytes)
    requires ReadList(s).Some?
    ensures var d := ReadList(s).value; ReadList(s + q) == Some(Parsed(d.value, d.rest + q))
    ensures HugeCount(s + q) == HugeCount(s)
  {
    hide DecodeVarUint, Read;
    VarUintExtends(s, q);
    var c := DecodeVarUint(s).value;
    Extends(Repeat(Rounds(c.value)), c.rest, q);
  }

  /** What is read has the right size. */
  lemma {:induction false} ReadFits(n: nat, s: Bytes)
    requires Read(Repeat(n), s).Some?
    ensures var d := Read(Repeat(n), s).value; d.value == Vals(Items(d.value)) && AllFit(Repeat(n), d.value)
    ensures var d := Read(Repeat(n), s).value; s == Encode(Repeat(n), d.value) + d.rest
  {
    hide Read, Encode;
    Reencodes(Repeat(n), s);
  }

  /** Accepted bytes are the encoding of the list, unless the count is huge. */
  lemma ListReencodes(s: Bytes)
    requires ReadList(s).Some?
    ensures var d := ReadList(s).value;
      ListFits(d.value) && (s == EncodeList(d.value) + d.rest <==> !HugeCount(s))
  {
    hide DecodeVarUint, EncodeVarUint, Read, Encode;
    var c, d := DecodeVarUint(s).value, ReadList(s).value;
    VarUintReencodes(s);
    ReadFits(Rounds(c.value), c.rest);
    if HugeCount(s) {
      assert d.value == [];
      ListRoundTrip(d.value, d.rest);
    } else {
      var head, body := EncodeVarUint(c.value), Encode(Repeat(c.value), Vals(d.value));
      Assoc(head, body, d.rest);
    }
  }

  lemma EmptyList()
    ensures Encode(Repeat(0), Vals([])) == []
  {
  }

  /** A count of 2^63 alone is read as an empty list, which is written as one byte. */
  lemma NegativeCount()
    ensures var s := EncodeVarUint(0x8000_0000_0000_0000);
      HugeCount(s) && ReadList(s) == Some(Parsed([], [])) && |s| == 9 && EncodeList([]) == [0]
  {
    hide Read, LE, DecodeVarUint;
    var s := EncodeVarUint(0x8000_0000_0000_0000);
    VarUintRoundTrip(0x8000_0000_0000_0000, []);
    assert s + [] == s;
    Nothing([]);
    assert Repeat(0) == [];
    EmptyList();
  }

  lemma ReadOne(s: Bytes, f: Field)
    ensures Read([f], s) == if ReadField(f, s).None? then None
                            else Some(Parsed([ReadField(f, s).value.value], ReadField(f, s).value.rest))
  {
    hide ReadField;
    Nothing(s);
    ReadLast([], f, s);
    assert [] + [f] == [f];
    if ReadField(f, s).Some? { assert [] + [ReadField(f, s).value.value] == [ReadField(f, s).value.value]; }
  }

  /** A list that cannot be read cannot be read any further. */
  lemma ReadMore(s: Bytes, i: nat, n: nat)
    requires i <= n && Read(Repeat(i), s).None?
    ensures Read(Repeat(n), s).None?
  {
    ReadBoth(Repeat(i), Repeat(n - i), s);
    assert Repeat(n) == Repeat(i) + Repeat(n - i);
  }

  /** The loop over a source. */
  method NextList(source: ZeroCopySource) returns (r: Option<seq<Bytes>>)
    requires source.Good()
    modifies source`off, source`log, source`start
    ensures var d := ReadList(old(source.Rest()));
      r.Some? == d.Some? && (r.Some? ==> source.Good() && Parsed(r.value, source.Rest()) == d.value)
    ensures source.off >= old(source.off)
  {
    hide Read, DecodeVarUint;
    ghost var s := source.Rest();
    source.Mark();
    var n, size, irregular, eof := source.NextVarUint();
    ReadOne(s, VarUint);
    assert source.log.fields == [VarUint];
    if eof {
      return None;
    }
    if irregular {
      return None;
    }
    assert source.log.vals == [Num(n)];
    var items: seq<Bytes> := [];
    source.Mark();
    ghost var rest := source.Rest();
    var i := 0;
    while i < Rounds(n)
      invariant 0 <= i <= Rounds(n) && source.Good() && source.s[source.start..] == rest && |items| == i
      invariant source.log == Log(Repeat(i), Vals(items), true) && source.off >= old(source.off)
    {
      var item, size, irregular, eof := source.NextVarBytes();
      assert source.log.fields == Repeat(i + 1);
      assert source.log.vals == Vals(items + [item]);
      if eof || irregular {
        ReadMore(rest, i + 1, Rounds(n));
        return None;
      }
      items := items + [item];
      i := i + 1;
    }
    ItemsOfVals(items);
    return Some(items);
  }

  /** One byte string with its length. */
  method NextItem(source: ZeroCopySource) returns (data: Option<Bytes>)
    requires source.Good()
    modifies source`off, source`log, source`start
    ensures old(source.off) <= source.off <= |source.s|
    ensures var d := ReadField(VarBytes, old(source.Rest()));
      data.Some? == d.Some? && (data.Some? ==> source.Good() && d.value == Parsed(Raw(data.value), source.Rest()))
  {
    hide Read, ReadField, Tells;
    ghost var s, at := source.Rest(), source.off;
    source.Mark();
    var value, size, irregular, eof := source.NextVarBytes();
    assert source.log.fields == [VarBytes] && source.log.vals == [Raw(value)];
    assert [VarBytes] + [] == [VarBytes];
    Told(source.s, at, source.off, source.log, []);
    ReadOne(s, VarBytes);
    if eof || irregular {
      return None;
    }
    data := Some(value);
  }

  lemma HoldsOnly(contents: Bytes, base: Bytes, fields: seq<Field>, vals: seq<Val>)
    requires Holds(contents, base, fields, vals)
    ensures AllFit(fields, vals) && contents == base + Encode(fields, vals)
  {
  }

  lemma EncodeOne(f: Field, v: Val)
    requires Fits(f, v)
    ensures Encode([f], [v]) == EncodeField(f, v)
  {
    hide EncodeField, Fits;
    EncodeLast([], [], f, v);
    assert [] + [f] == [f] && [] + [v] == [v];
  }

  lemma {:induction false} EncodeBoth(fs: seq<Field>, vs: seq<Val>, gs: seq<Field>, ws: seq<Val>)
    requires AllFit(fs, vs) && AllFit(gs, ws)
    ensures AllFit(fs + gs, vs + ws) && Encode(fs + gs, vs + ws) == Encode(fs, vs) + Encode(gs, ws)
    decreases |gs|
  {
    hide Encode, EncodeField, Fits;
    if gs == [] {
      assert fs + gs == fs && vs + ws == vs;
      Nothing([]);
    } else {
      var n := |gs| - 1;
      EncodeBoth(fs, vs, gs[..n], ws[..n]);
      EncodeLast(gs[..n], ws[..n], gs[n], ws[n]);
      EncodeLast(fs + gs[..n], vs + ws[..n], gs[n], ws[n]);
      assert gs == gs[..n] + [gs[n]] && ws == ws[..n] + [ws[n]];
      assert fs + gs == fs + gs[..n] + [gs[n]] && vs + ws == vs + ws[..n] + [ws[n]];
      Assoc(Encode(fs, vs), Encode(gs[..n], ws[..n]), EncodeField(gs[n], ws[n]));
    }
  }

  lemma EncodeCounted(items: seq<Bytes>)
    requires ListFits(items)
    ensures var fs, vs := [VarUint] + Repeat(|items|), [Num(|items|)] + Vals(items);
      AllFit(fs, vs) && Encode(fs, vs) == EncodeList(items)
  {
    hide Encode, EncodeVarUint;
    EncodeOne(VarUint, Num(|items|));
    EncodeBoth([VarUint], [Num(|items|)], Repeat(|items|), Vals(items));
  }

  /** The loop over a sink. */
  method WriteList(sink: ZeroCopySink, items: seq<Bytes>)
    requires sink.Valid() && ListFits(items)
    modifies sink, sink.buf
    ensures sink.Valid() && sink.Contents() == old(sink.Contents()) + EncodeList(items)
    ensures sink.buf == old(sink.buf) || fresh(sink.buf)
  {
    hide Encode, EncodeField, EncodeVarUint, Holds;
    ghost var was := sink.Contents();
    sink.Mark();
    var size := sink.WriteVarUint(|items|);
    for i := 0 to |items|
      invariant sink.Valid() && sink.base == was && (sink.buf == old(sink.buf) || fresh(sink.buf))
      invariant sink.fields == [VarUint] + Repeat(i) && sink.vals == [Num(|items|)] + Vals(items[..i])
    {
      assert Fits(Repeat(|items|)[i], Vals(items)[i]);
      size := sink.WriteVarBytes(items[i]);
      assert Repeat(i + 1) == Repeat(i) + [VarBytes] && Vals(items[..i + 1]) == Vals(items[..i]) + [Raw(items[i])];
    }
    assert items[..|items|] == items;
    EncodeCounted(items);
    HoldsOnly(sink.Contents(), was, sink.fields, sink.vals);
  }
}
