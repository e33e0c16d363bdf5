/** The block header of core/types/header.go: its encoder, its decoder, which drops most
    end-of-data flags, and the decoder of `RawHeader`, which skips what it does not need.
    Public keys are known by their serialized form. */
module HeaderCodec {
  import opened Common
  import opened Wire
  import opened WireSource
  import opened WireSink
  import opened WireList
  import opened PublicKeys

  datatype Header = Header(
    version: nat, prevBlockHash: Bytes, transactionsRoot: Bytes, blockRoot: Bytes, timestamp: nat, height: nat,
    consensusData: nat, consensusPayload: Bytes, nextBookkeeper: Bytes,
    bookkeepers: seq<Bytes>, sigData: seq<Bytes>)

  datatype RawHeader = RawHeader(height: nat, payload: Bytes)

  const UNSIGNED: seq<Field> :=
    [Fixed(4), Fixed(32), Fixed(32), Fixed(32), Fixed(4), Fixed(4), Fixed(8), VarBytes, Fixed(20)]

  const RAW_UNSIGNED: seq<Field> := [Fixed(104), Fixed(4), Fixed(8), VarBytes, Fixed(20)]

  predicate WellFormed(h: Header)
  {
    && h.version < Pow256(4) && h.timestamp < Pow256(4) && h.height < Pow256(4) && h.consensusData < Pow256(8)
    && |h.prevBlockHash| == |h.transactionsRoot| == |h.blockRoot| == 32 && |h.nextBookkeeper| == 20
    && |h.consensusPayload| < U64_SIZE && ListFits(h.bookkeepers) && ListFits(h.sigData)
  }

  function UnsignedVals(h: Header): (vs: seq<Val>)
    requires WellFormed(h)
    ensures AllFit(UNSIGNED, vs)
  {
    [Raw(LE(h.version, 4)), Raw(h.prevBlockHash), Raw(h.transactionsRoot), Raw(h.blockRoot), Raw(LE(h.timestamp, 4)),
     Raw(LE(h.height, 4)), Raw(LE(h.consensusData, 8)), Raw(h.consensusPayload), Raw(h.nextBookkeeper)]
  }

  lemma FieldsAt(vs: seq<Val>)
    requires AllFit(UNSIGNED, vs)
    ensures |vs| == 9 && forall i :: 0 <= i < 9 ==> vs[i].Raw?
    ensures |vs[0].bytes| == |vs[4].bytes| == |vs[5].bytes| == 4 && |vs[6].bytes| == 8 && |vs[8].bytes| == 20
    ensures |vs[1].bytes| == |vs[2].bytes| == |vs[3].bytes| == 32 && |vs[7].bytes| < U64_SIZE
  {
    assert forall i :: 0 <= i < 9 ==> Fits(UNSIGNED[i], vs[i]);
  }

  function HeaderOf(vs: seq<Val>, bookkeepers: seq<Bytes>, sigData: seq<Bytes>): Header
    requires AllFit(UNSIGNED, vs)
  {
    FieldsAt(vs);
    Header(FromLE(vs[0].bytes), vs[1].bytes, vs[2].bytes, vs[3].bytes, FromLE(vs[4].bytes), FromLE(vs[5].bytes),
           FromLE(vs[6].bytes), vs[7].bytes, vs[8].bytes, bookkeepers, sigData)
  }

  function EncodeUnsigned(h: Header): Bytes
    requires WellFormed(h)
  {
    Encode(UNSIGNED, UnsignedVals(h))
  }

  function EncodeHeader(h: Header): Bytes
    requires WellFormed(h)
  {
    EncodeUnsigned(h) + (EncodeList(h.bookkeepers) + EncodeList(h.sigData))
  }

  /** The two lists after the unsigned part. */
  datatype Lists = Lists(keys: seq<Bytes>, sigs: seq<Bytes>)

  function ReadLists(s: Bytes): Option<Parsed<Lists>>
  {
    match ReadList(s)
    case None => None
    case Some(k) =>
      match ReadList(k.rest)
      case None => None
      case Some(g) => Some(Parsed(Lists(k.value, g.value), g.rest))
  }

  /** The strict decoder: every field is there, every length in shortest form. */
  function DecodeHeader(p: KeyParser, s: Bytes): Option<Parsed<Header>>
  {
    match Read(UNSIGNED, s)
    case None => None
    case Some(u) =>
      match ReadLists(u.rest)
      case None => None
      case Some(l) =>
        var keys := ParseKeys(p, l.value.keys);
        if keys.None? then None
        else
          Reencodes(UNSIGNED, s);
          Some(Parsed(HeaderOf(u.value, keys.value, l.value.sigs), l.rest))
  }

  function DecodeRaw(s: Bytes): Option<Parsed<RawHeader>>
  {
    match Read(RAW_UNSIGNED, s)
    case None => None
    case Some(u) =>
      match ReadLists(u.rest)
      case None => None
      case Some(l) =>
        if u.value[1].Num? || |l.rest| > |s| then None
        else Some(Parsed(RawHeader(FromLE(u.value[1].bytes), s[..|s| - |l.rest|]), l.rest))
  }

  // ---------- round trip ----------

  lemma HeaderOfUnsigned(h: Header)
    requires WellFormed(h)
    ensures HeaderOf(UnsignedVals(h), h.bookkeepers, h.sigData) == h
  {
    hide LE, FromLE, Pow256;
    LERoundTrip(h.version, 4);
    LERoundTrip(h.timestamp, 4);
    LERoundTrip(h.height, 4);
    LERoundTrip(h.consensusData, 8);
  }

  lemma UnsignedOfHeader(vs: seq<Val>, keys: seq<Bytes>, sigs: seq<Bytes>)
    requires AllFit(UNSIGNED, vs) && ListFits(keys) && ListFits(sigs)
    ensures var h := HeaderOf(vs, keys, sigs); WellFormed(h) && UnsignedVals(h) == vs
  {
    hide LE, FromLE, Pow256, ListFits, AllFit;
    FieldsAt(vs);
    FromLERoundTrip(vs[0].bytes);
    FromLERoundTrip(vs[4].bytes);
    FromLERoundTrip(vs[5].bytes);
    FromLERoundTrip(vs[6].bytes);
  }

  predicate HugeLists(s: Bytes)
  {
    HugeCount(s) || (ReadList(s).Some? && HugeCount(ReadList(s).value.rest))
  }

  lemma ListsRoundTrip(keys: seq<Bytes>, sigs: seq<Bytes>, rest: Bytes)
    requires ListFits(keys) && ListFits(sigs)
    ensures var s := EncodeList(keys) + EncodeList(sigs) + rest;
      ReadLists(s) == Some(Parsed(Lists(keys, sigs), rest)) && !HugeLists(s)
  {
    hide ReadList, EncodeList, ListFits, HugeCount;
    Assoc(EncodeList(keys), EncodeList(sigs), rest);
    ListRoundTrip(keys, EncodeList(sigs) + rest);
    ListRoundTrip(sigs, rest);
  }

  /** Decoding undoes encoding, for keys that parse as themselves. */
  lemma HeaderRoundTrip(p: KeyParser, h: Header, rest: Bytes)
    requires WellFormed(h) && forall i :: 0 <= i < |h.bookkeepers| ==> p(h.bookkeepers[i]) == Some(h.bookkeepers[i])
    ensures DecodeHeader(p, EncodeHeader(h) + rest) == Some(Parsed(h, rest))
  {
    hide Read, Encode, ReadLists, EncodeList, ListFits, HugeLists, UnsignedVals, HeaderOf;
    var lists := EncodeList(h.bookkeepers) + EncodeList(h.sigData);
    Assoc(EncodeUnsigned(h), lists, rest);
    RoundTrip(UNSIGNED, UnsignedVals(h), lists + rest);
    ListsRoundTrip(h.bookkeepers, h.sigData, rest);
    assert ParseKeys(p, h.bookkeepers).value == h.bookkeepers;
    HeaderOfUnsigned(h);
  }

  // ---------- truncation ----------

  lemma ListsExtend(s: Bytes, q: Bytes)
    requires ReadLists(s).Some?
    ensures var d := ReadLists(s).value; ReadLists(s + q) == Some(Parsed(d.value, d.rest + q))
  {
    hide ReadList, HugeCount;
    ListExtends(s, q);
    ListExtends(ReadList(s).value.rest, q);
  }

  /** What is decoded does not depend on what follows. */
  lemma HeaderExtends(p: KeyParser, s: Bytes, q: Bytes)
    requires DecodeHeader(p, s).Some?
    ensures var d := DecodeHeader(p, s).value; DecodeHeader(p, s + q) == Some(Parsed(d.value, d.rest + q))
  {
    hide Read, ReadLists, ParseKeys, HeaderOf;
    Extends(UNSIGNED, s, q);
    ListsExtend(Read(UNSIGNED, s).value.rest, q);
  }

  /** No strict prefix of an accepted header is accepted. */
  lemma HeaderPrefixRejected(p: KeyParser, s: Bytes, n: nat)
    requires DecodeHeader(p, s).Some? && n + |DecodeHeader(p, s).value.rest| < |s|
    ensures DecodeHeader(p, s[..n]).None?
  {
    hide DecodeHeader;
    assert s == s[..n] + s[n..];
    if DecodeHeader(p, s[..n]).Some? { HeaderExtends(p, s[..n], s[n..]); }
  }

  // ---------- accepted bytes ----------

  /** The input has no huge count, and its keys are in the form that the encoder writes. */
  predicate Canonical(p: KeyParser, s: Bytes)
    requires DecodeHeader(p, s).Some?
  {
    var u := Read(UNSIGNED, s).value;
    var keys := ReadLists(u.rest).value.value.keys;
    !HugeLists(u.rest) && forall i :: 0 <= i < |keys| ==> p(keys[i]) == Some(keys[i])
  }

  lemma ListsReencode(s: Bytes)
    requires ReadLists(s).Some?
    ensures var d := ReadLists(s).value; ListFits(d.value.keys) && ListFits(d.value.sigs)
    ensures var d := ReadLists(s).value;
      !HugeLists(s) ==> s == EncodeList(d.value.keys) + EncodeList(d.value.sigs) + d.rest
  {
    hide ReadList, EncodeList, ListFits, HugeCount;
    ListReencodes(s);
    var k := ReadList(s).value;
    ListReencodes(k.rest);
    var g := ReadList(k.rest).value;
    if !HugeLists(s) { Assoc(EncodeList(k.value), EncodeList(g.value), g.rest); }
  }

  lemma Cancel(a: Bytes, b: Bytes, c: Bytes)
    requires a + b == a + c
    ensures b == c
  {
    assert b == (a + b)[|a|..] && c == (a + c)[|a|..];
  }

  lemma HeaderLists(vs: seq<Val>, keys: seq<Bytes>, sigs: seq<Bytes>)
    requires AllFit(UNSIGNED, vs)
    ensures var h := HeaderOf(vs, keys, sigs); h.bookkeepers == keys && h.sigData == sigs
    ensures |vs| == 9 && vs[5].Raw? && HeaderOf(vs, keys, sigs).height == FromLE(vs[5].bytes)
  {
    FieldsAt(vs);
  }

  /** Accepted bytes are re-encoded identically exactly when they are canonical. */
  lemma HeaderReencodes(p: KeyParser, s: Bytes)
    requires DecodeHeader(p, s).Some? && ListFits(DecodeHeader(p, s).value.value.bookkeepers)
    ensures var d := DecodeHeader(p, s).value;
      WellFormed(d.value) && (s == EncodeHeader(d.value) + d.rest <==> Canonical(p, s))
  {
    hide Read, Encode, ReadLists, EncodeList, ListFits, HugeLists, UnsignedVals, HeaderOf;
    var d, u := DecodeHeader(p, s).value, Read(UNSIGNED, s).value;
    var l := ReadLists(u.rest).value;
    var keys := ParseKeys(p, l.value.keys).value;
    Reencodes(UNSIGNED, s);
    ListsReencode(u.rest);
    HeaderLists(u.value, keys, l.value.sigs);
    UnsignedOfHeader(u.value, keys, l.value.sigs);
    var head, lists := EncodeUnsigned(d.value), EncodeList(keys) + EncodeList(l.value.sigs);
    Assoc(head, lists, d.rest);
    ListsRoundTrip(keys, l.value.sigs, d.rest);
    if Canonical(p, s) {
      assert keys == l.value.keys;
    } else if s == EncodeHeader(d.value) + d.rest {
      Cancel(head, u.rest, lists + d.rest);
      assert false;
    }
  }

  // ---------- the skipping decoder ----------

  const SKIPPED: seq<Field> := [Fixed(4), Fixed(32), Fixed(32), Fixed(32), Fixed(4)]
  const TAIL: seq<Field> := [Fixed(4), Fixed(8), VarBytes, Fixed(20)]

  function Total(fs: seq<Field>): nat
  {
    if fs == [] then 0 else Total(fs[..|fs| - 1]) + (if fs[|fs| - 1].Fixed? then fs[|fs| - 1].size else 0)
  }

  lemma {:induction false} ReadFixed(fs: seq<Field>, s: Bytes)
    requires forall i :: 0 <= i < |fs| ==> fs[i].Fixed?
    ensures Read(fs, s).Some? <==> Total(fs) <= |s|
    ensures Read(fs, s).Some? ==> Read(fs, s).value.rest == s[Total(fs)..]
    decreases |fs|
  {
    if fs != [] { ReadFixed(fs[..|fs| - 1], s); }
  }

  lemma SkippedTotal()
    ensures Total(SKIPPED) == Total([Fixed(104)]) == 104
  {
    var t: seq<Field> := [Fixed(4), Fixed(32)];
    assert SKIPPED[..4][..3][..2] == t;
    assert t[..1] == [Fixed(4)];
    assert Total(t[..1]) == 4;
    assert Total(t) == 36;
    assert Total(SKIPPED[..4]) == Total(SKIPPED[..4][..3]) + 32;
  }

  /** Skipping 104 bytes is reading the five fields that they hold. */
  lemma UnsignedAgree(s: Bytes)
    ensures Read(UNSIGNED, s).Some? <==> Read(RAW_UNSIGNED, s).Some?
    ensures Read(UNSIGNED, s).Some? ==>
      var u, r := Read(UNSIGNED, s).value, Read(RAW_UNSIGNED, s).value;
      u.rest == r.rest && u.value[5] == r.value[1]
  {
    hide Read;
    assert UNSIGNED == SKIPPED + TAIL && RAW_UNSIGNED == [Fixed(104)] + TAIL;
    ReadBoth(SKIPPED, TAIL, s);
    ReadBoth([Fixed(104)], TAIL, s);
    ReadFixed(SKIPPED, s);
    ReadFixed([Fixed(104)], s);
    SkippedTotal();
  }

  predicate Suffix(r: Bytes, s: Bytes)
  {
    |r| <= |s| && s == s[..|s| - |r|] + r
  }

  lemma RawSuffix(s: Bytes)
    requires Read(RAW_UNSIGNED, s).Some?
    ensures Read(RAW_UNSIGNED, s).value.value[1].Raw? && Suffix(Read(RAW_UNSIGNED, s).value.rest, s)
  {
    hide Read, Encode;
    Reencodes(RAW_UNSIGNED, s);
    assert Fits(RAW_UNSIGNED[1], Read(RAW_UNSIGNED, s).value.value[1]);
  }

  lemma ListSuffix(s: Bytes)
    ensures ReadList(s).Some? ==> Suffix(ReadList(s).value.rest, s)
  {
    hide Read, DecodeVarUint, Encode;
    if ReadList(s).Some? {
      VarUintReencodes(s);
      var c := DecodeVarUint(s).value;
      ReadFits(Rounds(c.value), c.rest);
    }
  }

  lemma ListsSuffix(s: Bytes)
    requires ReadLists(s).Some?
    ensures Suffix(ReadLists(s).value.rest, s)
  {
    hide ReadList;
    ListSuffix(s);
    ListSuffix(ReadList(s).value.rest);
  }

  lemma SuffixOfSuffix(a: Bytes, b: Bytes, c: Bytes)
    requires Suffix(a, b) && Suffix(b, c)
    ensures |a| <= |c| && c == c[..|c| - |a|] + a
  {
  }

  /** `RawHeader` accepts wherever `Header` does, with the same height and exactly the
      bytes of the header; and `Header` accepts all of that if the keys parse. */
  lemma RawAgrees(p: KeyParser, s: Bytes)
    ensures DecodeHeader(p, s).Some? <==>
      DecodeRaw(s).Some? && ParseKeys(p, ReadLists(Read(RAW_UNSIGNED, s).value.rest).value.value.keys).Some?
    ensures DecodeHeader(p, s).Some? ==>
      var h, r := DecodeHeader(p, s).value, DecodeRaw(s).value;
      r.rest == h.rest && r.value.height == h.value.height && s == r.value.payload + h.rest
  {
    hide Read, ReadLists, ParseKeys, HeaderOf, Suffix;
    UnsignedAgree(s);
    if Read(RAW_UNSIGNED, s).Some? {
      var u := Read(UNSIGNED, s).value;
      RawSuffix(s);
      Reencodes(UNSIGNED, s);
      if ReadLists(u.rest).Some? {
        var l := ReadLists(u.rest).value;
        var keys := ParseKeys(p, l.value.keys);
        ListsSuffix(u.rest);
        SuffixOfSuffix(l.rest, u.rest, s);
        if keys.Some? {
          HeaderLists(u.value, keys.value, l.value.sigs);
        }
      }
    }
  }

  // ---------- as the source runs it ----------

  method SerializeUnsigned(sink: ZeroCopySink, h: Header)
    requires sink.Valid() && WellFormed(h)
    modifies sink, sink.buf
    ensures sink.Valid() && sink.Contents() == old(sink.Contents()) + EncodeUnsigned(h)
    ensures sink.buf == old(sink.buf) || fresh(sink.buf)
  {
    hide LE, Pow256, Encode, EncodeField, Holds;
    ghost var was := sink.Contents();
    sink.Mark();
    sink.WriteUint(h.version, 4);
    sink.WriteBytes(h.prevBlockHash);
    sink.WriteBytes(h.transactionsRoot);
    sink.WriteBytes(h.blockRoot);
    sink.WriteUint(h.timestamp, 4);
    sink.WriteUint(h.height, 4);
    sink.WriteUint(h.consensusData, 8);
    var size := sink.WriteVarBytes(h.consensusPayload);
    sink.WriteBytes(h.nextBookkeeper);
    Nine(Fixed(4), Fixed(32), Fixed(32), Fixed(32), Fixed(4), Fixed(4), Fixed(8), VarBytes, Fixed(20));
    Nine(Raw(LE(h.version, 4)), Raw(h.prevBlockHash), Raw(h.transactionsRoot), Raw(h.blockRoot),
         Raw(LE(h.timestamp, 4)), Raw(LE(h.height, 4)), Raw(LE(h.consensusData, 8)), Raw(h.consensusPayload),
         Raw(h.nextBookkeeper));
    HoldsOnly(sink.Contents(), was, sink.fields, sink.vals);
  }

  lemma FitsNothing()
    ensures ListFits([])
  {
  }

  /** The unsigned part, in which only the last end-of-data flag is looked at. */
  method DeserializeUnsigned(source: ZeroCopySource) returns (h: Option<Header>)
    requires source.Good()
    modifies source`off, source`log, source`start
    ensures source.off >= old(source.off)
    ensures h.None? ==> Read(UNSIGNED, old(source.Rest())).None?
    ensures h.Some? ==> (
      && source.Good() && WellFormed(h.value) && h.value.bookkeepers == h.value.sigData == []
      && Read(UNSIGNED, old(source.Rest())) == Some(Parsed(UnsignedVals(h.value), source.Rest())))
  {
    hide Read, LE, FromLE, Tells, Pow256, ListFits;
    var size, irregular, eof;
    var version, prevBlockHash, transactionsRoot, blockRoot, timestamp, height, consensusData, payload, bookkeeper;
    source.Mark();
    ghost var start := source.off;
    version, eof := source.NextUint(4);
    prevBlockHash, eof := source.NextArray(32);
    transactionsRoot, eof := source.NextArray(32);
    blockRoot, eof := source.NextArray(32);
    timestamp, eof := source.NextUint(4);
    height, eof := source.NextUint(4);
    consensusData, eof := source.NextUint(8);
    payload, size, irregular, eof := source.NextVarBytes();
    Nine(Fixed(4), Fixed(32), Fixed(32), Fixed(32), Fixed(4), Fixed(4), Fixed(8), VarBytes, Fixed(20));
    if irregular {
      Told(source.s, start, source.off, source.log, [Fixed(20)]);
      return None;
    }
    bookkeeper, eof := source.NextArray(20);
    assert UNSIGNED + [] == UNSIGNED;
    Told(source.s, start, source.off, source.log, []);
    if eof {
      return None;
    }
    FitsNothing();
    h := Some(Header(version, prevBlockHash, transactionsRoot, blockRoot, timestamp, height, consensusData, payload,
                     bookkeeper, [], []));
    Nine(Raw(LE(version, 4)), Raw(prevBlockHash), Raw(transactionsRoot), Raw(blockRoot), Raw(LE(timestamp, 4)),
         Raw(LE(height, 4)), Raw(LE(consensusData, 8)), Raw(payload), Raw(bookkeeper));
  }

  lemma WellFormedLists(h: Header)
    requires WellFormed(h)
    ensures ListFits(h.bookkeepers) && ListFits(h.sigData)
  {
  }

  method Serialization(sink: ZeroCopySink, h: Header)
    requires sink.Valid() && WellFormed(h)
    modifies sink, sink.buf
    ensures sink.Valid() && sink.Contents() == old(sink.Contents()) + EncodeHeader(h)
    ensures sink.buf == old(sink.buf) || fresh(sink.buf)
  {
    hide EncodeUnsigned, EncodeList, WellFormed, Holds;
    ghost var was := sink.Contents();
    WellFormedLists(h);
    SerializeUnsigned(sink, h);
    WriteList(sink, h.bookkeepers);
    WriteList(sink, h.sigData);
    Assoc(was + EncodeUnsigned(h), EncodeList(h.bookkeepers), EncodeList(h.sigData));
    Assoc(was, EncodeUnsigned(h), EncodeList(h.bookkeepers) + EncodeList(h.sigData));
  }

  lemma HeaderWith(h: Header, keys: seq<Bytes>, sigs: seq<Bytes>)
    requires WellFormed(h) && h.bookkeepers == h.sigData == []
    ensures HeaderOf(UnsignedVals(h), keys, sigs) == h.(bookkeepers := keys, sigData := sigs)
  {
    hide UnsignedVals;
    HeaderOfUnsigned(h);
  }

  method Deserialization(p: KeyParser, source: ZeroCopySource) returns (h: Option<Header>)
    requires source.Good()
    modifies source`off, source`log, source`start
    ensures var d := DecodeHeader(p, old(source.Rest()));
      h.Some? == d.Some? && (h.Some? ==> source.Good() && Parsed(h.value, source.Rest()) == d.value)
    ensures source.off >= old(source.off)
  {
    hide Read, ReadList, ParseKeys, UnsignedVals, WellFormed, Tells;
    var u := DeserializeUnsigned(source);
    if u.None? {
      return None;
    }
    var bufs := NextList(source);
    if bufs.None? {
      return None;
    }
    // The source parses each key as it reads it: a key that does not parse is an error either way.
    var keys := ParseAll(p, bufs.value);
    var sigs := NextList(source);
    if keys.None? || sigs.None? {
      return None;
    }
    HeaderWith(u.value, keys.value, sigs.value);
    h := Some(u.value.(bookkeepers := keys.value, sigData := sigs.value));
  }

  /** The unsigned part of `RawHeader`: skips to the height, and skips the rest. */
  method SkipUnsigned(source: ZeroCopySource) returns (height: Option<nat>)
    requires source.Good()
    modifies source`off, source`log, source`start
    ensures source.off >= old(source.off)
    ensures height.None? ==> Read(RAW_UNSIGNED, old(source.Rest())).None?
    ensures height.Some? ==>
      var r := Read(RAW_UNSIGNED, old(source.Rest()));
      source.Good() && r.Some? && r.value.rest == source.Rest() && r.value.value[1] == Raw(LE(height.value, 4))
      && height.value < Pow256(4)
  {
    hide Read, LE, FromLE, Tells, Pow256;
    ghost var pstart := source.off;
    source.Mark();
    var eof := source.Skip(104);
    var h;
    h, eof := source.NextUint(4);
    eof := source.Skip(8);
    var payload, size, irregular;
    payload, size, irregular, eof := source.NextVarBytes();
    Five(Fixed(104), Fixed(4), Fixed(8), VarBytes, Fixed(20));
    if irregular {
      Told(source.s, pstart, source.off, source.log, [Fixed(20)]);
      return None;
    }
    eof := source.Skip(20);
    assert RAW_UNSIGNED + [] == RAW_UNSIGNED;
    Told(source.s, pstart, source.off, source.log, []);
    if eof {
      return None;
    }
    height := Some(h);
  }

  /** `RawHeader`: skips through the header, and takes the bytes it passed. */
  method DeserializeRaw(source: ZeroCopySource) returns (h: Option<RawHeader>)
    requires source.Good()
    modifies source`off, source`log, source`start
    ensures var d := DecodeRaw(old(source.Rest()));
      h.Some? == d.Some? && (h.Some? ==> source.Good() && Parsed(h.value, source.Rest()) == d.value)
  {
    hide Read, ReadList, LE, FromLE, Tells, Pow256;
    var pstart := source.off;
    var height := SkipUnsigned(source);
    if height.None? {
      return None;
    }
    LERoundTrip(height.value, 4);
    var bufs := NextList(source);
    if bufs.None? {
      return None;
    }
    var sigs := NextList(source);
    if sigs.None? {
      return None;
    }
    var span := source.Again(source.off - pstart);
    Span(source.s, pstart, source.off);
    h := Some(RawHeader(height.value, span));
  }
}
