/** Blocks of core/types/block.go: a header, the transactions, no transaction twice, and
    the root of their hashes in the header. */
module BlockCodec {
  import opened Common
  import opened Wire
  import opened WireSource
  import opened WireSink
  import opened WireList
  import opened PublicKeys
  import H = HeaderCodec
  import T = TransactionCodec
  import R = TxRoot

  datatype Block = Block(header: H.Header, transactions: seq<T.Transaction>)

  /** The foreign functions that a decoder depends on. */
  datatype Foreign = Foreign(key: KeyParser, digest: T.Digest, pair: R.PairHash)

  // ---------- lists of transactions ----------

  predicate TxFits(t: T.Transaction)
  {
    T.WellFormed(t) && |T.EncodeTx(t)| <= T.MAX_TX_SIZE
  }

  predicate TxsFit(ts: seq<T.Transaction>)
  {
    forall i :: 0 <= i < |ts| ==> TxFits(ts[i])
  }

  function EncodeTxs(ts: seq<T.Transaction>): Bytes
    requires TxsFit(ts)
  {
    if ts == [] then [] else EncodeTxs(ts[..|ts| - 1]) + T.EncodeTx(ts[|ts| - 1])
  }

  function DecodeTxs(n: nat, s: Bytes): (r: Option<Parsed<seq<T.Transaction>>>)
    ensures r.Some? ==> |r.value.value| == n
  {
    if n == 0 then Some(Parsed([], s))
    else
      match DecodeTxs(n - 1, s)
      case None => None
      case Some(b) =>
        var t := T.DecodeTx(b.rest);
        if t.None? then None else Some(Parsed(b.value + [t.value.value], t.value.rest))
  }

  lemma {:induction false} TxsRoundTrip(ts: seq<T.Transaction>, rest: Bytes)
    requires TxsFit(ts)
    ensures DecodeTxs(|ts|, EncodeTxs(ts) + rest) == Some(Parsed(ts, rest))
    decreases |ts|
  {
    hide T.DecodeTx, T.EncodeTx, T.WellFormed;
    if ts == [] {
      assert EncodeTxs(ts) + rest == rest;
    } else {
      var n := |ts| - 1;
      var last := T.EncodeTx(ts[n]);
      TxsRoundTrip(ts[..n], last + rest);
      Assoc(EncodeTxs(ts[..n]), last, rest);
      T.TxRoundTrip(ts[n], rest);
      assert ts == ts[..n] + [ts[n]];
    }
  }

  lemma {:induction false} TxsReencode(n: nat, s: Bytes)
    requires DecodeTxs(n, s).Some?
    ensures var d := DecodeTxs(n, s).value; TxsFit(d.value) && s == EncodeTxs(d.value) + d.rest
  {
    hide T.DecodeTx, T.EncodeTx, T.WellFormed;
    if n == 0 {
      assert EncodeTxs([]) + s == s;
    } else {
      TxsReencode(n - 1, s);
      var b, d := DecodeTxs(n - 1, s).value, DecodeTxs(n, s).value;
      T.TxReencodes(b.rest);
      assert d.value[..n - 1] == b.value;
      Assoc(EncodeTxs(b.value), T.EncodeTx(d.value[n - 1]), d.rest);
    }
  }

  lemma {:induction false} TxsExtend(n: nat, s: Bytes, q: Bytes)
    requires DecodeTxs(n, s).Some?
    ensures var d := DecodeTxs(n, s).value; DecodeTxs(n, s + q) == Some(Parsed(d.value, d.rest + q))
  {
    hide T.DecodeTx;
    if n > 0 {
      TxsExtend(n - 1, s, q);
      T.TxExtends(DecodeTxs(n - 1, s).value.rest, q);
    }
  }

  /** Decoding more decodes the same first. */
  lemma {:induction false} TxsPrefix(i: nat, n: nat, s: Bytes)
    requires i <= n && DecodeTxs(n, s).Some?
    ensures DecodeTxs(i, s).Some? && DecodeTxs(n, s).value.value[..i] == DecodeTxs(i, s).value.value
    decreases n
  {
    hide T.DecodeTx;
    var d := DecodeTxs(n, s).value.value;
    if i < n {
      TxsPrefix(i, n - 1, s);
      assert d[..n - 1][..i] == d[..i];
    } else {
      assert d[..n] == d;
    }
  }

  // ---------- blocks ----------

  function Hashes(digest: T.Digest, ts: seq<T.Transaction>): (hs: seq<Uint256>)
    requires TxsFit(ts)
    ensures |hs| == |ts| && forall i :: 0 <= i < |ts| ==> hs[i] == T.TxHash(digest, ts[i])
  {
    seq(|ts|, i requires 0 <= i < |ts| => T.TxHash(digest, ts[i]))
  }

  /** What the decoder demands of the whole block. */
  predicate Consistent(x: Foreign, b: Block)
    requires TxsFit(b.transactions)
  {
    var hs := Hashes(x.digest, b.transactions);
    Distinct(hs) && R.Root(x.pair, hs) == b.header.transactionsRoot
  }

  predicate BlockFits(b: Block)
  {
    H.WellFormed(b.header) && |b.transactions| < Pow256(4) && TxsFit(b.transactions)
  }

  function EncodeBlock(b: Block): Bytes
    requires BlockFits(b)
  {
    H.EncodeHeader(b.header) + (LE(|b.transactions|, 4) + EncodeTxs(b.transactions))
  }

  /** The number of transactions, and the transactions. */
  function DecodeBody(s: Bytes): Option<Parsed<seq<T.Transaction>>>
  {
    if |s| < 4 then None else DecodeTxs(FromLE(s[..4]), s[4..])
  }

  function DecodeBlock(x: Foreign, s: Bytes): Option<Parsed<Block>>
  {
    match H.DecodeHeader(x.key, s)
    case None => None
    case Some(h) =>
      match DecodeBody(h.rest)
      case None => None
      case Some(t) =>
        TxsReencode(FromLE(h.rest[..4]), h.rest[4..]);
        var b := Block(h.value, t.value);
        if Consistent(x, b) then Some(Parsed(b, t.rest)) else None
  }

  lemma BodyRoundTrip(ts: seq<T.Transaction>, rest: Bytes)
    requires TxsFit(ts) && |ts| < Pow256(4)
    ensures DecodeBody(LE(|ts|, 4) + EncodeTxs(ts) + rest) == Some(Parsed(ts, rest))
  {
    hide LE, FromLE, Pow256, EncodeTxs, DecodeTxs, TxsFit;
    var s := LE(|ts|, 4) + EncodeTxs(ts) + rest;
    assert s[..4] == LE(|ts|, 4) && s[4..] == EncodeTxs(ts) + rest;
    LERoundTrip(|ts|, 4);
    TxsRoundTrip(ts, rest);
  }

  lemma BodyReencodes(s: Bytes)
    requires DecodeBody(s).Some?
    ensures var d := DecodeBody(s).value;
      TxsFit(d.value) && |d.value| < Pow256(4) && s == LE(|d.value|, 4) + EncodeTxs(d.value) + d.rest
  {
    hide LE, FromLE, Pow256, EncodeTxs, DecodeTxs, TxsFit;
    FromLERoundTrip(s[..4]);
    TxsReencode(FromLE(s[..4]), s[4..]);
    var d := DecodeBody(s).value;
    Assoc(s[..4], EncodeTxs(d.value), d.rest);
  }

  lemma BodyExtends(s: Bytes, q: Bytes)
    requires DecodeBody(s).Some?
    ensures var d := DecodeBody(s).value; DecodeBody(s + q) == Some(Parsed(d.value, d.rest + q))
  {
    hide FromLE, DecodeTxs;
    assert (s + q)[..4] == s[..4] && (s + q)[4..] == s[4..] + q;
    TxsExtend(FromLE(s[..4]), s[4..], q);
  }

  /** Decoding undoes encoding exactly for blocks with distinct transaction hashes and the
      right root. */
  lemma BlockRoundTrip(x: Foreign, b: Block, rest: Bytes)
    requires BlockFits(b)
    requires forall i :: 0 <= i < |b.header.bookkeepers| ==>
      x.key(b.header.bookkeepers[i]) == Some(b.header.bookkeepers[i])
    ensures DecodeBlock(x, EncodeBlock(b) + rest) == if Consistent(x, b) then Some(Parsed(b, rest)) else None
  {
    hide H.DecodeHeader, H.EncodeHeader, H.WellFormed, DecodeBody, LE, EncodeTxs, TxsFit, Consistent, Pow256;
    var body := LE(|b.transactions|, 4) + EncodeTxs(b.transactions);
    Assoc(H.EncodeHeader(b.header), body, rest);
    H.HeaderRoundTrip(x.key, b.header, body + rest);
    BodyRoundTrip(b.transactions, rest);
  }

  lemma BlockExtends(x: Foreign, s: Bytes, q: Bytes)
    requires DecodeBlock(x, s).Some?
    ensures var d := DecodeBlock(x, s).value; DecodeBlock(x, s + q) == Some(Parsed(d.value, d.rest + q))
  {
    hide H.DecodeHeader, DecodeBody, Consistent;
    H.HeaderExtends(x.key, s, q);
    BodyExtends(H.DecodeHeader(x.key, s).value.rest, q);
  }

  /** No strict prefix of an accepted block is accepted. */
  lemma BlockPrefixRejected(x: Foreign, s: Bytes, n: nat)
    requires DecodeBlock(x, s).Some? && n + |DecodeBlock(x, s).value.rest| < |s|
    ensures DecodeBlock(x, s[..n]).None?
  {
    hide DecodeBlock;
    assert s == s[..n] + s[n..];
    if DecodeBlock(x, s[..n]).Some? { BlockExtends(x, s[..n], s[n..]); }
  }

  lemma HeaderFits(h: H.Header)
    requires H.WellFormed(h)
    ensures ListFits(h.bookkeepers)
  {
  }

  /** Accepted bytes are re-encoded identically exactly when the header is canonical. */
  lemma BlockReencodes(x: Foreign, s: Bytes)
    requires DecodeBlock(x, s).Some? && BlockFits(DecodeBlock(x, s).value.value)
    ensures H.DecodeHeader(x.key, s).Some?
    ensures var d := DecodeBlock(x, s).value; s == EncodeBlock(d.value) + d.rest <==> H.Canonical(x.key, s)
  {
    hide H.DecodeHeader, H.EncodeHeader, H.Canonical, DecodeBody, LE, EncodeTxs, TxsFit, Consistent, Pow256;
    var h, d := H.DecodeHeader(x.key, s).value, DecodeBlock(x, s).value;
    HeaderFits(d.value.header);
    H.HeaderReencodes(x.key, s);
    BodyReencodes(h.rest);
    var head, body := H.EncodeHeader(h.value), LE(|d.value.transactions|, 4) + EncodeTxs(d.value.transactions);
    Assoc(head, body, d.rest);
  }

  lemma AcceptedConsistent(x: Foreign, s: Bytes)
    requires DecodeBlock(x, s).Some?
    ensures var b := DecodeBlock(x, s).value.value; TxsFit(b.transactions) && Consistent(x, b)
  {
    hide H.DecodeHeader, DecodeBody, Consistent, TxsFit;
    BodyReencodes(H.DecodeHeader(x.key, s).value.rest);
  }

  /** Two accepted blocks, with any numbers of transactions, have the same root in their
      headers exactly when they have the same transaction hashes: the duplicate check
      excludes a repeated last transaction. No hash that occurs may be mistaken. */
  lemma RootBindsBlock(x: Foreign, s: Bytes, t: Bytes)
    requires DecodeBlock(x, s).Some? && DecodeBlock(x, t).Some?
    ensures var a, b := DecodeBlock(x, s).value.value, DecodeBlock(x, t).value.value;
      && TxsFit(a.transactions) && TxsFit(b.transactions)
      && var g, h := Hashes(x.digest, a.transactions), Hashes(x.digest, b.transactions);
         R.Unmistaken(x.pair, g, h) ==> (a.header.transactionsRoot == b.header.transactionsRoot <==> g == h)
  {
    hide DecodeBlock, R.Root, R.Unmistaken, Distinct, TxsFit;
    var a, b := DecodeBlock(x, s).value.value, DecodeBlock(x, t).value.value;
    AcceptedConsistent(x, s);
    AcceptedConsistent(x, t);
    var g, h := Hashes(x.digest, a.transactions), Hashes(x.digest, b.transactions);
    if R.Unmistaken(x.pair, g, h) { R.RootExact(x.pair, g, h); }
  }

  // ---------- as the source runs it ----------

  lemma TxsNext(ts: seq<T.Transaction>, i: nat)
    requires TxsFit(ts) && i < |ts|
    ensures TxsFit(ts[..i]) && TxsFit(ts[..i + 1]) && TxFits(ts[i])
    ensures EncodeTxs(ts[..i + 1]) == EncodeTxs(ts[..i]) + T.EncodeTx(ts[i])
  {
    hide TxFits, T.EncodeTx;
    assert ts[..i + 1][..i] == ts[..i];
  }

  method WriteCount(sink: ZeroCopySink, n: nat)
    requires sink.Valid() && n < Pow256(4)
    modifies sink, sink.buf
    ensures sink.Valid() && sink.Contents() == old(sink.Contents()) + LE(n, 4)
    ensures sink.buf == old(sink.buf) || fresh(sink.buf)
  {
    hide LE, Holds, Encode;
    ghost var was := sink.Contents();
    sink.Mark();
    sink.WriteUint(n, 4);
    assert sink.fields == [Fixed(4)] && sink.vals == [Raw(LE(n, 4))];
    EncodeOne(Fixed(4), Raw(LE(n, 4)));
    HoldsOnly(sink.Contents(), was, sink.fields, sink.vals);
  }

  method Serialization(sink: ZeroCopySink, b: Block)
    requires sink.Valid() && BlockFits(b)
    modifies sink, sink.buf
    ensures sink.Valid() && sink.Contents() == old(sink.Contents()) + EncodeBlock(b)
    ensures sink.buf == old(sink.buf) || fresh(sink.buf)
  {
    hide H.EncodeHeader, T.EncodeTx, T.WellFormed, LE, Pow256, Holds, Encode;
    ghost var was := sink.Contents();
    H.Serialization(sink, b.header);
    ghost var head := sink.Contents();
    WriteCount(sink, |b.transactions|);
    ghost var start := sink.Contents();
    for i := 0 to |b.transactions|
      invariant sink.Valid() && (sink.buf == old(sink.buf) || fresh(sink.buf))
      invariant TxsFit(b.transactions[..i]) && sink.Contents() == start + EncodeTxs(b.transactions[..i])
    {
      T.Serialization(sink, b.transactions[i]);
      TxsNext(b.transactions, i);
      Assoc(start, EncodeTxs(b.transactions[..i]), T.EncodeTx(b.transactions[i]));
    }
    assert b.transactions[..|b.transactions|] == b.transactions;
    Assoc(head, LE(|b.transactions|, 4), EncodeTxs(b.transactions));
    Assoc(was, H.EncodeHeader(b.header), LE(|b.transactions|, 4) + EncodeTxs(b.transactions));
  }

  method NextCount(source: ZeroCopySource) returns (n: nat, eof: bool)
    requires source.Good()
    modifies source`off, source`log, source`start
    ensures source.off >= old(source.off)
    ensures var s := old(source.Rest());
      eof == (|s| < 4) && (!eof ==> source.Good() && n == FromLE(s[..4]) && source.Rest() == s[4..])
  {
    hide Read, LE, FromLE, Tells, Pow256;
    ghost var s, at := source.Rest(), source.off;
    source.Mark();
    n, eof := source.NextUint(4);
    LERoundTrip(n, 4);
    assert source.log.fields == [Fixed(4)] && source.log.vals == [Raw(LE(n, 4))];
    assert [Fixed(4)] + [] == [Fixed(4)];
    Told(source.s, at, source.off, source.log, []);
    ReadOne(s, Fixed(4));
  }

  lemma NextHash(digest: T.Digest, txs: seq<T.Transaction>, t: T.Transaction, hashes: seq<Uint256>, hash: Uint256)
    requires TxsFit(txs + [t]) && TxsFit(txs) && hashes == Hashes(digest, txs)
    requires T.WellFormed(t) && hash == T.TxHash(digest, t)
    ensures Hashes(digest, txs + [t]) == hashes + [hash]
    ensures hash in hashes ==> !Distinct(hashes + [hash])
    ensures hash !in hashes && Distinct(hashes) ==> Distinct(hashes + [hash])
  {
    hide TxsFit, T.TxHash;
    if hash in hashes {
      var i :| 0 <= i < |hashes| && hashes[i] == hash;
      assert (hashes + [hash])[i] == (hashes + [hash])[|hashes|];
    }
  }

  lemma NoTxs(s: Bytes)
    ensures DecodeTxs(0, s) == Some(Parsed([], s)) && TxsFit([]) && Distinct<Uint256>([])
  {
  }

  lemma MoreTxs(i: nat, n: nat, s: Bytes)
    requires i < n && DecodeTxs(i, s).Some?
    ensures var b, t := DecodeTxs(i, s).value, T.DecodeTx(DecodeTxs(i, s).value.rest);
      DecodeTxs(i + 1, s) == if t.None? then None else Some(Parsed(b.value + [t.value.value], t.value.rest))
    ensures DecodeTxs(i + 1, s).None? ==> DecodeTxs(n, s).None?
  {
    hide T.DecodeTx;
    if DecodeTxs(n, s).Some? { TxsPrefix(i + 1, n, s); }
  }

  lemma DistinctPrefix(all: seq<Uint256>, few: seq<Uint256>)
    requires |few| <= |all| && forall k :: 0 <= k < |few| ==> all[k] == few[k]
    ensures Distinct(all) ==> Distinct(few)
  {
  }

  lemma Duplicated(digest: T.Digest, i: nat, n: nat, s: Bytes, ts: seq<T.Transaction>)
    requires i <= n && DecodeTxs(i, s).Some? && DecodeTxs(i, s).value.value == ts && TxsFit(ts)
    requires !Distinct(Hashes(digest, ts))
    ensures DecodeTxs(n, s).Some? ==>
      TxsFit(DecodeTxs(n, s).value.value) && !Distinct(Hashes(digest, DecodeTxs(n, s).value.value))
  {
    hide T.DecodeTx, DecodeTxs, T.TxHash, TxsFit, Distinct;
    if DecodeTxs(n, s).Some? {
      TxsPrefix(i, n, s);
      TxsReencode(n, s);
      var all := DecodeTxs(n, s).value.value;
      DistinctPrefix(Hashes(digest, all), Hashes(digest, ts));
    }
  }

  /** Decodes the transactions in turn, and stops at one that was there before. */
  method DeserializeTxs(digest: T.Digest, source: ZeroCopySource, length: nat)
    returns (txs: seq<T.Transaction>, hashes: seq<Uint256>, ok: bool)
    requires source.Good()
    modifies source`off, source`log, source`start
    ensures var d := DecodeTxs(length, old(source.Rest()));
      if ok then source.Good() && d == Some(Parsed(txs, source.Rest())) && TxsFit(txs)
                 && hashes == Hashes(digest, txs) && Distinct(hashes)
      else d.None? || (TxsFit(d.value.value) && !Distinct(Hashes(digest, d.value.value)))
  {
    hide T.DecodeTx, T.EncodeTx, T.WellFormed, Tells, TxsFit, DecodeTxs, T.TxHash, Distinct, Hashes;
    ghost var s := source.Rest();
    var mask: set<Uint256> := {};
    txs, hashes, ok := [], [], false;
    NoTxs(s);
    for i := 0 to length
      invariant source.Good() && DecodeTxs(i, s) == Some(Parsed(txs, source.Rest())) && |txs| == |hashes| == i
      invariant TxsFit(txs) && hashes == Hashes(digest, txs) && Distinct(hashes)
      invariant mask == set h | h in hashes
    {
      var t, raw, hash := T.Deserialization(digest, source);
      MoreTxs(i, length, s);
      if t.None? {
        return;
      }
      TxsReencode(i + 1, s);
      NextHash(digest, txs, t.value, hashes, hash);
      txs := txs + [t.value];
      if hash in mask {
        Duplicated(digest, i + 1, length, s, txs);
        return;
      }
      mask, hashes := mask + {hash}, hashes + [hash];
    }
    ok := true;
  }

  method Deserialization(x: Foreign, source: ZeroCopySource) returns (b: Option<Block>)
    requires source.Good()
    modifies source`off, source`log, source`start
    ensures var d := DecodeBlock(x, old(source.Rest()));
      b.Some? == d.Some? && (b.Some? ==> source.Good() && Parsed(b.value, source.Rest()) == d.value)
  {
    hide H.DecodeHeader, R.Root, FromLE, Tells, TxsFit, DecodeTxs, T.TxHash, Distinct;
    var header := H.Deserialization(x.key, source);
    if header.None? {
      return None;
    }
    var length, eof := NextCount(source);
    if eof {
      return None;
    }
    var txs, hashes, ok := DeserializeTxs(x.digest, source, length);
    if !ok {
      return None;
    }
    var work := new Uint256[|hashes|](i requires 0 <= i < |hashes| => hashes[i]);
    assert work[..] == hashes;
    var root := R.ComputeMerkleRoot(x.pair, work);
    if header.value.transactionsRoot != root {
      return None;
    }
    b := Some(Block(header.value, txs));
  }
}
