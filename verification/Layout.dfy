/** The bytes of the format, one by one: how a number, a list, a header, a transaction and a block
    are laid out. The codecs are tied to each other by round trips; this ties them to the format. */
module Layout {
  import opened Common
  import opened Wire
  import opened WireList
  import H = HeaderCodec
  import T = TransactionCodec
  import B = BlockCodec
  import Modulo

  // ---------- numbers ----------

  lemma Scaled(v: nat, x: nat, p: nat, q: nat, r: nat)
    requires x == v / 256 && x == q * p + r && r < p
    ensures v == q * (256 * p) + (256 * r + v % 256) && 256 * r + v % 256 < 256 * p
  {
    assert q * (256 * p) == 256 * (q * p);
  }

  lemma DivideTwice(v: nat, p: nat)
    requires p > 0
    ensures (v / 256) / p == v / (256 * p)
  {
    var x := v / 256;
    Modulo.Divided(x, p);
    Scaled(v, x, p, x / p, x % p);
    Modulo.DivUnique(v, x / p, 256 * (x % p) + v % 256, 256 * p);
  }

  /** Byte `i` of a fixed-size number has weight `256^i`: the least significant one comes first. */
  lemma {:induction false} NumberLayout(v: nat, n: nat, i: nat)
    requires i < n
    ensures LE(v, n)[i] == v / Pow256(i) % 256
    decreases n
  {
    if i > 0 {
      NumberLayout(v / 256, n - 1, i - 1);
      DivideTwice(v, Pow256(i - 1));
    }
  }

  /** A number below 0xFD is its own byte. Any other has a byte for its width, which is the shortest
      of 2, 4 and 8 bytes, and these. */
  lemma VarUintLayout(v: nat)
    requires v < U64_SIZE
    ensures var e := EncodeVarUint(v);
      && (v < 0xFD ==> e == [v])
      && (0xFD <= v < 0x1_0000 ==> e == [0xFD] + LE(v, 2))
      && (0x1_0000 <= v < 0x1_0000_0000 ==> e == [0xFE] + LE(v, 4))
      && (0x1_0000_0000 <= v ==> e == [0xFF] + LE(v, 8))
  {
  }

  // ---------- lists of fields ----------

  /** Bytes behind their length. */
  function Counted(b: Bytes): Bytes
  {
    EncodeVarUint(|b|) + b
  }

  lemma Field(f: Field, v: Val, fs: seq<Field>, vs: seq<Val>)
    requires Fits(f, v) && AllFit(fs, vs)
    ensures AllFit([f] + fs, [v] + vs) && Encode([f] + fs, [v] + vs) == EncodeField(f, v) + Encode(fs, vs)
  {
    hide Encode, EncodeField, Fits;
    EncodeOne(f, v);
    EncodeBoth([f], [v], fs, vs);
  }

  lemma NoField()
    ensures AllFit([], []) && Encode([], []) == []
  {
  }

  /** The items of a list, each behind its length. */
  function Joined(items: seq<Bytes>): Bytes
  {
    if items == [] then [] else Counted(items[0]) + Joined(items[1..])
  }

  lemma TailFits(fs: seq<Field>, vs: seq<Val>)
    requires fs != [] && AllFit(fs, vs)
    ensures Fits(fs[0], vs[0]) && AllFit(fs[1..], vs[1..])
  {
    hide Fits;
  }

  lemma FirstItem(items: seq<Bytes>)
    requires items != [] && AllFit(Repeat(|items|), Vals(items))
    ensures var rest := items[1..];
      && Fits(VarBytes, Raw(items[0])) && AllFit(Repeat(|rest|), Vals(rest))
      && Repeat(|items|) == [VarBytes] + Repeat(|rest|) && Vals(items) == [Raw(items[0])] + Vals(rest)
  {
    hide Fits, Repeat, Vals;
    var rest, fs, vs := items[1..], Repeat(|items|), Vals(items);
    TailFits(fs, vs);
    hide AllFit;
    assert Repeat(|rest|) == fs[1..] && Vals(rest) == vs[1..];
  }

  lemma ItemField(b: Bytes)
    requires Fits(VarBytes, Raw(b))
    ensures EncodeField(VarBytes, Raw(b)) == Counted(b)
  {
  }

  lemma {:induction false} ItemsLayout(items: seq<Bytes>)
    requires AllFit(Repeat(|items|), Vals(items))
    ensures Encode(Repeat(|items|), Vals(items)) == Joined(items)
  {
    if items == [] {
      NoField();
      assert Repeat(0) == [] && Vals(items) == [];
    } else {
      hide Encode, Fits, AllFit, EncodeVarUint;
      var rest := items[1..];
      FirstItem(items);
      ItemsLayout(rest);
      Field(VarBytes, Raw(items[0]), Repeat(|rest|), Vals(rest));
      ItemField(items[0]);
    }
  }

  /** A list is its count and its items. */
  lemma ListLayout(items: seq<Bytes>)
    requires ListFits(items)
    ensures EncodeList(items) == EncodeVarUint(|items|) + Joined(items)
  {
    ItemsLayout(items);
  }

  // ---------- headers ----------

  lemma Tails<T>(s: seq<T>)
    requires |s| == 9
    ensures [s[8]] + [] == s[8..] && [s[7]] + s[8..] == s[7..] && [s[6]] + s[7..] == s[6..] && [s[5]] + s[6..] == s[5..]
    ensures [s[4]] + s[5..] == s[4..] && [s[3]] + s[4..] == s[3..] && [s[2]] + s[3..] == s[2..]
    ensures [s[1]] + s[2..] == s[1..] && [s[0]] + s[1..] == s
  {
  }

  /** The nine fields of a header in their order, and its two lists. */
  lemma HeaderLayout(h: H.Header)
    requires H.WellFormed(h)
    ensures H.EncodeHeader(h) ==
      (LE(h.version, 4) + (h.prevBlockHash + (h.transactionsRoot + (h.blockRoot + (LE(h.timestamp, 4) +
        (LE(h.height, 4) + (LE(h.consensusData, 8) + (Counted(h.consensusPayload) + h.nextBookkeeper)))))))) +
      (EncodeVarUint(|h.bookkeepers|) + Joined(h.bookkeepers) + (EncodeVarUint(|h.sigData|) + Joined(h.sigData)))
  {
    hide Encode, LE, Pow256, EncodeVarUint, ListFits;
    ListLayout(h.bookkeepers);
    ListLayout(h.sigData);
    NoField();
    var f, v := H.UNSIGNED, H.UnsignedVals(h);
    Field(f[8], v[8], [], []);
    Field(f[7], v[7], f[8..], v[8..]);
    Field(f[6], v[6], f[7..], v[7..]);
    Field(f[5], v[5], f[6..], v[6..]);
    Field(f[4], v[4], f[5..], v[5..]);
    Field(f[3], v[3], f[4..], v[4..]);
    Field(f[2], v[2], f[3..], v[3..]);
    Field(f[1], v[1], f[2..], v[2..]);
    Field(f[0], v[0], f[1..], v[1..]);
    Tails(f);
    Tails(v);
    assert h.nextBookkeeper + [] == h.nextBookkeeper;
  }

  // ---------- transactions ----------

  function Contract(d: T.DeployCode): Bytes
  {
    Counted(d.code) + ([d.vmFlags] + (Counted(d.name) + (Counted(d.version) + (Counted(d.author) +
      (Counted(d.email) + Counted(d.description))))))
  }

  lemma SevenTails<T>(s: seq<T>)
    requires |s| == 7
    ensures [s[6]] + [] == s[6..] && [s[5]] + s[6..] == s[5..] && [s[4]] + s[5..] == s[4..] && [s[3]] + s[4..] == s[3..]
    ensures [s[2]] + s[3..] == s[2..] && [s[1]] + s[2..] == s[1..] && [s[0]] + s[1..] == s
  {
  }

  lemma ContractLayout(d: T.DeployCode)
    requires AllFit(T.DEPLOY_FIELDS, T.DeployVals(d))
    ensures Encode(T.DEPLOY_FIELDS, T.DeployVals(d)) == Contract(d)
  {
    hide Encode, EncodeVarUint;
    NoField();
    var f, v := T.DEPLOY_FIELDS, T.DeployVals(d);
    assert forall i :: 0 <= i < 7 ==> Fits(f[i], v[i]);
    Field(f[6], v[6], [], []);
    Field(f[5], v[5], f[6..], v[6..]);
    Field(f[4], v[4], f[5..], v[5..]);
    Field(f[3], v[3], f[4..], v[4..]);
    Field(f[2], v[2], f[3..], v[3..]);
    Field(f[1], v[1], f[2..], v[2..]);
    Field(f[0], v[0], f[1..], v[1..]);
    SevenTails(f);
    SevenTails(v);
    assert Counted(d.description) + [] == Counted(d.description);
  }

  lemma SixTails<T>(s: seq<T>)
    requires |s| == 6
    ensures [s[5]] + [] == s[5..] && [s[4]] + s[5..] == s[4..] && [s[3]] + s[4..] == s[3..]
    ensures [s[2]] + s[3..] == s[2..] && [s[1]] + s[2..] == s[1..] && [s[0]] + s[1..] == s
  {
  }

  lemma HeadLayout(t: T.Transaction)
    requires T.UnsignedEncodable(t)
    ensures Encode(T.HEAD_FIELDS, T.HeadVals(t)) ==
      [t.version] + ([t.txType] + (LE(t.nonce, 4) + (LE(t.gasPrice, 8) + (LE(t.gasLimit, 8) + t.payer))))
  {
    hide Encode, LE, Pow256, T.PayloadEncodable;
    NoField();
    var f, v := T.HEAD_FIELDS, T.HeadVals(t);
    assert forall i :: 0 <= i < 6 ==> Fits(f[i], v[i]);
    Field(f[5], v[5], [], []);
    Field(f[4], v[4], f[5..], v[5..]);
    Field(f[3], v[3], f[4..], v[4..]);
    Field(f[2], v[2], f[3..], v[3..]);
    Field(f[1], v[1], f[2..], v[2..]);
    Field(f[0], v[0], f[1..], v[1..]);
    SixTails(f);
    SixTails(v);
    assert t.payer + [] == t.payer;
  }

  /** Both parts of every signature, each behind its length. */
  function Signatures(sigs: seq<T.RawSig>): Bytes
  {
    if sigs == [] then [] else Counted(sigs[0].invoke) + (Counted(sigs[0].verify) + Signatures(sigs[1..]))
  }

  lemma {:induction false} FlattenFirst(sigs: seq<T.RawSig>)
    requires sigs != []
    ensures T.Flatten(sigs) == [sigs[0].invoke, sigs[0].verify] + T.Flatten(sigs[1..])
  {
    var n := |sigs| - 1;
    if n > 0 {
      FlattenFirst(sigs[..n]);
      assert sigs[..n][1..] == sigs[1..][..n - 1];
    }
  }

  lemma {:induction false} SignaturesLayout(sigs: seq<T.RawSig>)
    ensures Joined(T.Flatten(sigs)) == Signatures(sigs)
  {
    if sigs != [] {
      hide T.Flatten, Counted;
      FlattenFirst(sigs);
      SignaturesLayout(sigs[1..]);
      var all := T.Flatten(sigs);
      assert all[1..][1..] == T.Flatten(sigs[1..]);
      assert Joined(all[1..]) == Counted(all[1..][0]) + Joined(all[1..][1..]);
    }
  }

  /** The head, the payload, no attributes, and the signatures. */
  lemma TransactionLayout(t: T.Transaction)
    requires T.Encodable(t)
    ensures T.EncodeTx(t) == T.EncodeUnsigned(t) + (EncodeVarUint(|t.sigs|) + Signatures(t.sigs))
    ensures T.EncodeUnsigned(t) ==
      ([t.version] + ([t.txType] + (LE(t.nonce, 4) + (LE(t.gasPrice, 8) + (LE(t.gasLimit, 8) + t.payer))))) +
      ((match t.payload case Invoke(code) => Counted(code) case Deploy(d) => Contract(d)) + [0])
  {
    hide Encode, LE, Pow256, T.Flatten;
    HeadLayout(t);
    if t.payload.Deploy? { ContractLayout(t.payload.deploy); }
    ItemsLayout(T.Flatten(t.sigs));
    SignaturesLayout(t.sigs);
  }

  // ---------- blocks ----------

  function Transactions(ts: seq<T.Transaction>): Bytes
    requires B.TxsFit(ts)
  {
    if ts == [] then [] else T.EncodeTx(ts[0]) + Transactions(ts[1..])
  }

  lemma {:induction false} FirstTx(ts: seq<T.Transaction>)
    requires ts != [] && B.TxsFit(ts)
    ensures B.EncodeTxs(ts) == T.EncodeTx(ts[0]) + B.EncodeTxs(ts[1..])
  {
    hide T.EncodeTx;
    var n := |ts| - 1;
    if n > 0 {
      FirstTx(ts[..n]);
      assert ts[..n][1..] == ts[1..][..n - 1];
      Assoc(T.EncodeTx(ts[0]), B.EncodeTxs(ts[1..][..n - 1]), T.EncodeTx(ts[n]));
    } else {
      assert ts[..0] == [] && ts[1..] == [];
      assert [] + T.EncodeTx(ts[0]) == T.EncodeTx(ts[0]) == T.EncodeTx(ts[0]) + [];
    }
  }

  lemma {:induction false} TransactionsLayout(ts: seq<T.Transaction>)
    requires B.TxsFit(ts)
    ensures B.EncodeTxs(ts) == Transactions(ts)
  {
    if ts != [] {
      hide T.EncodeTx;
      TransactionsLayout(ts[1..]);
      FirstTx(ts);
    }
  }

  /** The header, the number of transactions in four bytes, and the transactions in order. */
  lemma BlockLayout(b: B.Block)
    requires B.BlockFits(b)
    ensures B.EncodeBlock(b) ==
      H.EncodeHeader(b.header) + (LE(|b.transactions|, 4) + Transactions(b.transactions))
  {
    TransactionsLayout(b.transactions);
  }
}
