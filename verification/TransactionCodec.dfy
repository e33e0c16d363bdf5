/** Transactions of core/types/transaction.go with the payloads of core/payload: encoder,
    decoder, raw bytes and hash. `Digest` is the double SHA-256 of the unsigned part. */
module TransactionCodec {
  import opened Common
  import opened Wire
  import opened WireSource
  import opened WireSink
  import opened WireList

  const MAX_TX_SIZE: nat := 1024 * 1024
  const TX_MAX_SIG_SIZE: nat := 16
  const DEPLOY: byte := 0xd0
  const INVOKE_NEO: byte := 0xd1
  const INVOKE_WASM: byte := 0xd2
  const MAX_WASM_CODE_SIZE: nat := 512 * 1024
  const MAX_NEO_CODE_SIZE: nat := 1024 * 1024

  type Digest = Bytes -> Uint256

  datatype DeployCode = DeployCode(code: Bytes, vmFlags: byte, name: Bytes, version: Bytes, author: Bytes,
                                   email: Bytes, description: Bytes)

  datatype Payload = Invoke(code: Bytes) | Deploy(deploy: DeployCode)

  datatype RawSig = RawSig(invoke: Bytes, verify: Bytes)

  datatype Transaction = Transaction(version: byte, txType: byte, nonce: nat, gasPrice: nat, gasLimit: nat,
                                     payer: Bytes, payload: Payload, sigs: seq<RawSig>)

  const HEAD_FIELDS: seq<Field> := [Fixed(1), Fixed(1), Fixed(4), Fixed(8), Fixed(8), Fixed(20)]

  const DEPLOY_FIELDS: seq<Field> := [VarBytes, Fixed(1), VarBytes, VarBytes, VarBytes, VarBytes, VarBytes]

  // ---------- payloads ----------

  function DeployVals(d: DeployCode): (vs: seq<Val>)
  {
    [Raw(d.code), Raw([d.vmFlags]), Raw(d.name), Raw(d.version), Raw(d.author), Raw(d.email), Raw(d.description)]
  }

  /** `validateDeployCode`. */
  predicate ValidDeploy(d: DeployCode): (r: bool)
    ensures r ==> AllFit(DEPLOY_FIELDS, DeployVals(d))
  {
    && d.vmFlags in {0, 1, 3}
    && |d.code| <= (if d.vmFlags == 3 then MAX_WASM_CODE_SIZE else MAX_NEO_CODE_SIZE)
    && |d.name| <= 252 && |d.version| <= 252 && |d.author| <= 252 && |d.email| <= 252 && |d.description| <= 65536
  }

  function DeployOf(vs: seq<Val>): (d: DeployCode)
    requires AllFit(DEPLOY_FIELDS, vs)
    ensures DeployVals(d) == vs
  {
    assert forall i :: 0 <= i < 7 ==> Fits(DEPLOY_FIELDS[i], vs[i]);
    assert [vs[1].bytes[0]] == vs[1].bytes;
    DeployCode(vs[0].bytes, vs[1].bytes[0], vs[2].bytes, vs[3].bytes, vs[4].bytes, vs[5].bytes, vs[6].bytes)
  }

  function DecodeDeploy(s: Bytes): Option<Parsed<DeployCode>>
  {
    match Read(DEPLOY_FIELDS, s)
    case None => None
    case Some(r) =>
      Reencodes(DEPLOY_FIELDS, s);
      var d := DeployOf(r.value);
      if ValidDeploy(d) then Some(Parsed(d, r.rest)) else None
  }

  function DecodeInvoke(s: Bytes): Option<Parsed<Bytes>>
  {
    match ReadField(VarBytes, s)
    case None => None
    case Some(r) => Some(Parsed(r.value.bytes, r.rest))
  }

  /** All lengths have 64 bits. */
  predicate PayloadEncodable(p: Payload)
  {
    match p
    case Invoke(code) => |code| < U64_SIZE
    case Deploy(d) => AllFit(DEPLOY_FIELDS, DeployVals(d))
  }

  /** The payload is one that its type of transaction has, and valid. */
  predicate PayloadFits(txType: byte, p: Payload): (r: bool)
    ensures r ==> PayloadEncodable(p)
  {
    match p
    case Invoke(code) => txType in {INVOKE_NEO, INVOKE_WASM} && |code| < U64_SIZE
    case Deploy(d) => txType == DEPLOY && ValidDeploy(d)
  }

  function EncodePayload(p: Payload): Bytes
    requires PayloadEncodable(p)
  {
    match p
    case Invoke(code) => EncodeField(VarBytes, Raw(code))
    case Deploy(d) => Encode(DEPLOY_FIELDS, DeployVals(d))
  }

  function DecodePayload(txType: byte, s: Bytes): Option<Parsed<Payload>>
  {
    if txType in {INVOKE_NEO, INVOKE_WASM} then
      var r := DecodeInvoke(s);
      if r.None? then None else Some(Parsed(Invoke(r.value.value), r.value.rest))
    else if txType == DEPLOY then
      var r := DecodeDeploy(s);
      if r.None? then None else Some(Parsed(Deploy(r.value.value), r.value.rest))
    else None
  }

  lemma PayloadRoundTrip(txType: byte, p: Payload, rest: Bytes)
    requires PayloadFits(txType, p)
    ensures DecodePayload(txType, EncodePayload(p) + rest) == Some(Parsed(p, rest))
  {
    hide Read, ReadField, Encode, EncodeField, ValidDeploy;
    match p
    case Invoke(code) => FieldRoundTrip(VarBytes, Raw(code), rest);
    case Deploy(d) =>
      RoundTrip(DEPLOY_FIELDS, DeployVals(d), rest);
  }

  lemma PayloadReencodes(txType: byte, s: Bytes)
    requires DecodePayload(txType, s).Some?
    ensures var d := DecodePayload(txType, s).value;
      PayloadFits(txType, d.value) && s == EncodePayload(d.value) + d.rest
  {
    hide Read, ReadField, Encode, EncodeField, ValidDeploy;
    if txType == DEPLOY {
      Reencodes(DEPLOY_FIELDS, s);
    } else {
      FieldReencodes(VarBytes, s);
    }
  }

  lemma PayloadExtends(txType: byte, s: Bytes, q: Bytes)
    requires DecodePayload(txType, s).Some?
    ensures var d := DecodePayload(txType, s).value;
      DecodePayload(txType, s + q) == Some(Parsed(d.value, d.rest + q))
  {
    hide Read, ReadField, ValidDeploy;
    if txType == DEPLOY {
      Extends(DEPLOY_FIELDS, s, q);
    } else {
      FieldExtends(VarBytes, s, q);
    }
  }

  // ---------- signatures ----------

  function Flatten(sigs: seq<RawSig>): (items: seq<Bytes>)
    ensures |items| == 2 * |sigs|
  {
    if sigs == [] then []
    else
      var n := |sigs| - 1;
      Flatten(sigs[..n]) + [sigs[n].invoke, sigs[n].verify]
  }

  function Pairs(items: seq<Bytes>): (sigs: seq<RawSig>)
    ensures |sigs| == |items| / 2
  {
    if |items| < 2 then []
    else
      var n := |items| - 2;
      Pairs(items[..n]) + [RawSig(items[n], items[n + 1])]
  }

  lemma {:induction false} PairsOfFlatten(sigs: seq<RawSig>)
    ensures Pairs(Flatten(sigs)) == sigs
  {
    if sigs != [] {
      var n := |sigs| - 1;
      PairsOfFlatten(sigs[..n]);
      assert Flatten(sigs)[..2 * n] == Flatten(sigs[..n]);
      assert sigs == sigs[..n] + [sigs[n]];
    }
  }

  lemma {:induction false} FlattenOfPairs(items: seq<Bytes>, n: nat)
    requires |items| == 2 * n
    ensures Flatten(Pairs(items)) == items
    decreases n
  {
    if n > 0 {
      var m := |items| - 2;
      FlattenOfPairs(items[..m], n - 1);
      var sigs := Pairs(items);
      assert sigs[..n - 1] == Pairs(items[..m]);
      assert items == items[..m] + [items[m], items[m + 1]];
    } else {
      assert Pairs(items) == [];
    }
  }

  predicate SigsEncodable(sigs: seq<RawSig>)
  {
    |sigs| < U64_SIZE && AllFit(Repeat(2 * |sigs|), Vals(Flatten(sigs)))
  }

  predicate SigsFit(sigs: seq<RawSig>): (r: bool)
    ensures r ==> SigsEncodable(sigs)
  {
    |sigs| <= TX_MAX_SIG_SIZE && SigsEncodable(sigs)
  }

  function EncodeSigs(sigs: seq<RawSig>): Bytes
    requires SigsEncodable(sigs)
  {
    EncodeVarUint(|sigs|) + Encode(Repeat(2 * |sigs|), Vals(Flatten(sigs)))
  }

  function DecodeSigs(s: Bytes): Option<Parsed<seq<RawSig>>>
  {
    match DecodeVarUint(s)
    case None => None
    case Some(c) =>
      if c.value > TX_MAX_SIG_SIZE then None
      else
        match Read(Repeat(2 * c.value), c.rest)
        case None => None
        case Some(d) => Some(Parsed(Pairs(Items(d.value)), d.rest))
  }

  lemma SigsRoundTrip(sigs: seq<RawSig>, rest: Bytes)
    requires SigsFit(sigs)
    ensures DecodeSigs(EncodeSigs(sigs) + rest) == Some(Parsed(sigs, rest))
  {
    hide DecodeVarUint, EncodeVarUint, Read, Encode, Pairs, Flatten;
    var items := Flatten(sigs);
    var body := Encode(Repeat(|items|), Vals(items));
    Assoc(EncodeVarUint(|sigs|), body, rest);
    VarUintRoundTrip(|sigs|, body + rest);
    RoundTrip(Repeat(|items|), Vals(items), rest);
    ItemsOfVals(items);
    PairsOfFlatten(sigs);
  }

  lemma SigsReencode(s: Bytes)
    requires DecodeSigs(s).Some?
    ensures var d := DecodeSigs(s).value; SigsFit(d.value) && s == EncodeSigs(d.value) + d.rest
  {
    hide DecodeVarUint, EncodeVarUint, Read, Encode, Pairs, Flatten;
    VarUintReencodes(s);
    var c := DecodeVarUint(s).value;
    var n := 2 * c.value;
    ReadFits(n, c.rest);
    var r := Read(Repeat(n), c.rest).value;
    FlattenOfPairs(Items(r.value), c.value);
    Assoc(EncodeVarUint(c.value), Encode(Repeat(n), r.value), r.rest);
  }

  lemma SigsExtend(s: Bytes, q: Bytes)
    requires DecodeSigs(s).Some?
    ensures var d := DecodeSigs(s).value; DecodeSigs(s + q) == Some(Parsed(d.value, d.rest + q))
  {
    hide DecodeVarUint, Read, Pairs;
    VarUintExtends(s, q);
    var c := DecodeVarUint(s).value;
    Extends(Repeat(2 * c.value), c.rest, q);
  }

  // ---------- transactions ----------

  predicate UnsignedEncodable(t: Transaction)
  {
    && t.nonce < Pow256(4) && t.gasPrice < Pow256(8) && t.gasLimit < Pow256(8) && |t.payer| == 20
    && PayloadEncodable(t.payload)
  }

  predicate UnsignedFits(t: Transaction): (r: bool)
    ensures r ==> UnsignedEncodable(t)
  {
    UnsignedEncodable(t) && PayloadFits(t.txType, t.payload)
  }

  /** What can be written at all: every number and length has its bytes. */
  predicate Encodable(t: Transaction)
  {
    UnsignedEncodable(t) && SigsEncodable(t.sigs)
  }

  /** What is accepted, but for the size: the payload fits its type and is valid, and there
      are not too many signatures. */
  predicate WellFormed(t: Transaction): (r: bool)
    ensures r ==> Encodable(t)
  {
    UnsignedFits(t) && SigsFit(t.sigs)
  }

  function HeadVals(t: Transaction): (vs: seq<Val>)
    requires UnsignedEncodable(t)
    ensures AllFit(HEAD_FIELDS, vs)
  {
    [Raw([t.version]), Raw([t.txType]), Raw(LE(t.nonce, 4)), Raw(LE(t.gasPrice, 8)), Raw(LE(t.gasLimit, 8)),
     Raw(t.payer)]
  }

  lemma HeadAt(vs: seq<Val>)
    requires AllFit(HEAD_FIELDS, vs)
    ensures |vs| == 6 && forall i :: 0 <= i < 6 ==> vs[i].Raw?
    ensures |vs[0].bytes| == |vs[1].bytes| == 1 && |vs[2].bytes| == 4 && |vs[3].bytes| == |vs[4].bytes| == 8
    ensures |vs[5].bytes| == 20
  {
    assert forall i :: 0 <= i < 6 ==> Fits(HEAD_FIELDS[i], vs[i]);
  }

  function HeadOf(vs: seq<Val>, payload: Payload, sigs: seq<RawSig>): Transaction
    requires AllFit(HEAD_FIELDS, vs)
  {
    HeadAt(vs);
    Transaction(vs[0].bytes[0], vs[1].bytes[0], FromLE(vs[2].bytes), FromLE(vs[3].bytes), FromLE(vs[4].bytes),
                vs[5].bytes, payload, sigs)
  }

  function EncodeUnsigned(t: Transaction): Bytes
    requires UnsignedEncodable(t)
  {
    Encode(HEAD_FIELDS, HeadVals(t)) + (EncodePayload(t.payload) + EncodeVarUint(0))
  }

  function EncodeTx(t: Transaction): Bytes
    requires Encodable(t)
  {
    EncodeUnsigned(t) + EncodeSigs(t.sigs)
  }

  /** What a contract may be. */
  lemma DeployLimits(d: DeployCode)
    ensures ValidDeploy(d) <==>
      && (d.vmFlags == 0 || d.vmFlags == 1 || d.vmFlags == 3)
      && (d.vmFlags == 3 ==> |d.code| <= 524288) && |d.code| <= 1048576
      && |d.name| <= 252 && |d.version| <= 252 && |d.author| <= 252 && |d.email| <= 252 && |d.description| <= 65536
  {
  }

  /** The hash covers the unsigned part alone. */
  function TxHash(digest: Digest, t: Transaction): Uint256
    requires UnsignedFits(t)
  {
    digest(EncodeUnsigned(t))
  }

  /** A payload, and no attributes after it. */
  function DecodeBody(txType: byte, s: Bytes): Option<Parsed<Payload>>
  {
    match DecodePayload(txType, s)
    case None => None
    case Some(p) =>
      match DecodeVarUint(p.rest)
      case None => None
      case Some(a) => if a.value == 0 then Some(Parsed(p.value, a.rest)) else None
  }

  function DecodeUnsigned(s: Bytes): Option<Parsed<Transaction>>
  {
    match Read(HEAD_FIELDS, s)
    case None => None
    case Some(h) =>
      Reencodes(HEAD_FIELDS, s);
      HeadAt(h.value);
      match DecodeBody(h.value[1].bytes[0], h.rest)
      case None => None
      case Some(p) => Some(Parsed(HeadOf(h.value, p.value, []), p.rest))
  }

  function DecodeTx(s: Bytes): Option<Parsed<Transaction>>
  {
    match DecodeUnsigned(s)
    case None => None
    case Some(u) =>
      match DecodeSigs(u.rest)
      case None => None
      case Some(g) =>
        if |s| - |g.rest| > MAX_TX_SIZE then None else Some(Parsed(u.value.(sigs := g.value), g.rest))
  }

  lemma BodyRoundTrip(txType: byte, p: Payload, rest: Bytes)
    requires PayloadFits(txType, p)
    ensures DecodeBody(txType, EncodePayload(p) + EncodeVarUint(0) + rest) == Some(Parsed(p, rest))
  {
    hide DecodePayload, EncodePayload, DecodeVarUint, EncodeVarUint, PayloadFits;
    Assoc(EncodePayload(p), EncodeVarUint(0), rest);
    PayloadRoundTrip(txType, p, EncodeVarUint(0) + rest);
    VarUintRoundTrip(0, rest);
  }

  lemma BodyReencodes(txType: byte, s: Bytes)
    requires DecodeBody(txType, s).Some?
    ensures var d := DecodeBody(txType, s).value;
      PayloadFits(txType, d.value) && s == EncodePayload(d.value) + EncodeVarUint(0) + d.rest
  {
    hide DecodePayload, EncodePayload, DecodeVarUint, EncodeVarUint, PayloadFits;
    PayloadReencodes(txType, s);
    var p := DecodePayload(txType, s).value;
    VarUintReencodes(p.rest);
    Assoc(EncodePayload(p.value), EncodeVarUint(0), DecodeVarUint(p.rest).value.rest);
  }

  lemma BodyExtends(txType: byte, s: Bytes, q: Bytes)
    requires DecodeBody(txType, s).Some?
    ensures var d := DecodeBody(txType, s).value; DecodeBody(txType, s + q) == Some(Parsed(d.value, d.rest + q))
  {
    hide DecodePayload, DecodeVarUint;
    PayloadExtends(txType, s, q);
    VarUintExtends(DecodePayload(txType, s).value.rest, q);
  }

  lemma HeadOfVals(t: Transaction)
    requires UnsignedEncodable(t)
    ensures HeadOf(HeadVals(t), t.payload, t.sigs) == t
  {
    hide LE, FromLE, Pow256;
    LERoundTrip(t.nonce, 4);
    LERoundTrip(t.gasPrice, 8);
    LERoundTrip(t.gasLimit, 8);
  }

  lemma ValsOfHead(vs: seq<Val>, payload: Payload, sigs: seq<RawSig>)
    requires AllFit(HEAD_FIELDS, vs) && |vs| == 6 && vs[1].Raw? && vs[1].bytes != []
    requires PayloadFits(vs[1].bytes[0], payload)
    ensures var t := HeadOf(vs, payload, sigs);
      UnsignedFits(t) && HeadVals(t) == vs && t.txType == vs[1].bytes[0] && t.payload == payload && t.sigs == sigs
  {
    hide LE, FromLE, Pow256, PayloadFits, AllFit;
    HeadAt(vs);
    FromLERoundTrip(vs[2].bytes);
    FromLERoundTrip(vs[3].bytes);
    FromLERoundTrip(vs[4].bytes);
    assert [vs[0].bytes[0]] == vs[0].bytes && [vs[1].bytes[0]] == vs[1].bytes;
  }

  lemma UnsignedRoundTrip(t: Transaction, rest: Bytes)
    requires UnsignedFits(t)
    ensures DecodeUnsigned(EncodeUnsigned(t) + rest) == Some(Parsed(t.(sigs := []), rest))
  {
    hide Read, Encode, DecodeBody, EncodePayload, EncodeVarUint, HeadOf;
    var body := EncodePayload(t.payload) + EncodeVarUint(0);
    Assoc(Encode(HEAD_FIELDS, HeadVals(t)), body, rest);
    RoundTrip(HEAD_FIELDS, HeadVals(t), body + rest);
    BodyRoundTrip(t.txType, t.payload, rest);
    HeadOfVals(t.(sigs := []));
  }

  lemma UnsignedReencodes(s: Bytes)
    requires DecodeUnsigned(s).Some?
    ensures var d := DecodeUnsigned(s).value;
      UnsignedFits(d.value) && d.value.sigs == [] && s == EncodeUnsigned(d.value) + d.rest
  {
    hide Read, Encode, DecodeBody, EncodePayload, EncodeVarUint, HeadOf, HeadVals, PayloadFits, UnsignedFits;
    Reencodes(HEAD_FIELDS, s);
    var h := Read(HEAD_FIELDS, s).value;
    HeadAt(h.value);
    var txType := h.value[1].bytes[0];
    BodyReencodes(txType, h.rest);
    var p := DecodeBody(txType, h.rest).value;
    ValsOfHead(h.value, p.value, []);
    Assoc(Encode(HEAD_FIELDS, h.value), EncodePayload(p.value) + EncodeVarUint(0), p.rest);
  }

  lemma UnsignedExtends(s: Bytes, q: Bytes)
    requires DecodeUnsigned(s).Some?
    ensures var d := DecodeUnsigned(s).value; DecodeUnsigned(s + q) == Some(Parsed(d.value, d.rest + q))
  {
    hide Read, DecodeBody, HeadOf;
    Extends(HEAD_FIELDS, s, q);
    Reencodes(HEAD_FIELDS, s);
    var h := Read(HEAD_FIELDS, s).value;
    HeadAt(h.value);
    BodyExtends(h.value[1].bytes[0], h.rest, q);
  }

  lemma WellFormedRoundTrip(t: Transaction, rest: Bytes)
    requires WellFormed(t)
    ensures DecodeTx(EncodeTx(t) + rest) ==
      if |EncodeTx(t)| <= MAX_TX_SIZE then Some(Parsed(t, rest)) else None
  {
    hide DecodeUnsigned, EncodeUnsigned, DecodeSigs, EncodeSigs, UnsignedFits, SigsFit;
    Assoc(EncodeUnsigned(t), EncodeSigs(t.sigs), rest);
    UnsignedRoundTrip(t, EncodeSigs(t.sigs) + rest);
    SigsRoundTrip(t.sigs, rest);
  }

  lemma SameUnsigned(t: Transaction, sigs: seq<RawSig>)
    requires UnsignedFits(t)
    ensures UnsignedFits(t.(sigs := sigs)) && EncodeUnsigned(t.(sigs := sigs)) == EncodeUnsigned(t)
  {
  }

  /** Accepted bytes are re-encoded identically. */
  lemma TxReencodes(s: Bytes)
    requires DecodeTx(s).Some?
    ensures var d := DecodeTx(s).value;
      WellFormed(d.value) && s == EncodeTx(d.value) + d.rest && |EncodeTx(d.value)| <= MAX_TX_SIZE
    ensures DecodeUnsigned(s).Some?
    ensures s == EncodeUnsigned(DecodeTx(s).value.value) + DecodeUnsigned(s).value.rest
  {
    hide DecodeUnsigned, EncodeUnsigned, DecodeSigs, EncodeSigs, UnsignedFits, SigsFit;
    UnsignedReencodes(s);
    var u := DecodeUnsigned(s).value;
    SigsReencode(u.rest);
    var g := DecodeSigs(u.rest).value;
    SameUnsigned(u.value, g.value);
    Assoc(EncodeUnsigned(u.value), EncodeSigs(g.value), g.rest);
  }

  /** Decoding undoes encoding exactly for well-formed transactions up to the size limit. */
  lemma TxRoundTrip(t: Transaction, rest: Bytes)
    requires Encodable(t)
    ensures DecodeTx(EncodeTx(t) + rest) == Some(Parsed(t, rest)) <==> WellFormed(t) && |EncodeTx(t)| <= MAX_TX_SIZE
    ensures WellFormed(t) && |EncodeTx(t)| > MAX_TX_SIZE ==> DecodeTx(EncodeTx(t) + rest).None?
  {
    hide DecodeTx, EncodeTx, WellFormed;
    if WellFormed(t) { WellFormedRoundTrip(t, rest); }
    if DecodeTx(EncodeTx(t) + rest) == Some(Parsed(t, rest)) { TxReencodes(EncodeTx(t) + rest); }
  }

  lemma TxExtends(s: Bytes, q: Bytes)
    requires DecodeTx(s).Some?
    ensures var d := DecodeTx(s).value; DecodeTx(s + q) == Some(Parsed(d.value, d.rest + q))
  {
    hide DecodeUnsigned, DecodeSigs;
    UnsignedExtends(s, q);
    SigsExtend(DecodeUnsigned(s).value.rest, q);
  }

  /** No strict prefix of an accepted transaction is accepted. */
  lemma TxPrefixRejected(s: Bytes, n: nat)
    requires DecodeTx(s).Some? && n + |DecodeTx(s).value.rest| < |s|
    ensures DecodeTx(s[..n]).None?
  {
    hide DecodeTx;
    assert s == s[..n] + s[n..];
    if DecodeTx(s[..n]).Some? { TxExtends(s[..n], s[n..]); }
  }

  /** What is accepted is a call with code, or a valid contract, of its type, with few signatures and
      not too large. */
  lemma AcceptedLimits(s: Bytes)
    requires DecodeTx(s).Some?
    ensures var t := DecodeTx(s).value;
      && |s| - |t.rest| <= 1048576 && |t.value.sigs| <= 16
      && (if t.value.txType == 0xd0 then t.value.payload.Deploy? && ValidDeploy(t.value.payload.deploy)
          else (t.value.txType == 0xd1 || t.value.txType == 0xd2) && t.value.payload.Invoke?)
  {
    hide DecodeTx, EncodeTx, ValidDeploy;
    TxReencodes(s);
  }

  /** No strict prefix of an accepted contract is accepted. */
  lemma DeployPrefixRejected(s: Bytes, n: nat)
    requires DecodeDeploy(s).Some? && n + |DecodeDeploy(s).value.rest| < |s|
    ensures DecodeDeploy(s[..n]).None?
  {
    hide Read, ValidDeploy;
    assert s == s[..n] + s[n..];
    if DecodeDeploy(s[..n]).Some? { Extends(DEPLOY_FIELDS, s[..n], s[n..]); }
  }

  // ---------- as the source runs it ----------

  lemma SameDeploy(vs: seq<Val>, d: DeployCode)
    requires vs == DeployVals(d)
    ensures AllFit(DEPLOY_FIELDS, vs) ==> DeployOf(vs) == d
  {
    if AllFit(DEPLOY_FIELDS, vs) {
      assert DeployVals(DeployOf(vs)) == DeployVals(d);
      assert forall i :: 0 <= i < 7 ==> DeployVals(DeployOf(vs))[i] == DeployVals(d)[i];
      assert [DeployOf(vs).vmFlags][0] == [d.vmFlags][0];
    }
  }

  /** Seven fields, of which only the last end-of-data flag is looked at. */
  method DeserializeDeploy(source: ZeroCopySource) returns (d: Option<DeployCode>)
    requires source.Good()
    modifies source`off, source`log, source`start
    ensures source.off >= old(source.off)
    ensures var r := DecodeDeploy(old(source.Rest()));
      d.Some? == r.Some? && (d.Some? ==> source.Good() && Parsed(d.value, source.Rest()) == r.value)
  {
    hide Read, Tells, ValidDeploy, AllFit;
    var size, irregular, eof;
    var code, vmFlags, name, version, author, email, description;
    ghost var at := source.off;
    source.Mark();
    Seven(VarBytes, Fixed(1), VarBytes, VarBytes, VarBytes, VarBytes, VarBytes);
    code, size, irregular, eof := source.NextVarBytes();
    if irregular {
      ToldEarly(source.s, at, source.off, source.log, DEPLOY_FIELDS, 1);
      return None;
    }
    vmFlags, eof := source.NextByte();
    name, size, irregular, eof := source.NextVarBytes();
    if irregular {
      ToldEarly(source.s, at, source.off, source.log, DEPLOY_FIELDS, 3);
      return None;
    }
    version, size, irregular, eof := source.NextVarBytes();
    if irregular {
      ToldEarly(source.s, at, source.off, source.log, DEPLOY_FIELDS, 4);
      return None;
    }
    author, size, irregular, eof := source.NextVarBytes();
    if irregular {
      ToldEarly(source.s, at, source.off, source.log, DEPLOY_FIELDS, 5);
      return None;
    }
    email, size, irregular, eof := source.NextVarBytes();
    if irregular {
      ToldEarly(source.s, at, source.off, source.log, DEPLOY_FIELDS, 6);
      return None;
    }
    description, size, irregular, eof := source.NextVarBytes();
    if irregular || eof {
      ToldEarly(source.s, at, source.off, source.log, DEPLOY_FIELDS, 7);
      return None;
    }
    Told(source.s, at, source.off, source.log, []);
    var c := DeployCode(code, vmFlags, name, version, author, email, description);
    Seven(Raw(code), Raw([vmFlags]), Raw(name), Raw(version), Raw(author), Raw(email), Raw(description));
    SameDeploy(source.log.vals, c);
    d := if ValidDeploy(c) then Some(c) else None;
  }

  method DeserializeInvoke(source: ZeroCopySource) returns (code: Option<Bytes>)
    requires source.Good()
    modifies source`off, source`log, source`start
    ensures source.off >= old(source.off)
    ensures var r := DecodeInvoke(old(source.Rest()));
      code.Some? == r.Some? && (code.Some? ==> source.Good() && Parsed(code.value, source.Rest()) == r.value)
  {
    hide Read, ReadField, Tells;
    code := NextItem(source);
  }

  /** One number in shortest form. */
  method NextCount(source: ZeroCopySource) returns (n: Option<nat>)
    requires source.Good()
    modifies source`off, source`log, source`start
    ensures source.off >= old(source.off)
    ensures var r := DecodeVarUint(old(source.Rest()));
      n.Some? == r.Some? && (n.Some? ==> source.Good() && Parsed(n.value, source.Rest()) == r.value)
  {
    hide Read, DecodeVarUint, Tells;
    ghost var s, at := source.Rest(), source.off;
    source.Mark();
    var v, size, irregular, eof := source.NextVarUint();
    assert source.log.fields == [VarUint] && source.log.vals == [Num(v)];
    assert [VarUint] + [] == [VarUint];
    Told(source.s, at, source.off, source.log, []);
    ReadOne(s, VarUint);
    if irregular || eof {
      return None;
    }
    n := Some(v);
  }

  lemma SameHead(vs: seq<Val>, t: Transaction)
    requires t.nonce < Pow256(4) && t.gasPrice < Pow256(8) && t.gasLimit < Pow256(8) && |t.payer| == 20
    requires vs == [Raw([t.version]), Raw([t.txType]), Raw(LE(t.nonce, 4)), Raw(LE(t.gasPrice, 8)),
                    Raw(LE(t.gasLimit, 8)), Raw(t.payer)]
    ensures AllFit(HEAD_FIELDS, vs) && HeadOf(vs, t.payload, t.sigs) == t
  {
    hide LE, FromLE, Pow256;
    LERoundTrip(t.nonce, 4);
    LERoundTrip(t.gasPrice, 8);
    LERoundTrip(t.gasLimit, 8);
  }

  /** The head: six fields, and one look at the end-of-data flag. */
  method DeserializeHead(source: ZeroCopySource) returns (t: Option<Transaction>)
    requires source.Good()
    modifies source`off, source`log, source`start
    ensures source.off >= old(source.off)
    ensures var r := Read(HEAD_FIELDS, old(source.Rest()));
      t.Some? == r.Some? &&
      (t.Some? ==> source.Good() && source.Rest() == r.value.rest && AllFit(HEAD_FIELDS, r.value.value)
                   && t.value == HeadOf(r.value.value, Invoke([]), []))
  {
    hide Read, Tells, LE, FromLE, Pow256;
    var version, txType, nonce, gasPrice, gasLimit, payer, eof;
    ghost var at := source.off;
    source.Mark();
    version, eof := source.NextByte();
    txType, eof := source.NextByte();
    nonce, eof := source.NextUint(4);
    gasPrice, eof := source.NextUint(8);
    gasLimit, eof := source.NextUint(8);
    payer, eof := source.NextArray(20);
    Six(Fixed(1), Fixed(1), Fixed(4), Fixed(8), Fixed(8), Fixed(20));
    assert HEAD_FIELDS + [] == HEAD_FIELDS;
    Told(source.s, at, source.off, source.log, []);
    if eof {
      return None;
    }
    var head := Transaction(version, txType, nonce, gasPrice, gasLimit, payer, Invoke([]), []);
    Six(Raw([version]), Raw([txType]), Raw(LE(nonce, 4)), Raw(LE(gasPrice, 8)), Raw(LE(gasLimit, 8)), Raw(payer));
    SameHead(source.log.vals, head);
    t := Some(head);
  }

  method DeserializeUnsigned(source: ZeroCopySource) returns (t: Option<Transaction>)
    requires source.Good()
    modifies source`off, source`log, source`start
    ensures source.off >= old(source.off)
    ensures var r := DecodeUnsigned(old(source.Rest()));
      t.Some? == r.Some? && (t.Some? ==> source.Good() && Parsed(t.value, source.Rest()) == r.value)
  {
    hide Read, DecodeInvoke, DecodeDeploy, DecodeVarUint, Tells, FromLE, AllFit;
    var head := DeserializeHead(source);
    if head.None? {
      return None;
    }
    var payload;
    if head.value.txType in {INVOKE_NEO, INVOKE_WASM} {
      var code := DeserializeInvoke(source);
      if code.None? {
        return None;
      }
      payload := Invoke(code.value);
    } else if head.value.txType == DEPLOY {
      var d := DeserializeDeploy(source);
      if d.None? {
        return None;
      }
      payload := Deploy(d.value);
    } else {
      return None;
    }
    var attributes := NextCount(source);
    if attributes.None? || attributes.value != 0 {
      return None;
    }
    t := Some(head.value.(payload := payload));
  }

  /** `RawSig`: two byte strings, and one look at the end-of-data flag. */
  method DeserializeSig(source: ZeroCopySource) returns (sig: Option<RawSig>)
    requires source.Good()
    modifies source`off, source`log
    ensures source.off >= old(source.off) && source.Valid()
    ensures sig.Some? ==> (
      && source.Good() && source.log.fields == old(source.log.fields) + [VarBytes] + [VarBytes]
      && source.log.vals == old(source.log.vals) + [Raw(sig.value.invoke)] + [Raw(sig.value.verify)])
    ensures sig.None? ==> !source.log.ok
    ensures sig.None? ==> (
      || source.log.fields == old(source.log.fields) + [VarBytes]
      || source.log.fields == old(source.log.fields) + [VarBytes] + [VarBytes])
  {
    hide Tells;
    var invoke, size, irregular, eof := source.NextVarBytes();
    if irregular {
      return None;
    }
    var verify;
    verify, size, irregular, eof := source.NextVarBytes();
    if irregular || eof {
      return None;
    }
    sig := Some(RawSig(invoke, verify));
  }

  lemma FlattenEmpty()
    ensures Flatten([]) == [] && Vals([]) == [] && Repeat(0) == []
  {
  }

  lemma RepeatTwo(i: nat, n: nat)
    requires i < n
    ensures Repeat(2 * i) + [VarBytes] == Repeat(2 * n)[..2 * i + 1]
    ensures Repeat(2 * i) + [VarBytes] + [VarBytes] == Repeat(2 * n)[..2 * i + 2] == Repeat(2 * (i + 1))
  {
  }

  lemma FlattenNext(list: seq<RawSig>, sig: RawSig)
    ensures Vals(Flatten(list + [sig])) == Vals(Flatten(list)) + [Raw(sig.invoke)] + [Raw(sig.verify)]
  {
    assert (list + [sig])[..|list|] == list;
    assert Flatten(list + [sig]) == Flatten(list) + [sig.invoke, sig.verify];
  }

  method DeserializeSigs(source: ZeroCopySource) returns (sigs: Option<seq<RawSig>>)
    requires source.Good()
    modifies source`off, source`log, source`start
    ensures source.off >= old(source.off)
    ensures var r := DecodeSigs(old(source.Rest()));
      sigs.Some? == r.Some? && (sigs.Some? ==> source.Good() && Parsed(sigs.value, source.Rest()) == r.value)
  {
    hide Read, DecodeVarUint, Tells, Flatten, Pairs;
    var length := NextCount(source);
    if length.None? || length.value > TX_MAX_SIG_SIZE {
      return None;
    }
    var n, list: seq<RawSig> := length.value, [];
    ghost var at := source.off;
    source.Mark();
    FlattenEmpty();
    for i := 0 to n
      invariant source.Good() && source.start == at && source.off >= old(source.off) && |list| == i
      invariant source.log.fields == Repeat(2 * i) && source.log.vals == Vals(Flatten(list))
    {
      var sig := DeserializeSig(source);
      RepeatTwo(i, n);
      if sig.None? {
        ToldEarly(source.s, at, source.off, source.log, Repeat(2 * n), |source.log.fields|);
        return None;
      }
      FlattenNext(list, sig.value);
      list := list + [sig.value];
    }
    assert Repeat(2 * n) + [] == Repeat(2 * n);
    Told(source.s, at, source.off, source.log, []);
    ItemsOfVals(Flatten(list));
    PairsOfFlatten(list);
    sigs := Some(list);
  }

  lemma SameHeadOf(a: Bytes, b: Bytes, rest: Bytes)
    requires a + rest == b + rest
    ensures a == b
  {
    assert |a| == |b|;
    assert a == (a + rest)[..|a|] && b == (b + rest)[..|b|];
  }

  /** The bytes that a transaction and its unsigned part were read from are their encodings. */
  lemma ReadFrom(s: Bytes, t: Transaction, rest: Bytes, unsigned: Bytes, middle: Bytes, raw: Bytes)
    requires DecodeTx(s) == Some(Parsed(t, rest)) && s == raw + rest
    requires DecodeUnsigned(s).Some? && DecodeUnsigned(s).value.rest == middle && s == unsigned + middle
    ensures WellFormed(t) && raw == EncodeTx(t) && |raw| <= 1048576 && |t.sigs| <= 16
    ensures UnsignedFits(t) && unsigned == EncodeUnsigned(t)
  {
    hide DecodeTx, DecodeUnsigned, EncodeTx, EncodeUnsigned;
    TxReencodes(s);
    SameHeadOf(unsigned, EncodeUnsigned(t), middle);
    SameHeadOf(raw, EncodeTx(t), rest);
  }

  /** A transaction with the bytes it was read from and the hash of its unsigned part. */
  method Deserialization(digest: Digest, source: ZeroCopySource)
    returns (t: Option<Transaction>, raw: Bytes, hash: Uint256)
    requires source.Good()
    modifies source`off, source`log, source`start
    ensures source.off >= old(source.off)
    ensures var r := DecodeTx(old(source.Rest()));
      t.Some? == r.Some? && (t.Some? ==> source.Good() && Parsed(t.value, source.Rest()) == r.value)
    ensures t.Some? ==> WellFormed(t.value) && raw == EncodeTx(t.value) && hash == TxHash(digest, t.value)
    ensures t.Some? ==> hash == digest(EncodeUnsigned(t.value)) && |raw| <= 1048576 && |t.value.sigs| <= 16
  {
    hide DecodeUnsigned, DecodeSigs, EncodeTx, EncodeUnsigned, WellFormed, Encodable, UnsignedEncodable, UnsignedFits,
         Tells;
    raw, hash := [], EMPTY_HASH;
    ghost var s := source.Rest();
    var pstart := source.off;
    var unsigned := DeserializeUnsigned(source);
    if unsigned.None? {
      return None, raw, hash;
    }
    var rawUnsigned := source.Again(source.off - pstart);
    ghost var middle := source.Rest();
    Span(source.s, pstart, source.off);
    hash := digest(rawUnsigned);
    var sigs := DeserializeSigs(source);
    if sigs.None? {
      return None, raw, hash;
    }
    Span(source.s, pstart, source.off);
    if source.off - pstart > MAX_TX_SIZE {
      return None, raw, hash;
    }
    raw := source.Again(source.off - pstart);
    t := Some(unsigned.value.(sigs := sigs.value));
    ReadFrom(s, t.value, source.Rest(), rawUnsigned, middle, raw);
  }

  lemma DeployLengths(d: DeployCode)
    requires AllFit(DEPLOY_FIELDS, DeployVals(d))
    ensures |d.code| < U64_SIZE && |d.name| < U64_SIZE && |d.version| < U64_SIZE && |d.author| < U64_SIZE
    ensures |d.email| < U64_SIZE && |d.description| < U64_SIZE
  {
    var vs := DeployVals(d);
    assert Fits(DEPLOY_FIELDS[0], vs[0]) && Fits(DEPLOY_FIELDS[2], vs[2]) && Fits(DEPLOY_FIELDS[3], vs[3]);
    assert Fits(DEPLOY_FIELDS[4], vs[4]) && Fits(DEPLOY_FIELDS[5], vs[5]) && Fits(DEPLOY_FIELDS[6], vs[6]);
  }

  method SerializeDeploy(sink: ZeroCopySink, d: DeployCode)
    requires sink.Valid() && AllFit(DEPLOY_FIELDS, DeployVals(d))
    modifies sink, sink.buf
    ensures sink.Valid() && sink.Contents() == old(sink.Contents()) + Encode(DEPLOY_FIELDS, DeployVals(d))
    ensures sink.buf == old(sink.buf) || fresh(sink.buf)
  {
    hide Encode, EncodeField, Holds;
    ghost var was := sink.Contents();
    DeployLengths(d);
    sink.Mark();
    var size := sink.WriteVarBytes(d.code);
    sink.WriteByte(d.vmFlags);
    size := sink.WriteVarBytes(d.name);
    size := sink.WriteVarBytes(d.version);
    size := sink.WriteVarBytes(d.author);
    size := sink.WriteVarBytes(d.email);
    size := sink.WriteVarBytes(d.description);
    Seven(VarBytes, Fixed(1), VarBytes, VarBytes, VarBytes, VarBytes, VarBytes);
    Seven(Raw(d.code), Raw([d.vmFlags]), Raw(d.name), Raw(d.version), Raw(d.author), Raw(d.email), Raw(d.description));
    HoldsOnly(sink.Contents(), was, sink.fields, sink.vals);
  }

  method SerializeHead(sink: ZeroCopySink, t: Transaction)
    requires sink.Valid() && UnsignedEncodable(t)
    modifies sink, sink.buf
    ensures sink.Valid() && sink.Contents() == old(sink.Contents()) + Encode(HEAD_FIELDS, HeadVals(t))
    ensures sink.buf == old(sink.buf) || fresh(sink.buf)
  {
    hide Encode, EncodeField, Holds, LE, Pow256, PayloadEncodable;
    ghost var was := sink.Contents();
    sink.Mark();
    sink.WriteByte(t.version);
    sink.WriteByte(t.txType);
    sink.WriteUint(t.nonce, 4);
    sink.WriteUint(t.gasPrice, 8);
    sink.WriteUint(t.gasLimit, 8);
    sink.WriteBytes(t.payer);
    Six(Fixed(1), Fixed(1), Fixed(4), Fixed(8), Fixed(8), Fixed(20));
    Six(Raw([t.version]), Raw([t.txType]), Raw(LE(t.nonce, 4)), Raw(LE(t.gasPrice, 8)), Raw(LE(t.gasLimit, 8)),
        Raw(t.payer));
    HoldsOnly(sink.Contents(), was, sink.fields, sink.vals);
  }

  /** One field of its own. */
  method WriteOne(sink: ZeroCopySink, f: Field, v: Val)
    requires sink.Valid() && Fits(f, v) && (f.VarUint? || f.VarBytes?)
    modifies sink, sink.buf
    ensures sink.Valid() && sink.Contents() == old(sink.Contents()) + EncodeField(f, v)
    ensures sink.buf == old(sink.buf) || fresh(sink.buf)
  {
    hide Encode, EncodeField, Holds;
    ghost var was := sink.Contents();
    sink.Mark();
    if f.VarUint? {
      var size := sink.WriteVarUint(v.n);
    } else {
      var size := sink.WriteVarBytes(v.bytes);
    }
    assert sink.fields == [f] && sink.vals == [v];
    EncodeOne(f, v);
    HoldsOnly(sink.Contents(), was, sink.fields, sink.vals);
  }

  method SerializeUnsigned(sink: ZeroCopySink, t: Transaction)
    requires sink.Valid() && UnsignedEncodable(t)
    modifies sink, sink.buf
    ensures sink.Valid() && sink.Contents() == old(sink.Contents()) + EncodeUnsigned(t)
    ensures sink.buf == old(sink.buf) || fresh(sink.buf)
  {
    hide Encode, EncodeVarUint, Holds, HeadVals;
    ghost var was := sink.Contents();
    SerializeHead(sink, t);
    match t.payload {
      case Deploy(d) => SerializeDeploy(sink, d);
      case Invoke(code) => WriteOne(sink, VarBytes, Raw(code));
    }
    WriteOne(sink, VarUint, Num(0));
    var head, payload := Encode(HEAD_FIELDS, HeadVals(t)), EncodePayload(t.payload);
    Assoc(was + head, payload, EncodeVarUint(0));
    Assoc(was, head, payload + EncodeVarUint(0));
  }

  lemma {:induction false} FlattenAt(sigs: seq<RawSig>, i: nat)
    requires i < |sigs|
    ensures Flatten(sigs)[2 * i] == sigs[i].invoke && Flatten(sigs)[2 * i + 1] == sigs[i].verify
    decreases |sigs|
  {
    var n := |sigs| - 1;
    if i < n { FlattenAt(sigs[..n], i); }
  }

  lemma SigFits(sigs: seq<RawSig>, i: nat)
    requires SigsEncodable(sigs) && i < |sigs|
    ensures |sigs[i].invoke| < U64_SIZE && |sigs[i].verify| < U64_SIZE
  {
    hide Flatten;
    FlattenAt(sigs, i);
    var items := Flatten(sigs);
    assert Fits(Repeat(|items|)[2 * i], Vals(items)[2 * i]);
    assert Fits(Repeat(|items|)[2 * i + 1], Vals(items)[2 * i + 1]);
  }

  method SerializeSigs(sink: ZeroCopySink, sigs: seq<RawSig>)
    requires sink.Valid() && SigsEncodable(sigs)
    modifies sink, sink.buf
    ensures sink.Valid() && sink.Contents() == old(sink.Contents()) + EncodeSigs(sigs)
    ensures sink.buf == old(sink.buf) || fresh(sink.buf)
  {
    hide Encode, EncodeVarUint, Holds, Flatten;
    ghost var was := sink.Contents();
    WriteOne(sink, VarUint, Num(|sigs|));
    sink.Mark();
    FlattenEmpty();
    for i := 0 to |sigs|
      invariant sink.Valid() && sink.base == was + EncodeVarUint(|sigs|)
      invariant sink.buf == old(sink.buf) || fresh(sink.buf)
      invariant sink.fields == Repeat(2 * i) && sink.vals == Vals(Flatten(sigs[..i]))
    {
      SigFits(sigs, i);
      RepeatTwo(i, |sigs|);
      FlattenNext(sigs[..i], sigs[i]);
      assert sigs[..i + 1] == sigs[..i] + [sigs[i]];
      var size := sink.WriteVarBytes(sigs[i].invoke);
      size := sink.WriteVarBytes(sigs[i].verify);
    }
    assert sigs[..|sigs|] == sigs;
    HoldsOnly(sink.Contents(), sink.base, sink.fields, sink.vals);
    Assoc(was, EncodeVarUint(|sigs|), Encode(Repeat(2 * |sigs|), Vals(Flatten(sigs))));
  }

  method Serialization(sink: ZeroCopySink, t: Transaction)
    requires sink.Valid() && Encodable(t)
    modifies sink, sink.buf
    ensures sink.Valid() && sink.Contents() == old(sink.Contents()) + EncodeTx(t)
    ensures sink.buf == old(sink.buf) || fresh(sink.buf)
  {
    hide EncodeUnsigned, EncodeSigs, UnsignedEncodable, SigsEncodable, Holds;
    ghost var was := sink.Contents();
    SerializeUnsigned(sink, t);
    SerializeSigs(sink, t.sigs);
    Assoc(was, EncodeUnsigned(t), EncodeSigs(t.sigs));
  }
}
