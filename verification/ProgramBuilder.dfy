/** `ProgramBuilder` of core/program/program.go over a sink. */
module ProgramBuilder {
  import opened Common
  import opened Wire
  import opened WireSink
  import opened WireList
  import BigInt
  import opened Program

  lemma EncodeRaw(a: Bytes, b: Bytes)
    ensures AllFit([Fixed(|a|), Fixed(|b|)], [Raw(a), Raw(b)])
    ensures Encode([Fixed(|a|), Fixed(|b|)], [Raw(a), Raw(b)]) == a + b
  {
    hide Encode;
    EncodeOne(Fixed(|a|), Raw(a));
    EncodeOne(Fixed(|b|), Raw(b));
    EncodeBoth([Fixed(|a|)], [Raw(a)], [Fixed(|b|)], [Raw(b)]);
    assert [Fixed(|a|)] + [Fixed(|b|)] == [Fixed(|a|), Fixed(|b|)];
    assert [Raw(a)] + [Raw(b)] == [Raw(a), Raw(b)];
  }

  method PushOpCode(sink: ZeroCopySink, op: byte)
    requires sink.Valid()
    modifies sink, sink.buf
    ensures sink.Valid() && sink.Contents() == old(sink.Contents()) + [op]
    ensures sink.buf == old(sink.buf) || fresh(sink.buf)
  {
    hide Holds, Encode;
    ghost var was := sink.Contents();
    sink.Mark();
    sink.WriteByte(op);
    assert sink.fields == [Fixed(1)] && sink.vals == [Raw([op])];
    EncodeOne(Fixed(1), Raw([op]));
    HoldsOnly(sink.Contents(), was, sink.fields, sink.vals);
  }

  /** The opcode, and the length if it has bytes of its own. */
  method PushLength(sink: ZeroCopySink, n: nat)
    requires sink.Valid() && n > 0
    modifies sink, sink.buf
    ensures sink.Valid() && sink.Contents() == old(sink.Contents()) + PushHead(n)
    ensures sink.buf == old(sink.buf) || fresh(sink.buf)
  {
    hide Holds, Encode, LE, Pow256;
    Widths();
    ghost var was := sink.Contents();
    if n <= 75 {
      PushOpCode(sink, n);
      return;
    }
    sink.Mark();
    if n < 0x100 {
      sink.WriteByte(PUSHDATA1);
      sink.WriteByte(n);
      assert [PUSHDATA1] + [n] == PushHead(n);
      assert sink.vals == [Raw([PUSHDATA1]), Raw([n])];
      EncodeRaw([PUSHDATA1], [n]);
    } else if n < 0x10000 {
      sink.WriteByte(PUSHDATA2);
      sink.WriteUint(n, 2);
      assert sink.vals == [Raw([PUSHDATA2]), Raw(LE(n, 2))];
      EncodeRaw([PUSHDATA2], LE(n, 2));
    } else {
      sink.WriteByte(PUSHDATA4);
      sink.WriteUint(n % U32_SIZE, 4);
      assert sink.vals == [Raw([PUSHDATA4]), Raw(LE(n % U32_SIZE, 4))];
      EncodeRaw([PUSHDATA4], LE(n % U32_SIZE, 4));
    }
    assert sink.fields == [Fixed(1), Fixed(|PushHead(n)| - 1)];
    HoldsOnly(sink.Contents(), was, sink.fields, sink.vals);
  }

  method PushBytes(sink: ZeroCopySink, data: Bytes)
    requires sink.Valid() && data != []
    modifies sink, sink.buf
    ensures sink.Valid() && sink.Contents() == old(sink.Contents()) + Push(data)
    ensures sink.buf == old(sink.buf) || fresh(sink.buf)
  {
    hide Holds, Encode, PushHead;
    ghost var was := sink.Contents();
    PushLength(sink, |data|);
    ghost var head := sink.Contents();
    sink.Mark();
    sink.WriteBytes(data);
    assert sink.fields == [Fixed(|data|)] && sink.vals == [Raw(data)];
    EncodeOne(Fixed(|data|), Raw(data));
    HoldsOnly(sink.Contents(), head, sink.fields, sink.vals);
    Assoc(was, PushHead(|data|), data);
  }

  method PushNumber(sink: ZeroCopySink, num: nat)
    requires sink.Valid() && num <= MAX_UINT16
    modifies sink, sink.buf
    ensures sink.Valid() && sink.Contents() == old(sink.Contents()) + PushNum(num)
    ensures sink.buf == old(sink.buf) || fresh(sink.buf)
  {
    hide Push, Holds, BigInt.ToNeo, BigInt.Value;
    if num == 0 {
      PushOpCode(sink, PUSH0);
    } else if num <= 16 {
      PushOpCode(sink, num - 1 + PUSH1);
    } else {
      NeoZeroOnly(num);
      var b := BigInt.BigIntToNeoBytes(num);
      PushBytes(sink, b);
    }
  }

  lemma PushOne(x: Bytes)
    requires x != []
    ensures PushAll([x]) == Push(x)
  {
    hide Push;
    assert [x][1..] == [];
    assert Push(x) + [] == Push(x);
  }

  /** Signatures in turn: `EncodeParamProgramInto`. */
  method PushItems(sink: ZeroCopySink, items: seq<Bytes>)
    requires sink.Valid() && Pushable(items)
    modifies sink, sink.buf
    ensures sink.Valid() && sink.Contents() == old(sink.Contents()) + PushAll(items)
    ensures sink.buf == old(sink.buf) || fresh(sink.buf)
  {
    hide Push, Holds;
    ghost var was := sink.Contents();
    for i := 0 to |items|
      invariant sink.Valid() && (sink.buf == old(sink.buf) || fresh(sink.buf))
      invariant Pushable(items[..i]) && sink.Contents() == was + PushAll(items[..i])
    {
      PushBytes(sink, items[i]);
      PushOne(items[i]);
      PushBoth(items[..i], [items[i]]);
      assert items[..i + 1] == items[..i] + [items[i]];
      Assoc(was, PushAll(items[..i]), Push(items[i]));
    }
    assert items[..|items|] == items;
  }

  lemma Four(a: Bytes, b: Bytes, c: Bytes, d: Bytes, e: Bytes)
    ensures a + b + c + d + e == a + (b + (c + (d + e)))
  {
    Assoc(a + b + c, d, e);
    Assoc(a + b, c, d + e);
    Assoc(a, b, c + (d + e));
  }

  /** `EncodeMultiPubKeyProgramInto`, with the sorting of keys as a parameter. */
  method EncodeMultiProgram(sink: ZeroCopySink, sort: seq<Bytes> -> seq<Bytes>, pubkeys: seq<Bytes>, m: int)
    returns (ok: bool)
    requires sink.Valid() && |sort(pubkeys)| == |pubkeys| && Pushable(sort(pubkeys))
    modifies sink, sink.buf
    ensures ok == WithinLimits(m, |pubkeys|)
    ensures sink.Valid() && sink.Contents() == old(sink.Contents()) + if ok then MultiProgram(sort(pubkeys), m) else []
  {
    hide PushNum, PushAll, Holds;
    if !WithinLimits(m, |pubkeys|) {
      return false;
    }
    ghost var was := sink.Contents();
    var keys := sort(pubkeys);
    var n := |keys|;
    PushNumber(sink, m);
    PushItems(sink, keys);
    PushNumber(sink, n);
    PushOpCode(sink, CHECKMULTISIG);
    Four(was, PushNum(m), PushAll(keys), PushNum(n), [CHECKMULTISIG]);
    ok := true;
  }
}
