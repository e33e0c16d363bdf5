/** The parser of core/program/program.go over a source, each method tied to the function
    of module Program that it computes. */
module ProgramParser {
  import opened Common
  import opened Wire
  import opened WireSource
  import BigInt
  import opened Program
  import opened PublicKeys

  ghost predicate Open(source: ZeroCopySource)
    reads source
  {
    source.off <= |source.s| < U64_SIZE / 2
  }

  /** The announced length: a 16-bit or 32-bit integer, a byte, or the opcode itself. */
  method NextLength(source: ZeroCopySource) returns (n: Option<nat>)
    requires Open(source)
    modifies source`off
    ensures Open(source) && source.off >= old(source.off)
    ensures var r := PushLength(old(source.Rest()));
      n.Some? == r.Some? && (n.Some? ==> Parsed(n.value, source.Rest()) == r.value && n.value < U64_SIZE)
  {
    hide FromLE, Pow256;
    ghost var s := source.Rest();
    var code, eof := source.SliceByte();
    if eof {
      return None;
    }
    if code in {PUSHDATA4, PUSHDATA2, PUSHDATA1} {
      var w := if code == PUSHDATA4 then 4 else if code == PUSHDATA2 then 2 else 1;
      var data;
      data, eof := source.Slice(w);
      if eof {
        return None;
      }
      assert s[1..1 + w] == data;
      FromLERoundTrip(data);
      Widths();
      return Some(FromLE(data));
    }
    if PUSHBYTES1 <= code <= PUSHBYTES75 {
      return Some(code);
    }
    n := None;
  }

  method NextPush(source: ZeroCopySource) returns (d: Option<Bytes>)
    requires Open(source)
    modifies source`off
    ensures Open(source) && source.off >= old(source.off)
    ensures var r := ReadPush(old(source.Rest()));
      d.Some? == r.Some? && (d.Some? ==> Parsed(d.value, source.Rest()) == r.value)
  {
    hide PushLength;
    var n := NextLength(source);
    if n.None? {
      return None;
    }
    ghost var s := source.Rest();
    var data, eof := source.Slice(n.value);
    if eof {
      return None;
    }
    assert s[..n.value] == data && s[n.value..] == source.Rest();
    d := Some(data);
  }

  /** `PeekOpCode`: reads a byte and backs up. */
  method Peek(source: ZeroCopySource) returns (code: byte, eof: bool)
    requires Open(source)
    modifies source`off
    ensures source.off == old(source.off) && eof == (source.Rest() == []) && (!eof ==> code == source.Rest()[0])
  {
    code, eof := source.SliceByte();
    if !eof {
      source.off := source.off - 1;
    }
  }

  method NextNum(source: ZeroCopySource) returns (n: Option<nat>)
    requires Open(source)
    modifies source`off
    ensures Open(source) && source.off >= old(source.off)
    ensures var r := ReadNum(old(source.Rest()));
      n.Some? == r.Some? && (n.Some? ==> Parsed(n.value, source.Rest()) == r.value)
  {
    hide ReadPush, BigInt.Value, Int64;
    var code, eof := Peek(source);
    if eof {
      return None;
    }
    if SmallNum(code).Some? {
      code, eof := source.SliceByte();
      return SmallNum(code);
    }
    var data := NextPush(source);
    if data.None? {
      return None;
    }
    var v := BigInt.BigIntFromNeoBytes(data.value);
    var num := Int64(v);
    if num > MAX_UINT16 || num <= 16 {
      return None;
    }
    n := Some(num);
  }

  method NextKey(parse: KeyParser, source: ZeroCopySource) returns (k: Option<Bytes>)
    requires Open(source)
    modifies source`off
    ensures Open(source) && source.off >= old(source.off)
    ensures var r := ReadKey(parse, old(source.Rest()));
      k.Some? == r.Some? && (k.Some? ==> Parsed(k.value, source.Rest()) == r.value)
  {
    hide ReadPush;
    var data := NextPush(source);
    if data.None? {
      return None;
    }
    k := parse(data.value);
  }

  /** What is read, put before what is read later. */
  function Before(keys: seq<Bytes>, r: Option<Parsed<seq<Bytes>>>): Option<Parsed<seq<Bytes>>>
  {
    if r.None? then None else Some(Parsed(keys + r.value.value, r.value.rest))
  }

  lemma BeforeNext(keys: seq<Bytes>, k: Bytes, r: Option<Parsed<seq<Bytes>>>)
    ensures Before(keys, Before([k], r)) == Before(keys + [k], r) && Before([], r) == r
  {
    if r.Some? {
      assert keys + ([k] + r.value.value) == keys + [k] + r.value.value;
      assert [] + r.value.value == r.value.value;
    }
  }

  method NextKeys(parse: KeyParser, source: ZeroCopySource, m: nat) returns (r: Option<seq<Bytes>>)
    requires Open(source)
    modifies source`off
    ensures Open(source)
    ensures var d := ReadKeys(parse, m, old(source.Rest()));
      r.Some? == d.Some? && (r.Some? ==> Parsed(r.value, source.Rest()) == d.value)
  {
    hide ReadKey;
    ghost var s := source.Rest();
    var keys: seq<Bytes> := [];
    BeforeNext([], [], ReadKeys(parse, m, s));
    for i := 0 to m
      invariant Open(source) && Before(keys, ReadKeys(parse, m - i, source.Rest())) == ReadKeys(parse, m, s)
    {
      ghost var here := source.Rest();
      var key := NextKey(parse, source);
      if key.None? {
        return None;
      }
      BeforeNext(keys, key.value, ReadKeys(parse, m - i - 1, source.Rest()));
      assert ReadKeys(parse, m - i, here) == Before([key.value], ReadKeys(parse, m - i - 1, source.Rest()));
      keys := keys + [key.value];
    }
    assert keys + [] == keys;
    r := Some(keys);
  }

  method NextItem(source: ZeroCopySource) returns (item: Option<Bytes>)
    requires Open(source) && source.Rest() != []
    modifies source`off
    ensures Open(source)
    ensures var r := ReadItem(old(source.Rest()));
      && item.Some? == r.Some?
      && (item.Some? ==> source.off > old(source.off) && Parsed(item.value, source.Rest()) == r.value)
  {
    hide ReadPush, BigInt.ToNeo;
    ghost var s := source.Rest();
    var code, eof := Peek(source);
    if SmallNum(code).Some? {
      code, eof := source.SliceByte();
      var b := BigInt.BigIntToNeoBytes(SmallNum(code).value);
      return Some(b);
    }
    PushShrinks(s);
    item := NextPush(source);
  }

  /** All items up to the opcode that ends the program, which is consumed. */
  method NextItems(source: ZeroCopySource) returns (r: Option<seq<Bytes>>)
    requires Open(source)
    modifies source`off
    ensures Open(source)
    ensures var d := ReadItems(old(source.Rest()));
      r.Some? == d.Some? && (r.Some? ==> Parsed(r.value, source.Rest()) == d.value)
  {
    hide ReadItem;
    ghost var s := source.Rest();
    var items: seq<Bytes> := [];
    BeforeNext([], [], ReadItems(s));
    while true
      invariant Open(source) && Before(items, ReadItems(source.Rest())) == ReadItems(s)
      decreases |source.s| - source.off
    {
      var code, eof := Peek(source);
      ghost var here := source.Rest();
      if eof {
        return None;
      }
      if code == CHECKMULTISIG {
        code, eof := source.SliceByte();
        assert items + [] == items;
        return Some(items);
      }
      var item := NextItem(source);
      if item.None? {
        return None;
      }
      BeforeNext(items, item.value, ReadItems(source.Rest()));
      assert ReadItems(here) == Before([item.value], ReadItems(source.Rest()));
      items := items + [item.value];
    }
  }

  function Joined(a: seq<Bytes>, b: Option<seq<Bytes>>): Option<seq<Bytes>>
  {
    if b.None? then None else Some(a + b.value)
  }

  lemma JoinedNext(a: seq<Bytes>, x: Bytes, b: Option<seq<Bytes>>)
    ensures Joined(a, Joined([x], b)) == Joined(a + [x], b) && Joined([], b) == b
    ensures Joined(a, Some([])) == Some(a)
  {
    if b.Some? {
      assert a + ([x] + b.value) == a + [x] + b.value;
      assert [] + b.value == b.value;
    }
    assert a + [] == a;
  }

  /** A source over a program, of which nothing is read. */
  method Opened(program: Bytes) returns (source: ZeroCopySource)
    requires |program| < U64_SIZE / 2
    ensures fresh(source) && Open(source) && source.s == program && source.Rest() == program
  {
    source := new ZeroCopySource(program);
  }

  /** The checks after the last opcode. */
  method FinishInfo(parse: KeyParser, m: nat, first: seq<Bytes>, items: seq<Bytes>, rest: Bytes)
    returns (info: Option<ProgramInfo>)
    ensures info == Finish(parse, m, first, Parsed(items, rest))
  {
    hide ParseKeys, Int64, BigInt.FromBigEndian;
    if |rest| != 0 {
      return None;
    }
    if |items| < 1 {
      return None;
    }
    var last := |items| - 1;
    var n := Int64(BigInt.FromBigEndian(items[last]));
    var more := ParseAll(parse, items[..last]);
    if more.None? {
      return None;
    }
    var keys := first + more.value;
    if |keys| != n {
      return None;
    }
    if !WithinLimits(m, n) {
      return None;
    }
    info := Some(ProgramInfo(keys, m));
  }

  method InfoAfterNum(parse: KeyParser, source: ZeroCopySource, m: nat) returns (info: Option<ProgramInfo>)
    requires Open(source)
    modifies source`off
    ensures info == AfterNum(parse, Parsed(m, old(source.Rest())))
  {
    hide ReadKeys, ReadItems, Finish;
    var first := NextKeys(parse, source, m);
    if first.None? {
      return None;
    }
    var items := NextItems(source);
    if items.None? {
      return None;
    }
    info := FinishInfo(parse, m, first.value, items.value, source.s[source.off..]);
  }

  method GetMultiInfo(parse: KeyParser, program: Bytes) returns (info: Option<ProgramInfo>)
    requires |program| < U64_SIZE / 2
    ensures info == MultiInfo(parse, program)
  {
    hide ReadNum, AfterNum;
    var source := Opened(program);
    var m := NextNum(source);
    if m.None? {
      return None;
    }
    info := InfoAfterNum(parse, source, m.value);
  }

  /** `GetProgramInfo`. */
  method ProgramInfoOf(parse: KeyParser, program: Bytes) returns (info: Option<ProgramInfo>)
    requires |program| < U64_SIZE / 2
    ensures info == GetProgramInfo(parse, program)
  {
    hide MultiInfo, ReadKey;
    if |program| <= 2 {
      return None;
    }
    var end := program[|program| - 1];
    if end == CHECKSIG {
      var source := Opened(program[..|program| - 1]);
      var key := NextKey(parse, source);
      if key.None? || source.off != |source.s| {
        return None;
      }
      return Some(ProgramInfo([key.value], 1));
    } else if end == CHECKMULTISIG {
      info := GetMultiInfo(parse, program);
      return;
    }
    info := None;
  }

  /** `GetParamInfo`. */
  method ParamInfoOf(program: Bytes) returns (sigs: Option<seq<Bytes>>)
    requires |program| < U64_SIZE / 2
    ensures sigs == GetParamInfo(program)
  {
    hide ReadPush;
    var source := Opened(program);
    var list: seq<Bytes> := [];
    JoinedNext([], [], GetParamInfo(program));
    while source.off < |source.s|
      invariant Open(source)
      invariant fresh(source) && GetParamInfo(program) == Joined(list, GetParamInfo(source.Rest()))
      decreases |source.s| - source.off
    {
      ghost var here := source.Rest();
      PushShrinks(here);
      var sig := NextPush(source);
      if sig.None? {
        return None;
      }
      JoinedNext(list, sig.value, GetParamInfo(source.Rest()));
      assert GetParamInfo(here) == Joined([sig.value], GetParamInfo(source.Rest()));
      list := list + [sig.value];
    }
    JoinedNext(list, [], None);
    sigs := Some(list);
  }
}
