/** Signature scripts of core/program/program.go: what is built and what is parsed. Public
    keys are known by their serialized form, and `parse` parses them. */
module Program {
  import opened Common
  import opened Wire
  import opened BigInt
  import opened PublicKeys

  const PUSH0: byte := 0x00
  const PUSHBYTES1: byte := 0x01
  const PUSHBYTES75: byte := 0x4B
  const PUSHDATA1: byte := 0x4C
  const PUSHDATA2: byte := 0x4D
  const PUSHDATA4: byte := 0x4E
  const PUSH1: byte := 0x51
  const CHECKSIG: byte := 0xAC
  const CHECKMULTISIG: byte := 0xAE
  const MULTI_SIG_MAX_PUBKEY_SIZE: nat := 16
  const MAX_UINT16: nat := 0xFFFF

  datatype ProgramInfo = ProgramInfo(pubKeys: seq<Bytes>, m: nat)

  // ---------- building ----------

  /** What stands before pushed data. The longest form has room for 32 bits of length. */
  function PushHead(n: nat): (h: Bytes)
    requires n > 0
    ensures h != []
  {
    if n <= 75 then [n]
    else if n < 0x100 then [PUSHDATA1, n]
    else if n < 0x10000 then [PUSHDATA2] + LE(n, 2)
    else [PUSHDATA4] + LE(n % U32_SIZE, 4)
  }

  /** `PushBytes`; the source panics on empty data. */
  function Push(data: Bytes): Bytes
    requires data != []
  {
    PushHead(|data|) + data
  }

  lemma NeoZeroOnly(v: int)
    requires v != 0
    ensures ToNeo(v) != []
  {
    NeoValue(v);
  }

  function PushNum(num: nat): Bytes
    requires num <= MAX_UINT16
  {
    if num == 0 then [PUSH0]
    else if num <= 16 then [num - 1 + PUSH1]
    else NeoZeroOnly(num); Push(ToNeo(num))
  }

  predicate Pushable(items: seq<Bytes>)
  {
    forall i :: 0 <= i < |items| ==> items[i] != []
  }

  /** Every length has 32 bits. */
  predicate Short(items: seq<Bytes>)
  {
    forall i :: 0 <= i < |items| ==> |items[i]| < U32_SIZE
  }

  function PushAll(items: seq<Bytes>): Bytes
    requires Pushable(items)
  {
    if items == [] then [] else Push(items[0]) + PushAll(items[1..])
  }

  // ---------- parsing ----------

  /** The length that a push announces, and where the data begins. */
  function PushLength(s: Bytes): Option<Parsed<nat>>
  {
    if s == [] then None
    else
      var w := if s[0] == PUSHDATA4 then 4 else if s[0] == PUSHDATA2 then 2 else if s[0] == PUSHDATA1 then 1 else 0;
      if w > 0 then
        if |s| < 1 + w then None else Some(Parsed(FromLE(s[1..1 + w]), s[1 + w..]))
      else if PUSHBYTES1 <= s[0] <= PUSHBYTES75 then Some(Parsed(s[0], s[1..]))
      else None
  }

  /** `ReadBytes`. */
  function ReadPush(s: Bytes): Option<Parsed<Bytes>>
  {
    match PushLength(s)
    case None => None
    case Some(n) =>
      if |n.rest| < n.value then None else Some(Parsed(n.rest[..n.value], n.rest[n.value..]))
  }

  /** `big.Int.Int64`: the low 64 bits, signed. */
  function Int64(v: int): int
  {
    (v + U64_SIZE / 2) % U64_SIZE - U64_SIZE / 2
  }

  /** The number that one opcode pushes. */
  function SmallNum(code: byte): Option<nat>
  {
    if code == PUSH0 then Some(0)
    else if PUSH1 <= code <= PUSH1 + 15 then Some(code - PUSH1 + 1)
    else None
  }

  function ReadNum(s: Bytes): Option<Parsed<nat>>
  {
    if s == [] then None
    else if SmallNum(s[0]).Some? then Some(Parsed(SmallNum(s[0]).value, s[1..]))
    else
      match ReadPush(s)
      case None => None
      case Some(d) =>
        var num := Int64(Value(d.value));
        if num > MAX_UINT16 || num <= 16 then None else Some(Parsed(num, d.rest))
  }

  function ReadKey(parse: KeyParser, s: Bytes): Option<Parsed<Bytes>>
  {
    match ReadPush(s)
    case None => None
    case Some(d) => if parse(d.value).None? then None else Some(Parsed(parse(d.value).value, d.rest))
  }

  function ReadKeys(parse: KeyParser, n: nat, s: Bytes): Option<Parsed<seq<Bytes>>>
  {
    if n == 0 then Some(Parsed([], s))
    else
      match ReadKey(parse, s)
      case None => None
      case Some(k) =>
        match ReadKeys(parse, n - 1, k.rest)
        case None => None
        case Some(r) => Some(Parsed([k.value] + r.value, r.rest))
  }

  lemma PushShrinks(s: Bytes)
    ensures ReadPush(s).Some? ==> |ReadPush(s).value.rest| < |s|
  {
  }

  /** One item before the end of a multi-signature program. */
  function ReadItem(s: Bytes): (r: Option<Parsed<Bytes>>)
    requires s != []
    ensures r.Some? ==> |r.value.rest| < |s|
  {
    PushShrinks(s);
    if SmallNum(s[0]).Some? then Some(Parsed(ToNeo(SmallNum(s[0]).value), s[1..])) else ReadPush(s)
  }

  /** All items up to the opcode that ends the program. */
  function ReadItems(s: Bytes): Option<Parsed<seq<Bytes>>>
    decreases |s|
  {
    if s == [] then None
    else if s[0] == CHECKMULTISIG then Some(Parsed([], s[1..]))
    else
      match ReadItem(s)
      case None => None
      case Some(d) =>
        match ReadItems(d.rest)
        case None => None
        case Some(r) => Some(Parsed([d.value] + r.value, r.rest))
  }

  predicate WithinLimits(m: int, n: int)
  {
    1 <= m <= n && n > 1 && n <= MULTI_SIG_MAX_PUBKEY_SIZE
  }

  /** The last item is the number of keys. It is taken as big-endian. */
  function Finish(parse: KeyParser, m: nat, first: seq<Bytes>, items: Parsed<seq<Bytes>>): Option<ProgramInfo>
  {
    if items.rest != [] || items.value == [] then None
    else
      var last := |items.value| - 1;
      var n := Int64(FromBigEndian(items.value[last]));
      match ParseKeys(parse, items.value[..last])
      case None => None
      case Some(more) =>
        var keys := first + more;
        if |keys| == n && WithinLimits(m, n) then Some(ProgramInfo(keys, m)) else None
  }

  /** After the first number: as many keys, and the rest. */
  function AfterNum(parse: KeyParser, m: Parsed<nat>): Option<ProgramInfo>
  {
    match ReadKeys(parse, m.value, m.rest)
    case None => None
    case Some(first) =>
      match ReadItems(first.rest)
      case None => None
      case Some(items) => Finish(parse, m.value, first.value, items)
  }

  function MultiInfo(parse: KeyParser, program: Bytes): Option<ProgramInfo>
  {
    match ReadNum(program)
    case None => None
    case Some(m) => AfterNum(parse, m)
  }

  function GetProgramInfo(parse: KeyParser, program: Bytes): Option<ProgramInfo>
  {
    var end := |program| - 1;
    if |program| <= 2 then None
    else if program[end] == CHECKSIG then
      match ReadKey(parse, program[..end])
      case None => None
      case Some(k) => if k.rest == [] then Some(ProgramInfo([k.value], 1)) else None
    else if program[end] == CHECKMULTISIG then MultiInfo(parse, program)
    else None
  }

  function GetParamInfo(program: Bytes): Option<seq<Bytes>>
    decreases |program|
  {
    if program == [] then Some([])
    else
      PushShrinks(program);
      match ReadPush(program)
      case None => None
      case Some(d) =>
        match GetParamInfo(d.rest)
        case None => None
        case Some(r) => Some([d.value] + r)
  }

  // ---------- round trips ----------

  lemma OneByte(n: byte)
    ensures LE(n, 1) == [n]
  {
    assert LE(n / 256, 0) == [];
  }

  /** The length that is read back: all of it, if it has 32 bits. */
  lemma LengthRoundTrip(n: nat, rest: Bytes)
    requires n > 0
    ensures PushLength(PushHead(n) + rest) == Some(Parsed(if n < U32_SIZE then n else n % U32_SIZE, rest))
    ensures SmallNum((PushHead(n) + rest)[0]).None? && (PushHead(n) + rest)[0] != CHECKMULTISIG
  {
    hide LE, FromLE, Pow256;
    Widths();
    var s := PushHead(n) + rest;
    if n > 75 {
      var w := if n < 0x100 then 1 else if n < 0x10000 then 2 else 4;
      var v := n % U32_SIZE;
      LERoundTrip(v, w);
      if w == 1 { OneByte(n); }
      assert s[1..1 + w] == LE(v, w) && s[1 + w..] == rest;
    }
  }

  /** Data is read back exactly when its length has 32 bits. */
  lemma PushExact(data: Bytes, rest: Bytes)
    requires data != []
    ensures ReadPush(Push(data) + rest) == Some(Parsed(data, rest)) <==> |data| < U32_SIZE
    ensures var r := ReadPush(Push(data) + rest); r.Some? && r.value.value == data ==> |data| < U32_SIZE
  {
    hide PushHead, PushLength;
    assert Push(data) + rest == PushHead(|data|) + (data + rest);
    LengthRoundTrip(|data|, data + rest);
    if |data| < U32_SIZE {
      assert (data + rest)[..|data|] == data && (data + rest)[|data|..] == rest;
    }
  }

  lemma PushNotEmpty(data: Bytes)
    requires data != []
    ensures Push(data) != []
  {
  }

  /** Signatures are read back exactly when all their lengths have 32 bits. */
  lemma {:induction false} ParamRoundTrip(sigs: seq<Bytes>)
    requires Pushable(sigs)
    ensures GetParamInfo(PushAll(sigs)) == Some(sigs) <==> Short(sigs)
  {
    hide Push, ReadPush;
    if sigs != [] {
      ParamRoundTrip(sigs[1..]);
      var s := PushAll(sigs);
      PushExact(sigs[0], PushAll(sigs[1..]));
      PushNotEmpty(sigs[0]);
      assert sigs == [sigs[0]] + sigs[1..];
      assert Short(sigs) <==> |sigs[0]| < U32_SIZE && Short(sigs[1..]);
      if |sigs[0]| < U32_SIZE {
        var r := GetParamInfo(PushAll(sigs[1..]));
        assert GetParamInfo(s) == if r.None? then None else Some([sigs[0]] + r.value);
        assert r.Some? ==> ([sigs[0]] + r.value)[1..] == r.value;
      } else if GetParamInfo(s).Some? {
        assert GetParamInfo(s).value[0] == ReadPush(s).value.value;
      }
    }
  }

  /** Three bytes hold every 16-bit number. */
  lemma NeoLength(num: nat)
    requires 16 < num <= MAX_UINT16
    ensures 0 < |ToNeo(num)| <= 3 && Value(ToNeo(num)) == num && Int64(num) == num
  {
    hide ToNeo;
    Widths();
    var b := LE(num, 2) + [0];
    LERoundTrip(num, 2);
    AppendValue(LE(num, 2), 0);
    NeoShortest(num, b);
    NeoValue(num);
    NeoZeroOnly(num);
  }

  lemma PushFirst(data: Bytes, more: Bytes)
    requires data != []
    ensures Push(data) + more != []
    ensures SmallNum((Push(data) + more)[0]).None? && (Push(data) + more)[0] != CHECKMULTISIG
  {
    hide PushHead, SmallNum;
    LengthRoundTrip(|data|, data + more);
    assert Push(data) + more == PushHead(|data|) + (data + more);
  }

  /** Every 16-bit number is read back. */
  lemma NumRoundTrip(num: nat, rest: Bytes)
    requires num <= MAX_UINT16
    ensures ReadNum(PushNum(num) + rest) == Some(Parsed(num, rest))
  {
    hide ToNeo, Push, ReadPush, PushHead, Int64, Value;
    if num > 16 {
      NeoLength(num);
      PushExact(ToNeo(num), rest);
      PushFirst(ToNeo(num), rest);
    } else {
      assert (PushNum(num) + rest)[1..] == rest;
    }
  }

  predicate Canonical(parse: KeyParser, keys: seq<Bytes>)
  {
    forall i :: 0 <= i < |keys| ==> parse(keys[i]) == Some(keys[i])
  }

  lemma {:induction false} KeysRoundTrip(parse: KeyParser, keys: seq<Bytes>, rest: Bytes)
    requires Pushable(keys) && Short(keys) && Canonical(parse, keys)
    ensures ReadKeys(parse, |keys|, PushAll(keys) + rest) == Some(Parsed(keys, rest))
  {
    hide Push, ReadPush;
    if keys == [] {
      assert PushAll(keys) + rest == rest;
    } else {
      KeysRoundTrip(parse, keys[1..], rest);
      assert PushAll(keys) + rest == Push(keys[0]) + (PushAll(keys[1..]) + rest);
      PushExact(keys[0], PushAll(keys[1..]) + rest);
      assert keys == [keys[0]] + keys[1..];
    }
  }

  lemma {:induction false} ItemsRoundTrip(items: seq<Bytes>, tail: Bytes)
    requires Pushable(items) && Short(items) && ReadItems(tail).Some?
    ensures var r := ReadItems(tail).value; ReadItems(PushAll(items) + tail) == Some(Parsed(items + r.value, r.rest))
  {
    hide Push, ReadPush, PushHead, SmallNum;
    var r := ReadItems(tail).value;
    if items == [] {
      assert PushAll(items) + tail == tail;
      assert items + r.value == r.value;
    } else {
      var more := PushAll(items[1..]) + tail;
      ItemsRoundTrip(items[1..], tail);
      assert PushAll(items) + tail == Push(items[0]) + more;
      PushExact(items[0], more);
      PushFirst(items[0], more);
      assert [items[0]] + (items[1..] + r.value) == items + r.value;
    }
  }

  lemma SmallNeo(n: nat)
    requires 1 <= n <= 16
    ensures ToNeo(n) == [n] && Int64(FromBigEndian([n])) == n
  {
    var b: Bytes := [n];
    assert Magnitude(n) == b + Magnitude(0);
    assert Reversed(b) == b;
    assert FromLE(b) == n + 256 * FromLE(b[1..]);
  }

  /** The end of a built program: the number of keys, and the opcode. */
  lemma EndItems(n: nat)
    requires 1 <= n <= 16
    ensures ReadItems(PushNum(n) + [CHECKMULTISIG]) == Some(Parsed([ToNeo(n)], []))
  {
    hide ToNeo, ReadPush;
    var s := PushNum(n) + [CHECKMULTISIG];
    var t := [CHECKMULTISIG];
    assert s == [n - 1 + PUSH1, CHECKMULTISIG] && s[1..] == t && t[1..] == [];
    assert ReadItem(s) == Some(Parsed(ToNeo(n), t));
    assert ReadItems(t) == Some(Parsed([], []));
    assert [ToNeo(n)] + [] == [ToNeo(n)];
  }

  lemma CanonicalParse(parse: KeyParser, keys: seq<Bytes>)
    requires Canonical(parse, keys)
    ensures ParseKeys(parse, keys) == Some(keys)
  {
    assert ParseKeys(parse, keys).value == keys;
  }

  /** `ProgramFromMultiPubKey`, for keys that are sorted. */
  function MultiProgram(keys: seq<Bytes>, m: nat): Bytes
    requires Pushable(keys) && WithinLimits(m, |keys|)
  {
    PushNum(m) + (PushAll(keys) + (PushNum(|keys|) + [CHECKMULTISIG]))
  }

  lemma {:induction false} PushBoth(a: seq<Bytes>, b: seq<Bytes>)
    requires Pushable(a) && Pushable(b)
    ensures Pushable(a + b) && PushAll(a + b) == PushAll(a) + PushAll(b)
  {
    hide Push;
    if a == [] {
      assert a + b == b;
    } else {
      PushBoth(a[1..], b);
      assert (a + b)[1..] == a[1..] + b;
      assert (a + b)[0] == a[0];
      Assoc(Push(a[0]), PushAll(a[1..]), PushAll(b));
    }
  }

  /** Parsing a built m-of-n program gives m and the keys. */
  lemma MultiRoundTrip(parse: KeyParser, keys: seq<Bytes>, m: nat)
    requires Pushable(keys) && Short(keys) && WithinLimits(m, |keys|) && Canonical(parse, keys)
    ensures GetProgramInfo(parse, MultiProgram(keys, m)) == Some(ProgramInfo(keys, m))
  {
    hide ReadKeys, ReadItems, PushAll, ToNeo, ParseKeys, Int64, FromBigEndian, ReadPush;
    var program, end := MultiProgram(keys, m), PushNum(|keys|) + [CHECKMULTISIG];
    var first, more := keys[..m], keys[m..];
    assert keys == first + more;
    PushBoth(first, more);
    assert PushAll(keys) + end == PushAll(first) + (PushAll(more) + end);
    assert program == [m - 1 + PUSH1] + (PushAll(keys) + end);
    assert program[1..] == PushAll(keys) + end;
    assert program[|program| - 1] == CHECKMULTISIG && |program| > 2;
    KeysRoundTrip(parse, first, PushAll(more) + end);
    EndItems(|keys|);
    SmallNeo(|keys|);
    ItemsRoundTrip(more, end);
    CanonicalParse(parse, more);
    var items := more + [ToNeo(|keys|)];
    assert items[..|items| - 1] == more && items[|items| - 1] == ToNeo(|keys|);
  }

  /** `ProgramFromPubKey`. */
  function SingleProgram(key: Bytes): Bytes
    requires key != []
  {
    Push(key) + [CHECKSIG]
  }

  lemma SingleRoundTrip(parse: KeyParser, key: Bytes)
    requires 0 < |key| < U32_SIZE && parse(key) == Some(key)
    ensures GetProgramInfo(parse, SingleProgram(key)) == Some(ProgramInfo([key], 1))
  {
    hide PushHead, ReadPush;
    var program := SingleProgram(key);
    assert program[..|program| - 1] == Push(key) == Push(key) + [];
    PushExact(key, []);
  }
}
