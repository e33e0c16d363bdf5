/** Which scripts the parser of core/program/program.go accepts, told by their bytes: a push may
    have any of four forms that has room for its length, not the shortest alone. */
module ProgramForms {
  import opened BigInt
  import opened Common
  import opened Wire
  import opened Program
  import opened PublicKeys

  /** Data fits a push with `w` bytes of length; without any, the opcode is the length. */
  predicate FitsWidth(w: nat, data: Bytes)
  {
    || (w == 0 && 1 <= |data| <= 75) || (w == 1 && |data| < 0x100) || (w == 2 && |data| < 0x1_0000)
    || (w == 4 && |data| < 0x1_0000_0000)
  }

  function PushAs(w: nat, data: Bytes): Bytes
    requires FitsWidth(w, data)
  {
    if w == 0 then [|data|] + data
    else [if w == 1 then 0x4C else if w == 2 then 0x4D else 0x4E] + LE(|data|, w) + data
  }

  lemma Slices(tag: byte, len: Bytes, body: Bytes)
    ensures var s := [tag] + len + body; s[0] == tag && s[1..1 + |len|] == len && s[1 + |len|..] == body
  {
  }

  lemma Regrouped(w: nat, data: Bytes, rest: Bytes)
    requires FitsWidth(w, data)
    ensures var tag := if w == 0 then |data| else if w == 1 then 0x4C else if w == 2 then 0x4D else 0x4E;
      PushAs(w, data) + rest == [tag] + (if w == 0 then [] else LE(|data|, w)) + (data + rest)
  {
    hide LE;
  }

  /** Every form is read. */
  lemma FormRead(w: nat, data: Bytes, rest: Bytes)
    requires FitsWidth(w, data)
    ensures ReadPush(PushAs(w, data) + rest) == Some(Parsed(data, rest))
  {
    hide LE, FromLE, Pow256, PushAs;
    Widths();
    var tag := if w == 0 then |data| else if w == 1 then 0x4C else if w == 2 then 0x4D else 0x4E;
    var len := if w == 0 then [] else LE(|data|, w);
    Regrouped(w, data, rest);
    Slices(tag, len, data + rest);
    if w > 0 {
      assert |data| < Pow256(w);
      LERoundTrip(|data|, w);
    }
    assert (data + rest)[..|data|] == data && (data + rest)[|data|..] == rest;
  }

  lemma Spelled(s: Bytes, w: nat, len: Bytes, data: Bytes, rest: Bytes)
    requires FitsWidth(w, data) && |s| > w && s[1..1 + w] == len && s[1 + w..] == data + rest
    requires if w == 0 then s[0] == |data|
      else s[0] == (if w == 1 then 0x4C else if w == 2 then 0x4D else 0x4E) && len == LE(|data|, w)
    ensures s == PushAs(w, data) + rest
  {
    assert s == [s[0]] + len + (data + rest);
  }

  /** What is read has one of the forms. */
  lemma ReadForm(s: Bytes) returns (w: nat)
    requires ReadPush(s).Some?
    ensures var d := ReadPush(s).value; FitsWidth(w, d.value) && s == PushAs(w, d.value) + d.rest
  {
    hide LE, FromLE, Pow256;
    Widths();
    w := if s[0] == PUSHDATA4 then 4 else if s[0] == PUSHDATA2 then 2 else if s[0] == PUSHDATA1 then 1 else 0;
    var d := ReadPush(s).value;
    var len := s[1..1 + w];
    FromLERoundTrip(len);
    assert w > 0 ==> |d.value| == FromLE(len) < Pow256(w);
    assert s[1 + w..] == d.value + d.rest;
    Spelled(s, w, len, d.value, d.rest);
  }

  /** The builder pushes in the shortest form. */
  lemma ShortestForm(data: Bytes)
    requires 0 < |data| < 0x1_0000_0000
    ensures var w := if |data| <= 75 then 0 else if |data| < 0x100 then 1 else if |data| < 0x1_0000 then 2 else 4;
      FitsWidth(w, data) && Push(data) == PushAs(w, data)
  {
    hide LE;
    if 75 < |data| < 0x100 { OneByte(|data|); }
  }

  // ---------- signatures ----------

  predicate FitWidths(ws: seq<nat>, items: seq<Bytes>)
  {
    |ws| == |items| && forall i :: 0 <= i < |items| ==> FitsWidth(ws[i], items[i])
  }

  function PushesAs(ws: seq<nat>, items: seq<Bytes>): Bytes
    requires FitWidths(ws, items)
  {
    if items == [] then [] else PushAs(ws[0], items[0]) + PushesAs(ws[1..], items[1..])
  }

  lemma ParamNext(program: Bytes)
    requires program != [] && ReadPush(program).Some?
    ensures var d := ReadPush(program).value;
      var r := GetParamInfo(d.rest);
      GetParamInfo(program) == if r.None? then None else Some([d.value] + r.value)
  {
    hide ReadPush;
  }

  lemma FormNotEmpty(w: nat, data: Bytes)
    requires FitsWidth(w, data)
    ensures PushAs(w, data) != []
  {
  }

  lemma NoParams()
    ensures GetParamInfo([]) == Some([])
  {
  }

  lemma {:induction false} ParamForms(ws: seq<nat>, items: seq<Bytes>)
    requires FitWidths(ws, items)
    ensures GetParamInfo(PushesAs(ws, items)) == Some(items)
    decreases |items|
  {
    hide PushAs, ReadPush, FitsWidth, GetParamInfo;
    if items == [] {
      NoParams();
    } else {
      var first, rest := PushAs(ws[0], items[0]), PushesAs(ws[1..], items[1..]);
      FormRead(ws[0], items[0], rest);
      ParamForms(ws[1..], items[1..]);
      FormNotEmpty(ws[0], items[0]);
      ParamNext(first + rest);
      assert items == [items[0]] + items[1..];
    }
  }

  /** A parameter script is accepted exactly if it is a sequence of pushes, and gives their data. */
  lemma {:induction false} ParamTells(program: Bytes) returns (ws: seq<nat>)
    requires GetParamInfo(program).Some?
    ensures var items := GetParamInfo(program).value; FitWidths(ws, items) && program == PushesAs(ws, items)
    decreases |program|
  {
    if program == [] {
      ws := [];
    } else {
      hide PushAs, ReadPush, FitsWidth;
      PushShrinks(program);
      var w := ReadForm(program);
      var d := ReadPush(program).value;
      var rest := ParamTells(d.rest);
      ws := [w] + rest;
      var items := GetParamInfo(program).value;
      assert items == [d.value] + GetParamInfo(d.rest).value;
      assert items[1..] == GetParamInfo(d.rest).value && ws[1..] == rest;
    }
  }

  // ---------- programs ----------

  /** A program of one key: a push of it in any form, and the opcode that checks one signature. */
  lemma SingleTells(parse: KeyParser, w: nat, data: Bytes, key: Bytes)
    requires FitsWidth(w, data) && |PushAs(w, data)| > 1 && parse(data) == Some(key)
    ensures GetProgramInfo(parse, PushAs(w, data) + [0xAC]) == Some(ProgramInfo([key], 1))
  {
    hide PushAs, ReadPush, FitsWidth;
    var program := PushAs(w, data) + [0xAC];
    assert program[..|program| - 1] == PushAs(w, data) + [];
    FormRead(w, data, []);
  }

  /** Every key is what the parser makes of some bytes. */
  ghost predicate ParsedKeys(parse: KeyParser, keys: seq<Bytes>)
  {
    forall i :: 0 <= i < |keys| ==> exists b :: parse(b) == Some(keys[i])
  }

  lemma {:induction false} ReadKeysParsed(parse: KeyParser, n: nat, s: Bytes)
    ensures var r := ReadKeys(parse, n, s); r.Some? ==> |r.value.value| == n && ParsedKeys(parse, r.value.value)
    decreases n
  {
    if n > 0 && ReadKey(parse, s).Some? {
      hide ReadPush;
      var k := ReadKey(parse, s).value;
      assert parse(ReadPush(s).value.value) == Some(k.value);
      ReadKeysParsed(parse, n - 1, k.rest);
    }
  }

  lemma MultiParsed(parse: KeyParser, m: Parsed<nat>)
    requires AfterNum(parse, m).Some?
    ensures var info := AfterNum(parse, m).value;
      ParsedKeys(parse, info.pubKeys) && 1 <= info.m <= |info.pubKeys| <= 16 && |info.pubKeys| > 1
  {
    hide ReadItems, Int64, FromBigEndian;
    ReadKeysParsed(parse, m.value, m.rest);
    var first := ReadKeys(parse, m.value, m.rest).value;
    var items := ReadItems(first.rest).value;
    var last := |items.value| - 1;
    var more := ParseKeys(parse, items.value[..last]).value;
    forall i | 0 <= i < |more| ensures exists b :: parse(b) == Some(more[i]) {
      assert parse(items.value[..last][i]) == Some(more[i]);
    }
  }

  /** What an accepted program is: one key and its opcode, or at most 16 keys of which `m` have to
      sign, at least one and at most all. */
  lemma ProgramTells(parse: KeyParser, program: Bytes) returns (w: nat, data: Bytes)
    requires GetProgramInfo(parse, program).Some?
    ensures var info := GetProgramInfo(parse, program).value;
      && |program| > 2 && ParsedKeys(parse, info.pubKeys)
      && (if program[|program| - 1] == 0xAC then
            && info.m == 1 && |info.pubKeys| == 1 && parse(data) == Some(info.pubKeys[0])
            && FitsWidth(w, data) && program == PushAs(w, data) + [0xAC]
          else
            program[|program| - 1] == 0xAE && 1 <= info.m <= |info.pubKeys| <= 16 && |info.pubKeys| > 1)
  {
    hide PushAs, ReadPush, FitsWidth, ReadItems, ReadNum;
    var end := |program| - 1;
    w, data := 0, [];
    if program[end] == CHECKSIG {
      w := ReadForm(program[..end]);
      data := ReadPush(program[..end]).value.value;
      assert program == program[..end] + [program[end]];
      assert PushAs(w, data) + [] == PushAs(w, data);
    } else {
      var m := ReadNum(program).value;
      ReadKeysParsed(parse, m.value, m.rest);
      MultiParsed(parse, m);
    }
  }
}
