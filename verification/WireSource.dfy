/** `ZeroCopySource` of common/zero_copy_source.go: a cursor over bytes. A ghost log of what
    was read since a mark ties the cursor to the strict reader of module Wire: the log is
    good exactly when the strict reader accepts, and once it is not, the cursor is at the
    end and every further read reports the end. */
module WireSource {
  import opened Common
  import opened Wire

  const MAX_UINT64: nat := U64_SIZE - 1

  /** Sums wrap at 64 bits. */
  function SafeAdd(x: nat, y: nat): (r: (nat, bool))
    requires x < U64_SIZE && y < U64_SIZE
    ensures !r.1 <==> x + y < U64_SIZE
    ensures !r.1 ==> r.0 == x + y
  {
    (if x + y < U64_SIZE then x + y else x + y - U64_SIZE, y > MAX_UINT64 - x)
  }

  datatype Log = Log(fields: seq<Field>, vals: seq<Val>, ok: bool)

  ghost function Then(log: Log, f: Field, v: Val, good: bool): Log
  {
    Log(log.fields + [f], log.vals + [v], log.ok && good)
  }

  /** The strict reader's view of a log over the data from `start`, with the cursor at `off`. */
  ghost predicate Tells(s: Bytes, start: nat, off: nat, log: Log)
  {
    start <= off <= |s| &&
    Read(log.fields, s[start..]) == if log.ok then Some(Parsed(log.vals, s[off..])) else None
  }

  lemma TellsNext(s: Bytes, start: nat, off: nat, log: Log, f: Field, v: Val, end: nat, good: bool)
    requires Tells(s, start, off, log) && off <= end <= |s|
    requires log.ok ==> ReadField(f, s[off..]) == if good then Some(Parsed(v, s[end..])) else None
    ensures Tells(s, start, end, Then(log, f, v, good))
  {
    hide Read, ReadField;
    ReadLast(log.fields, f, s[start..]);
  }

  /** What a log tells: once it is not good, nothing that begins like it can be read. */
  lemma Told(s: Bytes, start: nat, off: nat, log: Log, more: seq<Field>)
    requires Tells(s, start, off, log)
    ensures log.ok ==> Read(log.fields, s[start..]) == Some(Parsed(log.vals, s[off..]))
    ensures !log.ok ==> Read(log.fields + more, s[start..]).None?
  {
    ReadBoth(log.fields, more, s[start..]);
  }

  lemma ToldEarly(s: Bytes, start: nat, off: nat, log: Log, all: seq<Field>, k: nat)
    requires Tells(s, start, off, log) && !log.ok && k <= |all| && log.fields == all[..k]
    ensures Read(all, s[start..]).None?
  {
    hide Read;
    Told(s, start, off, log, all[k..]);
    assert all == all[..k] + all[k..];
  }

  lemma FixedRead(s: Bytes, off: nat, n: nat)
    requires off <= |s|
    ensures ReadField(Fixed(n), s[off..]) ==
      if off + n <= |s| then Some(Parsed(Raw(s[off..off + n]), s[off + n..])) else None
  {
    if off + n <= |s| { assert s[off..][..n] == s[off..off + n] && s[off..][n..] == s[off + n..]; }
  }

  lemma VarBytesRead(s: Bytes, was: nat, mid: nat, end: nat, count: nat, data: Bytes, irregular: bool, eof: bool)
    requires was <= mid <= end <= |s| && (count == 0 ==> mid == end && data == [])
    requires var r := ReadVarUint(s[was..]);
      (eof && count == 0 && r.None? && !irregular) ||
      (r == Some(Parsed(count, s[mid..])) && irregular == !Regular(s[was..]) && (eof <==> mid + count > |s|)
       && (!eof ==> end == mid + count) && data == s[mid..end])
    ensures ReadField(VarBytes, s[was..]) == if !eof && !irregular then Some(Parsed(Raw(data), s[end..])) else None
  {
    hide ReadVarUint, Regular;
    if !eof {
      assert s[mid..][..count] == data && s[mid..][count..] == s[end..];
    }
  }

  class ZeroCopySource {
    const s: Bytes
    var off: nat
    ghost var start: nat
    ghost var log: Log

    ghost predicate Valid()
      reads this
    {
      start <= off <= |s| < U64_SIZE / 2 && Tells(s, start, off, log)
    }

    /** Nothing irregular was read. */
    ghost predicate Ready()
      reads this
    {
      Valid() && (log.ok || off == |s|)
    }

    /** Everything so far was read. */
    ghost predicate Good()
      reads this
    {
      Valid() && log.ok
    }

    ghost function Rest(): Bytes
      reads this
      requires off <= |s|
    {
      s[off..]
    }

    constructor (b: Bytes)
      requires |b| < U64_SIZE / 2
      ensures Good() && s == b && Rest() == b && log == Log([], [], true)
    {
      s, off, start, log := b, 0, 0, Log([], [], true);
    }

    /** Starts a new log here. */
    ghost method Mark()
      requires Good()
      modifies `start, `log
      ensures Good() && log == Log([], [], true) && start == off
    {
      start, log := off, Log([], [], true);
    }

    method Slice(n: nat) returns (data: Bytes, eof: bool)
      requires off <= |s| < U64_SIZE / 2 && n < U64_SIZE
      modifies `off
      ensures eof <==> old(off) + n > |s|
      ensures off == (if eof then |s| else old(off) + n) && data == s[old(off)..off]
    {
      var (end, overflow) := SafeAdd(off, n);
      if overflow || end > |s| {
        end, eof := |s|, true;
      } else {
        eof := false;
      }
      data := s[off..end];
      off := end;
    }

    method SliceByte() returns (data: byte, eof: bool)
      requires off <= |s|
      modifies `off
      ensures eof <==> old(off) == |s|
      ensures off == (if eof then |s| else old(off) + 1) && data == if eof then 0 else s[old(off)]
    {
      if off >= |s| {
        return 0, true;
      }
      data, eof := s[off], false;
      off := off + 1;
    }

    /** Any number of bytes; a partial read moves to the end. A read of no bytes is the one
        that does not report an earlier end. */
    method NextBytes(n: nat) returns (data: Bytes, eof: bool)
      requires Ready() && n < U64_SIZE
      modifies `off, `log
      ensures Ready() && log == Then(old(log), Fixed(n), Raw(data), !eof) && (!old(log).ok && n > 0 ==> eof)
      ensures old(off) <= off && data == s[old(off)..off] && (!eof ==> off == old(off) + n)
    {
      ghost var was := off;
      data, eof := Slice(n);
      FixedRead(s, was, n);
      TellsNext(s, start, was, log, Fixed(n), Raw(data), off, !eof);
      log := Then(log, Fixed(n), Raw(data), !eof);
    }

    method Skip(n: nat) returns (eof: bool)
      requires Ready() && n < U64_SIZE
      modifies `off, `log
      ensures Ready() && (!old(log).ok && n > 0 ==> eof) && old(off) <= off
      ensures log == Then(old(log), Fixed(n), Raw(s[old(off)..off]), !eof)
    {
      var data;
      data, eof := NextBytes(n);
    }

    method NextByte() returns (data: byte, eof: bool)
      requires Ready()
      modifies `off, `log
      ensures Ready() && log == Then(old(log), Fixed(1), Raw([data]), !eof) && (!old(log).ok ==> eof)
      ensures old(off) <= off
    {
      ghost var was := off;
      data, eof := SliceByte();
      FixedRead(s, was, 1);
      assert !eof ==> s[was..was + 1] == [data];
      TellsNext(s, start, was, log, Fixed(1), Raw([data]), off, !eof);
      log := Then(log, Fixed(1), Raw([data]), !eof);
    }

    /** `NextUint16`, `NextUint32` and `NextUint64`: 0 at the end of the data. */
    method NextUint(n: nat) returns (v: nat, eof: bool)
      requires Ready() && 0 < n <= 8
      modifies `off, `log
      ensures Ready() && (!old(log).ok ==> eof) && old(off) <= off && v < Pow256(n)
      ensures log == Then(old(log), Fixed(n), Raw(LE(v, n)), !eof)
    {
      ghost var was := off;
      var data;
      data, eof := Slice(n);
      v := if eof then 0 else FromLE(data);
      FixedRead(s, was, n);
      FromLERoundTrip(data);
      TellsNext(s, start, was, log, Fixed(n), Raw(LE(v, n)), off, !eof);
      log := Then(log, Fixed(n), Raw(LE(v, n)), !eof);
    }

    /** `NextHash` and `NextAddress`: zeros at the end of the data. */
    method NextArray(n: nat) returns (v: Bytes, eof: bool)
      requires Ready() && 0 < n < U64_SIZE
      modifies `off, `log
      ensures Ready() && (!old(log).ok ==> eof) && |v| == n && old(off) <= off
      ensures log == Then(old(log), Fixed(n), Raw(v), !eof)
    {
      ghost var was := off;
      v, eof := Slice(n);
      v := if eof then seq(n, _ => 0) else v;
      FixedRead(s, was, n);
      TellsNext(s, start, was, log, Fixed(n), Raw(v), off, !eof);
      log := Then(log, Fixed(n), Raw(v), !eof);
    }

    /** A variable-length integer in any form, unlogged. */
    method SliceVarUint() returns (v: nat, size: nat, irregular: bool, eof: bool)
      requires off <= |s| < U64_SIZE / 2
      modifies `off
      ensures old(off) <= off <= |s| && v < U64_SIZE
      ensures (eof ==> size == 0) && (!eof ==> off == old(off) + size) && irregular == (!eof && size != VarUintSize(v))
      ensures var r := ReadVarUint(s[old(off)..]);
        if eof then r.None? && off == |s| && v == 0 && !irregular
        else r == Some(Parsed(v, s[off..])) && irregular == !Regular(s[old(off)..])
    {
      hide FromLE;
      var first;
      first, eof := SliceByte();
      irregular, v, size := false, 0, 0;
      if eof {
        return;
      }
      if first in {0xFD, 0xFE, 0xFF} {
        var w := if first == 0xFD then 2 else if first == 0xFE then 4 else 8;
        var data;
        data, eof := Slice(w);
        if eof {
          return;
        }
        Widths();
        FromLERoundTrip(data);
        assert s[old(off)..][1..1 + w] == data;
        v, size := FromLE(data), 1 + w;
      } else {
        v, size := first, 1;
      }
      irregular := size != VarUintSize(v);
    }

    /** The size is that of what was read, and 0 at the end of the data. */
    method NextVarUint() returns (v: nat, size: nat, irregular: bool, eof: bool)
      requires Ready()
      modifies `off, `log
      ensures Valid() && log == Then(old(log), VarUint, Num(v), !eof && !irregular) && (!old(log).ok ==> eof)
      ensures (!irregular ==> Ready()) && v < U64_SIZE && old(off) <= off
      ensures irregular == (!eof && size != VarUintSize(v))
      ensures if eof then size == 0 else off == old(off) + size
    {
      ghost var was := off;
      v, size, irregular, eof := SliceVarUint();
      TellsNext(s, start, was, log, VarUint, Num(v), off, !eof && !irregular);
      log := Then(log, VarUint, Num(v), !eof && !irregular);
    }

    /** A length and that many bytes. The size adds up both, and wraps at 64 bits. */
    method NextVarBytes() returns (data: Bytes, size: nat, irregular: bool, eof: bool)
      requires Ready()
      modifies `off, `log
      ensures Valid() && log == Then(old(log), VarBytes, Raw(data), !eof && !irregular) && (!old(log).ok ==> eof)
      ensures (!irregular ==> Ready()) && old(off) <= off && |data| <= |s| && (!eof ==> off == old(off) + size)
    {
      hide Read, ReadField, Regular, Tells, FromLE;
      ghost var was := off;
      var count;
      data := [];
      count, size, irregular, eof := SliceVarUint();
      size := (size + count) % U64_SIZE;
      ghost var mid := off;
      if count > 0 {
        data, eof := Slice(count);
      }
      if log.ok { VarBytesRead(s, was, mid, off, count, data, irregular, eof); }
      TellsNext(s, start, was, log, VarBytes, Raw(data), off, !eof && !irregular);
      log := Then(log, VarBytes, Raw(data), !eof && !irregular);
    }

    /** `BackUp` over the last `n` bytes and `NextBytes` of them again. */
    method Again(n: nat) returns (data: Bytes)
      requires Valid() && n <= off
      modifies `off
      ensures off == old(off) && data == s[off - n..off] && Valid()
    {
      off := off - n;
      var eof;
      data, eof := Slice(n);
    }
  }

  /** The bytes between two positions. */
  lemma Span(s: Bytes, start: nat, off: nat)
    requires start <= off <= |s|
    ensures |s[start..]| - |s[off..]| == off - start
    ensures s[start..] == s[start..off] + s[off..] && s[start..][..off - start] == s[start..off]
  {
  }
}
