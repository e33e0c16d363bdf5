/** Multi-signatures of core/signature/signature.go and the block check of
    core/validation/block_validator.go that rests on them. The signature algorithm is
    given by what it deserializes and verifies for the data at hand. */
module MultiSig {
  import opened Common
  import opened Sets

  datatype Scheme = Scheme(deserializes: Bytes -> bool, verifies: (Bytes, Bytes) -> bool)

  predicate Signs(x: Scheme, key: Bytes, sig: Bytes)
  {
    x.deserializes(sig) && x.verifies(key, sig)
  }

  /** Signature `i` is that of the key at position `at[i]`, and no position is used twice. */
  ghost predicate Matching(x: Scheme, keys: seq<Bytes>, sigs: seq<Bytes>, at: seq<nat>)
  {
    && |at| <= |sigs|
    && (forall i :: 0 <= i < |at| ==> at[i] < |keys| && Signs(x, keys[at[i]], sigs[i]))
    && (forall i, j :: 0 <= i < j < |at| ==> at[i] != at[j])
  }

  /** The positions of the keys that signed. */
  function Signers(x: Scheme, keys: seq<Bytes>, sig: Bytes): set<nat>
  {
    set k | k in Range(|keys|) && k < |keys| && Signs(x, keys[k], sig)
  }

  /** No two of the signatures share some of their keys, but not all. */
  ghost predicate Separate(x: Scheme, keys: seq<Bytes>, sigs: seq<Bytes>)
  {
    forall i, j :: 0 <= i < |sigs| && 0 <= j < |sigs| ==>
      Signers(x, keys, sigs[i]) == Signers(x, keys, sigs[j]) || Signers(x, keys, sigs[i]) !! Signers(x, keys, sigs[j])
  }

  // ---------- counting ----------

  function Image(at: seq<nat>, c: set<nat>): set<nat>
  {
    set j | j in c && j < |at| :: at[j]
  }

  lemma {:induction false} ImageSize(at: seq<nat>, c: set<nat>)
    requires forall j :: j in c ==> j < |at|
    requires forall i, j :: 0 <= i < j < |at| ==> at[i] != at[j]
    ensures |Image(at, c)| == |c|
    decreases |c|
  {
    if c == {} {
      assert Image(at, c) == {};
    } else {
      var j :| j in c;
      ImageSize(at, c - {j});
      assert Image(at, c) == Image(at, c - {j}) + {at[j]};
      assert at[j] !in Image(at, c - {j});
    }
  }

  /** The earlier signatures whose key is one that verifies signature `i`. */
  function Rivals(x: Scheme, keys: seq<Bytes>, sigs: seq<Bytes>, at: seq<nat>, i: nat): set<nat>
    requires |at| == i < |sigs|
  {
    set j | j in Range(i) && j < i && at[j] in Signers(x, keys, sigs[i])
  }

  /** If all keys that verify signature `i` are used, there are as many rivals. */
  lemma AllUsed(x: Scheme, keys: seq<Bytes>, sigs: seq<Bytes>, at: seq<nat>, i: nat)
    requires Matching(x, keys, sigs, at) && |at| == i < |sigs|
    requires forall k :: k in Signers(x, keys, sigs[i]) ==> k in at
    ensures |Signers(x, keys, sigs[i])| <= |Rivals(x, keys, sigs, at, i)|
  {
    hide Signers;
    var v, rivals := Signers(x, keys, sigs[i]), Rivals(x, keys, sigs, at, i);
    forall k | k in v ensures k in Image(at, rivals) {
      var j :| 0 <= j < |at| && at[j] == k;
      assert j in rivals;
    }
    ImageSize(at, rivals);
    SubsetSize(v, Image(at, rivals));
  }

  lemma SameSigners(x: Scheme, keys: seq<Bytes>, sigs: seq<Bytes>, at: seq<nat>, full: seq<nat>, i: nat, j: nat)
    requires Separate(x, keys, sigs) && Matching(x, keys, sigs, at) && Matching(x, keys, sigs, full)
    requires j <= i < |full| && |at| == i && (j < i ==> at[j] in Signers(x, keys, sigs[i]))
    ensures full[j] in Signers(x, keys, sigs[i])
  {
    assert full[j] in Signers(x, keys, sigs[j]);
    if j < i { assert at[j] in Signers(x, keys, sigs[j]); }
  }

  /** A full matching gives the rivals and signature `i` different keys of that kind. */
  lemma EnoughKeys(x: Scheme, keys: seq<Bytes>, sigs: seq<Bytes>, at: seq<nat>, full: seq<nat>, i: nat)
    requires Separate(x, keys, sigs) && Matching(x, keys, sigs, at) && Matching(x, keys, sigs, full)
    requires |at| == i < |full|
    ensures |Rivals(x, keys, sigs, at, i)| + 1 <= |Signers(x, keys, sigs[i])|
  {
    hide Signers, Separate;
    var v, rivals := Signers(x, keys, sigs[i]), Rivals(x, keys, sigs, at, i);
    var all := rivals + {i};
    forall k | k in Image(full, all) ensures k in v {
      var j :| j in all && j < |full| && full[j] == k;
      SameSigners(x, keys, sigs, at, full, i, j);
    }
    ImageSize(full, all);
    SubsetSize(Image(full, all), v);
  }

  lemma LengthsFit(x: Scheme, keys: seq<Bytes>, sigs: seq<Bytes>, at: seq<nat>)
    requires Matching(x, keys, sigs, at)
    ensures |at| <= |sigs|
  {
  }

  lemma SomeUnused(x: Scheme, keys: seq<Bytes>, sigs: seq<Bytes>, at: seq<nat>, i: nat)
    requires Matching(x, keys, sigs, at) && |at| == i < |sigs|
    requires |Rivals(x, keys, sigs, at, i)| < |Signers(x, keys, sigs[i])|
    ensures exists k :: k in Signers(x, keys, sigs[i]) && k !in at
  {
    hide Signers, Matching, Rivals;
    if forall k :: k in Signers(x, keys, sigs[i]) ==> k in at {
      AllUsed(x, keys, sigs, at, i);
    }
  }

  /** While a full matching exists, the first-come choice cannot run out of keys. */
  lemma NotStuck(x: Scheme, keys: seq<Bytes>, sigs: seq<Bytes>, at: seq<nat>, full: seq<nat>, i: nat)
    requires Separate(x, keys, sigs) && Matching(x, keys, sigs, at) && Matching(x, keys, sigs, full)
    requires |at| == i < |full|
    ensures exists k: nat :: k < |keys| && k !in at && Signs(x, keys[k], sigs[i])
  {
    hide Separate, Matching, Rivals;
    LengthsFit(x, keys, sigs, full);
    EnoughKeys(x, keys, sigs, at, full, i);
    var k :| k in Signers(x, keys, sigs[i]) && k !in at by { SomeUnused(x, keys, sigs, at, i); }
    assert k < |keys| && Signs(x, keys[k], sigs[i]);
  }

  // ---------- first come ----------

  /** The first key from position `j` that is not used yet and verifies the signature. */
  function FirstFree(x: Scheme, keys: seq<Bytes>, sig: Bytes, at: seq<nat>, j: nat): (r: Option<nat>)
    requires j <= |keys|
    ensures r.Some? ==> j <= r.value < |keys| && r.value !in at && x.verifies(keys[r.value], sig)
    ensures r.None? ==> forall k :: j <= k < |keys| && k !in at ==> !x.verifies(keys[k], sig)
    decreases |keys| - j
  {
    if j == |keys| then None
    else if j !in at && x.verifies(keys[j], sig) then Some(j)
    else FirstFree(x, keys, sig, at, j + 1)
  }

  /** The signatures from `|at|` to `m` each find a key of their own, first come. */
  predicate FirstCome(x: Scheme, keys: seq<Bytes>, sigs: seq<Bytes>, at: seq<nat>, m: int)
    requires m <= |sigs|
    decreases m - |at|
  {
    |at| >= m ||
    (x.deserializes(sigs[|at|]) &&
     var k := FirstFree(x, keys, sigs[|at|], at, 0);
     k.Some? && FirstCome(x, keys, sigs, at + [k.value], m))
  }

  /** What is accepted has a matching. */
  lemma {:induction false} FirstComeSound(x: Scheme, keys: seq<Bytes>, sigs: seq<Bytes>, at: seq<nat>, m: nat)
    returns (full: seq<nat>)
    requires |at| <= m <= |sigs| && Matching(x, keys, sigs, at) && FirstCome(x, keys, sigs, at, m)
    ensures Matching(x, keys, sigs, full) && |full| == m
    decreases m - |at|
  {
    if |at| == m {
      full := at;
    } else {
      var k := FirstFree(x, keys, sigs[|at|], at, 0).value;
      full := FirstComeSound(x, keys, sigs, at + [k], m);
    }
  }

  /** What has a matching is accepted, if no two signatures share only some of their keys. */
  lemma {:induction false} FirstComeComplete(x: Scheme, keys: seq<Bytes>, sigs: seq<Bytes>, at: seq<nat>,
                                             full: seq<nat>)
    requires Separate(x, keys, sigs) && Matching(x, keys, sigs, at) && Matching(x, keys, sigs, full)
    requires |at| <= |full|
    ensures FirstCome(x, keys, sigs, at, |full|)
    decreases |full| - |at|
  {
    hide Separate;
    var i := |at|;
    if i < |full| {
      assert Signs(x, keys[full[i]], sigs[i]);
      NotStuck(x, keys, sigs, at, full, i);
      var k := FirstFree(x, keys, sigs[i], at, 0).value;
      FirstComeComplete(x, keys, sigs, at + [k], full);
    }
  }

  /** Where two signatures share a key and another key is that of the first alone, the
      first signature takes the key of the second, and a list with a matching is rejected. */
  lemma KeyTaken(x: Scheme, k: Bytes, l: Bytes, a: Bytes, b: Bytes)
    requires Signs(x, k, a) && Signs(x, k, b) && Signs(x, l, a) && !Signs(x, l, b)
    ensures Matching(x, [k, l], [a, b], [1, 0]) && !FirstCome(x, [k, l], [a, b], [], 2)
  {
    var keys, sigs := [k, l], [a, b];
    assert FirstFree(x, keys, sigs[0], [], 0) == Some(0);
    assert [] + [0] == [0];
    assert FirstFree(x, keys, sigs[1], [0], 0).None?;
  }

  ghost predicate Drawn(list: seq<Bytes>, from: seq<Bytes>)
  {
    forall i :: 0 <= i < |list| ==> list[i] in from
  }

  /** Every list drawn from these keys and signatures that has a matching is accepted. */
  ghost predicate AlwaysFound(x: Scheme, keys: seq<Bytes>, sigs: seq<Bytes>)
  {
    forall ks, ss, full :: Drawn(ks, keys) && Drawn(ss, sigs) && Matching(x, ks, ss, full) ==>
      FirstCome(x, ks, ss, [], |full|)
  }

  lemma SeparatePair(x: Scheme, keys: seq<Bytes>, sigs: seq<Bytes>, ks: seq<Bytes>, a: Bytes, b: Bytes)
    requires Separate(x, keys, sigs) && Drawn(ks, keys) && a in sigs && b in sigs
    ensures Signers(x, ks, a) == Signers(x, ks, b) || Signers(x, ks, a) !! Signers(x, ks, b)
  {
    var i :| 0 <= i < |sigs| && sigs[i] == a;
    var j :| 0 <= j < |sigs| && sigs[j] == b;
    var g, h := Signers(x, keys, sigs[i]), Signers(x, keys, sigs[j]);
    assert g == h || g !! h;
    forall p: nat | p < |ks|
      ensures g == h ==> (Signs(x, ks[p], a) <==> Signs(x, ks[p], b))
      ensures g !! h ==> !(Signs(x, ks[p], a) && Signs(x, ks[p], b))
    {
      var q: nat :| q < |keys| && keys[q] == ks[p];
      assert q in g <==> Signs(x, ks[p], a);
      assert q in h <==> Signs(x, ks[p], b);
    }
  }

  lemma SeparateDrawn(x: Scheme, keys: seq<Bytes>, sigs: seq<Bytes>, ks: seq<Bytes>, ss: seq<Bytes>)
    requires Separate(x, keys, sigs) && Drawn(ks, keys) && Drawn(ss, sigs)
    ensures Separate(x, ks, ss)
  {
    forall i, j | 0 <= i < |ss| && 0 <= j < |ss|
      ensures Signers(x, ks, ss[i]) == Signers(x, ks, ss[j]) || Signers(x, ks, ss[i]) !! Signers(x, ks, ss[j])
    {
      SeparatePair(x, keys, sigs, ks, ss[i], ss[j]);
    }
  }

  /** Two signatures that share some but not all of their keys. */
  lemma SharedKey(x: Scheme, keys: seq<Bytes>, sigs: seq<Bytes>) returns (k: Bytes, l: Bytes, a: Bytes, b: Bytes)
    requires !Separate(x, keys, sigs)
    ensures k in keys && l in keys && a in sigs && b in sigs
    ensures Signs(x, k, a) && Signs(x, k, b) && Signs(x, l, a) && !Signs(x, l, b)
  {
    var i, j :| 0 <= i < |sigs| && 0 <= j < |sigs| && Signers(x, keys, sigs[i]) != Signers(x, keys, sigs[j]) &&
      !(Signers(x, keys, sigs[i]) !! Signers(x, keys, sigs[j]));
    var g, h := Signers(x, keys, sigs[i]), Signers(x, keys, sigs[j]);
    var p :| p in g && p in h;
    var q :| (q in g && q !in h) || (q in h && q !in g);
    k, l := keys[p], keys[q];
    if q in g {
      a, b := sigs[i], sigs[j];
    } else {
      a, b := sigs[j], sigs[i];
    }
  }

  /** The first-come choice finds every matching over these keys and signatures exactly when
      no two signatures share some but not all of their keys. */
  lemma SeparateExact(x: Scheme, keys: seq<Bytes>, sigs: seq<Bytes>)
    ensures Separate(x, keys, sigs) <==> AlwaysFound(x, keys, sigs)
  {
    hide FirstCome, Separate;
    if Separate(x, keys, sigs) {
      forall ks, ss, full | Drawn(ks, keys) && Drawn(ss, sigs) && Matching(x, ks, ss, full)
        ensures FirstCome(x, ks, ss, [], |full|)
      {
        SeparateDrawn(x, keys, sigs, ks, ss);
        FirstComeComplete(x, ks, ss, [], full);
      }
    } else {
      var k, l, a, b := SharedKey(x, keys, sigs);
      KeyTaken(x, k, l, a, b);
      assert Drawn([k, l], keys) && Drawn([a, b], sigs);
      assert |[1, 0]| == 2;
    }
  }

  // ---------- as the source runs it ----------

  method FindKey(x: Scheme, keys: seq<Bytes>, sig: Bytes, mask: array<bool>, ghost at: seq<nat>)
    returns (r: Option<nat>)
    requires mask.Length == |keys| && forall k: nat :: k < |keys| ==> (mask[k] <==> k in at)
    ensures r == FirstFree(x, keys, sig, at, 0)
  {
    for j := 0 to |keys|
      invariant FirstFree(x, keys, sig, at, 0) == FirstFree(x, keys, sig, at, j)
    {
      if !mask[j] && x.verifies(keys[j], sig) {
        return Some(j);
      }
    }
    r := None;
  }

  /** The first `m` signatures are those of different keys. */
  ghost predicate Signable(x: Scheme, keys: seq<Bytes>, m: nat, sigs: seq<Bytes>)
  {
    exists at :: |at| == m && Matching(x, keys, sigs, at)
  }

  /** What the first-come choice accepts is signable, and where keys are separate all of that is
      accepted. */
  lemma FirstComeDecides(x: Scheme, keys: seq<Bytes>, m: nat, sigs: seq<Bytes>)
    requires m <= |sigs|
    ensures FirstCome(x, keys, sigs, [], m) ==> Signable(x, keys, m, sigs)
    ensures Separate(x, keys, sigs) && Signable(x, keys, m, sigs) ==> FirstCome(x, keys, sigs, [], m)
  {
    hide FirstCome, Separate, Signs;
    if FirstCome(x, keys, sigs, [], m) {
      var at := FirstComeSound(x, keys, sigs, [], m);
    }
    if Separate(x, keys, sigs) && Signable(x, keys, m, sigs) {
      var full :| |full| == m && Matching(x, keys, sigs, full);
      FirstComeComplete(x, keys, sigs, [], full);
    }
  }

  /** `VerifyMultiSignature`: marks the key that each signature finds first. */
  method VerifyMultiSignature(x: Scheme, keys: seq<Bytes>, m: int, sigs: seq<Bytes>) returns (ok: bool)
    ensures ok == (m <= |sigs| && FirstCome(x, keys, sigs, [], m))
    ensures ok && 0 <= m ==> Signable(x, keys, m, sigs)
    ensures 0 <= m && Separate(x, keys, sigs) && Signable(x, keys, m, sigs) ==> ok
    ensures m <= 0 ==> ok
  {
    if 0 <= m <= |sigs| { FirstComeDecides(x, keys, m, sigs); }
    if |sigs| < m {
      return false;
    }
    ghost var at: seq<nat> := [];
    var mask := new bool[|keys|](_ => false);
    var i := 0;
    while i < m
      invariant 0 <= i && |at| == i && FirstCome(x, keys, sigs, at, m) == FirstCome(x, keys, sigs, [], m)
      invariant forall k: nat :: k < |keys| ==> (mask[k] <==> k in at)
    {
      if !x.deserializes(sigs[i]) {
        return false;
      }
      var k := FindKey(x, keys, sigs[i], mask, at);
      if k.None? {
        return false;
      }
      mask[k.value] := true;
      at := at + [k.value];
      i := i + 1;
    }
    ok := true;
  }

  // ---------- blocks ----------

  /** What the check of a block looks at. */
  datatype Header = Header(height: nat, timestamp: nat, bookkeepers: seq<Bytes>, sigData: seq<Bytes>,
                           nextBookkeeper: Bytes)

  /** `len - (len - 1) / 3` with a division that truncates: none of none. */
  function Quorum(n: nat): (m: nat)
    ensures n > 0 ==> 3 * (n - m) < n <= 3 * (n - m + 1)
    ensures n == 0 ==> m == 0
  {
    if n == 0 then 0 else n - (n - 1) / 3
  }

  /** `VerifyHeader`; `address` is the address of a list of bookkeepers, if it has one. */
  predicate HeaderFollows(address: seq<Bytes> -> Option<Bytes>, h: Header, prev: Option<Header>)
  {
    h.height == 0 ||
    (&& prev.Some?
     && (prev.value.height + 1) % 0x1_0000_0000 == h.height
     && prev.value.timestamp < h.timestamp
     && address(h.bookkeepers) == Some(prev.value.nextBookkeeper))
  }

  /** `VerifyBlock`, without the transactions; `x` is for the hash of the block. */
  predicate BlockVerifies(x: Scheme, address: seq<Bytes> -> Option<Bytes>, h: Header, prev: Option<Header>)
  {
    h.height == 0 ||
    (&& Quorum(|h.bookkeepers|) <= |h.sigData|
     && FirstCome(x, h.bookkeepers, h.sigData, [], Quorum(|h.bookkeepers|))
     && prev.Some? && HeaderFollows(address, h, prev))
  }

  /** The signers are bookkeepers, as many as the quorum, and each has signed. */
  ghost predicate SignedBy(x: Scheme, h: Header, signers: set<Bytes>)
  {
    && |signers| == Quorum(|h.bookkeepers|) && signers <= (set k | k in h.bookkeepers)
    && forall k :: k in signers ==> exists i :: 0 <= i < |h.sigData| && Signs(x, k, h.sigData[i])
  }

  function Named(keys: seq<Bytes>, at: seq<nat>): set<Bytes>
  {
    set i | 0 <= i < |at| && at[i] < |keys| :: keys[at[i]]
  }

  lemma {:induction false} NamedSize(keys: seq<Bytes>, at: seq<nat>)
    requires Distinct(keys)
    requires forall i :: 0 <= i < |at| ==> at[i] < |keys|
    requires forall i, j :: 0 <= i < j < |at| ==> at[i] != at[j]
    ensures |Named(keys, at)| == |at|
  {
    if at == [] {
      assert Named(keys, at) == {};
    } else {
      var n := |at| - 1;
      NamedSize(keys, at[..n]);
      assert Named(keys, at) == Named(keys, at[..n]) + {keys[at[n]]};
      assert keys[at[n]] !in Named(keys, at[..n]);
    }
  }

  /** A block above the first that passes is signed by a quorum of different bookkeepers. */
  lemma QuorumSigned(x: Scheme, address: seq<Bytes> -> Option<Bytes>, h: Header, prev: Option<Header>)
    returns (signers: set<Bytes>)
    requires BlockVerifies(x, address, h, prev) && h.height > 0 && Distinct(h.bookkeepers)
    ensures SignedBy(x, h, signers)
  {
    var m := Quorum(|h.bookkeepers|);
    var at := FirstComeSound(x, h.bookkeepers, h.sigData, [], m);
    signers := Named(h.bookkeepers, at);
    NamedSize(h.bookkeepers, at);
    forall k | k in signers
      ensures k in h.bookkeepers && exists i :: 0 <= i < |h.sigData| && Signs(x, k, h.sigData[i])
    {
      var i :| 0 <= i < |at| && at[i] < |h.bookkeepers| && h.bookkeepers[at[i]] == k;
      assert Signs(x, k, h.sigData[i]);
    }
  }

  /** `VerifyBlock`: the first block passes; any other only with a predecessor that it
      follows in height and time, and signed by a quorum of its bookkeepers. */
  method VerifyBlock(x: Scheme, address: seq<Bytes> -> Option<Bytes>, h: Header, prev: Option<Header>)
    returns (ok: bool)
    ensures ok == BlockVerifies(x, address, h, prev)
    ensures h.height == 0 ==> ok
    ensures ok && 0 < h.height && Distinct(h.bookkeepers) ==> exists signers :: SignedBy(x, h, signers)
    ensures ok && 0 < h.height ==> prev.Some? && prev.value.timestamp < h.timestamp
    ensures ok && 0 < h.height ==> address(h.bookkeepers) == Some(prev.value.nextBookkeeper)
    ensures 0 < h.height && Separate(x, h.bookkeepers, h.sigData) ==>
      (ok <==> && Signable(x, h.bookkeepers, Quorum(|h.bookkeepers|), h.sigData)
               && prev.Some? && (prev.value.height + 1) % 0x1_0000_0000 == h.height
               && prev.value.timestamp < h.timestamp && address(h.bookkeepers) == Some(prev.value.nextBookkeeper))
    ensures ok && 0 < h.height && prev.value.height < 0x1_0000_0000 ==> h.height == prev.value.height + 1
  {
    hide FirstCome, SignedBy, Signable, Separate;
    if h.height == 0 {
      return true;
    }
    var n := |h.bookkeepers|;
    var m := n - (if n == 0 then 0 else (n - 1) / 3);
    ok := VerifyMultiSignature(x, h.bookkeepers, m, h.sigData);
    if !ok {
      return false;
    }
    if prev.None? {
      return false;
    }
    ok := HeaderFollows(address, h, prev);
    if ok && Distinct(h.bookkeepers) {
      ghost var signers := QuorumSigned(x, address, h, prev);
    }
  }

  lemma {:induction false} KeyCount(keys: seq<Bytes>)
    ensures |set k | k in keys| <= |keys|
  {
    if keys != [] {
      var n := |keys| - 1;
      KeyCount(keys[..n]);
      assert (set k | k in keys) == (set k | k in keys[..n]) + {keys[n]};
    }
  }

  lemma QuorumArithmetic(n: nat)
    requires n > 0
    ensures 2 * Quorum(n) - n > (n - 1) / 3
  {
  }

  /** Two blocks above the first that pass with the same different bookkeepers, whatever
      they follow, are both signed by more than a third of them. */
  lemma BlocksShareSigners(x: Scheme, y: Scheme, address: seq<Bytes> -> Option<Bytes>, g: Header, h: Header,
                           prevG: Option<Header>, prevH: Option<Header>) returns (both: set<Bytes>)
    requires BlockVerifies(x, address, g, prevG) && BlockVerifies(y, address, h, prevH) && g.height > 0 && h.height > 0
    requires g.bookkeepers == h.bookkeepers && |g.bookkeepers| > 0 && Distinct(g.bookkeepers)
    ensures |both| > (|g.bookkeepers| - 1) / 3
    ensures forall k :: k in both ==> k in g.bookkeepers
    ensures forall k :: k in both ==> exists i :: 0 <= i < |g.sigData| && Signs(x, k, g.sigData[i])
    ensures forall k :: k in both ==> exists i :: 0 <= i < |h.sigData| && Signs(y, k, h.sigData[i])
  {
    hide FirstCome, BlockVerifies;
    var keys := set k | k in g.bookkeepers;
    var a := QuorumSigned(x, address, g, prevG);
    var b := QuorumSigned(y, address, h, prevH);
    both := a * b;
    Overlap(a, b, keys);
    KeyCount(g.bookkeepers);
    QuorumArithmetic(|g.bookkeepers|);
  }

  /** Headers that follow each other count up from the first and go forward in time, and the
      bookkeepers of each are those that the one before it named. */
  lemma {:induction false} ChainClimbs(address: seq<Bytes> -> Option<Bytes>, chain: seq<Header>, k: nat)
    requires k < |chain| && forall i :: 0 <= i < |chain| ==> chain[i].height < 0x1_0000_0000
    requires forall i :: 0 < i < |chain| ==>
      chain[i].height != 0 && HeaderFollows(address, chain[i], Some(chain[i - 1]))
    ensures chain[k].height == chain[0].height + k && chain[k].timestamp >= chain[0].timestamp + k
    ensures k > 0 ==> address(chain[k].bookkeepers) == Some(chain[k - 1].nextBookkeeper)
  {
    if k > 0 {
      ChainClimbs(address, chain, k - 1);
      assert HeaderFollows(address, chain[k], Some(chain[k - 1]));
    }
  }
}
