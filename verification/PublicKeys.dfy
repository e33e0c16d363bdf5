/** Public keys, which every component knows by their serialized form. */
module PublicKeys {
  import opened Common

  /** Parses a serialized public key, and gives its canonical serialized form. */
  type KeyParser = Bytes -> Option<Bytes>

  /** All keys parsed, or nothing. */
  function ParseKeys(p: KeyParser, bufs: seq<Bytes>): (r: Option<seq<Bytes>>)
    ensures r.Some? <==> forall i :: 0 <= i < |bufs| ==> p(bufs[i]).Some?
    ensures r.Some? ==> |r.value| == |bufs| && forall i :: 0 <= i < |bufs| ==> r.value[i] == p(bufs[i]).value
  {
    if bufs == [] then Some([])
    else
      var n := |bufs| - 1;
      var init := ParseKeys(p, bufs[..n]);
      if init.None? || p(bufs[n]).None? then None else Some(init.value + [p(bufs[n]).value])
  }

  /** Parses every key in turn. */
  method ParseAll(p: KeyParser, bufs: seq<Bytes>) returns (keys: Option<seq<Bytes>>)
    ensures keys == ParseKeys(p, bufs)
  {
    var parsed: seq<Bytes> := [];
    for i := 0 to |bufs|
      invariant ParseKeys(p, bufs[..i]) == Some(parsed)
    {
      var key := p(bufs[i]);
      if key.None? {
        return None;
      }
      parsed := parsed + [key.value];
      assert bufs[..i + 1][..i] == bufs[..i];
    }
    assert bufs[..|bufs|] == bufs;
    keys := Some(parsed);
  }
}
