/**
 The second flag encoder, in the netshare controller. It is a separate piece of
 code with its own XXTEA loop; its flags are the ones uuid_stego.py decodes.
 */
module NetshareFlag {
  import opened Bits
  import opened Xxtea
  import opened UuidStego

  /** Pads the key words in place and counts the rounds with a for loop. */
  method XxteaEncryptBytes(data: seq<byte>, key: seq<byte>) returns (c: seq<byte>)
    requires data != []
    ensures c == Sealed(data, key)
  {
    hide Mx, RoundSum, Add32, Sub32, Words, Bytes, WordAt, LaneOf;
    var v := ToU32(data);
    var k := ToU32(key);
    ghost var v0, k0 := v, k;
    while |k| < 4
      invariant FixKey(k) == FixKey(k0)
      decreases 4 - |k|
    {
      k := k + [0];
    }
    assert k == FixKey(k0);
    hide FixKey;
    var n := |v| - 1;
    var z := v[n];
    var s: word := 0;
    var q := 6 + 52 / |v|;
    RoundSumNext(0);
    for r := 0 to q
      invariant |v| == n + 1 && s == RoundSum(r) && z == v[n]
      invariant v == EncryptRounds(v0, r, k)
    {
      ghost var w := v;
      RoundSumNext(r);
      s := (s + DELTA) % WORD;
      var e := (s / 4) % 4;
      for p := 0 to n
        invariant |v| == n + 1 && v == Forward(w, p, s, k)
        invariant z == v[Prev(p, n + 1)]
      {
        var y := v[p + 1];
        v := v[p := Add32(v[p], Mx(s, y, z, p, e, k))];
        z := v[p];
      }
      var y := v[0];
      v := v[n := Add32(v[n], Mx(s, y, z, n, e, k))];
      z := v[n];
    }
    c := ToBytes(v);
  }

  method EncodeFlag(carrier: block, key: seq<byte>, stream: block, t: int) returns (r: Result<block>)
    ensures r == if IsInt64(t) then Ok(Encoded(carrier, key, stream, t)) else OutOfRange
  {
    if !IsInt64(t) {
      return OutOfRange;
    }
    var id := PackId(t);
    var enc := XxteaEncryptBytes(id, key);
    var mixed := Interleave(carrier, enc);
    var uuid := StreamXor(mixed, stream);
    r := Ok(uuid);
  }

  /** A flag from this encoder, read by the other program's decoder, gives back the id. */
  method CrossDecode(carrier: block, key: seq<byte>, stream: block, t: int) returns (r: Result<int>)
    requires IsInt64(t)
    ensures r == Ok(t)
  {
    var flag := EncodeFlag(carrier, key, stream, t);
    r := DecodeUuid(carrier, key, stream, flag.value);
    DecodeOfEncode(carrier, key, stream, t, r);
  }
}
