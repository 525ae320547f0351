/** Bytes, and 32-bit words in network order (htonl and ntohl). */
module Bytes {
  import opened Integers

  type Byte = x: int | 0 <= x < 256

  function ToNetwork(x: Word32): (s: seq<Byte>)
    ensures |s| == 4
  {
    [x / 256 / 256 / 256, x / 256 / 256 % 256, x / 256 % 256, x % 256]
  }

  function FromNetwork(s: seq<Byte>): Word32
    requires |s| == 4
  {
    ((s[0] as int * 256 + s[1]) * 256 + s[2]) * 256 + s[3]
  }

  lemma NetworkRoundTrip(x: Word32)
    ensures FromNetwork(ToNetwork(x)) == x
  {
    assert x / 256 / 256 == 256 * (x / 256 / 256 / 256) + x / 256 / 256 % 256;
  }

  /** The most significant byte comes first: words compare like their bytes, from left to right. */
  lemma NetworkOrder(x: Word32, y: Word32)
    ensures x < y <==>
      exists i :: 0 <= i < 4 && ToNetwork(x)[..i] == ToNetwork(y)[..i] && ToNetwork(x)[i] < ToNetwork(y)[i]
  {
    var a, b := ToNetwork(x), ToNetwork(y);
    Significance(x);
    Significance(y);
    if x < y {
      var i := if a[0] != b[0] then 0 else if a[1] != b[1] then 1 else if a[2] != b[2] then 2 else 3;
      assert a[..i] == b[..i] && a[i] < b[i];
    }
    if i :| 0 <= i < 4 && a[..i] == b[..i] && a[i] < b[i] {
      assert forall j :: 0 <= j < i ==> a[..i][j] == b[..i][j];
    }
  }

  lemma Significance(x: Word32)
    ensures
      var s := ToNetwork(x);
      x == 0x100_0000 * (s[0] as int) + 0x1_0000 * (s[1] as int) + 0x100 * (s[2] as int) + s[3]
  {
    NetworkRoundTrip(x);
  }

  lemma WordRoundTrip(s: seq<Byte>)
    requires |s| == 4
    ensures ToNetwork(FromNetwork(s)) == s
  {
    var high := (s[0] as int * 256 + s[1]) * 256 + s[2];
    assert FromNetwork(s) / 256 == high && FromNetwork(s) % 256 == s[3];
    assert high / 256 == s[0] as int * 256 + s[1] && high % 256 == s[2];
  }
}
