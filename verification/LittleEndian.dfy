// Numbers as bytes, lowest first: how a little-endian host stores the fields of
// a structure, and how keys are read as numbers.

module LittleEndian {
  import opened Arithmetic
  import opened Bytes

  // How many numbers fit in this many bytes.
  function Limit(width: nat): (n: nat)
    ensures n > 0
  {
    Pow2(8 * width)
  }

  lemma LimitIs(width: nat)
    ensures Limit(width) == Pow2(8 * width)
  {}

  lemma LimitGrows(width: nat)
    ensures Limit(0) == 1 && Limit(width + 1) == 256 * Limit(width)
  {
    Pow2Adds(8, 8 * width);
    Pow2Values();
  }

  function Encode(n: nat, width: nat): (bytes: seq<byte>)
    ensures |bytes| == width
  {
    if width == 0 then [] else [(n % 256) as byte] + Encode(n / 256, width - 1)
  }

  function Decode(bytes: seq<byte>): (n: nat)
    ensures n < Limit(|bytes|)
  {
    LimitGrows(if bytes == [] then 0 else |bytes| - 1);
    if bytes == [] then 0 else bytes[0] as nat + 256 * Decode(bytes[1..])
  }

  function Backwards<T>(s: seq<T>): (t: seq<T>)
    ensures |t| == |s| && forall i | 0 <= i < |s| :: t[i] == s[|s| - 1 - i]
  {
    if s == [] then [] else Backwards(s[1..]) + [s[0]]
  }

  // The number that some bytes of memory are for a host.
  function Held(host: Host, bytes: seq<byte>): nat {
    match host
    case LittleEndian => Decode(bytes)
    case BigEndian => Decode(Backwards(bytes))
  }

  lemma {:induction false} DecodeAfterEncode(n: nat, width: nat)
    requires n < Limit(width)
    ensures Decode(Encode(n, width)) == n
  {
    hide Limit;
    LimitGrows(if width == 0 then 0 else width - 1);
    if width > 0 {
      DecodeAfterEncode(n / 256, width - 1);
      assert Encode(n, width)[1..] == Encode(n / 256, width - 1);
    }
  }

  lemma {:induction false} EncodeAfterDecode(bytes: seq<byte>)
    ensures Encode(Decode(bytes), |bytes|) == bytes
  {
    if bytes != [] {
      EncodeAfterDecode(bytes[1..]);
      assert Decode(bytes) % 256 == bytes[0] as nat && Decode(bytes) / 256 == Decode(bytes[1..]);
    }
  }
}
