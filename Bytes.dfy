/**
 * Bytes, fixed-width integers and the host byte order.
 *
 * The codec copies host integers with memcpy and byte-swaps them first when the
 * host is big-endian. A host integer's memory image therefore depends on the
 * host; `bigEndian` stands for the runtime IS_BIG_ENDIAN test throughout.
 */
module Bytes {

  type Byte = x: nat | x < 256

  /** 256^n: the number of distinct values of an n-byte unsigned integer. */
  function Pow256(n: nat): (r: nat)
    ensures r >= 1
  {
    if n == 0 then 1 else 256 * Pow256(n - 1)
  }

  /** An unsigned integer of the given byte width (uint32_t, uint64_t). */
  predicate IsUint(x: nat, width: nat)
  {
    x < Pow256(width)
  }

  /** The low `n` bytes of `x`, least significant first. */
  function LE(x: nat, n: nat): (r: seq<Byte>)
    ensures |r| == n
  {
    if n == 0 then [] else [x % 256] + LE(x / 256, n - 1)
  }

  /** The unsigned integer whose little-endian bytes are `s`. */
  function FromLE(s: seq<Byte>): (r: nat)
    ensures IsUint(r, |s|)
  {
    if s == [] then 0 else s[0] + 256 * FromLE(s[1..])
  }

  lemma {:induction false} FromLEOfLE(x: nat, n: nat)
    requires IsUint(x, n)
    ensures FromLE(LE(x, n)) == x
  {
    if n > 0 {
      assert x / 256 < Pow256(n - 1);
      FromLEOfLE(x / 256, n - 1);
      assert LE(x, n)[1..] == LE(x / 256, n - 1);
    }
  }

  lemma {:induction false} LEOfFromLE(s: seq<Byte>)
    ensures LE(FromLE(s), |s|) == s
  {
    if s != [] {
      var v := FromLE(s);
      assert v % 256 == s[0] && v / 256 == FromLE(s[1..]);
      LEOfFromLE(s[1..]);
    }
  }

  /** The bytes of `s` in the opposite order. */
  function Reverse<T>(s: seq<T>): (r: seq<T>)
    ensures |r| == |s|
  {
    if s == [] then [] else Reverse(s[1..]) + [s[0]]
  }

  lemma {:induction false} ReverseAt<T>(s: seq<T>, k: nat)
    requires k < |s|
    ensures Reverse(s)[k] == s[|s| - 1 - k]
  {
    if k < |s| - 1 {
      ReverseAt(s[1..], k);
    }
  }

  lemma ReverseInvolutive<T>(s: seq<T>)
    ensures Reverse(Reverse(s)) == s
  {
    forall k | 0 <= k < |s|
      ensures Reverse(Reverse(s))[k] == s[k]
    {
      ReverseAt(Reverse(s), k);
      ReverseAt(s, |s| - 1 - k);
    }
  }

  /** bswap_16/32/64: the value whose n bytes are those of `x` reversed. */
  function Bswap(x: nat, n: nat): (r: nat)
    ensures IsUint(r, n)
  {
    FromLE(Reverse(LE(x, n)))
  }

  /** The memory image of an n-byte host integer (what memcpy copies out). */
  function HostBytes(x: nat, n: nat, bigEndian: bool): (r: seq<Byte>)
    ensures |r| == n
  {
    if bigEndian then Reverse(LE(x, n)) else LE(x, n)
  }

  /** The host integer whose memory image is `s` (what memcpy copies in). */
  function FromHostBytes(s: seq<Byte>, bigEndian: bool): (r: nat)
    ensures IsUint(r, |s|)
  {
    if bigEndian then FromLE(Reverse(s)) else FromLE(s)
  }

  /** Storing an integer as the codec does (bswap on a big-endian host, then
      memcpy) yields its little-endian bytes on either host. */
  lemma StoreIsLittleEndian(x: nat, n: nat, bigEndian: bool)
    requires IsUint(x, n)
    ensures HostBytes(if bigEndian then Bswap(x, n) else x, n, bigEndian) == LE(x, n)
  {
    if bigEndian {
      LEOfFromLE(Reverse(LE(x, n)));
      ReverseInvolutive(LE(x, n));
    }
  }

  /** Loading an integer as the codec does (memcpy, then bswap on a big-endian
      host) reads the bytes as little-endian on either host. */
  lemma LoadIsLittleEndian(s: seq<Byte>, bigEndian: bool)
    ensures (if bigEndian then Bswap(FromHostBytes(s, bigEndian), |s|)
             else FromHostBytes(s, bigEndian)) == FromLE(s)
  {
    if bigEndian {
      LEOfFromLE(Reverse(s));
      ReverseInvolutive(s);
    }
  }

  /** memcpy of `src` into `dst` at offset `at`: the bytes around it are kept. */
  function Overwrite(dst: seq<Byte>, at: nat, src: seq<Byte>): (r: seq<Byte>)
    requires at + |src| <= |dst|
    ensures |r| == |dst| && r[at..at + |src|] == src
    ensures r[..at] == dst[..at] && r[at + |src|..] == dst[at + |src|..]
  {
    dst[..at] + src + dst[at + |src|..]
  }

  /** strnlen: the index of the first NUL among the first `max` bytes, or `max`. */
  function Strnlen(s: seq<Byte>, max: nat): (n: nat)
    requires max <= |s|
    ensures n <= max
    ensures forall i :: 0 <= i < n ==> s[i] != 0
    ensures n < max ==> s[n] == 0
  {
    if max == 0 || s[0] == 0 then 0 else 1 + Strnlen(s[1..], max - 1)
  }

  /** Strnlen is determined by the first `max` bytes alone. */
  lemma {:induction false} StrnlenPrefix(s: seq<Byte>, t: seq<Byte>, max: nat)
    requires max <= |s| && max <= |t| && s[..max] == t[..max]
    ensures Strnlen(s, max) == Strnlen(t, max)
  {
    if max > 0 {
      assert s[0] == s[..max][0] && t[0] == t[..max][0];
      assert s[1..][..max - 1] == s[..max][1..] && t[1..][..max - 1] == t[..max][1..];
      StrnlenPrefix(s[1..], t[1..], max - 1);
    }
  }
}
