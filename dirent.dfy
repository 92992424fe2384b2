/** __unix_readdir's record: the host's struct dirent narrowed into the
    legacy struct unixdirent, whose name is a fixed 256-byte buffer filled
    by strncpy (ISO C 7.24.2.4): at most n bytes are copied, the rest is
    zero-padded, and no terminator is written when the name fills the buffer. */
module Dirent {
  import opened Abi

  const NAME_MAX: nat := 256

  /** strlen: the index of the first zero byte, or the whole length if none. */
  function StrLen(s: seq<byte>): (n: nat)
    ensures n <= |s|
    ensures forall i :: 0 <= i < n ==> s[i] != 0
    ensures n < |s| ==> s[n] == 0
  {
    if |s| == 0 || s[0] == 0 then 0 else 1 + StrLen(s[1..])
  }

  /** The first zero byte is where StrLen says it is. */
  lemma {:induction false} StrLenIs(s: seq<byte>, k: nat)
    requires k <= |s|
    requires forall i :: 0 <= i < k ==> s[i] != 0
    requires k < |s| ==> s[k] == 0
    ensures StrLen(s) == k
  {
    if k > 0 {
      StrLenIs(s[1..], k - 1);
    }
  }

  function Zeros(n: nat): (z: seq<byte>)
    ensures |z| == n && forall i :: 0 <= i < n ==> z[i] == 0
  {
    seq(n, i => 0)
  }

  function Min(a: nat, b: nat): nat {
    if a <= b then a else b
  }

  /** strncpy(dst, src, n) as the n bytes it leaves in dst. */
  function StrNCpy(src: seq<byte>, n: nat): (dst: seq<byte>)
    ensures |dst| == n
    ensures forall i :: 0 <= i < n ==> dst[i] == if i < StrLen(src) then src[i] else 0
  {
    var k := Min(StrLen(src), n);
    src[..k] + Zeros(n - k)
  }

  /** A name shorter than the buffer comes back intact when the buffer is
      read as a C string: it is terminated and holds the whole name. */
  lemma ShortNameRoundTrip(src: seq<byte>, n: nat)
    ensures StrLen(src) < n ==> StrLen(StrNCpy(src, n)) == StrLen(src)
    ensures StrLen(src) < n ==> StrNCpy(src, n)[..StrLen(src)] == src[..StrLen(src)]
  {
    if StrLen(src) < n {
      StrLenIs(StrNCpy(src, n), StrLen(src));
    }
  }

  /** A name at least as long as the buffer is cut to exactly n bytes and
      left without a terminator. */
  lemma LongNameTruncated(src: seq<byte>, n: nat)
    requires StrLen(src) >= n
    ensures StrNCpy(src, n) == src[..n]
    ensures forall i :: 0 <= i < n ==> StrNCpy(src, n)[i] != 0
  {
  }

  /** The strncpy loop on the destination array: copy up to the source's
      terminator or n bytes, then zero-pad up to n; nothing past n is touched. */
  method CopyName(dst: array<byte>, src: seq<byte>, n: nat)
    requires n <= dst.Length
    modifies dst
    ensures dst[..n] == StrNCpy(src, n)
    ensures dst[n..] == old(dst[n..])
  {
    var i := 0;
    while i < n && i < |src| && src[i] != 0
      invariant i <= n && i <= StrLen(src)
      invariant forall j :: 0 <= j < i ==> dst[j] == src[j]
      invariant dst[n..] == old(dst[n..])
    {
      dst[i] := src[i];
      i := i + 1;
    }
    ghost var copied := i;
    assert copied == Min(StrLen(src), n);
    while i < n
      invariant copied <= i <= n
      invariant forall j :: 0 <= j < copied ==> dst[j] == src[j]
      invariant forall j :: copied <= j < i ==> dst[j] == 0
      invariant dst[n..] == old(dst[n..])
    {
      dst[i] := 0;
      i := i + 1;
    }
    assert forall j :: 0 <= j < n ==> dst[..n][j] == StrNCpy(src, n)[j];
  }

  /** The host's struct dirent, reduced to the fields the translator reads;
      `name` is the bytes of d_name. */
  datatype HostDirent = HostDirent(ino: int, off: int, reclen: int, dtype: byte, name: seq<byte>)

  /** The contents of the legacy struct unixdirent. */
  datatype DirentValue = DirentValue(ino: u16, off: u32, reclen: u16, dtype: u16, name: seq<byte>)

  /** The all-zero legacy record: every field and every name byte is 0. */
  function ZeroDirent(): DirentValue {
    DirentValue(0, 0, 0, 0, Zeros(NAME_MAX))
  }

  /** The record __unix_readdir returns for a host entry. */
  function TranslateDirent(h: HostDirent): (u: DirentValue)
    ensures u.ino == U16(h.ino) && u.off == U32(h.off) && u.reclen == U16(h.reclen)
    ensures u.dtype == h.dtype as u16
    ensures |u.name| == NAME_MAX
    ensures StrLen(h.name) < NAME_MAX ==> StrLen(u.name) == StrLen(h.name)
    ensures u.name[..Min(StrLen(h.name), NAME_MAX)] == h.name[..Min(StrLen(h.name), NAME_MAX)]
    ensures forall i :: Min(StrLen(h.name), NAME_MAX) <= i < NAME_MAX ==> u.name[i] == 0
    ensures StrLen(h.name) >= NAME_MAX ==> forall i :: 0 <= i < NAME_MAX ==> u.name[i] != 0
  {
    ShortNameRoundTrip(h.name, NAME_MAX);
    DirentValue(U16(h.ino), U32(h.off), U16(h.reclen), h.dtype as u16, StrNCpy(h.name, NAME_MAX))
  }

  /** The single static struct unixdirent that every call overwrites. */
  class UnixDirent {
    var ino: u16
    var off: u32
    var reclen: u16
    var dtype: u16
    const name: array<byte>

    constructor ()
      ensures name.Length == NAME_MAX && fresh(name) && Value() == ZeroDirent()
    {
      ino, off, reclen, dtype := 0, 0, 0, 0;
      name := new byte[NAME_MAX](i => 0);
    }

    function Value(): DirentValue
      reads this, name
    {
      DirentValue(ino, off, reclen, dtype, name[..])
    }
  }
}
