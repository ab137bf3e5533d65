/** Bytes, optional values and the flat byte-sequence file that every storage layer refines. */
module Flat {

  type byte = b: int | 0 <= b < 256

  const PAGE_SIZE: nat := 4096

  /** The largest machine word. */
  const USIZE_MAX: nat := 0xFFFF_FFFF_FFFF_FFFF

  datatype Option<+T> = None | Some(value: T)

  function Min(a: int, b: int): int {
    if a < b then a else b
  }

  function Max(a: int, b: int): int {
    if a < b then b else a
  }

  /** Addition that stops at the largest machine word. */
  function SaturatingAdd(a: nat, b: nat): (r: nat)
    ensures r == a + b <= USIZE_MAX || r == USIZE_MAX < a + b
  {
    Min(a + b, USIZE_MAX)
  }

  /** The number of `unit`-sized pieces needed for `n` bytes. */
  function DivCeil(n: nat, unit: nat): (r: nat)
    requires unit > 0
    ensures r * unit >= n
    ensures r > 0 ==> (r - 1) * unit < n
  {
    (n + unit - 1) / unit
  }

  /** A run of `n` zero bytes. */
  function Zeros(n: nat): (z: seq<byte>)
    ensures |z| == n && forall i | 0 <= i < n :: z[i] == 0
  {
    seq(n, _ => 0)
  }

  /** The bytes of `f` in `[off, off + n)`, cut at the end of the file. */
  function Read(f: seq<byte>, off: nat, n: nat): (r: seq<byte>)
    ensures |r| == if off >= |f| then 0 else Min(n, |f| - off)
    ensures forall i | 0 <= i < |r| :: r[i] == f[off + i]
  {
    if off >= |f| then [] else f[off..off + Min(n, |f| - off)]
  }

  /** Writing `d` at `off`; a gap past the end is filled with zeros and an empty write does nothing. */
  function Write(f: seq<byte>, off: nat, d: seq<byte>): (r: seq<byte>)
    ensures |r| == if d == [] then |f| else Max(|f|, off + |d|)
    ensures forall i | 0 <= i < |r| ::
              r[i] == if off <= i < off + |d| then d[i - off] else if i < |f| then f[i] else 0
  {
    if d == [] then f
    else seq(Max(|f|, off + |d|), i requires 0 <= i =>
               if off <= i < off + |d| then d[i - off] else if i < |f| then f[i] else 0)
  }

  /** Cutting the file at `n`, or growing it to `n` with zeros. */
  function Truncate(f: seq<byte>, n: nat): (r: seq<byte>)
    ensures |r| == n
    ensures forall i | 0 <= i < n :: r[i] == if i < |f| then f[i] else 0
  {
    seq(n, i requires 0 <= i => if i < |f| then f[i] else 0)
  }

  /** `d` replaces the bytes of `s` from `off` on; nothing else moves. */
  function Splice(s: seq<byte>, off: nat, d: seq<byte>): (r: seq<byte>)
    requires off + |d| <= |s|
    ensures |r| == |s|
    ensures forall i | 0 <= i < |s| :: r[i] == if off <= i < off + |d| then d[i - off] else s[i]
  {
    s[..off] + d + s[off + |d|..]
  }

  lemma SubsetSize<T>(a: set<T>, b: set<T>)
    requires a <= b
    ensures |a| <= |b|
  {
    assert b == a + (b - a);
  }
}
