/** Regular files as byte strings, and the three positioned system calls the
    cache is built from.  Every function is total: reading past the end yields
    nothing, writing past the end leaves a hole of zeros. */
module Posix {

  newtype byte = b: int | 0 <= b < 0x100

  type Path = string

  /** A regular file: its bytes and its st_mtime in whole seconds. */
  datatype File = File(data: seq<byte>, mtime: nat)

  function Min(a: int, b: int): int { if a <= b then a else b }

  function Max(a: int, b: int): int { if a >= b then a else b }

  /** pread(2): at most `size` bytes starting at `off`. */
  function Pread(data: seq<byte>, size: nat, off: nat): (r: seq<byte>)
    ensures |r| == Max(0, Min(size, |data| - off))
  {
    if off >= |data| then [] else data[off..Min(off + size, |data|)]
  }

  /** pwrite(2): a write of no bytes changes nothing. */
  function Pwrite(data: seq<byte>, buf: seq<byte>, off: nat): (r: seq<byte>)
    ensures |r| == if buf == [] then |data| else Max(|data|, off + |buf|)
  {
    if buf == [] then data
    else seq(Max(|data|, off + |buf|), i => PwriteAt(data, buf, off, i))
  }

  function PwriteAt(data: seq<byte>, buf: seq<byte>, off: nat, i: int): byte {
    if off <= i < off + |buf| then buf[i - off]
    else if 0 <= i < |data| then data[i]
    else 0
  }

  /** ftruncate(2): cut, or extend with zeros. */
  function Truncate(data: seq<byte>, size: nat): (r: seq<byte>)
    ensures |r| == size
  {
    if size <= |data| then data[..size] else data + seq(size - |data|, _ => 0)
  }

  /** The effect of `pwrite` on a file, including its modification time. */
  function WriteFile(f: File, buf: seq<byte>, off: nat, now: nat): File {
    if buf == [] then f else File(Pwrite(f.data, buf, off), now)
  }

  /** Bytes of `src` copied over `dst` from index `at` on. */
  function Overlay(dst: seq<byte>, src: seq<byte>, at: nat): (r: seq<byte>)
    requires at + |src| <= |dst|
    ensures |r| == |dst|
  {
    dst[..at] + src + dst[at + |src|..]
  }
}
