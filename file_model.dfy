/*
 * Open files as the core sees them: a byte sequence with a position. Reads
 * and writes stop at the end of the file (the file system does not grow
 * files), as Pintos's file_read and file_write do.
 */
module FileModel {
  import opened VmBase

  /** An open file handle: its bytes, the position file_seek sets, and whether file_close was called. */
  datatype OpenFile = OpenFile(data: seq<byte>, pos: nat, closed: bool)

  /** The bytes file_read (f, buf, size) copies into buf: up to size bytes from pos, none past the end. */
  function ReadBytes(data: seq<byte>, pos: nat, size: nat): (r: seq<byte>)
    ensures |r| <= size
    ensures |r| == size <==> pos + size <= |data| || size == 0
    ensures pos + |r| <= |data| ==> r == data[pos..pos + |r|]
    ensures pos < |data| ==> pos + |r| <= |data|
    ensures pos >= |data| ==> r == []
    ensures pos < |data| ==> |r| == if size <= |data| - pos then size else |data| - pos
  {
    if pos >= |data| then []
    else if size <= |data| - pos then data[pos..pos + size]
    else data[pos..]
  }

  /** How many bytes file_write (f, buf, size) writes at pos: up to size, none past the end. */
  function WriteCount(len: nat, pos: nat, size: nat): (n: nat)
    ensures n <= size
    ensures n == size <==> pos + size <= len || size == 0
    ensures n > 0 ==> pos + n <= len
  {
    if pos >= len then 0
    else if size <= len - pos then size
    else len - pos
  }

  /** The file's bytes after file_write (f, src, size) at pos: bytes [pos, pos + n) become src[..n]. */
  function Written(data: seq<byte>, pos: nat, src: seq<byte>, size: nat): (r: seq<byte>)
    requires size <= |src|
    ensures |r| == |data|
    ensures forall b :: 0 <= b < |data| ==>
      r[b] == if pos <= b < pos + WriteCount(|data|, pos, size) then src[b - pos] else data[b]
  {
    var n := WriteCount(|data|, pos, size);
    if n == 0 then data else data[..pos] + src[..n] + data[pos + n..]
  }
}
