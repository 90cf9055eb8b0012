/** A DataNode's stored bytes: random reads and writes, truncation, and pulling a replica. */
module DataNodes {

  newtype byte = x: int | 0 <= x < 256

  type Bytes = seq<byte>

  // ----- what the operations mean for one file -----

  /** At most n bytes from off. */
  function Slice(c: Bytes, off: nat, n: nat): Bytes {
    if off >= |c| then [] else if off + n >= |c| then c[off..] else c[off..off + n]
  }

  function PadTo(c: Bytes, n: nat): Bytes {
    if n <= |c| then c else c + seq(n - |c|, _ => 0)
  }

  /** Writing data at off; a gap before off reads as zeros. Writing nothing extends nothing. */
  function WriteBytes(c: Bytes, off: nat, data: Bytes): Bytes {
    if data == [] then c
    else
      var p := PadTo(c, off);
      var end := off + |data|;
      p[..off] + data + if end < |p| then p[end..] else []
  }

  function TruncateBytes(c: Bytes, n: nat): Bytes {
    if n <= |c| then c[..n] else PadTo(c, n)
  }

  /** Length and bytes after a write: the data where it was put, zeros in a gap, the old bytes elsewhere. */
  lemma WriteBytesAt(c: Bytes, off: nat, data: Bytes, j: nat)
    ensures data == [] ==> WriteBytes(c, off, data) == c
    ensures data != [] ==>
            var r := WriteBytes(c, off, data);
            && |r| == (if |c| >= off + |data| then |c| else off + |data|)
            && (j < |r| ==> r[j] == if off <= j < off + |data| then data[j - off] else if j < |c| then c[j] else 0)
  {
  }

  lemma TruncateBytesAt(c: Bytes, n: nat, j: nat)
    ensures var r := TruncateBytes(c, n);
            && |r| == n
            && (j < n ==> r[j] == if j < |c| then c[j] else 0)
  {
  }

  /** Reading back what was written. */
  lemma ReadBack(c: Bytes, off: nat, data: Bytes)
    ensures data != [] ==> Slice(WriteBytes(c, off, data), off, |data|) == data
  {
    if data != [] {
      forall j | 0 <= j < |data|
        ensures WriteBytes(c, off, data)[off + j] == data[j]
      {
        WriteBytesAt(c, off, data, off + j);
      }
    }
  }

  /** A change of one file's bytes. */
  datatype Op = Write(offset: nat, data: Bytes) | Resize(size: nat)

  function OnBytes(op: Op, c: Bytes): Bytes {
    match op
    case Write(offset, data) => WriteBytes(c, offset, data)
    case Resize(n) => TruncateBytes(c, n)
  }

  // ----- the node -----

  const REPLICATE_CHUNK: nat := 0x10_0000

  class DataNode {
    var files: map<string, Bytes>

    constructor ()
      ensures files == map[]
    {
      files := map[];
    }

    /** A missing file reads as an empty one. */
    function Content(path: string): Bytes
      reads this
    {
      if path in files then files[path] else []
    }

    /** Fails only for a negative offset into an existing file; a missing file is at its end. */
    method RangeRead(path: string, offset: int, length: nat) returns (ok: bool, data: Bytes, eof: bool)
      ensures ok <==> offset >= 0 || path !in files
      ensures ok && offset >= 0 ==> data == Slice(Content(path), offset, length)
      ensures ok ==> |data| <= length && (eof <==> path !in files || |data| < length)
    {
      if path !in files {
        return true, [], true;
      }
      if offset < 0 {
        return false, [], false;
      }
      data := Slice(files[path], offset, length);
      return true, data, |data| < length;
    }

    /** A failed write has still created the file. */
    method PartialWrite(path: string, offset: int, data: Bytes) returns (ok: bool)
      modifies this
      ensures ok <==> offset >= 0
      ensures files ==
              old(files)[path := if ok then WriteBytes(old(Content(path)), offset, data) else old(Content(path))]
    {
      if path !in files {
        files := files[path := []];
      }
      if offset < 0 {
        return false;
      }
      files := files[path := WriteBytes(files[path], offset, data)];
      return true;
    }

    /** A positive size creates a missing file; size 0 does not, and then the truncation fails. */
    method Truncate(path: string, size: int) returns (ok: bool)
      modifies this
      ensures ok <==> size > 0 || (size == 0 && path in old(files))
      ensures ok ==> files == old(files)[path := TruncateBytes(old(Content(path)), size)]
      ensures !ok ==> files == old(files)
    {
      if size > 0 && path !in files {
        files := files[path := []];
      }
      if size < 0 || path !in files {
        return false;
      }
      files := files[path := TruncateBytes(files[path], size)];
      return true;
    }

    /**
     Pulls a source file chunk by chunk; the connection breaks after so many turns, if the copy is
     not done by then. A failed copy leaves what has arrived. A file copied onto itself is
     truncated before it is read. The loop makes no progress once the source is exhausted, so
     only CopyEndsIff says whether it ends without such a break.
     */
    method ReplicateFile(source: DataNode, sourcePath: string, targetPath: string, fileSize: int, turns: nat)
      returns (ok: bool)
      modifies this
      ensures var src := if source == this && sourcePath == targetPath then [] else old(source.Content(sourcePath));
              && files == old(files)[targetPath := CopyAfter(src, fileSize, turns)]
              && (ok <==> |CopyAfter(src, fileSize, turns)| >= fileSize)
    {
      ghost var src := if source == this && sourcePath == targetPath then [] else source.Content(sourcePath);
      ghost var before := files;
      files := files[targetPath := []];
      var offset: int := 0;
      for turn := 0 to turns
        invariant source.Content(sourcePath) == src
        invariant files == before[targetPath := CopyAfter(src, fileSize, turn)]
        invariant offset == |CopyAfter(src, fileSize, turn)|
      {
        CopyIsPrefix(src, fileSize, turn + 1);
        if offset < fileSize {
          offset := PullChunk(source, sourcePath, targetPath, fileSize, offset, src);
        }
      }
      return offset >= fileSize;
    }

    /** One turn: reads the next chunk at the source and appends it. */
    method PullChunk(source: DataNode, sourcePath: string, targetPath: string, fileSize: int, offset: nat,
                     ghost src: Bytes)
      returns (offset': nat)
      requires targetPath in files && offset == |files[targetPath]| && offset < fileSize
      requires source.Content(sourcePath) == src && (source == this && sourcePath == targetPath ==> src == [])
      modifies this
      ensures files == old(files)[targetPath := CopyStep(src, fileSize, old(files)[targetPath])]
      ensures offset' == |files[targetPath]| && source.Content(sourcePath) == src
    {
      var chunkLen := REPLICATE_CHUNK;
      if offset + chunkLen > fileSize {
        chunkLen := fileSize - offset;
      }
      var ok, data, eof := source.RangeRead(sourcePath, offset, chunkLen);
      AppendAtEnd(files[targetPath], data);
      files := files[targetPath := WriteBytes(files[targetPath], offset, data)];
      return offset + |data|;
    }
  }

  lemma AppendAtEnd(c: Bytes, data: Bytes)
    ensures WriteBytes(c, |c|, data) == c + data
  {
  }

  // ----- when the copy loop ends -----

  /** One turn of the copy loop on the target's content; its length is the offset. */
  function CopyStep(src: Bytes, size: int, target: Bytes): Bytes {
    if |target| >= size then target
    else
      var chunk := if |target| + REPLICATE_CHUNK > size then size - |target| else REPLICATE_CHUNK;
      WriteBytes(target, |target|, Slice(src, |target|, chunk))
  }

  function CopyAfter(src: Bytes, size: int, k: nat): Bytes {
    if k == 0 then [] else CopyStep(src, size, CopyAfter(src, size, k - 1))
  }

  /** A turn appends the next source bytes, at least one while there are any. */
  lemma CopyStepAppends(src: Bytes, size: int, n: nat)
    requires n <= |src| && n < size
    ensures var t := CopyStep(src, size, src[..n]);
            |t| <= |src| && |t| <= size && t == src[..|t|] && (n < |src| ==> n < |t|)
  {
    var target := src[..n];
    var chunk := if n + REPLICATE_CHUNK > size then size - n else REPLICATE_CHUNK;
    var data := Slice(src, n, chunk);
    AppendAtEnd(target, data);
    assert target + data == src[..n + |data|];
  }

  lemma {:induction false} CopyIsPrefix(src: Bytes, size: int, k: nat)
    ensures |CopyAfter(src, size, k)| <= |src| && CopyAfter(src, size, k) == src[..|CopyAfter(src, size, k)|]
    ensures size >= 0 ==> |CopyAfter(src, size, k)| <= size
    ensures size <= |src| ==> |CopyAfter(src, size, k)| >= (if size <= k then size else k)
  {
    if k > 0 {
      CopyIsPrefix(src, size, k - 1);
      var n := |CopyAfter(src, size, k - 1)|;
      if n < size {
        CopyStepAppends(src, size, n);
      }
    }
  }

  /** After k turns as much is copied as k chunks of a mebibyte hold, or all there is, or all that is asked for. */
  lemma {:induction false} CopyLength(src: Bytes, size: nat, k: nat)
    ensures |CopyAfter(src, size, k)| == Min(Min(size, |src|), k * 0x10_0000)
  {
    if k > 0 {
      CopyLength(src, size, k - 1);
      CopyIsPrefix(src, size, k - 1);
      var n := |CopyAfter(src, size, k - 1)|;
      assert (k - 1) * 0x10_0000 + 0x10_0000 == k * 0x10_0000;
      if n < size {
        TurnLength(src, size, n);
      }
    }
  }

  lemma TurnLength(src: Bytes, size: nat, n: nat)
    requires n <= |src| && n < size
    ensures |CopyStep(src, size, src[..n])| == Min(Min(size, |src|), n + 0x10_0000)
  {
    AppendAtEnd(src[..n], Slice(src, n, if n + REPLICATE_CHUNK > size then size - n else REPLICATE_CHUNK));
  }

  function Min(a: nat, b: nat): nat {
    if a < b then a else b
  }

  /**
   The copy loop ends exactly when the source is at least as long as the size asked for, and
   then the target is the first size bytes.
   */
  lemma CopyEndsIff(src: Bytes, size: int)
    ensures (exists k: nat :: |CopyAfter(src, size, k)| >= size) <==> size <= |src|
    ensures forall k: nat | size >= 0 && |CopyAfter(src, size, k)| >= size ::
              size <= |src| && CopyAfter(src, size, k) == src[..size]
  {
    forall k: nat | size >= 0 && |CopyAfter(src, size, k)| >= size
      ensures size <= |src| && CopyAfter(src, size, k) == src[..size]
    {
      CopyIsPrefix(src, size, k);
    }
    if size <= |src| {
      var k: nat := if size < 0 then 0 else size;
      CopyIsPrefix(src, size, k);
    } else {
      forall k: nat
        ensures |CopyAfter(src, size, k)| < size
      {
        CopyIsPrefix(src, size, k);
      }
    }
  }
}
