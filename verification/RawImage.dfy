/** Flat image files written through a buffer: what is on disk, and what a crash can still lose. */
module RawImages {
  import opened Arithmetic
  import opened Bits

  /** Image files are read and written in whole sectors. */
  type Sector = seq<byte>

  const BUFFER_BYTES := 1024 * 1024

  function ZeroSector(blockSize: nat): Sector {
    seq(blockSize, _ => 0)
  }

  /** A positional write; a write past the end leaves zeros in between. */
  function WriteAt(file: seq<Sector>, at: nat, data: seq<Sector>, blockSize: nat): (r: seq<Sector>)
    ensures |r| == if |data| != 0 && at + |data| > |file| then at + |data| else |file|
    ensures forall i | 0 <= i < |data| :: r[at + i] == data[i]
    ensures forall i | 0 <= i < |file| && !(at <= i < at + |data|) :: r[i] == file[i]
  {
    if |data| == 0 then file
    else
      seq(if at + |data| > |file| then at + |data| else |file|,
          (i: nat) => if at <= i < at + |data| then data[i - at]
                      else if i < |file| then file[i] else ZeroSector(blockSize))
  }

  /** The file on disk, and a buffered write that has not reached it. */
  datatype Image = Image(file: seq<Sector>, pendingAt: nat, pending: seq<Sector>)
  {
    /** The file once the buffer has been written out. */
    function Flushed(blockSize: nat): seq<Sector> {
      WriteAt(file, pendingAt, pending, blockSize)
    }

    /** Seeking writes the old buffer out; data that fits stays in the buffer. */
    function WriteBlocks(lba: nat, data: seq<Sector>, blockSize: nat): Image {
      var flushed := Flushed(blockSize);
      if |data| * blockSize < BUFFER_BYTES then Image(flushed, lba, data)
      else Image(WriteAt(flushed, lba, data, blockSize), 0, [])
    }

    /** What a crash may leave: the buffered range in any state, all else as it was on disk. */
    ghost predicate MayCrashTo(file': seq<Sector>) {
      && (|file'| == |file| || |file| < |file'| <= pendingAt + |pending|)
      && forall i | 0 <= i < |file| && !(pendingAt <= i < pendingAt + |pending|) :: file'[i] == file[i]
    }

    /** What a kill may leave: a write in progress has put a first part of the buffered range into the file. */
    ghost predicate KilledTo(file': seq<Sector>, blockSize: nat) {
      exists n | 0 <= n <= |pending| :: file' == WriteAt(file, pendingAt, pending[..n], blockSize)
    }
  }

  /** A kill may leave the file as it was, and may leave the buffer written out. */
  lemma KillExtremes(image: Image, blockSize: nat)
    ensures image.KilledTo(image.file, blockSize) && image.KilledTo(image.Flushed(blockSize), blockSize)
  {
    assert image.pending[..0] == [] && image.pending[..|image.pending|] == image.pending;
    assert WriteAt(image.file, image.pendingAt, image.pending[..0], blockSize) == image.file;
  }

  class RawImageWriter {
    const blockSize: nat
    var file: seq<Sector>
    var pendingAt: nat
    var pending: seq<Sector>
    var bytesWritten: nat

    function View(): Image
      reads this
    {
      Image(file, pendingAt, pending)
    }

    /** The byte count is the length of the flushed file. */
    ghost predicate Valid()
      reads this
    {
      blockSize != 0 && bytesWritten == |View().Flushed(blockSize)| * blockSize
    }

    /** Creates or truncates the image; fails for a zero block size. */
    constructor Create(blockSize: nat)
      requires blockSize != 0
      ensures Valid() && this.blockSize == blockSize && View() == Image([], 0, [])
    {
      this.blockSize := blockSize;
      file, pendingAt, pending, bytesWritten := [], 0, [], 0;
    }

    /** Opens an existing image without truncating it. */
    constructor OpenForResume(existing: seq<Sector>, blockSize: nat)
      requires blockSize != 0
      ensures Valid() && this.blockSize == blockSize && View() == Image(existing, 0, [])
    {
      this.blockSize := blockSize;
      file, pendingAt, pending := existing, 0, [];
      bytesWritten := |existing| * blockSize;
    }

    method WriteImageBlocks(lba: nat, data: seq<Sector>)
      requires Valid()
      modifies this
      ensures View() == old(View()).WriteBlocks(lba, data, blockSize)
      ensures pending == if |data| * blockSize < 1024 * 1024 then data else []
      ensures |data| != 0 ==> Valid()
    {
      ghost var flushed := View().Flushed(blockSize);
      file, pendingAt, pending := WriteAt(file, pendingAt, pending, blockSize), 0, [];
      if |data| * blockSize < BUFFER_BYTES {
        pendingAt, pending := lba, data;
      } else {
        file := WriteAt(file, lba, data, blockSize);
      }
      var endOffset := lba * blockSize + |data| * blockSize;
      if endOffset > bytesWritten {
        bytesWritten := endOffset;
      }
      if |data| != 0 {
        EndOffset(flushed, lba, data, blockSize);
      }
    }

    /** Writes the buffer out and reports the number of blocks in the image. */
    method Finalize() returns (totalBlocks: nat)
      requires Valid()
      modifies this
      ensures Valid() && View() == Image(old(View()).Flushed(blockSize), 0, [])
      ensures totalBlocks == |file|
    {
      file, pendingAt, pending := WriteAt(file, pendingAt, pending, blockSize), 0, [];
      totalBlocks := (bytesWritten + blockSize - 1) / blockSize;
      DivModUnique(|file|, blockSize, blockSize - 1);
    }
  }

  lemma EndOffset(file: seq<Sector>, at: nat, data: seq<Sector>, blockSize: nat)
    requires blockSize != 0 && |data| != 0
    ensures var e := at * blockSize + |data| * blockSize;
      |WriteAt(file, at, data, blockSize)| * blockSize == if e > |file| * blockSize then e else |file| * blockSize
  {
    assert (at + |data|) * blockSize == at * blockSize + |data| * blockSize;
    if at + |data| > |file| {
      MulMono(|file| + 1, at + |data|, blockSize);
    } else {
      MulMono(at + |data|, |file|, blockSize);
    }
  }
}
