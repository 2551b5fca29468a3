/** The payload of a cache entry and the capture step that builds it
    (LRU_cache/code.cpp:10-17 and 32-95).

    The operating-system calls that `createNode` makes (`stat`, `fopen`,
    `fseek`, `ftell`, `fclose`, `time`) are not modelled; what each of them
    reported is passed in as a value, and `CreateNode` decides, in the
    source's order, whether the capture succeeds and what it stores. */
module Metadata {

  /** `MAX_PATH_SIZE`: the size of the path buffer, terminator included. */
  const MaxPathSize: nat := 256

  /** The longest path an entry can store. */
  const MaxPathLength: nat := MaxPathSize - 1

  /** `size_t` is 64 bits wide on the platforms the program targets. */
  const SizeTModulus: int := 0x1_0000_0000_0000_0000

  /** `FileMetadata`: what an entry remembers about its file. */
  datatype FileMetadata = FileMetadata(filepath: string, timestamp: int, size: nat, inode: nat)

  /** What `stat` reported: failure, or the directory flag and the inode. */
  datatype StatReport = StatFailed | StatOk(isDirectory: bool, inode: nat)

  /** What the open / seek-to-end / tell / seek-to-start / close sequence
      reported, one field per call; `position` is `ftell`'s result, where
      -1 signals an error. */
  datatype FileProbe = FileProbe(openOk: bool, seekEndOk: bool, position: int, seekStartOk: bool, closeOk: bool)

  /** The reasons for which the source abandons a capture. */
  datatype CaptureError = StatError | IsDirectory | OpenError | SeekError | TellError | CloseError

  /** A successful capture: the payload, and whether the zero-size warning
      was raised (the warning does not abort the capture). */
  datatype Captured = Captured(meta: FileMetadata, zeroSizeWarning: bool)

  datatype Capture = Ok(value: Captured) | Failed(error: CaptureError)

  /** `strncpy` of at most `MAX_PATH_SIZE - 1` characters followed by an
      explicit terminator: the stored path is the longest prefix of the
      input that fits. */
  function Truncate(path: string): (r: string)
    ensures |r| <= MaxPathLength && |r| <= |path|
    ensures r == path[..|r|]
    ensures |path| <= MaxPathLength ==> r == path
    ensures |path| > MaxPathLength ==> |r| == MaxPathLength
  {
    if |path| <= MaxPathLength then path else path[..MaxPathLength]
  }

  /** The cast `(size_t)fileSize`. */
  function SizeT(x: int): (r: nat)
    ensures r < SizeTModulus
    ensures 0 <= x < SizeTModulus ==> r == x
  {
    x % SizeTModulus
  }

  /** `createNode` without the allocation: every OS call is checked in the
      source's order and the first one that fails decides the error. */
  function CreateNode(path: string, stat: StatReport, probe: FileProbe, now: int): (r: Capture)
    ensures r.Ok? <==>
              stat.StatOk? && !stat.isDirectory && probe.openOk && probe.seekEndOk
              && probe.position != -1 && probe.seekStartOk && probe.closeOk
    ensures r.Ok? ==>
              r.value.meta == FileMetadata(Truncate(path), now, SizeT(probe.position), stat.inode)
              && (r.value.zeroSizeWarning <==> probe.position == 0)
    ensures stat.StatOk? && stat.isDirectory ==> r == Failed(IsDirectory)
  {
    if stat.StatFailed? then Failed(StatError)
    else if stat.isDirectory then Failed(IsDirectory)
    else if !probe.openOk then Failed(OpenError)
    else if !probe.seekEndOk then Failed(SeekError)
    else if probe.position == -1 then Failed(TellError)
    else if !probe.seekStartOk then Failed(SeekError)
    else if !probe.closeOk then Failed(CloseError)
    else
      Ok(Captured(FileMetadata(Truncate(path), now, SizeT(probe.position), stat.inode), probe.position == 0))
  }
}
