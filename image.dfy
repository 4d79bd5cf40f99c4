/** Outcomes of the driver's operations: the I/O errors it reports and the
    `Option`/`Result` wrappers its decoders and readers return. */
module Results {
  import opened Bytes

  datatype Option<+T> = None | Some(value: T)

  /** The failures the driver reports to its caller. */
  datatype IoError =
    | ShortRead(offset: nat, size: nat)   // read_exact reached the end of the image
    | InvalidSeek(offset: nat)            // seek offset not representable as an i64
    | NotADirectory(inodeNum: u32)        // read_dir on an inode whose type is not directory
  {
    /** A failure of the seek or of the read itself. */
    predicate IsReadFailure() {
      ShortRead? || InvalidSeek?
    }
  }

  datatype Result<+T> = Ok(value: T) | Err(error: IoError) {
    predicate IsFailure() {
      Err?
    }

    function PropagateFailure<U>(): Result<U>
      requires Err?
    {
      Err(error)
    }

    function Extract(): T
      requires Ok?
    {
      value
    }
  }
}

/** Positioned reads from the (read-only) image: a seek to an absolute
    offset followed by `read_exact` of a fixed number of bytes. */
module Image {
  import opened Bytes
  import opened Results

  /** Seek offsets are passed to the OS as signed 64-bit values; from 2^63
      on they are negative and the seek fails. */
  const SeekLimit: nat := 0x8000_0000_0000_0000

  /** Exactly `size` bytes of `device` starting at `offset`, or the error
      the seek or the read reports. An empty read succeeds wherever the
      seek does, even past the end of the image. */
  function ReadBlock(device: seq<u8>, offset: nat, size: nat): (r: Result<seq<u8>>)
    ensures r.Ok? <==> offset < SeekLimit && (size == 0 || offset + size <= |device|)
    ensures r.Ok? ==> |r.value| == size
    ensures r.Ok? && offset + size <= |device| ==> r.value == device[offset..offset + size]
    ensures r.Err? ==> r.error.IsReadFailure()
  {
    if offset >= SeekLimit then Err(InvalidSeek(offset))
    else if offset + size <= |device| then Ok(device[offset..offset + size])
    else if size == 0 then Ok([])
    else Err(ShortRead(offset, size))
  }
}
