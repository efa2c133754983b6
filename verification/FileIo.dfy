// Reading an .ithmb file, whole or only its prefix (src/file_io.rs).
module FileIo {
  import opened Abi

  const MAX_FILE_SIZE_BYTES: nat := 8 * 1024 * 1024

  // What a path leads to, fixed for the duration of a call. `len` is the length
  // the metadata reports. A node that opens yields `bytes` and then ends, or
  // fails when `broken`: a directory, an I/O error, a locked range.
  datatype Node =
    | Absent
    | Closed(len: nat)
    | Open(len: nat, bytes: seq<byte>, broken: bool)
  {
    // Opens, but cannot be read to its end.
    predicate Breaks() {
      Open? && broken
    }

    // A regular readable file: it holds as many bytes as its metadata says.
    predicate Plain() {
      Open? && !broken && len == |bytes|
    }
  }

  // fs::metadata, then the size limit.
  function CheckFileSize(node: Node): Result<nat, IGStatus> {
    if node.Absent? then Err(IoError)
    else if node.len > MAX_FILE_SIZE_BYTES then Err(DecodeFailed)
    else Ok(node.len)
  }

  function ReadIthmbFile(node: Node): (r: Result<seq<byte>, IGStatus>)
    ensures r.Ok? ==> |r.value| >= 4
  {
    match CheckFileSize(node)
    case Err(status) => Err(status)
    case Ok(_) =>
      if node.Closed? || node.broken then Err(IoError)
      else if |node.bytes| < 4 then Err(DecodeFailed)
      else Ok(node.bytes)
  }

  // Fill the buffer from the start of the file; false when the file ends or
  // fails before the buffer is full.
  method ReadExact(node: Node, buf: array<byte>) returns (ok: bool)
    requires node.Open?
    modifies buf
    ensures ok <==> |node.bytes| >= buf.Length
    ensures ok ==> buf[..] == node.bytes[..buf.Length]
  {
    if |node.bytes| < buf.Length {
      return false;
    }
    for i := 0 to buf.Length
      invariant buf[..i] == node.bytes[..i]
    {
      buf[i] := node.bytes[i];
    }
    return true;
  }

  // Reads four bytes where ReadIthmbFile reads the whole file.
  method ReadIthmbPrefix(node: Node) returns (r: Result<(seq<byte>, nat), IGStatus>)
    ensures r == PrefixOf(node)
    ensures node.Absent? ==> r == Err(IoError)
    ensures !node.Absent? && node.len > 8_388_608 ==> r == Err(DecodeFailed)
    ensures node.Closed? && node.len <= 8_388_608 ==> r == Err(IoError)
    ensures node.Open? && node.len <= 8_388_608 ==>
              r == if |node.bytes| < 4 then Err(DecodeFailed) else Ok((node.bytes[..4], node.len))
  {
    var size := CheckFileSize(node);
    if size.Err? {
      return Err(size.error);
    }
    if node.Closed? {
      return Err(IoError);
    }
    var buf := new byte[4](_ => 0);
    var ok := ReadExact(node, buf);
    if !ok {
      return Err(DecodeFailed);
    }
    return Ok((buf[..], size.value));
  }

  // The cheap read expressed through the full one: the same errors, the first
  // four bytes and the reported length. Only a node that breaks after opening,
  // within the limit, is answered without regard to the full read.
  function PrefixOf(node: Node): Result<(seq<byte>, nat), IGStatus> {
    if node.Breaks() && node.len <= MAX_FILE_SIZE_BYTES then
      if |node.bytes| < 4 then Err(DecodeFailed) else Ok((node.bytes[..4], node.len))
    else
      match ReadIthmbFile(node)
      case Err(status) => Err(status)
      case Ok(content) => Ok((content[..4], node.len))
  }

  function StatusOf<T>(r: Result<T, IGStatus>): IGStatus {
    match r
    case Ok(_) => StatusOk
    case Err(status) => status
  }

  // On a regular readable file both reads succeed from 4 bytes to 8 MiB, and
  // the prefix is the content's own first four bytes and exact length.
  lemma ReadsExactly(node: Node)
    requires node.Plain()
    ensures ReadIthmbFile(node).Ok? <==> 4 <= |node.bytes| <= MAX_FILE_SIZE_BYTES
    ensures ReadIthmbFile(node).Ok? ==>
              var content := ReadIthmbFile(node).value;
              content == node.bytes && PrefixOf(node) == Ok((content[..4], |content|))
    ensures StatusOf(PrefixOf(node)) == StatusOf(ReadIthmbFile(node))
  {
  }

  // Which answer each read gives on each node.
  lemma AnswersWrittenOut(node: Node)
    ensures node.Absent? ==> ReadIthmbFile(node) == Err(IoError) && PrefixOf(node) == Err(IoError)
    ensures !node.Absent? && node.len > 8_388_608 ==>
              ReadIthmbFile(node) == Err(DecodeFailed) && PrefixOf(node) == Err(DecodeFailed)
    ensures node.Closed? && node.len <= 8_388_608 ==>
              ReadIthmbFile(node) == Err(IoError) && PrefixOf(node) == Err(IoError)
    ensures node.Open? && node.len <= 8_388_608 ==>
              && ReadIthmbFile(node) == (if node.broken then Err(IoError)
                                         else if |node.bytes| < 4 then Err(DecodeFailed) else Ok(node.bytes))
              && PrefixOf(node) == (if |node.bytes| < 4 then Err(DecodeFailed)
                                    else Ok((node.bytes[..4], node.len)))
  {
  }

  // On every node whatever, the two reads report the same status unless it
  // opens, cannot be read to its end, and is within the limit.
  lemma PrefixAgreesIff(node: Node)
    ensures StatusOf(PrefixOf(node)) == StatusOf(ReadIthmbFile(node))
            <==> !(node.Breaks() && node.len <= MAX_FILE_SIZE_BYTES)
  {
  }
}
