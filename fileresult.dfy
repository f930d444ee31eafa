/**
 * The simulated file of fileresult/src/main.rs: a name, its bytes and an
 * Open/Closed state. Reading is refused unless the file is open; opening and
 * closing take the file by value and hand it back with the new state.
 */
module FileResult {
  import opened Wrappers
  import opened LittleEndian

  datatype FileState = Open | Closed

  const READ_CLOSED_ERROR: string := "File must be open for reading"

  datatype File = File(name: string, data: seq<byte>, state: FileState) {

    /** `len`: the number of bytes the file holds. */
    function Len(): (n: nat)
      ensures n == |data|
    {
      |data|
    }

    /**
     * `read`: on an open file, append all of its bytes to the caller's buffer
     * and report how many; otherwise refuse and leave the buffer alone. The
     * file itself never changes. The caller's buffer goes in as `saveTo` and
     * comes back as `saved`.
     */
    method Read(saveTo: seq<byte>) returns (r: Result<nat, string>, saved: seq<byte>)
      ensures state != Open ==> r == Err(READ_CLOSED_ERROR) && saved == saveTo
      ensures state == Open ==> r == Ok(Len()) && saved == saveTo + data
      ensures saved[..|saveTo|] == saveTo
    {
      if state != Open {
        return Err(READ_CLOSED_ERROR), saveTo;
      }
      var tmp := data;
      var readLength := |data|;
      saved := saveTo + tmp;
      r := Ok(readLength);
    }
  }

  /** `File::new`: an empty, closed file. */
  function NewFile(name: string): (f: File)
    ensures f.name == name && f.data == [] && f.state == Closed
  {
    File(name, [], Closed)
  }

  /** `File::new_with_data`: a closed file holding a copy of `data`. */
  function NewWithData(name: string, data: seq<byte>): (f: File)
    ensures f.name == name && f.data == data && f.state == Closed && f.Len() == |data|
  {
    NewFile(name).(data := data)
  }

  /** The free function `open`: the same file, now open; it never fails. */
  function OpenFile(f: File): (r: Result<File, string>)
    ensures r.Ok? && r.value.state == Open
    ensures r.value.name == f.name && r.value.data == f.data
  {
    Ok(f.(state := Open))
  }

  /** The free function `close`: the same file, now closed; it never fails. */
  function CloseFile(f: File): (r: Result<File, string>)
    ensures r.Ok? && r.value.state == Closed
    ensures r.value.name == f.name && r.value.data == f.data
  {
    Ok(f.(state := Closed))
  }

  /** Closing an opened file gives back the file as it was before, if it was closed. */
  lemma CloseOpen(f: File)
    requires f.state == Closed
    ensures CloseFile(OpenFile(f).value).value == f
  {
  }

  /**
   * `main`: a five-byte file is read while closed (an error, nothing
   * appended), then opened, read (five bytes appended to the empty buffer)
   * and closed again.
   */
  method MainScenario() returns (firstRead: Result<nat, string>, size: nat, buffer: seq<byte>, f: File)
    ensures firstRead == Err(READ_CLOSED_ERROR)
    ensures size == 5 && buffer == [114, 117, 115, 116, 33]
    ensures f == File("file.txt", [114, 117, 115, 116, 33], Closed)
  {
    var data := [114, 117, 115, 116, 33];
    f := NewWithData("file.txt", data);
    buffer := [];
    firstRead, buffer := f.Read(buffer);
    f := OpenFile(f).value;
    var second;
    second, buffer := f.Read(buffer);
    size := second.value;
    f := CloseFile(f).value;
  }
}
