/**
 * The append-delta tracker of incoming-notify: on every "file modified" event it
 * compares the file's size with the size recorded at the last notification, picks
 * a window of bytes just before the final byte, reads it, and, when the window
 * starts somewhere new, builds the webhook payload and records the new state.
 */
module IncomingNotify {
  import opened Common
  import opened LineScan

  /** One attachment of the payload: the extracted bytes and the configured colour. */
  datatype Attachment = Attachment(title: Bytes, color: string)

  /** The webhook payload: the watched path and its attachments. */
  datatype Incoming = Incoming(text: string, attachments: seq<Attachment>)

  /** The two process-wide integers `previousOffset` and `previousFileSize`. */
  datatype WatchState = WatchState(offset: int, fileSize: int)

  /** Both globals start at 0. */
  const INITIAL: WatchState := WatchState(0, 0)

  /** How one call of `getFileChangeContent` ends. */
  datatype Outcome =
    | OpenFailed           // os.Open failed: logged, nothing else happens
    | SizeUnchanged        // the size equals previousFileSize: early return
    | MakePanic            // a negative window length makes `make([]byte, n)` panic
    | OffsetUnchanged      // the read offset equals previousOffset: nothing is sent
    | Sent(payload: Incoming)  // the payload handed to the HTTP sender

  /** The states every run of the tracker can reach from INITIAL. */
  predicate Reachable(st: WatchState)
  {
    && st.fileSize >= 0
    && (st.fileSize == 0 ==> st.offset == 0)
    && (st.fileSize != 0 ==> -1 <= st.offset < st.fileSize)
  }

  /**
   * `lastLineSize`: on first observation the length of the last line the scan
   * finds, afterwards the growth in size minus one.
   */
  function WindowLength(st: WatchState, f: Bytes): (len: int)
    ensures st.fileSize == 0 ==> 0 <= len <= |f|
    ensures st.fileSize != 0 ==> len == |f| - st.fileSize - 1
    ensures len < 0 <==> st.fileSize != 0 && |f| <= st.fileSize
  {
    if st.fileSize == 0 then LastLineLength(f) else |f| - st.fileSize - 1
  }

  /**
   * `offset`: the window ends one byte before the end of the file. In steady
   * state it starts exactly at the size recorded last time.
   */
  function ReadOffset(st: WatchState, f: Bytes): (off: int)
    ensures off + WindowLength(st, f) == |f| - 1
    ensures st.fileSize != 0 ==> off == st.fileSize
  {
    |f| - (WindowLength(st, f) + 1)
  }

  /** How many bytes `ReadAt` copies: none at a negative offset or at EOF, else up to `len` or EOF. */
  function ReadCount(size: nat, len: nat, off: int): (n: nat)
    ensures n <= len
    ensures n > 0 ==> 0 <= off && off + n <= size
    ensures 0 <= off && off + len <= size ==> n == len
    ensures 0 <= off < size && off + len > size ==> n == size - off
  {
    if off < 0 || off >= size then 0 else Min(len, size - off)
  }

  /** The bytes `ReadAt` leaves in the buffer, cut to the count it reports (`buffer[:post]`). */
  function Window(f: Bytes, len: nat, off: int): (w: Bytes)
    ensures |w| == ReadCount(|f|, len, off)
    ensures w != [] ==> 0 <= off && w == f[off..off + |w|]
    ensures 0 <= off && off + len <= |f| ==> w == f[off..off + len]
  {
    var n := ReadCount(|f|, len, off);
    if n == 0 then [] else f[off..off + n]
  }

  /** `Incoming{filePath, []Attachment{{string(buffer), color}}}`: the path as text and one attachment. */
  function Payload(path: string, title: Bytes, color: string): (p: Incoming)
    ensures p.text == path && |p.attachments| == 1
    ensures p.attachments[0].title == title && p.attachments[0].color == color
  {
    Incoming(path, [Attachment(title, color)])
  }

  /**
   * One call of `getFileChangeContent` on a snapshot of the file (`None` when it
   * cannot be opened): the outcome and the new values of the two globals.
   */
  function Step(st: WatchState, file: Option<Bytes>, path: string, color: string): (r: (Outcome, WatchState))
    ensures file.None? ==> r == (OpenFailed, st)
    ensures !r.0.Sent? ==> r.1 == st
    ensures r.0.Sent? ==> file.Some? && r.1.offset != st.offset && r.1.fileSize == |file.value|
    ensures r.0 == MakePanic <==> file.Some? && st.fileSize != 0 && |file.value| < st.fileSize
  {
    if file.None? then (OpenFailed, st)
    else
      var f := file.value;
      if |f| == st.fileSize then (SizeUnchanged, st)
      else
        var len := WindowLength(st, f);
        if len < 0 then (MakePanic, st)
        else
          var off := ReadOffset(st, f);
          if st.offset != off then (Sent(Payload(path, Window(f, len, off), color)), WatchState(off, |f|))
          else (OffsetUnchanged, st)
  }

  /** `fp.ReadAt(buffer, off)` on the snapshot `f`: fills the buffer's front and returns the count. */
  method ReadAt(f: Bytes, buffer: array<byte>, off: int) returns (n: nat)
    modifies buffer
    ensures n == ReadCount(|f|, buffer.Length, off)
    ensures buffer[..n] == Window(f, buffer.Length, off)
  {
    if off < 0 || off >= |f| {
      return 0;
    }
    n := Min(buffer.Length, |f| - off);
    for i := 0 to n
      invariant buffer[..i] == f[off..off + i]
    {
      buffer[i] := f[off + i];
    }
  }

  /** The tracker: the two globals as fields of a single object. */
  class Tracker {
    var previousOffset: int
    var previousFileSize: int

    function State(): WatchState
      reads this
    {
      WatchState(previousOffset, previousFileSize)
    }

    ghost predicate Valid()
      reads this
    {
      Reachable(State())
    }

    constructor ()
      ensures State() == INITIAL && Valid()
    {
      previousOffset := 0;
      previousFileSize := 0;
    }

    /**
     * Handles one modification event, given the file's bytes (`None` when
     * `os.Open` fails); returns how the call ended, including the payload that
     * would be posted.
     */
    method GetFileChangeContent(file: Option<Bytes>, filePath: string, color: string) returns (o: Outcome)
      requires Valid()
      modifies this
      ensures Valid()
      ensures (o, State()) == Step(old(State()), file, filePath, color)
      ensures o.Sent? <==> State() != old(State())
    {
      if file.None? {
        return OpenFailed;
      }
      var f := file.value;
      var fileSize := |f|;
      var lastLineSize: int := 0;
      if fileSize == previousFileSize {
        return SizeUnchanged;
      }
      if previousFileSize == 0 {
        lastLineSize := ScanLastLineSize(f);
      } else {
        lastLineSize := fileSize - previousFileSize - 1;
      }
      if lastLineSize < 0 {
        return MakePanic;
      }
      var buffer := new byte[lastLineSize];
      var offset := fileSize - (lastLineSize + 1);
      var post := ReadAt(f, buffer, offset);
      if previousOffset != offset {
        o := Sent(Payload(filePath, buffer[..post], color));
        previousOffset := offset;
        previousFileSize := fileSize;
      } else {
        o := OffsetUnchanged;
      }
    }
  }
}
