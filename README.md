# incoming-notify: the append-delta tracker

incoming-notify watches one text file and, whenever the file is modified, posts
its most recently appended line to a webhook as a JSON payload
`{"text": <path>, "attachments": [{"title": <line>, "color": <colour>}]}`.
This project models the one part with real logic, `getFileChangeContent`: a
small state machine over two process-wide integers, `previousOffset` and
`previousFileSize` (both start at 0), that decides from the file's bytes which
window to read and whether to send it.

- `common.dfy` — bytes (`byte`, `Bytes`), the LF terminator, `Option`.
- `line_scan.dfy` (module `LineScan`) — the first-observation scan: `ReadLine`
  models one `bufio.Reader.ReadLine` call on the file's bytes, and
  `ScanLastLineSize` is the loop that overwrites `lastLineSize` until EOF.
  `ReadLine` is proved against `LineEnd` and `NextLine` (where a line ends and
  where the next one starts); `ScanLastLineSize` is proved against the
  specification function `LastLineLength`, defined through `Lines`, whose
  round trip with `JoinLines` is proved.
- `incoming_notify.dfy` (module `IncomingNotify`) — the payload types
  `Incoming`/`Attachment`, the state `WatchState`, the specification function
  `Step` of one call, `ReadAt` (filling a freshly allocated buffer), and the
  class `Tracker` whose two fields are the two globals and whose method
  `GetFileChangeContent` is proved to update them and return exactly what
  `Step` says.
- `tracker_properties.dfy` (module `TrackerProperties`) — what the offset
  arithmetic guarantees, per call and over runs of appends.

The file is a parameter: `None` when `os.Open` fails, otherwise a snapshot of
its bytes. The call's result is an `Outcome`: `Sent(payload)` is the payload
that would be handed to the HTTP sender; the other four constructors name the
ways the call ends without sending (open failure, unchanged size, panic in
`make`, unchanged offset).

What the arithmetic does, as proved:

- Steady state (`previousFileSize != 0`): the read offset is always the
  recorded size, so the title is the appended bytes without the last one; for
  LF-terminated appends it is exactly the appended line. A payload is always
  sent, because every reachable state has `previousOffset < previousFileSize`.
- A file that shrinks makes the window length negative, and `make` panics.
- First observation (`previousFileSize == 0`): the window is the last line
  found by the scan. If the file ends in an unterminated fragment, the window
  starts one byte early, at the LF before it. If the file has no LF at all,
  the offset is -1, `ReadAt` reads nothing, and an empty title is sent.
- A file that is exactly one LF-terminated line gives offset 0. This equals
  the initial `previousOffset`, so nothing is sent and the state stays
  `(0, 0)`.

A first line appended to an empty watched file is not sent: it gives offset
0, which is the initial `previousOffset`, so the state stays `(0, 0)`. The
next append is then handled as a first observation and sends the second line
(`StartupSkipsFirstLine`, `HelloWorldScenario`). A file that shrinks is not
reset: `make` panics (`TruncationPanics`).

## Model

| member | source | states |
|---|---|---|
| `LineScan.LineEnd` | incoming-notify.go:110 | the end of the line `ReadLine` returns from a position: the first LF at or after it, or EOF, with no LF in between |
| `LineScan.ReadLine` | incoming-notify.go:110-114 | one `ReadLine` call: `None` (EOF) at the end of the file, otherwise the bytes up to the next LF (excluded) and the position past that LF |
| `LineScan.ScanLastLineSize` | incoming-notify.go:106-116 | the loop over `ReadLine` ends with `lastLineSize` equal to the length of the last line of the file (0 for an empty file) |
| `LineScan.LinesRoundTrip` | incoming-notify.go:110 | the lines the scan returns contain no LF, and joining them with LFs gives back the file (plus one LF when its last line is unterminated) |
| `LineScan.LastLineLength` | incoming-notify.go:109-116 | the value the scan leaves in `lastLineSize`: never more than the file size (so the first-observation offset is at least -1), and a non-empty file has at least one line; `LastLineOfTerminated` and `LastLineOfUnterminated` say which line it measures |
| `LineScan.LastLineOfTerminated` | incoming-notify.go:109-116 | for a file ending in `line` plus LF after a terminated prefix, the scan measures exactly `line` |
| `LineScan.LastLineOfUnterminated` | incoming-notify.go:109-116 | for a file ending in an unterminated fragment after a terminated prefix, the scan measures the fragment |
| `IncomingNotify.WindowLength` | incoming-notify.go:106-119 | `lastLineSize`: on first observation between 0 and the file size; in steady state the growth minus one; negative exactly when a recorded file did not grow (`TruncationPanics`) |
| `IncomingNotify.ReadOffset` | incoming-notify.go:118-122 | the window ends one byte before the end of the file; in steady state the offset equals `previousFileSize` |
| `IncomingNotify.ReadCount` | incoming-notify.go:123 | `ReadAt` reports at most the buffer length, reads nothing at a negative offset or at EOF, fills the buffer when the window is inside the file, and reads up to EOF when it runs past it |
| `IncomingNotify.Window` | incoming-notify.go:123-127 | `buffer[:post]` after `ReadAt`: as many bytes as `ReadCount` says, taken from the file at the offset, and the whole window when it lies inside the file (`PayloadShape`) |
| `IncomingNotify.Payload` | incoming-notify.go:128 | the payload literal: the path as text and exactly one attachment carrying the title and the configured colour |
| `IncomingNotify.Step` | incoming-notify.go:84-134 | one call: an open failure changes nothing; the state is left alone unless a payload is sent, and then the offset moves and the size is recorded; `make` panics exactly when a recorded file shrank (`SentIffOffsetMoves`, `StepPreservesReachable`) |
| `IncomingNotify.ReadAt` | incoming-notify.go:121-123 | the buffer's first `post` bytes are the file's bytes at the offset, `post` being what `ReadCount` says |
| `IncomingNotify.Tracker.constructor` | incoming-notify.go:34-35 | both globals start at 0 |
| `IncomingNotify.Tracker.GetFileChangeContent` | incoming-notify.go:84-134 | the outcome and the new `(previousOffset, previousFileSize)` are those of `Step`; the state changes exactly when a payload is sent; reachability is preserved |
| `TrackerProperties.OpenFailureIsNoOp` | incoming-notify.go:85-90 | a file that cannot be opened sends nothing and changes no state |
| `TrackerProperties.UnchangedSizeIsNoOp` | incoming-notify.go:102-104 | a size equal to `previousFileSize` returns early with no payload and no state change |
| `TrackerProperties.SentIffOffsetMoves` | incoming-notify.go:121-133 | past the early returns, a payload is sent if and only if the offset differs from `previousOffset`, and the state becomes `(offset, size)` exactly then |
| `TrackerProperties.StateMovesOnlyWithPayload` | incoming-notify.go:126-133 | on every path but the sending one, both globals keep their values; on that path they become the offset and the size |
| `TrackerProperties.PayloadShape` | incoming-notify.go:127-128 | a payload's text is the path; it has exactly one attachment, whose colour is the configured one and whose title is the bytes from the offset up to the last byte (empty at a negative offset) |
| `TrackerProperties.StepPreservesReachable` | incoming-notify.go:118-133 | every call keeps `previousFileSize >= 0`, `previousOffset == 0` while the size is 0, and `-1 <= previousOffset < previousFileSize` afterwards |
| `TrackerProperties.SteadyStateSendsAppendedBytes` | incoming-notify.go:117-133 | in steady state an append is always sent, starting at the old size, with the appended bytes minus the final one as title, and the new size is recorded |
| `TrackerProperties.TruncationPanics` | incoming-notify.go:118-121 | in steady state a smaller file gives a negative window length and `make` panics |
| `TrackerProperties.FirstObservationOfTerminatedFile` | incoming-notify.go:106-133 | on first observation of a file ending in `line` plus LF, the window is `line` at the prefix's length; a one-line file gives offset 0 and nothing is sent, the state staying `(0, 0)` |
| `TrackerProperties.FirstObservationOfUnterminatedFile` | incoming-notify.go:106-133 | on first observation of a file ending in an unterminated fragment, the window starts at the LF before it; with no LF at all the offset is -1 and an empty title is sent; after a lone LF nothing is sent |
| `TrackerProperties.RepeatedEventIsNoOp` | incoming-notify.go:102-132 | a second call on the unchanged file changes no state and sends nothing more (after a payload it returns early) |
| `TrackerProperties.AppendEachSendsEachLine` | incoming-notify.go:117-133 | once a non-empty size is recorded, each of a series of LF-terminated appends is sent as exactly the line appended, one payload per append, in order |
| `TrackerProperties.StartupSkipsFirstLine` | incoming-notify.go:34-133 | from an empty file, the first appended line is not sent and the state stays initial; the second appended line is sent |
| `TrackerProperties.HelloWorldScenario` | incoming-notify.go:106-133 | appending "hello\n" then "world\n" to an empty file sends nothing, then "world" alone |

## Left out

- The fsnotify watcher, its event/error `select` loop, the `done` channel and the goroutine (incoming-notify.go:50-82): OS event plumbing and concurrency. The model handles one event per call, as the single consumer does.
- `sendPubuCloud` and the `go` statement that starts it (incoming-notify.go:130, 136-142): HTTP transport, fire-and-forget. A dispatch is the `Sent` outcome.
- `json.Marshal` (incoming-notify.go:129): the payload stays a datatype. The title is kept as the raw bytes of `string(buffer)`.
- CLI parsing and `main` (incoming-notify.go:27-48).
- The `Stat` error path (incoming-notify.go:95-97): it falls through to a nil dereference. The size is always the snapshot's length.
- The file is one snapshot. A file that changes between `Stat`, the scan and `ReadAt` is not modelled.
- `LineScan.ReadLine`: does not model `bufio`'s 4096-byte buffer, which splits longer lines into fragments (then `lastLineSize` is the last fragment's length). It also does not model the stripping of a CR before the LF, or read errors other than EOF.
- `IncomingNotify.ReadAt`: a read error other than a negative offset or EOF is not modelled.
- The panic of `make([]byte, n)` for negative `n` is the `MakePanic` outcome with the state unchanged. What happens to the process afterwards is not modelled.
- Integer width: sizes and offsets are unbounded integers, which matches Go on 64-bit targets, where `int64` and `int` cannot overflow for real file sizes. On 32-bit targets `int` has 32 bits, and the conversion `int(fileSize - previousFileSize - 1)` (incoming-notify.go:118) wraps when the file grows by 2^31 bytes or more between two handled events. `make` then panics or allocates a short buffer, and the offset moves with it. The model reads the whole growth instead.
