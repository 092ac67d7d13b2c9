/** What the offset arithmetic of `getFileChangeContent` guarantees, call by call and over runs. */
module TrackerProperties {
  import opened Common
  import opened LineScan
  import opened IncomingNotify

  /** A file that cannot be opened changes nothing and sends nothing. */
  lemma OpenFailureIsNoOp(st: WatchState, path: string, color: string)
    ensures Step(st, None, path, color) == (OpenFailed, st)
  {
  }

  /** An event that leaves the size as recorded returns early and changes nothing. */
  lemma UnchangedSizeIsNoOp(st: WatchState, f: Bytes, path: string, color: string)
    requires |f| == st.fileSize
    ensures Step(st, Some(f), path, color) == (SizeUnchanged, st)
  {
  }

  /**
   * Past the early returns, a payload is produced exactly when the read offset
   * moves, and the state is committed to (offset, size) exactly then.
   */
  lemma SentIffOffsetMoves(st: WatchState, f: Bytes, path: string, color: string)
    requires |f| != st.fileSize && WindowLength(st, f) >= 0
    ensures Step(st, Some(f), path, color).0.Sent? <==> ReadOffset(st, f) != st.offset
    ensures Step(st, Some(f), path, color).1
            == if ReadOffset(st, f) != st.offset then WatchState(ReadOffset(st, f), |f|) else st
  {
  }

  /** Whatever happens, the state is left alone unless a payload is sent. */
  lemma StateMovesOnlyWithPayload(st: WatchState, file: Option<Bytes>, path: string, color: string)
    ensures !Step(st, file, path, color).0.Sent? ==> Step(st, file, path, color).1 == st
    ensures Step(st, file, path, color).0.Sent? ==>
              var f := file.value;
              Step(st, file, path, color).1 == WatchState(ReadOffset(st, f), |f|)
  {
  }

  /** Every payload names the watched path and carries one attachment in the configured colour. */
  lemma PayloadShape(st: WatchState, file: Option<Bytes>, path: string, color: string)
    ensures var o := Step(st, file, path, color).0;
            o.Sent? ==>
              && file.Some?
              && o.payload.text == path
              && |o.payload.attachments| == 1
              && o.payload.attachments[0].color == color
              && var off := ReadOffset(st, file.value);
                 o.payload.attachments[0].title == if off < 0 then [] else file.value[off..|file.value| - 1]
  {
  }

  /** Every call keeps the tracker in a state reachable from the initial one. */
  lemma StepPreservesReachable(st: WatchState, file: Option<Bytes>, path: string, color: string)
    requires Reachable(st)
    ensures Reachable(Step(st, file, path, color).1)
  {
  }

  /**
   * Steady state: when a recorded file grows by `appended`, the window starts at
   * the old size and holds the appended bytes without the final one; the payload
   * is always sent and the new size recorded.
   */
  lemma SteadyStateSendsAppendedBytes(st: WatchState, prior: Bytes, appended: Bytes, path: string, color: string)
    requires Reachable(st) && st.fileSize != 0
    requires |prior| == st.fileSize
    requires appended != []
    ensures ReadOffset(st, prior + appended) == |prior|
    ensures Step(st, Some(prior + appended), path, color)
            == (Sent(Payload(path, appended[..|appended| - 1], color)), WatchState(|prior|, |prior| + |appended|))
  {
    var f := prior + appended;
    assert f[|prior|..|f| - 1] == appended[..|appended| - 1];
  }

  /** A recorded file that shrinks makes the window length negative: `make` panics. */
  lemma TruncationPanics(st: WatchState, f: Bytes, path: string, color: string)
    requires st.fileSize != 0 && |f| < st.fileSize
    ensures Step(st, Some(f), path, color) == (MakePanic, st)
  {
  }

  /**
   * First observation of a file that ends with `line` and its LF: the window is
   * exactly `line`, starting after the prefix. When the file is that one line,
   * the offset is 0, equal to the initial offset, so nothing is sent.
   */
  lemma FirstObservationOfTerminatedFile(p: Bytes, line: Bytes, path: string, color: string)
    requires Terminated(p) && LF !in line
    ensures var f := p + line + [LF];
            && WindowLength(INITIAL, f) == |line|
            && ReadOffset(INITIAL, f) == |p|
            && Step(INITIAL, Some(f), path, color)
               == if p == [] then (OffsetUnchanged, INITIAL)
                  else (Sent(Payload(path, line, color)), WatchState(|p|, |f|))
  {
    var f := p + line + [LF];
    LastLineOfTerminated(p, line);
    assert f[|p|..|p| + |line|] == line;
  }

  /**
   * First observation of a file ending in an unterminated `fragment`: the window
   * starts one byte early, at the LF before it. With no LF at all the offset is
   * -1, `ReadAt` reads nothing and an empty title is sent; with a single LF in
   * front the offset is 0 and nothing is sent.
   */
  lemma FirstObservationOfUnterminatedFile(p: Bytes, fragment: Bytes, path: string, color: string)
    requires Terminated(p) && fragment != [] && LF !in fragment
    ensures var f := p + fragment;
            && WindowLength(INITIAL, f) == |fragment|
            && ReadOffset(INITIAL, f) == |p| - 1
            && Step(INITIAL, Some(f), path, color)
               == if p == [] then (Sent(Payload(path, [], color)), WatchState(-1, |f|))
                  else if p == [LF] then (OffsetUnchanged, INITIAL)
                  else (Sent(Payload(path, [LF] + fragment[..|fragment| - 1], color)), WatchState(|p| - 1, |f|))
  {
    var f := p + fragment;
    LastLineOfUnterminated(p, fragment);
    if p != [] {
      assert f[|p| - 1] == p[|p| - 1] == LF;
      assert f[|p|..|f| - 1] == fragment[..|fragment| - 1];
      assert f[|p| - 1..|f| - 1] == [f[|p| - 1]] + f[|p|..|f| - 1];
    }
  }

  /**
   * A second delivery of the same event changes nothing more: after a payload
   * the size is recorded, so the repeat returns early; otherwise the state did
   * not move and the repeat ends the same way. At most one payload is sent.
   */
  lemma RepeatedEventIsNoOp(st: WatchState, file: Option<Bytes>, path: string, color: string)
    ensures var (o1, st1) := Step(st, file, path, color);
            var (o2, st2) := Step(st1, file, path, color);
            && st2 == st1
            && o2 == (if o1.Sent? then SizeUnchanged else o1)
  {
  }

  /**
   * The outcomes of appending each of `lines` with its LF to the file `prior`,
   * running the tracker once after each append.
   */
  function AppendEach(st: WatchState, prior: Bytes, lines: seq<Bytes>, path: string, color: string): seq<Outcome>
    decreases |lines|
  {
    if lines == [] then []
    else
      var f := prior + lines[0] + [LF];
      var (o, st') := Step(st, Some(f), path, color);
      [o] + AppendEach(st', f, lines[1..], path, color)
  }

  /**
   * Once a non-empty file has been recorded, each appended line is sent as it
   * was written, one payload per append, in order.
   */
  lemma {:induction false} AppendEachSendsEachLine(st: WatchState, prior: Bytes, lines: seq<Bytes>, path: string, color: string)
    requires Reachable(st) && st.fileSize != 0 && |prior| == st.fileSize
    ensures |AppendEach(st, prior, lines, path, color)| == |lines|
    ensures forall i :: 0 <= i < |lines| ==> AppendEach(st, prior, lines, path, color)[i] == Sent(Payload(path, lines[i], color))
    decreases |lines|
  {
    if lines != [] {
      var appended := lines[0] + [LF];
      assert prior + lines[0] + [LF] == prior + appended;
      SteadyStateSendsAppendedBytes(st, prior, appended, path, color);
      assert appended[..|appended| - 1] == lines[0];
      var f := prior + appended;
      var st' := WatchState(|prior|, |f|);
      AppendEachSendsEachLine(st', f, lines[1..], path, color);
      var rest := AppendEach(st', f, lines[1..], path, color);
      assert AppendEach(st, prior, lines, path, color) == [Sent(Payload(path, lines[0], color))] + rest;
    }
  }

  /**
   * Starting from an empty file: the first line appended is not sent (its offset
   * is 0, the initial offset) and the state stays initial; the second is sent
   * through the first-observation path, and from then on the state is steady.
   */
  lemma StartupSkipsFirstLine(first: Bytes, second: Bytes, path: string, color: string)
    requires LF !in first && LF !in second
    ensures Step(INITIAL, Some([]), path, color) == (SizeUnchanged, INITIAL)
    ensures Step(INITIAL, Some(first + [LF]), path, color) == (OffsetUnchanged, INITIAL)
    ensures Step(INITIAL, Some(first + [LF] + second + [LF]), path, color)
            == (Sent(Payload(path, second, color)), WatchState(|first| + 1, |first| + |second| + 2))
  {
    FirstObservationOfTerminatedFile([], first, path, color);
    assert [] + first + [LF] == first + [LF];
    FirstObservationOfTerminatedFile(first + [LF], second, path, color);
  }

  /** The bytes of "hello" and "world". */
  const HELLO: Bytes := [104, 101, 108, 108, 111]
  const WORLD: Bytes := [119, 111, 114, 108, 100]

  /**
   * An initially empty file receives "hello\n", then "world\n": the first event
   * sends nothing, the second sends "world" alone, not "hello\nworld".
   */
  lemma HelloWorldScenario(path: string, color: string)
    ensures Step(INITIAL, Some(HELLO + [LF]), path, color) == (OffsetUnchanged, INITIAL)
    ensures Step(INITIAL, Some(HELLO + [LF] + WORLD + [LF]), path, color)
            == (Sent(Payload(path, WORLD, color)), WatchState(6, 12))
  {
    StartupSkipsFirstLine(HELLO, WORLD, path, color);
  }
}
