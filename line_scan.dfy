/**
 * The first-observation line scan of `getFileChangeContent`: a `bufio.Reader`
 * hands out the file one line at a time (without its LF terminator) until EOF,
 * and the caller keeps only the length of the last line it saw.
 */
module LineScan {
  import opened Common

  /** Index of the first LF at or after `from`, or `|s|` when there is none. */
  function LineEnd(s: Bytes, from: nat): (e: nat)
    requires from <= |s|
    ensures from <= e <= |s|
    ensures e < |s| ==> s[e] == LF
    ensures forall k :: from <= k < e ==> s[k] != LF
    decreases |s| - from
  {
    if from == |s| || s[from] == LF then from else LineEnd(s, from + 1)
  }

  /** The three properties of LineEnd's contract determine it. */
  lemma LineEndUnique(s: Bytes, from: nat, e: nat)
    requires from <= e <= |s|
    requires e < |s| ==> s[e] == LF
    requires forall k :: from <= k < e ==> s[k] != LF
    ensures LineEnd(s, from) == e
  {
  }

  /** Where the reader resumes after the line that starts at `from`: past its LF, or at EOF. */
  function NextLine(s: Bytes, from: nat): (next: nat)
    requires from < |s|
    ensures from < next <= |s|
  {
    var e := LineEnd(s, from);
    if e < |s| then e + 1 else |s|
  }

  /** The lines the reader returns from position `from` on, each without its terminator. */
  function LinesFrom(s: Bytes, from: nat): seq<Bytes>
    requires from <= |s|
    decreases |s| - from
  {
    if from == |s| then [] else [s[from..LineEnd(s, from)]] + LinesFrom(s, NextLine(s, from))
  }

  /** Every line of the file, in the order `ReadLine` returns them. */
  function Lines(s: Bytes): seq<Bytes>
  {
    LinesFrom(s, 0)
  }

  /**
   * The value `lastLineSize` holds when the scan reaches EOF: 0 for an empty
   * file, and never more than the file size.
   */
  function LastLineLength(s: Bytes): (n: nat)
    ensures n <= |s|
    ensures s != [] ==> Lines(s) != []
  {
    LinesFromLastBound(s, 0);
    var ls := Lines(s);
    if ls == [] then 0 else |ls[|ls| - 1]|
  }

  /** Each line followed by an LF, concatenated: the inverse of splitting. */
  function JoinLines(ls: seq<Bytes>): Bytes
  {
    if ls == [] then [] else ls[0] + [LF] + JoinLines(ls[1..])
  }

  /** True when `s` is empty or ends with a line terminator. */
  predicate Terminated(s: Bytes)
  {
    s == [] || s[|s| - 1] == LF
  }

  /**
   * One call of `reader.ReadLine()` with the reader at position `pos`:
   * `None` is `io.EOF`; otherwise the next line and the position after it.
   */
  method ReadLine(s: Bytes, pos: nat) returns (line: Option<Bytes>, next: nat)
    requires pos <= |s|
    ensures pos == |s| ==> line == None && next == pos
    ensures pos < |s| ==> line == Some(s[pos..LineEnd(s, pos)]) && next == NextLine(s, pos)
  {
    if pos == |s| {
      return None, pos;
    }
    var e := pos;
    while e < |s| && s[e] != LF
      invariant pos <= e <= |s|
      invariant forall k :: pos <= k < e ==> s[k] != LF
    {
      e := e + 1;
    }
    LineEndUnique(s, pos, e);
    line := Some(s[pos..e]);
    next := if e < |s| then e + 1 else |s|;
  }

  /** The `for` loop over `ReadLine` that overwrites `lastLineSize` with each line's length. */
  method ScanLastLineSize(s: Bytes) returns (lastLineSize: nat)
    ensures lastLineSize == LastLineLength(s)
  {
    lastLineSize := 0;
    var pos := 0;
    ghost var seen: seq<Bytes> := [];
    while true
      invariant pos <= |s|
      invariant Lines(s) == seen + LinesFrom(s, pos)
      invariant lastLineSize == if seen == [] then 0 else |seen[|seen| - 1]|
      decreases |s| - pos
    {
      var line, next := ReadLine(s, pos);
      if line.None? {
        break;
      }
      assert LinesFrom(s, pos) == [line.value] + LinesFrom(s, next);
      lastLineSize := |line.value|;
      seen := seen + [line.value];
      pos := next;
    }
    assert seen == Lines(s);
  }

  /** No line of the scan is longer than the part of the file it was read from. */
  lemma {:induction false} LinesFromLastBound(s: Bytes, from: nat)
    requires from <= |s|
    ensures var ls := LinesFrom(s, from); ls != [] ==> |ls[|ls| - 1]| <= |s| - from
    decreases |s| - from
  {
    if from < |s| {
      LinesFromLastBound(s, NextLine(s, from));
    }
  }

  /** Lines hold no terminator, and joining them back gives the file (plus the LF a final unterminated line lacks). */
  lemma {:induction false} LinesFromRoundTrip(s: Bytes, from: nat)
    requires from <= |s|
    ensures forall l :: l in LinesFrom(s, from) ==> LF !in l
    ensures JoinLines(LinesFrom(s, from)) == if Terminated(s) || from == |s| then s[from..] else s[from..] + [LF]
    decreases |s| - from
  {
    if from < |s| {
      var e := LineEnd(s, from);
      var next := NextLine(s, from);
      LinesFromRoundTrip(s, next);
      assert LF !in s[from..e] by {
        forall k | 0 <= k < e - from ensures s[from..e][k] != LF {
          assert s[from..e][k] == s[from + k];
        }
      }
      if e < |s| {
        assert s[from..] == s[from..e] + [LF] + s[next..];
      } else {
        assert !Terminated(s);
        assert s[from..] == s[from..e];
      }
    }
  }

  /** Splitting a file into lines and joining them again is the identity on terminated files. */
  lemma LinesRoundTrip(s: Bytes)
    ensures forall l :: l in Lines(s) ==> LF !in l
    ensures Terminated(s) ==> JoinLines(Lines(s)) == s
    ensures !Terminated(s) ==> JoinLines(Lines(s)) == s + [LF]
  {
    LinesFromRoundTrip(s, 0);
    assert s[0..] == s;
  }

  /** Searching for the terminator inside `x` does not depend on what precedes `x`. */
  lemma LineEndShift(p: Bytes, x: Bytes, j: nat)
    requires j < |x|
    ensures LineEnd(p + x, |p| + j) == |p| + LineEnd(x, j)
    ensures (p + x)[|p| + j..|p| + LineEnd(x, j)] == x[j..LineEnd(x, j)]
    ensures NextLine(p + x, |p| + j) == |p| + NextLine(x, j)
  {
    var s := p + x;
    var e := LineEnd(x, j);
    forall k | |p| + j <= k < |p| + e
      ensures s[k] != LF
    {
      assert s[k] == x[k - |p|];
    }
    if e < |x| {
      assert s[|p| + e] == x[e];
    }
    LineEndUnique(s, |p| + j, |p| + e);
  }

  /** Lines read from inside `x` do not depend on what precedes `x`. */
  lemma {:induction false} LinesFromShift(p: Bytes, x: Bytes, j: nat)
    requires j <= |x|
    ensures LinesFrom(p + x, |p| + j) == LinesFrom(x, j)
    decreases |x| - j
  {
    if j < |x| {
      LineEndShift(p, x, j);
      LinesFromShift(p, x, NextLine(x, j));
    }
  }

  /** Inside a terminated prefix, a line ends where it ends in the prefix alone. */
  lemma LineEndPrefix(p: Bytes, x: Bytes, from: nat)
    requires Terminated(p)
    requires from < |p|
    ensures LineEnd(p, from) < |p|
    ensures LineEnd(p + x, from) == LineEnd(p, from)
    ensures (p + x)[from..LineEnd(p, from)] == p[from..LineEnd(p, from)]
    ensures NextLine(p + x, from) == NextLine(p, from)
  {
    var s := p + x;
    var e := LineEnd(p, from);
    assert p[|p| - 1] == LF;
    forall k | from <= k < e
      ensures s[k] != LF
    {
      assert s[k] == p[k];
    }
    assert s[e] == p[e];
    LineEndUnique(s, from, e);
  }

  /** After a terminated prefix, the lines of `p + x` are those of `p` followed by those of `x`. */
  lemma {:induction false} LinesFromPrefix(p: Bytes, x: Bytes, from: nat)
    requires Terminated(p)
    requires from <= |p|
    ensures LinesFrom(p + x, from) == LinesFrom(p, from) + LinesFrom(x, 0)
    decreases |p| - from
  {
    if from == |p| {
      LinesFromShift(p, x, 0);
    } else {
      LineEndPrefix(p, x, from);
      LinesFromPrefix(p, x, NextLine(p, from));
    }
  }

  /** On a file whose last line is `line` with its LF, the scan measures exactly `line`. */
  lemma LastLineOfTerminated(p: Bytes, line: Bytes)
    requires Terminated(p)
    requires LF !in line
    ensures LastLineLength(p + line + [LF]) == |line|
  {
    var x := line + [LF];
    assert p + line + [LF] == p + x;
    LinesFromPrefix(p, x, 0);
    LineEndUnique(x, 0, |line|);
    assert x[0..|line|] == line;
    assert LinesFrom(x, 0) == [line];
  }

  /** On a file that ends in an unterminated fragment, the scan measures that fragment. */
  lemma LastLineOfUnterminated(p: Bytes, fragment: Bytes)
    requires Terminated(p)
    requires fragment != [] && LF !in fragment
    ensures LastLineLength(p + fragment) == |fragment|
  {
    LinesFromPrefix(p, fragment, 0);
    LineEndUnique(fragment, 0, |fragment|);
    assert fragment[0..|fragment|] == fragment;
    assert LinesFrom(fragment, 0) == [fragment];
  }
}
