/**
 * Two commands of the desktop app's system module: the session log, which is
 * the tail of the app's log file starting at the last line that ends with
 * "initializing" (the line the app writes when it starts), and file hashing,
 * which refuses anything that is not a regular file and renders the SHA-256
 * digest in lower-case hexadecimal. The log arrives already split into lines;
 * the file's metadata, contents and digest function are given.
 */
module SessionLog {
  import opened Seqs
  import opened Wrappers
  import opened FileSystem
  import opened Hex

  const Marker: string := "initializing"

  predicate EndsWithMarker(line: string) {
    |line| >= |Marker| && line[|line| - |Marker|..] == Marker
  }

  // ---- The pipeline as written: lines from the end, up to and including a marker line, folded ----

  /** `lines().rev().take_while_inclusive(..)`: the lines from the last one backwards, through the first marker line met. */
  function TakeBackInclusive(lines: seq<string>): seq<string>
    decreases |lines|
  {
    if lines == [] then []
    else
      var last := lines[|lines| - 1];
      if EndsWithMarker(last) then [last] else [last] + TakeBackInclusive(lines[..|lines| - 1])
  }

  /** The fold: each line taken, with a newline, is put in front of what was collected so far. */
  function PrependAll(acc: string, taken: seq<string>): string
    decreases |taken|
  {
    if taken == [] then acc else PrependAll(taken[0] + "\n" + acc, taken[1..])
  }

  /** The text `get_session_log` returns for the log's lines. */
  function SessionLogText(lines: seq<string>): string {
    PrependAll("", TakeBackInclusive(lines))
  }

  // ---- What it means ----

  /** Where this session starts: the last marker line, or the first line when there is none. */
  function SessionStart(lines: seq<string>): (k: nat)
    ensures k <= |lines| && (lines != [] ==> k < |lines|)
    decreases |lines|
  {
    if lines == [] then 0
    else if EndsWithMarker(lines[|lines| - 1]) then |lines| - 1
    else SessionStart(lines[..|lines| - 1])
  }

  /**
   * The session starts at a marker line when there is one, no later line is a
   * marker, and without any marker it starts at the first line.
   */
  lemma {:induction false} SessionStartIsLastMarker(lines: seq<string>)
    ensures var k := SessionStart(lines);
      && ((exists i :: 0 <= i < |lines| && EndsWithMarker(lines[i])) ==> EndsWithMarker(lines[k]))
      && (forall i :: k < i < |lines| ==> !EndsWithMarker(lines[i]))
      && ((forall i :: 0 <= i < |lines| ==> !EndsWithMarker(lines[i])) ==> k == 0)
    decreases |lines|
  {
    if lines != [] && !EndsWithMarker(lines[|lines| - 1]) {
      var init := lines[..|lines| - 1];
      SessionStartIsLastMarker(init);
      assert forall i :: 0 <= i < |init| ==> init[i] == lines[i];
    }
  }

  /** Each line followed by one newline, in order. */
  function Terminated(lines: seq<string>): string {
    if lines == [] then "" else lines[0] + "\n" + Terminated(lines[1..])
  }

  lemma {:induction false} TerminatedAppend(lines: seq<string>, line: string)
    ensures Terminated(lines + [line]) == Terminated(lines) + line + "\n"
  {
    if lines != [] {
      assert (lines + [line])[1..] == lines[1..] + [line];
      TerminatedAppend(lines[1..], line);
    }
  }

  /** The fold of the lines taken from the end, in front of `acc`, is the session's lines with newlines. */
  lemma {:induction false} PrependTaken(lines: seq<string>, acc: string)
    ensures PrependAll(acc, TakeBackInclusive(lines)) == Terminated(lines[SessionStart(lines)..]) + acc
    decreases |lines|
  {
    if lines != [] {
      var n := |lines| - 1;
      var last := lines[n];
      if EndsWithMarker(last) {
        assert lines[n..] == [last];
        assert Terminated([last]) == last + "\n" + Terminated([]);
      } else {
        var init := lines[..n];
        assert TakeBackInclusive(lines) == [last] + TakeBackInclusive(init);
        PrependTaken(init, last + "\n" + acc);
        SessionSliceSnoc(lines);
        TerminatedAppend(init[SessionStart(init)..], last);
      }
    }
  }

  /** A last line without the marker leaves the session's start where it was and joins its tail. */
  lemma SessionSliceSnoc(lines: seq<string>)
    requires lines != [] && !EndsWithMarker(lines[|lines| - 1])
    ensures lines[SessionStart(lines)..] == lines[..|lines| - 1][SessionStart(lines[..|lines| - 1])..] + [lines[|lines| - 1]]
  {
    var init := lines[..|lines| - 1];
    var k := SessionStart(init);
    assert SessionStart(lines) == k;
    SliceDropLast(lines, k);
  }

  /**
   * The session log is the lines from the last one ending in "initializing"
   * (every line when none does) to the end, in their original order, each
   * followed by exactly one newline; an empty log gives "".
   */
  lemma SessionLogIsTail(lines: seq<string>)
    ensures SessionLogText(lines) == Terminated(lines[SessionStart(lines)..])
    ensures lines == [] ==> SessionLogText(lines) == ""
  {
    PrependTaken(lines, "");
  }

  // ---- Hashing a file ----

  /** What reading the file for hashing did: failed to open, failed part way, or read these bytes. */
  datatype ReadOutcome = OpenFailed(detail: string) | CopyFailed(detail: string) | ReadAll(contents: Bytes)

  const NotAFile: string := "The supplied path isn't a file. Hashing of directories isn't supported."

  /**
   * `hash_file`: a metadata error or a path that is not a regular file is
   * reported before the file is read; otherwise the digest of its contents, in
   * lower-case hexadecimal.
   */
  function HashFile(metadata: Result<bool, string>, read: ReadOutcome, sha: Bytes -> Bytes): (r: Result<string, string>)
    ensures metadata.Err? ==> r == Err("Unable to read metadata of path: " + metadata.error)
    ensures metadata == Ok(false) ==> r == Err(NotAFile)
    ensures r.Ok? <==> metadata == Ok(true) && read.ReadAll?
    ensures r.Ok? ==> DecodeHex(r.value) == Some(sha(read.contents))
    ensures r.Ok? ==> forall i :: 0 <= i < |r.value| ==> IsLowerHexChar(r.value[i])
  {
    match metadata
    case Err(e) => Err("Unable to read metadata of path: " + e)
    case Ok(isFile) =>
      if !isFile then Err(NotAFile)
      else
        match read
        case OpenFailed(e) => Err("Error hashing file: Error opening file: " + e)
        case CopyFailed(e) => Err("Error hashing file: Error hashing file: " + e)
        case ReadAll(contents) =>
          DecodeLowerHex(sha(contents));
          Ok(LowerHex(sha(contents)))
  }
}
