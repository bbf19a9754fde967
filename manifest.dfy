/**
 * The manifest (hash file) as bytes on disk: `store_data` writes each line with
 * `*hash_file << hash << endl`, and `restore_file` reads the lines back with
 * `while (getline(fin, line))`.
 */
module Manifest {
  import opened Bytes

  /** The text of a manifest holding these lines, each followed by a newline. */
  function ManifestText(lines: seq<Bytes>): Bytes {
    if lines == [] then [] else lines[0] + [NEWLINE] + ManifestText(lines[1..])
  }

  /** Writing one more line appends it, and its newline, at the end. */
  lemma {:induction false} ManifestTextSnoc(lines: seq<Bytes>, line: Bytes)
    ensures ManifestText(lines + [line]) == ManifestText(lines) + line + [NEWLINE]
  {
    if lines == [] {
      assert [] + [line] == [line];
    } else {
      assert (lines + [line])[1..] == lines[1..] + [line];
      ManifestTextSnoc(lines[1..], line);
    }
  }

  /** The index of the first newline of `s`, or |s| when there is none. */
  function NewlineIndex(s: Bytes): (j: nat)
    ensures j <= |s| && NEWLINE !in s[..j]
    ensures j < |s| ==> s[j] == NEWLINE
  {
    if s == [] || s[0] == NEWLINE then 0
    else
      var j := 1 + NewlineIndex(s[1..]);
      assert s[..j] == [s[0]] + s[1..][..j - 1];
      j
  }

  /** One `getline` on a stream whose unread bytes are `s`: fails at end of input;
      otherwise yields the bytes up to the next newline, which it consumes, or up to
      the end of input. */
  function GetLine(s: Bytes): (r: Option<(Bytes, Bytes)>)
    ensures r.None? <==> s == []
    ensures r.Some? ==> var (line, rest) := r.value;
      NEWLINE !in line && |rest| < |s| &&
      (s == line + [NEWLINE] + rest || (s == line && rest == []))
  {
    if s == [] then None
    else
      var j := NewlineIndex(s);
      if j < |s| then
        assert s == s[..j] + [NEWLINE] + s[j + 1..];
        Some((s[..j], s[j + 1..]))
      else
        Some((s, []))
  }

  /** The lines the `getline` loop of `restore_file` delivers, in order. */
  function GetLines(s: Bytes): (lines: seq<Bytes>)
    ensures forall k :: 0 <= k < |lines| ==> NEWLINE !in lines[k]
    decreases |s|
  {
    match GetLine(s)
    case None => []
    case Some((line, rest)) => [line] + GetLines(rest)
  }

  /** Reading back a manifest gives exactly the lines written, when no line holds a
      newline of its own. */
  lemma {:induction false} GetLinesOfManifestText(lines: seq<Bytes>)
    requires forall k :: 0 <= k < |lines| ==> NEWLINE !in lines[k]
    ensures GetLines(ManifestText(lines)) == lines
  {
    if lines != [] {
      var s := ManifestText(lines);
      var rest := ManifestText(lines[1..]);
      assert s == lines[0] + [NEWLINE] + rest;
      assert NewlineIndex(s) == |lines[0]| by {
        assert s[|lines[0]|] == NEWLINE;
      }
      assert s[..|lines[0]|] == lines[0];
      assert s[|lines[0]| + 1..] == rest;
      GetLinesOfManifestText(lines[1..]);
    }
  }

  /** `s` ending in a newline; one is added when the last line lacks its own. */
  function Terminated(s: Bytes): (t: Bytes)
    ensures t == s || t == s + [NEWLINE]
    ensures t != [] ==> t[|t| - 1] == NEWLINE
  {
    if s == [] || s[|s| - 1] == NEWLINE then s else s + [NEWLINE]
  }

  /** A complete line in front does not change where the newline goes at the end. */
  lemma TerminatedAfterLine(line: Bytes, rest: Bytes)
    ensures Terminated(line + [NEWLINE] + rest) == line + [NEWLINE] + Terminated(rest)
  {
    var s := line + [NEWLINE] + rest;
    if rest != [] {
      assert s[|s| - 1] == rest[|rest| - 1];
      assert s + [NEWLINE] == line + [NEWLINE] + (rest + [NEWLINE]);
    }
  }

  /** The other direction: writing back the lines read from any text reproduces it,
      up to the newline that `getline` does not require after the last line. */
  lemma {:induction false} ManifestTextOfGetLines(s: Bytes)
    ensures ManifestText(GetLines(s)) == Terminated(s)
    decreases |s|
  {
    if s != [] {
      var j := NewlineIndex(s);
      if j < |s| {
        var line, rest := s[..j], s[j + 1..];
        assert s == line + [NEWLINE] + rest;
        assert GetLines(s) == [line] + GetLines(rest);
        ManifestTextOfGetLines(rest);
        assert ManifestText([line] + GetLines(rest)) == line + [NEWLINE] + ManifestText(GetLines(rest));
        TerminatedAfterLine(line, rest);
      } else {
        assert GetLines(s) == [s];
        assert s[|s| - 1] in s;
      }
    }
  }
}
