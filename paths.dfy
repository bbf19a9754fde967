/**
 * Path derivation of `restore_file` and `store_file` (peace.cpp), modelled with the
 * `std::string` operations they use: `find_last_of`, `substr` and the unsigned
 * `size_t` arithmetic on `npos`. The example lemmas at the end take their path as a
 * parameter fixed by `requires`, so that the literal is compared with the path they
 * build instead of being unfolded through the path functions.
 */
module Paths {

  /** The name of the manifest extension, without its dot. */
  const EXTENSION_NAME: string := "pce"

  /** `get_file_extension()`: the suffix of manifest (hash) files, ".pce". */
  const MANIFEST_EXTENSION: string := "." + EXTENSION_NAME

  /** The marker `restore_file` inserts before the original extension. */
  const RESTORED_MARKER: string := "_restored."

  /** `std::string::npos` for a 64-bit `size_t`. */
  const NPOS: nat := 0xFFFF_FFFF_FFFF_FFFF

  /** A `std::string` is shorter than `npos` (its `max_size()` is smaller). */
  predicate IsCppString(s: string) {
    |s| < NPOS
  }

  /** `s.find_last_of(c)`: the index of the last `c`, or `npos` when there is none. */
  function FindLastOf(s: string, c: char): (r: nat)
    requires IsCppString(s)
    ensures r == NPOS <==> c !in s
    ensures r != NPOS ==> r < |s| && s[r] == c && c !in s[r + 1..]
  {
    if |s| == 0 then NPOS
    else if s[|s| - 1] == c then |s| - 1
    else
      var r := FindLastOf(s[..|s| - 1], c);
      assert s == s[..|s| - 1] + [s[|s| - 1]];
      r
  }

  /** `i + 1` on `size_t`, which is `(i + 1) mod 2^64`: `npos` wraps around to 0. */
  function SizeSucc(i: nat): (r: nat)
    requires i <= NPOS
    ensures r == (i + 1) % (NPOS + 1)
  {
    if i == NPOS then 0 else i + 1
  }

  /** `s.substr(pos, count)`: at most `count` characters from `pos`. Positions past the
      end make `std::string` throw; the code here never passes one. */
  function Substr(s: string, pos: nat, count: nat): (r: string)
    requires pos <= |s|
    ensures |r| <= count && pos + |r| <= |s| && r == s[pos..pos + |r|]
    ensures |r| == count || pos + |r| == |s|
  {
    if count < |s| - pos then s[pos..pos + count] else s[pos..]
  }

  /** The manifest path `store_file` writes for a source path. */
  function ManifestPath(filePath: string): string {
    filePath + MANIFEST_EXTENSION
  }

  /** `s.substr(0, s.find_last_of('.'))`: everything before the last dot. */
  function BeforeLastDot(s: string): string
    requires IsCppString(s)
  {
    Substr(s, 0, FindLastOf(s, '.'))
  }

  /** `s.substr(s.find_last_of('.') + 1)`: everything after the last dot. */
  function AfterLastDot(s: string): string
    requires IsCppString(s)
  {
    Substr(s, SizeSucc(FindLastOf(s, '.')), NPOS)
  }

  /** The strings `restore_file` derives from a manifest path before it opens anything. */
  datatype RestorePaths = RestorePaths(
    manifestExtension: string,  // hash_file_extension
    strippedPath: string,       // orig_file_path before the marker is inserted
    outputPath: string)         // orig_file_path after it

  /** The derivation of peace.cpp lines 128-133. */
  function DerivePaths(hashFilePath: string): RestorePaths
    requires IsCppString(hashFilePath)
  {
    var stripped := BeforeLastDot(hashFilePath);
    RestorePaths(AfterLastDot(hashFilePath), stripped,
                 BeforeLastDot(stripped) + RESTORED_MARKER + AfterLastDot(stripped))
  }

  /** The check of line 135: "." + hash_file_extension must equal the manifest suffix. */
  predicate IsManifestPath(hashFilePath: string)
    requires IsCppString(hashFilePath)
  {
    "." + AfterLastDot(hashFilePath) == MANIFEST_EXTENSION
  }

  /** The last-dot split: with a last dot at k, the text before and after it; without a
      dot, the whole string on both sides (`substr(0, npos)`, and npos + 1 == 0). */
  lemma LastDotSplit(s: string)
    requires IsCppString(s)
    ensures '.' in s ==>
      var k := FindLastOf(s, '.');
      k < |s| && BeforeLastDot(s) == s[..k] && AfterLastDot(s) == s[k + 1..]
    ensures '.' !in s ==> BeforeLastDot(s) == s && AfterLastDot(s) == s
  {
    var k := FindLastOf(s, '.');
    if '.' in s {
      assert SizeSucc(k) == k + 1;
    } else {
      assert SizeSucc(k) == 0;
    }
  }

  /** The last dot of a string that ends in ".ext" (ext without dots) is that one. */
  lemma LastDotOfSuffix(p: string, ext: string)
    requires IsCppString(p + "." + ext) && '.' !in ext
    ensures FindLastOf(p + "." + ext, '.') == |p|
  {
    var s := p + "." + ext;
    var i := FindLastOf(s, '.');
    assert s[|p|] == '.';
    assert s[|p| + 1..] == ext;
  }

  /** The extension check accepts exactly the paths ending in ".pce", and also the bare
      name "pce": without a dot, npos + 1 wraps to 0 and the whole name is compared. */
  lemma ManifestPathCheck(h: string)
    requires IsCppString(h)
    ensures IsManifestPath(h) <==> (|h| >= 4 && h[|h| - 4..] == MANIFEST_EXTENSION) || h == EXTENSION_NAME
  {
    var ext := AfterLastDot(h);
    assert IsManifestPath(h) <==> ext == EXTENSION_NAME by {
      assert ("." + ext)[1..] == ext;
    }
    if |h| >= 4 && h[|h| - 4..] == MANIFEST_EXTENSION {
      EndsWithExtension(h);
    }
    if h == EXTENSION_NAME {
      LastDotSplit(h);
    }
    if ext == EXTENSION_NAME {
      ExtensionOfAcceptedPath(h);
    }
  }

  /** A path ending in ".pce" has "pce" after its last dot. */
  lemma EndsWithExtension(h: string)
    requires IsCppString(h) && |h| >= 4 && h[|h| - 4..] == MANIFEST_EXTENSION
    ensures AfterLastDot(h) == EXTENSION_NAME
  {
    var p := h[..|h| - 4];
    assert h == p + "." + EXTENSION_NAME;
    LastDotOfSuffix(p, EXTENSION_NAME);
    LastDotSplit(h);
    assert h[|p| + 1..] == EXTENSION_NAME;
  }

  /** A path with "pce" after its last dot ends in ".pce", or is "pce" itself. */
  lemma ExtensionOfAcceptedPath(h: string)
    requires IsCppString(h) && AfterLastDot(h) == EXTENSION_NAME
    ensures (|h| >= 4 && h[|h| - 4..] == MANIFEST_EXTENSION) || h == EXTENSION_NAME
  {
    LastDotSplit(h);
    if '.' in h {
      var i := FindLastOf(h, '.');
      assert h[i + 1..] == EXTENSION_NAME;
      assert h[i..] == [h[i]] + h[i + 1..];
    }
  }

  /** The last dot of a manifest path is the one its suffix brought. */
  lemma SplitManifestPath(filePath: string)
    requires IsCppString(ManifestPath(filePath))
    ensures BeforeLastDot(ManifestPath(filePath)) == filePath
    ensures AfterLastDot(ManifestPath(filePath)) == EXTENSION_NAME
  {
    var h := ManifestPath(filePath);
    assert h == filePath + "." + EXTENSION_NAME;
    LastDotOfSuffix(filePath, EXTENSION_NAME);
    LastDotSplit(h);
    assert h[..|filePath|] == filePath;
    assert h[|filePath| + 1..] == EXTENSION_NAME;
  }

  /** Every manifest path `store_file` writes passes the check, its stripped path is the
      source path, and the output path splits the source path at its own last dot:
      stem + "_restored." + extension, or P + "_restored." + P when P has no dot. */
  lemma ManifestPathRoundTrip(filePath: string)
    requires IsCppString(ManifestPath(filePath))
    ensures IsManifestPath(ManifestPath(filePath))
    ensures DerivePaths(ManifestPath(filePath)).strippedPath == filePath
    ensures DerivePaths(ManifestPath(filePath)).outputPath ==
      if '.' in filePath then
        var k := FindLastOf(filePath, '.');
        filePath[..k] + RESTORED_MARKER + filePath[k + 1..]
      else
        filePath + RESTORED_MARKER + filePath
  {
    var h := ManifestPath(filePath);
    assert IsManifestPath(h) by {
      SplitManifestPath(filePath);
    }
    assert DerivePaths(h).strippedPath == filePath by {
      SplitManifestPath(filePath);
    }
    OutputOfManifestPath(filePath);
    LastDotSplit(filePath);
  }

  /** The output path of a manifest path is built from the source path's last-dot split. */
  lemma OutputOfManifestPath(filePath: string)
    requires IsCppString(ManifestPath(filePath))
    ensures DerivePaths(ManifestPath(filePath)).outputPath ==
      BeforeLastDot(filePath) + RESTORED_MARKER + AfterLastDot(filePath)
  {
    SplitManifestPath(filePath);
  }

  /** A dotted source name "stem.ext" restores to "stem_restored.ext"; for instance
      "a.txt.pce" restores to "a_restored.txt". */
  lemma RestoreDottedName(stem: string, ext: string)
    requires '.' !in ext && IsCppString(ManifestPath(stem + "." + ext))
    ensures DerivePaths(ManifestPath(stem + "." + ext)).outputPath == stem + RESTORED_MARKER + ext
  {
    var p := stem + "." + ext;
    assert p[..|stem|] == stem && p[|stem| + 1..] == ext;
    LastDotOfSuffix(stem, ext);
    LastDotSplit(p);
    OutputOfManifestPath(p);
  }

  /** "a.pce" restores to "a_restored.a": without a dot the whole name is also the
      extension. */
  lemma RestoreExampleWithoutExtension(h: string)
    requires h == "a.pce"
    ensures IsManifestPath(h) && DerivePaths(h).outputPath == "a_restored.a"
  {
    var p := "a";
    assert p + RESTORED_MARKER + p == "a_restored.a";
    assert '.' !in p;
    assert h == ManifestPath(p);
    ManifestPathRoundTrip(p);
  }

  /** "a.txt.pce" restores to "a_restored.txt". */
  lemma RestoreExampleWithExtension(h: string)
    requires h == "a.txt.pce"
    ensures IsManifestPath(h) && DerivePaths(h).outputPath == "a_restored.txt"
  {
    var stem, ext := "a", "txt";
    assert stem + RESTORED_MARKER + ext == "a_restored.txt";
    assert '.' !in ext;
    assert h == ManifestPath(stem + "." + ext) && IsCppString(h);
    ManifestPathRoundTrip(stem + "." + ext);
    RestoreDottedName(stem, ext);
  }

  /** The bare name "pce" passes the check and restores to "pce_restored.pce": without a
      dot both halves of the split are the whole name. */
  lemma RestoreExampleBareName()
    ensures IsManifestPath(EXTENSION_NAME)
    ensures DerivePaths(EXTENSION_NAME).outputPath == "pce_restored.pce"
  {
    var h := EXTENSION_NAME;
    ManifestPathCheck(h);
    assert '.' !in h;
    LastDotSplit(h);
    assert h + RESTORED_MARKER + h == "pce_restored.pce";
  }

  /** Dots are searched in the whole path, not in its last component: "d/f.pce"
      restores to "d/f_restored.d/f", a name inside a directory "d/f_restored.d". */
  lemma RestoreExampleInDirectory(h: string)
    requires h == "d/f.pce"
    ensures IsManifestPath(h) && DerivePaths(h).outputPath == "d/f_restored.d/f"
  {
    var p := "d/f";
    assert p + RESTORED_MARKER + p == "d/f_restored.d/f";
    assert '.' !in p;
    assert h == ManifestPath(p);
    ManifestPathRoundTrip(p);
  }

  /** A dot in a directory name is taken for the extension's: "v1.0/f.pce" restores to
      "v1_restored.0/f". */
  lemma RestoreExampleDottedDirectory(h: string)
    requires h == "v1.0/f.pce"
    ensures IsManifestPath(h) && DerivePaths(h).outputPath == "v1_restored.0/f"
  {
    var stem, ext := "v1", "0/f";
    assert stem + RESTORED_MARKER + ext == "v1_restored.0/f";
    assert '.' !in ext;
    assert h == ManifestPath(stem + "." + ext) && IsCppString(h);
    ManifestPathRoundTrip(stem + "." + ext);
    RestoreDottedName(stem, ext);
  }

  /** The output path is never the manifest path, so truncating the output file cannot
      destroy the manifest that is being read. */
  lemma OutputIsNotManifest(h: string)
    requires IsCppString(h)
    ensures DerivePaths(h).outputPath != h
  {
    var p := DerivePaths(h);
    LastDotSplit(h);
    var stripped := p.strippedPath;
    LastDotSplit(stripped);
    var j := FindLastOf(stripped, '.');
    var stem := Substr(stripped, 0, j);
    if '.' !in h {
      assert |p.outputPath| > |h|;
    } else {
      var i := FindLastOf(h, '.');
      assert stripped == h[..i];
      // The output has '_' where the manifest path has its dot: at the stem's end.
      assert p.outputPath[|stem|] == '_';
      if '.' in stripped {
        assert |stem| == j && h[j] == '.';
      } else {
        assert |stem| == i && h[i] == '.';
      }
    }
  }
}
