/** Where the 16 kHz mono conversion is written, which file is sent to the
    recogniser, and which file is removed afterwards. Paths are POSIX
    paths: `/` separates components and `.` introduces an extension. */
module TempFiles {
  import opened Wrappers

  /** The suffix that replaces the input's extension. */
  const TempSuffix: string := "_temp_16k.wav"

  /** `str.rfind` of one character: the last index holding `c`, or -1. */
  function RFind(s: string, c: char): (r: int)
    ensures -1 <= r < |s|
    ensures r >= 0 ==> s[r] == c
    ensures forall k :: r < k < |s| ==> s[k] != c
  {
    if s == [] then -1
    else if s[|s| - 1] == c then |s| - 1
    else RFind(s[..|s| - 1], c)
  }

  /** The last component holds a dot with a character other than a dot
      somewhere before it. */
  predicate HasExtension(p: string) {
    exists i, j :: RFind(p, '/') < i < j < |p| && p[i] != '.' && p[j] == '.'
  }

  /** `os.path.splitext` on a POSIX path: the extension starts at the last
      dot of the last component, unless everything between the component's
      start and that dot is dots too (a hidden file such as `.bashrc` has no
      extension). */
  function SplitExt(p: string): (parts: (string, string))
    ensures parts.0 + parts.1 == p
    ensures parts.1 == [] || (parts.1[0] == '.' && forall k :: 0 <= k < |parts.1| ==> parts.1[k] != '/')
    ensures forall k :: 0 < k < |parts.1| ==> parts.1[k] != '.'
  {
    var sepIndex := RFind(p, '/');
    var dotIndex := RFind(p, '.');
    if dotIndex > sepIndex && exists k :: sepIndex + 1 <= k < dotIndex && p[k] != '.' then
      (p[..dotIndex], p[dotIndex..])
    else
      (p, [])
  }

  /** `splitext(path)[0] + "_temp_16k.wav"`. */
  function TempPath(path: string): string {
    SplitExt(path).0 + TempSuffix
  }

  /** An extension is split off exactly when the last component has a
      dot with a non-dot character before it. */
  lemma SplitExtFindsExtension(p: string)
    ensures SplitExt(p).1 != [] <==> HasExtension(p)
  {
    var sepIndex, dotIndex := RFind(p, '/'), RFind(p, '.');
    if HasExtension(p) {
      var i, j :| sepIndex < i < j < |p| && p[i] != '.' && p[j] == '.';
      assert dotIndex >= j;
      assert sepIndex + 1 <= i < dotIndex && p[i] != '.';
    }
  }

  /** The temporary path is the input with its extension, if it has one,
      replaced by the suffix. */
  lemma TempPathReplacesExtension(path: string)
    ensures var r := TempPath(path);
      && |r| >= |TempSuffix| && r[|r| - |TempSuffix|..] == TempSuffix
      && r[..|r| - |TempSuffix|] <= path
      && (r[..|r| - |TempSuffix|] == path <==> !HasExtension(path))
  {
    SplitExtFindsExtension(path);
    var r := TempPath(path);
    assert r[..|r| - |TempSuffix|] == SplitExt(path).0;
  }

  /** The conversion never overwrites its own input: no extension equals
      the suffix, which starts with `_`, not `.`. */
  lemma TempPathDiffers(path: string)
    ensures TempPath(path) != path
  {
    var (root, ext) := SplitExt(path);
    assert TempPath(path)[|root|] == '_';
    if ext == [] {
      assert |TempPath(path)| > |path|;
    } else {
      assert path[|root|] == '.';
    }
  }

  /** The extension, and only the extension, is replaced: a dot in a
      directory name or a leading dot of a hidden file is kept. */
  lemma TempPathOfMediaFile()
    ensures TempPath("uploads/talk.mp4") == "uploads/talk_temp_16k.wav"
  {
    var p := "uploads/talk.mp4";
    RFindAt(p, '.', 12);
    RFindAt(p, '/', 7);
    SplitsAt(p, 8);
    assert p[..12] == "uploads/talk";
  }

  lemma TempPathOfDoubleExtension()
    ensures TempPath("clip.tar.gz") == "clip.tar_temp_16k.wav"
  {
    var p := "clip.tar.gz";
    RFindAt(p, '.', 8);
    assert RFind(p, '/') == -1;
    SplitsAt(p, 0);
    assert p[..8] == "clip.tar";
  }

  lemma TempPathOfDottedDirectory()
    ensures TempPath("v1.2/clip") == "v1.2/clip_temp_16k.wav"
  {
    var p := "v1.2/clip";
    RFindAt(p, '.', 2);
    RFindAt(p, '/', 4);
    NoExtension(p);
  }

  lemma TempPathOfHiddenFile()
    ensures TempPath("dir/.hidden") == "dir/.hidden_temp_16k.wav"
  {
    var p := "dir/.hidden";
    RFindAt(p, '.', 4);
    RFindAt(p, '/', 3);
    NoExtension(p);
  }

  /** A non-dot character between the last `/` and the last dot makes
      the last dot start the extension. */
  lemma SplitsAt(p: string, k: int)
    requires RFind(p, '/') < k < RFind(p, '.') && p[k] != '.'
    ensures TempPath(p) == p[..RFind(p, '.')] + TempSuffix
  {
  }

  /** Only dots between the last `/` and the last dot: no extension. */
  lemma NoExtension(p: string)
    requires forall k :: RFind(p, '/') < k < RFind(p, '.') ==> p[k] == '.'
    ensures TempPath(p) == p + TempSuffix
  {
  }

  lemma RFindAt(s: string, c: char, i: nat)
    requires i < |s| && s[i] == c
    requires forall k :: i < k < |s| ==> s[k] != c
    ensures RFind(s, c) == i
  {
  }

  /** `audio_source` after the conversion step: the converted file when the
      transcoder succeeded, the original otherwise. */
  function AudioSource(path: string, converted: bool): (r: string)
    ensures r == TempPath(path) <==> converted
    ensures r == path <==> !converted
  {
    TempPathDiffers(path);
    if converted then TempPath(path) else path
  }

  /** The file the `finally` clause removes: the temporary path, when it
      is non-empty, exists and differs from the input path. */
  function CleanupTarget(path: string, tempExists: bool): (r: Option<string>)
    ensures r.Some? ==> r.value == TempPath(path) && r.value != path
  {
    var tempWav := TempPath(path);
    if tempWav != [] && tempExists && tempWav != path then Some(tempWav) else None
  }

  /** Cleanup removes the temporary file whenever it exists and never
      the original input. */
  lemma CleanupRemovesOnlyTemp(path: string, tempExists: bool)
    ensures CleanupTarget(path, tempExists).Some? <==> tempExists
    ensures CleanupTarget(path, tempExists) != Some(path)
  {
    TempPathDiffers(path);
  }
}
