/**
 * The backup/versioner (`backup_and_version_script`): split the script's
 * path into base and extension the way `os.path.splitext` does on POSIX,
 * probe `base_v2ext`, `base_v3ext`, ... until one does not exist, and copy
 * the script there.
 */
module Versioner {
  import opened Files
  import opened Text

  const PathSep: char := '/'
  const ExtSep: char := '.'

  // ---------------------------------------------------------------------
  // os.path.splitext
  // ---------------------------------------------------------------------

  /** Some character of `p[lo..hi]` is not a dot. */
  predicate HasNonDot(p: Path, lo: int, hi: int)
    requires 0 <= lo <= hi <= |p|
  {
    exists k :: lo <= k < hi && p[k] != ExtSep
  }

  /**
   * `os.path.splitext(p)`: the extension starts at the last dot, provided
   * that dot lies in the final path component and is preceded, within that
   * component, by some character that is not a dot; otherwise there is no
   * extension.
   */
  function SplitExt(p: Path): (r: (Path, string))
    ensures r.0 + r.1 == p
  {
    var sepIndex := RFind(p, PathSep);
    var dotIndex := RFind(p, ExtSep);
    if dotIndex > sepIndex && HasNonDot(p, sepIndex + 1, dotIndex) then
      (p[..dotIndex], p[dotIndex..])
    else
      (p, "")
  }

  /**
   * Reference reading of an extension: the dot at `d` is the last dot of
   * `p`, no separator follows it, and the final component has a character
   * other than a dot before it (so leading dots of a name do not count).
   */
  ghost predicate ExtensionDotAt(p: Path, d: int) {
    && 0 <= d < |p| && p[d] == ExtSep
    && (forall k :: d < k < |p| ==> p[k] != ExtSep && p[k] != PathSep)
    && exists j :: 0 <= j < d && p[j] != ExtSep && forall k :: j <= k < d ==> p[k] != PathSep
  }

  /** `SplitExt` finds an extension exactly when one exists, and splits at its dot. */
  lemma SplitExtSpec(p: Path)
    ensures SplitExt(p).1 != [] <==> exists d :: ExtensionDotAt(p, d)
    ensures SplitExt(p).1 != [] ==> ExtensionDotAt(p, |SplitExt(p).0|)
    ensures SplitExt(p).1 != [] ==> SplitExt(p).1[0] == ExtSep
  {
    var sepIndex := RFind(p, PathSep);
    var dotIndex := RFind(p, ExtSep);
    forall d | ExtensionDotAt(p, d)
      ensures d == dotIndex && dotIndex > sepIndex && HasNonDot(p, sepIndex + 1, dotIndex)
    {
      var j :| 0 <= j < d && p[j] != ExtSep && forall k :: j <= k < d ==> p[k] != PathSep;
      assert p[j] != PathSep;
      assert sepIndex < j;
      assert sepIndex + 1 <= j < dotIndex && p[j] != ExtSep;
    }
    if dotIndex > sepIndex && HasNonDot(p, sepIndex + 1, dotIndex) {
      var j :| sepIndex + 1 <= j < dotIndex && p[j] != ExtSep;
      assert ExtensionDotAt(p, dotIndex);
    }
  }

  // ---------------------------------------------------------------------
  // Versioned paths
  // ---------------------------------------------------------------------

  /** `f"{base}_v{i}{ext}"` where `base, ext = os.path.splitext(p)`. */
  function VersionedPath(p: Path, i: nat): Path {
    SplitExt(p).0 + "_v" + Str(i) + SplitExt(p).1
  }

  /** Different indices give different versioned paths. */
  lemma VersionedPathInjective(p: Path, i: nat, j: nat)
    requires VersionedPath(p, i) == VersionedPath(p, j)
    ensures i == j
  {
    var base, ext := SplitExt(p).0, SplitExt(p).1;
    var s, t := VersionedPath(p, i), VersionedPath(p, j);
    assert |Str(i)| == |Str(j)|;
    assert s[|base| + 2..|base| + 2 + |Str(i)|] == Str(i);
    assert t[|base| + 2..|base| + 2 + |Str(j)|] == Str(j);
    StrInjective(i, j);
  }

  /**
   * `i` is the index the search settles on: `_v{i}` is free and every
   * index from 2 below it is taken.
   */
  ghost predicate IsFirstFree(fs: FileSystem, p: Path, i: nat) {
    && i >= 2
    && VersionedPath(p, i) !in fs
    && forall j :: 2 <= j < i ==> VersionedPath(p, j) in fs
  }

  /** `v` is the versioned path the search for `p` returns on `fs`. */
  ghost predicate IsNextVersion(fs: FileSystem, p: Path, v: Path) {
    exists i :: IsFirstFree(fs, p, i) && v == VersionedPath(p, i)
  }

  /** The path the search returns is a real, fresh path. */
  lemma NextVersionIsFresh(fs: FileSystem, p: Path, v: Path)
    requires IsNextVersion(fs, p, v)
    ensures v != [] && v !in fs
  {
    var i :| IsFirstFree(fs, p, i) && v == VersionedPath(p, i);
    assert |v| >= 2;
  }

  /** The search has one answer. */
  lemma FirstFreeUnique(fs: FileSystem, p: Path, i: nat, j: nat)
    requires IsFirstFree(fs, p, i) && IsFirstFree(fs, p, j)
    ensures i == j
  {
  }

  /**
   * Versioning twice in a row (the second search runs on the filesystem the
   * first one wrote) settles on a strictly larger index, hence on a
   * different path.
   */
  lemma SuccessiveVersionsIncrease(fs: FileSystem, p: Path, i: nat, content: string, j: nat)
    requires IsFirstFree(fs, p, i)
    requires IsFirstFree(fs[VersionedPath(p, i) := content], p, j)
    ensures j > i
    ensures VersionedPath(p, j) != VersionedPath(p, i)
  {
    assert VersionedPath(p, i) in fs[VersionedPath(p, i) := content];
  }

  /** The paths probed (and found taken) before index `i`. */
  ghost function Probed(p: Path, i: nat): set<Path> {
    set j | 2 <= j < i :: VersionedPath(p, j)
  }

  lemma ProbedStep(p: Path, i: nat)
    requires i >= 2
    ensures VersionedPath(p, i) !in Probed(p, i)
    ensures Probed(p, i + 1) == Probed(p, i) + {VersionedPath(p, i)}
  {
    forall j | 2 <= j < i
      ensures VersionedPath(p, j) != VersionedPath(p, i)
    {
      if VersionedPath(p, j) == VersionedPath(p, i) {
        VersionedPathInjective(p, j, i);
      }
    }
  }

  /**
   * `backup_and_version_script(script_path)`. A missing script makes the
   * copy raise after the search; that is `None`, with nothing written.
   * Otherwise the result is the first free versioned path, which now holds
   * a copy of the script, and no other path changes.
   */
  method BackupAndVersionScript(fs: FileSystem, scriptPath: Path)
    returns (fs': FileSystem, versioned: Option<Path>)
    ensures scriptPath !in fs ==> versioned == None && fs' == fs
    ensures scriptPath in fs ==>
      && versioned.Some?
      && IsNextVersion(fs, scriptPath, versioned.value)
      && fs' == fs[versioned.value := fs[scriptPath]]
  {
    var i := 2;
    while VersionedPath(scriptPath, i) in fs
      invariant i >= 2
      invariant forall j :: 2 <= j < i ==> VersionedPath(scriptPath, j) in fs
      invariant Probed(scriptPath, i) <= fs.Keys
      decreases |fs.Keys - Probed(scriptPath, i)|
    {
      ProbedStep(scriptPath, i);
      ghost var left := fs.Keys - Probed(scriptPath, i);
      assert fs.Keys - Probed(scriptPath, i + 1) == left - {VersionedPath(scriptPath, i)};
      i := i + 1;
    }
    var path := VersionedPath(scriptPath, i);
    assert IsFirstFree(fs, scriptPath, i);
    if scriptPath in fs {
      fs' := fs[path := fs[scriptPath]];
      versioned := Some(path);
    } else {
      fs' := fs;
      versioned := None;
    }
  }
}
