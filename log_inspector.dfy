/**
 * The log inspector (`monitor_log_for_errors`): a log is "errored" when it
 * exists and its lower-cased text contains "error" or "traceback".
 */
module LogInspector {
  import opened Files
  import opened Text

  const ErrorMarker: string := "error"
  const TracebackMarker: string := "traceback"

  /** The marker test applied to the text of a log. */
  predicate HasErrorMarkers(content: string) {
    Contains(Lower(content), ErrorMarker) || Contains(Lower(content), TracebackMarker)
  }

  /** `monitor_log_for_errors(log_path)` on the filesystem `fs`. */
  predicate MonitorLogForErrors(fs: FileSystem, logPath: Path) {
    logPath in fs && HasErrorMarkers(fs[logPath])
  }

  /**
   * Reference reading of the heuristic, without lower-casing the whole log:
   * the characters of `content` from `k` on spell `marker` in some mix of
   * upper and lower case.
   */
  ghost predicate OccursUpToCase(content: string, marker: string, k: int) {
    0 <= k && k + |marker| <= |content| && Lower(content[k..k + |marker|]) == marker
  }

  ghost predicate MarkerAt(content: string, k: int) {
    OccursUpToCase(content, ErrorMarker, k) || OccursUpToCase(content, TracebackMarker, k)
  }

  lemma LowerOccurs(content: string, marker: string)
    ensures Contains(Lower(content), marker) <==> exists k :: OccursUpToCase(content, marker, k)
  {
    ContainsIff(Lower(content), marker);
    forall k | 0 <= k && k + |marker| <= |content|
      ensures OccursAt(Lower(content), marker, k) <==> OccursUpToCase(content, marker, k)
    {
      LowerSlice(content, k, k + |marker|);
    }
  }

  /** The marker test holds exactly when some position starts a marker, in any letter case. */
  lemma HasErrorMarkersIff(content: string)
    ensures HasErrorMarkers(content) <==> exists k :: MarkerAt(content, k)
  {
    LowerOccurs(content, ErrorMarker);
    LowerOccurs(content, TracebackMarker);
    if Contains(Lower(content), ErrorMarker) {
      var k :| OccursUpToCase(content, ErrorMarker, k);
      assert MarkerAt(content, k);
    } else if Contains(Lower(content), TracebackMarker) {
      var k :| OccursUpToCase(content, TracebackMarker, k);
      assert MarkerAt(content, k);
    }
  }

  /**
   * The classification: a missing log is never errored; an existing one is
   * errored exactly when some position of it starts a marker, in any case.
   */
  lemma MonitorLogForErrorsSpec(fs: FileSystem, logPath: Path)
    ensures logPath !in fs ==> !MonitorLogForErrors(fs, logPath)
    ensures logPath in fs ==>
      (MonitorLogForErrors(fs, logPath) <==> exists k :: MarkerAt(fs[logPath], k))
  {
    if logPath in fs {
      HasErrorMarkersIff(fs[logPath]);
    }
  }

  /** Two texts that differ only in letter case. */
  ghost predicate SameUpToCase(a: string, b: string) {
    |a| == |b| && forall k :: 0 <= k < |a| ==> LowerChar(a[k]) == LowerChar(b[k])
  }

  /** The classification does not depend on the letter case of the log. */
  lemma MarkersIgnoreCase(a: string, b: string)
    requires SameUpToCase(a, b)
    ensures HasErrorMarkers(a) == HasErrorMarkers(b)
  {
    assert Lower(a) == Lower(b);
  }

  /** Any text that starts with "Error" (in any case) is classified as errored. */
  lemma ErrorPrefixIsErrored(prefix: string, rest: string)
    requires Lower(prefix) == ErrorMarker
    ensures HasErrorMarkers(prefix + rest)
  {
    var s := prefix + rest;
    assert s[0..|ErrorMarker|] == prefix;
    assert OccursUpToCase(s, ErrorMarker, 0);
    HasErrorMarkersIff(s);
  }
}
