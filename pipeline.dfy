/**
 * The one-shot fix pipeline of lines 257-335: save the upload, run it,
 * judge the run, and only on failure ask for one fix, and only when a fixed
 * file was produced run and judge that one. The backend handle and the
 * outcomes of the two runs and of the completion calls are inputs.
 */
module Pipeline {
  import opened Files
  import opened Text
  import opened LogInspector
  import opened Versioner
  import opened Runner
  import opened FixRequester

  /** The fixed paths the page uses for the upload and for the log. */
  const UploadPath: Path := "temp_uploaded_script.py"
  const LogPath: Path := "agent_log.txt"

  /** Where a session ends, with the message the page shows. */
  datatype Verdict =
    | RanClean                     // "Script ran successfully with no errors."
    | FixedAndClean(path: Path)    // "Fixed script is now 100% operational!"
    | FixStillFailing(path: Path)  // "Fix attempt failed. Manual debugging recommended."
    | NoFixProduced                // "Failed to generate fixed script. Please try again."

  /** The disk after the upload is saved and run once. */
  function AfterFirstRun(fs: FileSystem, upload: string, firstRun: ProcessOutcome): FileSystem {
    fs[UploadPath := upload][LogPath := FinalLog(firstRun)]
  }

  /**
   * Lines 293-335, after a failed first run on `fs1`: read the log, ask for
   * one fix of the upload, and run the fixed script only when a path came
   * back and exists.
   */
  method FixAndRetest(fs1: FileSystem, agentsLoaded: bool, handle: Backend,
                      agentModel: string -> CallOutcome, directModel: string -> CallOutcome,
                      secondRun: ProcessOutcome)
    returns (fs': FileSystem, verdict: Verdict, calls: seq<Call>, retested: Option<Path>)
    requires UploadPath in fs1 && LogPath in fs1
    ensures var d := RequestFix(agentsLoaded, handle, fs1[UploadPath], fs1[LogPath], agentModel, directModel);
      && calls == d.calls
      && !verdict.RanClean?
      && (d.reply.None? ==> verdict == NoFixProduced && retested == None && fs' == fs1)
      && (d.reply.Some? ==>
            && (verdict.FixedAndClean? || verdict.FixStillFailing?)
            && retested == Some(verdict.path)
            && IsNextVersion(fs1, UploadPath, verdict.path)
            && verdict.path != UploadPath
            && fs' == fs1[verdict.path := CleanFix(d.reply.value)][LogPath := FinalLog(secondRun)]
            && (verdict.FixedAndClean? <==> CleanRun(secondRun)))
  {
    var logContent := ReadOr(fs1, LogPath, "");
    var fixedPath;
    fs', fixedPath, calls := FixBrokenScript(fs1, agentsLoaded, handle, UploadPath, logContent,
                                             agentModel, directModel);
    if fixedPath != "" && fixedPath in fs' {
      var result;
      fs', result := RunScript(fs', fixedPath, LogPath, secondRun);
      retested := Some(fixedPath);
      if result == 0 && !MonitorLogForErrors(fs', LogPath) {
        verdict := FixedAndClean(fixedPath);
      } else {
        verdict := FixStillFailing(fixedPath);
      }
    } else {
      verdict, retested := NoFixProduced, None;
    }
  }

  /**
   * A session. `calls` lists the completion calls made and `runs` the
   * scripts launched, in order. The fix is requested only when the first
   * run failed, at most once; the fixed script is run only when a path came
   * back; the uploaded script itself is never changed.
   */
  method RunFixPipeline(fs: FileSystem, upload: string, agentsLoaded: bool, handle: Backend,
                        firstRun: ProcessOutcome, agentModel: string -> CallOutcome,
                        directModel: string -> CallOutcome, secondRun: ProcessOutcome)
    returns (fs': FileSystem, verdict: Verdict, calls: seq<Call>, runs: seq<Path>)
    ensures UploadPath in fs' && fs'[UploadPath] == upload
    ensures verdict.RanClean? <==> CleanRun(firstRun)
    ensures verdict.RanClean? <==> calls == []
    ensures CleanRun(firstRun) ==>
      runs == [UploadPath] && fs' == AfterFirstRun(fs, upload, firstRun)
    ensures !CleanRun(firstRun) ==>
      var fs1 := AfterFirstRun(fs, upload, firstRun);
      var d := RequestFix(agentsLoaded, handle, upload, FinalLog(firstRun), agentModel, directModel);
      && calls == d.calls
      && (d.reply.None? ==> verdict == NoFixProduced && runs == [UploadPath] && fs' == fs1)
      && (d.reply.Some? ==>
            && (verdict.FixedAndClean? || verdict.FixStillFailing?)
            && runs == [UploadPath, verdict.path]
            && IsNextVersion(fs1, UploadPath, verdict.path)
            && fs' == fs1[verdict.path := CleanFix(d.reply.value)][LogPath := FinalLog(secondRun)]
            && (verdict.FixedAndClean? <==> CleanRun(secondRun)))
  {
    assert |UploadPath| != |LogPath|;
    var status;
    fs', status := RunScript(fs[UploadPath := upload], UploadPath, LogPath, firstRun);
    runs := [UploadPath];
    if status == 0 && !MonitorLogForErrors(fs', LogPath) {
      verdict, calls := RanClean, [];
      return;
    }
    assert fs' == AfterFirstRun(fs, upload, firstRun);
    assert fs'[UploadPath] == upload && fs'[LogPath] == FinalLog(firstRun);
    var retested;
    fs', verdict, calls, retested := FixAndRetest(fs', agentsLoaded, handle, agentModel, directModel,
                                                  secondRun);
    if retested.Some? {
      runs := [UploadPath, retested.value];
    }
  }

  /** The upload's base and extension, as `os.path.splitext` gives them. */
  lemma UploadVersionedPath(i: nat)
    ensures VersionedPath(UploadPath, i) == "temp_uploaded_script_v" + Str(i) + ".py"
  {
    var p := UploadPath;
    assert forall k :: 0 <= k < |p| ==> p[k] != PathSep;
    assert p[20] == ExtSep && forall k :: 20 < k < |p| ==> p[k] != ExtSep;
    assert RFind(p, PathSep) == -1;
    assert RFind(p, ExtSep) == 20;
    assert p[0] != ExtSep;
    assert HasNonDot(p, 0, 20);
  }

  /**
   * On a disk with no earlier version of the upload, the fix lands in
   * `temp_uploaded_script_v2.py`: the one new file, holding the fix (the
   * copy made there first is overwritten).
   */
  lemma FirstFixGoesToV2(fs: FileSystem, v: Path)
    requires "temp_uploaded_script_v2.py" !in fs
    requires IsNextVersion(fs, UploadPath, v)
    ensures v == "temp_uploaded_script_v2.py"
  {
    var i :| IsFirstFree(fs, UploadPath, i) && v == VersionedPath(UploadPath, i);
    UploadVersionedPath(2);
    assert DigitChar(2) == '2';
    assert Str(2) == "2";
    assert VersionedPath(UploadPath, 2) == "temp_uploaded_script_v2.py";
    assert IsFirstFree(fs, UploadPath, 2);
    FirstFreeUnique(fs, UploadPath, i, 2);
  }
}
