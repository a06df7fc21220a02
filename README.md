# pythonfixer: a verified model of the fix pipeline

pythonfixer is a Streamlit page. It takes an uploaded Python script and
runs it with a 60-second timeout, capturing its output in a log. It then
judges the run: the run succeeded if the exit status is 0 and the
lower-cased log contains neither "error" nor "traceback". If the run failed,
the page asks a language-model backend to fix the script. The fix is either
the agents framework's `Runner.run` or a direct `gpt-4o` chat completion. The
page removes a markdown fence from the reply, saves the result next to the
original as `<base>_v<N><ext>` and runs that once.

This project models that core on an abstract disk, `Files.FileSystem`. The
disk is a map from path to text, and every operation takes it and returns
the new disk:

- `LogInspector`: the log inspector.
- `Versioner`: the versioner, with its POSIX `os.path.splitext`.
- `Runner`: the runner's status contract.
- `FixRequester`: the fix requester (prompt, backend choice, fence cleanup,
  write).
- `Pipeline`: the run → fix → rerun flow of the page.
- `Text`: the string operations of Python that the core relies on:
  - `in` is tied to an occurrence-at-some-index reading (`Text.ContainsIff`).
  - `str.strip` is tied to a trimmed-middle reading, which it is the only
    solution of (`Text.StripSpec`).
  - `str.startswith`/`endswith` are tied to "is a prefix/suffix followed or
    preceded by something" (`Text.StartsWithIff`, `Text.EndsWithIff`).
  - `str.rfind` states the last index in its own contract.
  - `str(int)` is shown to spell its number in decimal (`Text.StrValue`).
  - `str.lower` has no reference definition. `Text.Lower` lowers only the
    characters the marker test can see; "## Left out" gives the argument
    why that is exact for the marker test.

Some things are parameters of the model:

- The outcome of a script run is a `Runner.ProcessOutcome`: exited with a
  code and output, timed out with partial output, or failed to launch.
- What each backend call does is a function from the prompt to a
  `FixRequester.CallOutcome`: a reply text, or an exception.
- Whether the agents framework imported (`AGENTS_SUCCESS`) and whether the
  handle has a `name` attribute are booleans.

The model follows the code, with one exception: the broken fallback at
line 118, described under "## Findings". There, `FixRequester.RequestFix`,
and so `FixRequester.FixBrokenScript`, `Pipeline.FixAndRetest` and
`Pipeline.RunFixPipeline`, use the corrected `FixRequester.Dispatch`. The
code as written is `FixRequester.DispatchAsWritten`.

Three behaviours of the code are easy to misread:

- **Version numbering.** The page says originals are backed up before
  modification (line 248). One could expect a `_v2` copy of the original
  and the fix in `_v3`. The code creates one new file.
  `backup_and_version_script` copies the script to the first free `_vN`
  path and returns it. Line 150 then overwrites that same file with the
  cleaned reply. `FixRequester.FixBrokenScript` states the net effect: one
  new path, holding the fix. `Pipeline.FirstFixGoesToV2` shows that on a
  clean disk this path is `temp_uploaded_script_v2.py`.
- **Unfenced replies.** A reply without fences is not written unchanged.
  The code always calls `.strip()` before writing
  (`FixRequester.CleanFixUnfenced`).
- **The failure status.** `run_script` returns -1 after a timeout or a
  failed launch. -1 is also the real return code of a child killed by
  SIGHUP. `Runner.RunStatus` returns the exit code as is, so the two are not
  told apart, in the model as in the code.

## Model

| member | source | states |
|---|---|---|
| Files.ReadOr | pythonfixerv1.py:293-296 | reading the log gives the file's text if the file exists, otherwise the empty default |
| Text.Lower | pythonfixerv1.py:81 | lowers A–Z and U+212A and keeps every other character; that this is exact for the marker test rests on the letter-case argument under "## Left out" |
| Text.Contains | pythonfixerv1.py:82 | Python's `sub in s`; specified by `Text.ContainsIff` |
| Text.ContainsIff | pythonfixerv1.py:82 | `sub in s` holds exactly when `sub` occurs in `s` at some index |
| Text.StartsWithIff | pythonfixerv1.py:142-144 | `s.startswith(p)` holds exactly when `s` is `p` followed by some text |
| Text.EndsWith | pythonfixerv1.py:146 | Python's `s.endswith(p)`; specified by `Text.EndsWithIff` |
| Text.EndsWithIff | pythonfixerv1.py:146 | `s.endswith(p)` holds exactly when `s` is some text followed by `p` |
| Text.IsSpace | pythonfixerv1.py:151 | the characters `str.strip()` removes: exactly those for which Python's `str.isspace()` holds |
| Text.Strip | pythonfixerv1.py:151 | Python's `str.strip()` with no argument; specified by `Text.StripSpec` |
| Text.StripLeftSpec | pythonfixerv1.py:151 | the left strip removes a prefix made only of whitespace, and what remains starts with a non-whitespace character or is empty |
| Text.StripRightSpec | pythonfixerv1.py:151 | the right strip removes a suffix made only of whitespace, and what remains ends with a non-whitespace character or is empty |
| Text.StripSpec | pythonfixerv1.py:151 | `strip()` returns the one slice of the input that has only whitespace around it and no whitespace at either end |
| Text.StripIdempotent | pythonfixerv1.py:151 | stripping twice gives the same as stripping once |
| Text.StripPadded | pythonfixerv1.py:151 | whitespace added at either end of a text does not change its strip |
| Text.StripUnpadded | pythonfixerv1.py:151 | a text with no whitespace at either end is its own strip |
| Text.RFind | pythonfixerv1.py:86 | the index found holds the character and no later index does; -1 means the character does not occur |
| Text.Str | pythonfixerv1.py:89 | Python's `str(n)`: at least one character, all decimal digits; pinned to the one canonical numeral by `Text.StrValue` and `Text.StrCanonical` |
| Text.StrCanonical | pythonfixerv1.py:89 | `str(n)` is "0" for zero and has no leading zero otherwise |
| Text.StrValue | pythonfixerv1.py:89 | the digits `str(n)` produces denote `n` |
| Text.StrInjective | pythonfixerv1.py:89 | different numbers have different decimal renderings |
| LogInspector.HasErrorMarkers | pythonfixerv1.py:81-82 | the lower-case-then-`in` marker test; specified by `LogInspector.HasErrorMarkersIff` |
| LogInspector.MonitorLogForErrors | pythonfixerv1.py:77-82 | `monitor_log_for_errors` on a disk; specified by `LogInspector.MonitorLogForErrorsSpec` |
| LogInspector.HasErrorMarkersIff | pythonfixerv1.py:81-82 | the marker test holds exactly when some position of the log starts "error" or "traceback" in any mix of letter case |
| LogInspector.MonitorLogForErrorsSpec | pythonfixerv1.py:77-82 | a missing log is never errored; an existing log is errored exactly when a marker occurs in it, ignoring case |
| LogInspector.MarkersIgnoreCase | pythonfixerv1.py:81 | two logs that differ only in letter case get the same classification |
| LogInspector.ErrorPrefixIsErrored | pythonfixerv1.py:82 | any log that starts with "Error" in any case is errored |
| Versioner.SplitExt | pythonfixerv1.py:86 | base followed by extension gives back the path |
| Versioner.SplitExtSpec | pythonfixerv1.py:86 | the extension is non-empty exactly when the path has an extension dot (the last dot, in the last component, after some non-dot character of it); the split is at that dot and the extension starts with it |
| Versioner.VersionedPath | pythonfixerv1.py:89 | `f"{base}_v{i}{ext}"`; specified by `Versioner.VersionedPathInjective` and, for the upload, `Pipeline.UploadVersionedPath` |
| Versioner.VersionedPathInjective | pythonfixerv1.py:89 | different indices give different versioned paths of the same script |
| Versioner.NextVersionIsFresh | pythonfixerv1.py:88-92 | the path the search settles on is non-empty and does not exist yet |
| Versioner.FirstFreeUnique | pythonfixerv1.py:87-93 | the search from index 2 settles on exactly one index |
| Versioner.SuccessiveVersionsIncrease | pythonfixerv1.py:85-93 | versioning again after a backup picks a strictly larger index and so a different path |
| Versioner.BackupAndVersionScript | pythonfixerv1.py:85-93 | for an existing script: the result is the first free `_vN` path with N counted from 2, that path gets a copy of the script, and nothing else changes; for a missing script nothing is written and there is no result |
| Runner.RunStatus | pythonfixerv1.py:169-178 | the status is the exit code after a normal exit, and -1 after a timeout or a failed launch |
| Runner.FinalLog | pythonfixerv1.py:162-177 | the log holds the run's combined output, or "Error running script: " followed by the launch error |
| Runner.LaunchFailureLogIsErrored | pythonfixerv1.py:175-177 | the log written after a failed launch is always classified as errored |
| Runner.RunScript | pythonfixerv1.py:160-178 | the log path gets the final log and no other path changes; the status follows the outcome; the success verdict holds exactly for a zero exit with a clean log |
| Runner.FailedRunNeverSucceeds | pythonfixerv1.py:169-178 | a timeout or a failed launch never counts as success, whatever the log holds |
| Runner.RunSucceeded | pythonfixerv1.py:288 | the page's verdict on a status and a log: status 0 and no marker; `Runner.RunScript` proves it holds exactly for a clean run |
| Runner.CleanRun | pythonfixerv1.py:329 | the same verdict on a run outcome; specified by `Runner.CleanRunIff` |
| Runner.CleanRunIff | pythonfixerv1.py:288 | success needs both a zero status and a log without markers |
| FixRequester.Prompt | pythonfixerv1.py:100-106 | the prompt is the instruction, then the whole script, then the log heading and the whole log |
| FixRequester.DirectAttempt | pythonfixerv1.py:131-139 | the direct call is made once; it gives the reply stripped, or no reply when it raises |
| FixRequester.Dispatch | pythonfixerv1.py:110-139 | the agent runs exactly when the framework loaded and the handle has a name; the direct call is made exactly when the agent was not chosen or raised; an agent reply is kept as is and a direct reply is stripped |
| FixRequester.DispatchFallbackIsMandatory | pythonfixerv1.py:112-127 | no reply comes back exactly when the direct call was made and raised |
| FixRequester.DirectClientNameBound | pythonfixerv1.py:38-39 | `AsyncOpenAI` is bound exactly when the agents framework did not load |
| FixRequester.DispatchAsWritten | pythonfixerv1.py:110-139 | as written, the agent runs exactly when the framework loaded and the handle has a name; a failed agent run gives no reply and no direct call; in every other case it agrees with the corrected `FixRequester.Dispatch` |
| FixRequester.FallbackNeverRunsAsWritten | pythonfixerv1.py:115-118 | as written, a failed agent run yields no reply even when the direct call would answer; the corrected dispatch returns that answer |
| FixRequester.RequestFix | pythonfixerv1.py:100-139 | the corrected dispatch applied to the prompt built from the script and the log; specified by `FixRequester.Prompt` and `FixRequester.Dispatch` |
| FixRequester.StripLeadingFence | pythonfixerv1.py:142-145 | drops exactly 9 characters when the reply starts with the tagged fence, exactly 3 when it starts only with a bare fence, and nothing otherwise |
| FixRequester.StripTrailingFence | pythonfixerv1.py:146-147 | drops exactly the 3 characters of a trailing fence, and nothing when there is none |
| FixRequester.CleanFix | pythonfixerv1.py:141-151 | the text written for a reply: one leading fence and one trailing fence removed, then trimmed; specified by the `CleanFix…` lemmas |
| FixRequester.CleanFixTaggedFence | pythonfixerv1.py:141-151 | a body between the tagged fence and a closing fence is written trimmed |
| FixRequester.CleanFixBareFence | pythonfixerv1.py:141-151 | a body between two bare fences is written trimmed, unless it starts with "python" |
| FixRequester.CleanFixFencedBlock | pythonfixerv1.py:141-151 | the tagged fence, a newline, code, a newline and a closing fence give back exactly the code |
| FixRequester.CleanFixUnfenced | pythonfixerv1.py:141-151 | a reply with no fence at either end is only trimmed |
| FixRequester.CleanFixRemovesOneFence | pythonfixerv1.py:142-147 | only one leading fence is removed |
| FixRequester.FixBrokenScript | pythonfixerv1.py:96-157 | the calls are those of the dispatch on the prompt; with no reply the result is "" and the disk is unchanged; otherwise the result is the script's first free versioned path, which now holds the cleaned reply, and nothing else changes (the script itself included); built on the corrected dispatch of "## Findings" |
| Pipeline.AfterFirstRun | pythonfixerv1.py:257-274 | the disk after the upload is saved and run once: the upload path holds the upload and the log path holds the first run's final log |
| Pipeline.FixAndRetest | pythonfixerv1.py:293-335 | after a failed first run, the calls are those of one fix request on the upload and its log; with no reply nothing changes and there is no retest; with a reply the upload's next version holds the cleaned reply, it alone is rerun, and the verdict is "operational" exactly when that rerun is clean; built on the corrected dispatch of "## Findings" |
| Pipeline.RunFixPipeline | pythonfixerv1.py:257-335 | the upload is saved and run; it ends "ran clean" exactly when that run is clean, and only then makes no call; otherwise one fix is requested; with no reply it ends without a second run; with a reply the fixed path is the upload's next version holding the cleaned reply, it is run once, and it ends "operational" exactly when that run is clean; the upload is never changed; built on the corrected dispatch of "## Findings" |
| Pipeline.UploadVersionedPath | pythonfixerv1.py:257 | the versioned paths of the upload are `temp_uploaded_script_v<N>.py` |
| Pipeline.FirstFixGoesToV2 | pythonfixerv1.py:87-92 | on a disk with no `temp_uploaded_script_v2.py`, the fixed upload goes there |

## Left out

- Letter case: `Text.Lower` maps only A–Z and U+212A KELVIN SIGN and leaves
  other characters alone. Python's `str.lower` changes many non-ASCII
  characters, but the marker test does not depend on them. Apart from A–Z,
  the only characters whose lower case holds an ASCII letter are U+212A (to
  "k") and U+0130 (to "i" plus a combining dot). Neither "i" nor the
  combining dot is in "error" or "traceback", so the marker test agrees
  with Python's for every log.
- Encodings and newlines: the disk holds text. The upload is written as
  raw bytes (line 258) and read back with the default encoding (line 97).
  Logs are read as UTF-8 with undecodable bytes dropped (lines 80, 279,
  295). Text-mode reads also turn "\r\n" and "\r" into "\n", so for an
  upload with CRLF line ends the prompt holds the translated code, not the
  bytes at `fs[scriptPath]`. Neither decoding nor newline translation is
  modelled.
- Process execution: `subprocess.Popen`, the interpreter, stdout/stderr
  merging, the 60-second timer and the kill are the `Runner.ProcessOutcome`
  input. Files the script under test writes itself are not modelled.
- Runner.RunScript: an exception while opening the log for the run is folded
  into `LaunchFailed`. A failure of the second write at line 176, which
  would propagate, is not modelled.
- `create_agent` (lines 48-74), the import probing (lines 12-39) and the
  environment variable write: the model takes their results as inputs, the
  `agentsLoaded` flag and the `Backend` handle.
- Backend requests: model name, system message and temperature (lines
  119-126, 131-138) are not modelled.
- Reply shape: the agent's `final_output` is taken to be a string.
- FixRequester.FixBrokenScript: built on the corrected dispatch. As
  written, when the agents framework loaded, the handle has a `name` and
  `Runner.run` raises, line 118 raises `NameError`. Line 155 then returns
  "" and nothing is written. The model instead makes the direct call and
  may write a fix (`FixRequester.FallbackNeverRunsAsWritten`).
- Pipeline.FixAndRetest: built on the corrected dispatch. In the case
  above the code as written ends with "Failed to generate fixed script"
  (line 335) and runs nothing more; the model may write and rerun a fix.
- Pipeline.RunFixPipeline: built on the corrected dispatch, with the same
  difference as `Pipeline.FixAndRetest`.
- FixRequester.FixBrokenScript requires that the script exists. The read at
  line 97 is outside the `try`, so for a missing script the exception
  reaches the caller. The page always writes the upload first.
- FixRequester.FixBrokenScript: a failing copy or write inside the `try`
  (disk full, permissions) would also return "". Writes are not modelled as
  failing.
- Versioner.BackupAndVersionScript: a missing script makes `shutil.copy`
  raise. The model returns `None` and writes nothing.
- The page itself: the Streamlit widgets, the spinners, the display of the
  last 30 log lines, the download button, and the removal of the upload at
  the end (lines 355-357) are not modelled.
- Cleanup and concurrency: two sessions sharing `temp_uploaded_script.py`
  and `agent_log.txt` are not modelled.
- The same import guard breaks the fallback at line 71 in `create_agent`.
  It is not modelled, because `create_agent` is outside the model.

## Findings

| source | as written | input that shows it | evidently intended | confidence | as-written member | corrected member |
|---|---|---|---|---|---|---|
| pythonfixerv1.py:118 | the fallback after a failed agent run constructs `AsyncOpenAI`, but only the import at lines 38-39 binds that name, and that import runs only when the agents framework failed to load; the fallback is reached only when it loaded, so it always raises `NameError`, and line 155 turns that into "" | agents framework loaded, handle with a `name`, `Runner.run` raises, direct completion would reply | the direct completion answers and its stripped reply is used, as the comment at line 117 says | high; not executed | FixRequester.FallbackNeverRunsAsWritten | FixRequester.Dispatch |
