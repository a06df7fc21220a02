/**
 * The fix requester (`fix_broken_script`): build the prompt, ask a completion
 * backend for corrected code, strip a markdown fence from the reply and
 * write the result to the next versioned path of the script.
 *
 * The backends are not modelled: each call is an input function from the
 * prompt to what the call does (returns text or raises).
 */
module FixRequester {
  import opened Files
  import opened Text
  import opened Versioner

  /** What one completion call does. */
  datatype CallOutcome = Replied(text: string) | Raised

  /** The two completion calls the requester can make. */
  datatype Call =
    | AgentRun          // `Runner.run(agent, input=prompt)`
    | DirectCompletion  // `chat.completions.create(model="gpt-4o", ...)`

  /** The handle `create_agent` returned; only whether it has a `name` attribute matters. */
  datatype Backend = Backend(hasName: bool)

  /** The calls made, in order, and the reply text obtained (`None` when the last call raised). */
  datatype Dispatched = Dispatched(calls: seq<Call>, reply: Option<string>)

  // ---------------------------------------------------------------------
  // The prompt
  // ---------------------------------------------------------------------

  const PromptHead: string :=
    "Fix this Python script based on the error log. Return ONLY the corrected Python code "
    + "without any explanations or markdown formatting.\n\nORIGINAL SCRIPT:\n"

  const LogHeading: string := "\n\nERROR LOG:\n"

  /** The single prompt: the instruction, then the whole script, then the whole log. */
  function Prompt(code: string, log: string): (prompt: string)
    ensures |prompt| == |PromptHead| + |code| + |LogHeading| + |log|
    ensures PromptHead <= prompt
    ensures prompt[|PromptHead|..|PromptHead| + |code|] == code
    ensures EndsWith(prompt, LogHeading + log)
  {
    var prompt := PromptHead + code + LogHeading + log;
    assert prompt[|PromptHead|..|PromptHead| + |code|] == code;
    assert prompt[|prompt| - |LogHeading + log|..] == LogHeading + log;
    prompt
  }

  // ---------------------------------------------------------------------
  // Choosing the backend
  // ---------------------------------------------------------------------

  /** The direct completion call; its reply is `.strip()`ped (line 127 and line 139). */
  function DirectAttempt(outcome: CallOutcome): (d: Dispatched)
    ensures d.calls == [DirectCompletion]
    ensures d.reply.Some? <==> outcome.Replied?
    ensures d.reply.Some? ==> d.reply.value == Strip(outcome.text)
  {
    match outcome
    case Replied(text) => Dispatched([DirectCompletion], Some(Strip(text)))
    case Raised => Dispatched([DirectCompletion], None)
  }

  /**
   * The dispatch of lines 110-139 with the fallback working as its comment
   * says: the agent is run when the agents framework loaded and the handle
   * has a `name`; if that run raises, the direct call is made; in every
   * other case only the direct call is made.
   */
  function Dispatch(agentsLoaded: bool, handle: Backend, agent: CallOutcome, direct: CallOutcome)
    : (d: Dispatched)
    ensures d.calls == [AgentRun] || d.calls == [DirectCompletion] || d.calls == [AgentRun, DirectCompletion]
    ensures AgentRun in d.calls <==> agentsLoaded && handle.hasName
    ensures DirectCompletion in d.calls <==> !(agentsLoaded && handle.hasName) || agent.Raised?
    ensures d.calls == [AgentRun] ==> d.reply == Some(agent.text)
    ensures DirectCompletion in d.calls ==>
      (d.reply.Some? <==> direct.Replied?) && (d.reply.Some? ==> d.reply.value == Strip(direct.text))
  {
    if agentsLoaded && handle.hasName then
      match agent
      case Replied(text) => Dispatched([AgentRun], Some(text))
      case Raised =>
        var fallback := DirectAttempt(direct);
        Dispatched([AgentRun] + fallback.calls, fallback.reply)
    else
      DirectAttempt(direct)
  }

  /** A failure is reported only after the direct call has been tried and has raised. */
  lemma DispatchFallbackIsMandatory(agentsLoaded: bool, handle: Backend, agent: CallOutcome, direct: CallOutcome)
    ensures Dispatch(agentsLoaded, handle, agent, direct).reply.None? <==>
      (!(agentsLoaded && handle.hasName) || agent.Raised?) && direct.Raised?
  {
  }

  /**
   * Whether the module-level name `AsyncOpenAI` is bound: only the import at
   * lines 38-39 binds it, and that import runs only when the agents
   * framework did not load.
   */
  predicate DirectClientNameBound(agentsLoaded: bool) {
    !agentsLoaded
  }

  /**
   * The dispatch exactly as lines 110-139 have it. The fallback at line 118
   * constructs `AsyncOpenAI(...)`; it is reached only when the agents
   * framework loaded, when that name is unbound, so the construction raises
   * `NameError` before any direct call, and the outer handler at line 155
   * reports the fix as failed.
   */
  function DispatchAsWritten(agentsLoaded: bool, handle: Backend, agent: CallOutcome, direct: CallOutcome)
    : (d: Dispatched)
    ensures AgentRun in d.calls <==> agentsLoaded && handle.hasName
    ensures !(agentsLoaded && handle.hasName && agent.Raised?) ==>
      d == Dispatch(agentsLoaded, handle, agent, direct)
    ensures agentsLoaded && handle.hasName && agent.Raised? ==> d == Dispatched([AgentRun], None)
  {
    if agentsLoaded && handle.hasName then
      match agent
      case Replied(text) => Dispatched([AgentRun], Some(text))
      case Raised =>
        if DirectClientNameBound(agentsLoaded) then
          var fallback := DirectAttempt(direct);
          Dispatched([AgentRun] + fallback.calls, fallback.reply)
        else
          Dispatched([AgentRun], None)
    else
      DirectAttempt(direct)
  }

  /**
   * As written, a failed agent run is never followed by the direct call,
   * even when that call would have answered; the corrected dispatch returns
   * the direct reply in the same situation.
   */
  lemma FallbackNeverRunsAsWritten(handle: Backend, direct: CallOutcome)
    requires handle.hasName && direct.Replied?
    ensures DispatchAsWritten(true, handle, Raised, direct) == Dispatched([AgentRun], None)
    ensures Dispatch(true, handle, Raised, direct)
         == Dispatched([AgentRun, DirectCompletion], Some(Strip(direct.text)))
  {
  }

  /** The dispatch for the prompt built from the script's code and the log. */
  function RequestFix(agentsLoaded: bool, handle: Backend, code: string, log: string,
                      agentModel: string -> CallOutcome, directModel: string -> CallOutcome)
    : Dispatched
  {
    var prompt := Prompt(code, log);
    Dispatch(agentsLoaded, handle, agentModel(prompt), directModel(prompt))
  }

  // ---------------------------------------------------------------------
  // Cleaning the reply
  // ---------------------------------------------------------------------

  const PythonFence: string := "```python"
  const Fence: string := "```"

  /** Lines 142-145: drop one leading fence, trying the tagged fence first. */
  function StripLeadingFence(s: string): (r: string)
    ensures |r| <= |s| && r == s[|s| - |r|..]
    ensures |s| - |r| == |PythonFence| <==> PythonFence <= s
    ensures |s| - |r| == |Fence| <==> Fence <= s && !(PythonFence <= s)
    ensures r == s <==> !(Fence <= s)
  {
    if PythonFence <= s then s[|PythonFence|..]
    else if Fence <= s then s[|Fence|..]
    else s
  }

  /** Lines 146-147: drop one trailing fence. */
  function StripTrailingFence(s: string): (r: string)
    ensures |r| <= |s| && r == s[..|r|]
    ensures |s| - |r| == |Fence| <==> EndsWith(s, Fence)
    ensures r == s <==> !EndsWith(s, Fence)
  {
    if EndsWith(s, Fence) then s[..|s| - |Fence|] else s
  }

  /** The text written to the versioned path (line 151). */
  function CleanFix(reply: string): string {
    Strip(StripTrailingFence(StripLeadingFence(reply)))
  }

  /** A block fenced with the tagged fence yields its body, trimmed. */
  lemma CleanFixTaggedFence(body: string)
    ensures CleanFix(PythonFence + body + Fence) == Strip(body)
  {
    var s := PythonFence + body + Fence;
    assert PythonFence <= s;
    assert StripLeadingFence(s) == body + Fence;
    assert StripTrailingFence(body + Fence) == body;
  }

  /** A block fenced with bare fences yields its body, trimmed, unless the body starts with "python". */
  lemma CleanFixBareFence(body: string)
    requires !("python" <= body)
    ensures CleanFix(Fence + body + Fence) == Strip(body)
  {
    var s := Fence + body + Fence;
    assert Fence <= s;
    assert !(PythonFence <= s) by {
      if |body| >= 6 {
        assert s[3..9] == body[..6] && PythonFence[3..9] == "python";
        assert body[..6] != "python";
      } else {
        assert s[3 + |body|] == '`' && PythonFence[3 + |body|] != '`';
      }
    }
    assert StripLeadingFence(s) == body + Fence;
    assert StripTrailingFence(body + Fence) == body;
  }

  lemma StripBetweenNewlines(code: string)
    requires code != [] ==> !IsSpace(code[0]) && !IsSpace(code[|code| - 1])
    ensures Strip("\n" + code + "\n") == code
  {
    StripPadded("\n", code, "\n");
    StripUnpadded(code);
  }

  /**
   * The usual shape of a fenced reply: "```python", a newline, the code, a
   * newline and "```" give back exactly the code, when the code has no
   * whitespace at either end (as in "```python\nCODE\n```", giving "CODE").
   */
  lemma CleanFixFencedBlock(code: string)
    requires code != [] ==> !IsSpace(code[0]) && !IsSpace(code[|code| - 1])
    ensures CleanFix(PythonFence + "\n" + code + "\n" + Fence) == code
  {
    var body := "\n" + code + "\n";
    assert PythonFence + "\n" + code + "\n" + Fence == PythonFence + body + Fence;
    CleanFixTaggedFence(body);
    StripBetweenNewlines(code);
  }

  /** Text with no fence at either end is only trimmed. */
  lemma CleanFixUnfenced(s: string)
    requires !(Fence <= s) && !EndsWith(s, Fence)
    ensures CleanFix(s) == Strip(s)
  {
  }

  /**
   * Only one leading fence is removed: what follows the tagged fence is kept
   * as it is, even when it starts with another fence.
   */
  lemma CleanFixRemovesOneFence(rest: string)
    requires !EndsWith(rest, Fence)
    ensures CleanFix(PythonFence + rest) == Strip(rest)
  {
    var s := PythonFence + rest;
    assert PythonFence <= s;
    assert StripLeadingFence(s) == rest;
  }

  // ---------------------------------------------------------------------
  // fix_broken_script
  // ---------------------------------------------------------------------

  /**
   * `fix_broken_script(agent, script_path, error_log)`, with the corrected
   * dispatch. The script is read before the `try` (line 97), so a missing
   * script is the caller's error, not a handled one. When no reply is
   * obtained nothing is written and the result is "". Otherwise the result
   * is the first free versioned path; it receives a copy of the script and
   * is then overwritten with the cleaned reply, so the net effect is one new
   * file holding the cleaned reply.
   */
  method FixBrokenScript(fs: FileSystem, agentsLoaded: bool, handle: Backend, scriptPath: Path,
                         errorLog: string, agentModel: string -> CallOutcome,
                         directModel: string -> CallOutcome)
    returns (fs': FileSystem, newPath: Path, calls: seq<Call>)
    requires scriptPath in fs
    ensures var d := RequestFix(agentsLoaded, handle, fs[scriptPath], errorLog, agentModel, directModel);
      && calls == d.calls
      && (d.reply.None? ==> newPath == "" && fs' == fs)
      && (d.reply.Some? ==>
            && newPath != ""
            && IsNextVersion(fs, scriptPath, newPath)
            && fs' == fs[newPath := CleanFix(d.reply.value)])
    ensures newPath != "" ==> newPath !in fs && newPath in fs' && fs'[scriptPath] == fs[scriptPath]
  {
    var originalCode := fs[scriptPath];
    var d := RequestFix(agentsLoaded, handle, originalCode, errorLog, agentModel, directModel);
    calls := d.calls;
    if d.reply.None? {
      fs', newPath := fs, "";
      return;
    }
    var fixedCode := CleanFix(d.reply.value);
    var backedUp, versioned := BackupAndVersionScript(fs, scriptPath);
    newPath := versioned.value;
    NextVersionIsFresh(fs, scriptPath, newPath);
    fs' := backedUp[newPath := fixedCode];
    assert fs' == fs[newPath := fixedCode];
  }
}
