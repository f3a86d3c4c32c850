/** The retry and classification policy of `run_applescript`
    (src/apple_mail_mcp/apple_mail_mcp.py): up to three invocations of the
    AppleScript interpreter, where only a timeout is retried, after an
    exponential back-off, and every other outcome ends the call at once.

    The interpreter is not invoked here: the environment is a total function
    that says what the attempt with a given index would produce. Sleeping is
    recorded as the list of back-off durations, in seconds. */
module Retry {
  import opened Common
  import opened Text

  /** `MAX_RETRIES`: the number of attempts, not of retries. */
  const MaxRetries: nat := 3
  /** `INITIAL_BACKOFF_SECONDS`. */
  const InitialBackoffSeconds: nat := 2

  /** What one invocation of `osascript` can come back with. */
  datatype AttemptOutcome =
    | Completed(returnCode: int, stdout: string, stderr: string)  // the process ran to completion
    | TimedOut                                                    // `subprocess.TimeoutExpired`
    | InterpreterMissing                                          // `FileNotFoundError`
    | Crashed(message: string)                                    // any other `Exception` subclass, by its text

  /** How the loop over the attempt indices is left: by returning or raising
      inside it, or by running off its end. */
  datatype LoopExit =
    | Finished(result: Result<string>, attempts: nat, sleeps: seq<nat>)
    | FellThrough(attempts: nat, sleeps: seq<nat>)

  /** What a call to `run_applescript` amounts to: the returned text or the
      message of the raised exception, how many attempts were made and which
      back-off sleeps happened between them. */
  datatype Execution = Execution(result: Result<string>, attempts: nat, sleeps: seq<nat>)

  function Pow2(n: nat): nat {
    if n == 0 then 1 else 2 * Pow2(n - 1)
  }

  /** The back-off after the timed-out attempt with index `attempt`. */
  function Backoff(attempt: nat): nat {
    InitialBackoffSeconds * Pow2(attempt)
  }

  /** The first `n` back-off durations, in order. */
  function BackoffSchedule(n: nat): (r: seq<nat>)
    ensures |r| == n
    ensures forall i :: 0 <= i < n ==> r[i] == Backoff(i)
  {
    if n == 0 then [] else BackoffSchedule(n - 1) + [Backoff(n - 1)]
  }

  const UnknownScriptError: string := "Unknown AppleScript error"

  /** The exception text for a non-zero exit: the stripped standard error,
      or a placeholder when standard error is empty. */
  function ScriptErrorMessage(returnCode: int, stderr: string): string {
    "AppleScript error (code " + IntToString(returnCode) + "): "
      + (if stderr != "" then Strip(stderr) else UnknownScriptError)
  }

  function TimeoutMessage(): string {
    "AppleScript execution timed out after " + IntToString(MaxRetries) + " attempts. "
      + "Apple Mail may be unresponsive."
  }

  const NotFoundMessage: string :=
    "osascript not found. This tool requires macOS with AppleScript support."

  /** The final `raise` after the loop, reached only if every attempt
      timed out without the loop raising. */
  function FellThroughMessage(): string {
    "AppleScript execution failed after " + IntToString(MaxRetries) + " attempts: "
      + "timed out after 120 seconds"
  }

  /** The generic `except Exception` handler: an exception whose text
      mentions an AppleScript error is re-raised unchanged, any other is
      wrapped. */
  function Reraised(message: string): string {
    if Contains(message, "AppleScript error") then message
    else "AppleScript execution failed: " + message
  }

  /** The loop from the attempt with index `attempt` on; `sleeps` holds the
      back-offs already slept. */
  function AttemptLoop(env: nat -> AttemptOutcome, attempt: nat, sleeps: seq<nat>): (r: LoopExit)
    requires attempt <= MaxRetries
    ensures attempt < MaxRetries ==> r.Finished? && attempt < r.attempts <= MaxRetries
    ensures attempt < MaxRetries && sleeps == BackoffSchedule(attempt) ==> r.sleeps == BackoffSchedule(r.attempts - 1)
    ensures attempt < MaxRetries ==> forall i :: attempt <= i < r.attempts - 1 ==> env(i) == TimedOut
    ensures attempt < MaxRetries && r.attempts < MaxRetries ==> env(r.attempts - 1) != TimedOut
    decreases MaxRetries - attempt
  {
    if attempt == MaxRetries then FellThrough(attempt, sleeps)
    else
      match env(attempt)
      case Completed(code, out, err) =>
        if code != 0 then Finished(Err(Reraised(ScriptErrorMessage(code, err))), attempt + 1, sleeps)
        else Finished(Ok(Strip(out)), attempt + 1, sleeps)
      case TimedOut =>
        if attempt < MaxRetries - 1 then AttemptLoop(env, attempt + 1, sleeps + [Backoff(attempt)])
        else Finished(Err(TimeoutMessage()), attempt + 1, sleeps)
      case InterpreterMissing =>
        Finished(Err(NotFoundMessage), attempt + 1, sleeps)
      case Crashed(message) =>
        Finished(Err(Reraised(message)), attempt + 1, sleeps)
  }

  /** `run_applescript(script)` against the environment `env`: at least
      one and at most three attempts, a back-off slept after every attempt
      but the last, and every attempt but the last a timeout. */
  function Execute(env: nat -> AttemptOutcome): (e: Execution)
    ensures 1 <= e.attempts <= MaxRetries
    ensures e.sleeps == BackoffSchedule(e.attempts - 1)
    ensures forall i :: 0 <= i < e.attempts - 1 ==> env(i) == TimedOut
    ensures e.attempts < MaxRetries ==> env(e.attempts - 1) != TimedOut
  {
    match AttemptLoop(env, 0, [])
    case Finished(result, attempts, sleeps) => Execution(result, attempts, sleeps)
    case FellThrough(attempts, sleeps) => Execution(Err(FellThroughMessage()), attempts, sleeps)
  }

  /** After `k` timed-out attempts the loop continues with attempt `k`,
      having slept the first `k` back-offs. */
  lemma {:induction false} AfterTimeouts(env: nat -> AttemptOutcome, k: nat)
    requires k < MaxRetries
    requires forall i :: 0 <= i < k ==> env(i) == TimedOut
    ensures AttemptLoop(env, 0, []) == AttemptLoop(env, k, BackoffSchedule(k))
  {
    if k > 0 {
      AfterTimeouts(env, k - 1);
      assert env(k - 1) == TimedOut;
    }
  }

  /** A non-zero exit status raises "AppleScript error (code N): ..." and the
      generic handler re-raises it unchanged. */
  lemma ScriptErrorKeptVerbatim(returnCode: int, stderr: string)
    ensures Reraised(ScriptErrorMessage(returnCode, stderr)) == ScriptErrorMessage(returnCode, stderr)
  {
    var rest := " (code " + IntToString(returnCode) + "): "
      + (if stderr != "" then Strip(stderr) else UnknownScriptError);
    assert ScriptErrorMessage(returnCode, stderr) == "AppleScript error" + rest;
    PrefixIsContained("AppleScript error", rest);
  }

  /** A script that completes with exit status 0 after `k` timeouts returns
      its stripped standard output after `k + 1` attempts and the first `k`
      back-offs. */
  lemma SucceedsAfterTimeouts(env: nat -> AttemptOutcome, k: nat, stdout: string, stderr: string)
    requires k < MaxRetries
    requires forall i :: 0 <= i < k ==> env(i) == TimedOut
    requires env(k) == Completed(0, stdout, stderr)
    ensures Execute(env) == Execution(Ok(Strip(stdout)), k + 1, BackoffSchedule(k))
  {
    AfterTimeouts(env, k);
  }

  /** A non-zero exit status is never retried: the call fails with the script
      error message, unchanged, right after that attempt. */
  lemma ScriptErrorNotRetried(env: nat -> AttemptOutcome, k: nat, returnCode: int, stdout: string, stderr: string)
    requires k < MaxRetries
    requires forall i :: 0 <= i < k ==> env(i) == TimedOut
    requires env(k) == Completed(returnCode, stdout, stderr) && returnCode != 0
    ensures Execute(env) == Execution(Err(ScriptErrorMessage(returnCode, stderr)), k + 1, BackoffSchedule(k))
  {
    AfterTimeouts(env, k);
    ScriptErrorKeptVerbatim(returnCode, stderr);
  }

  /** A missing interpreter is never retried. */
  lemma MissingInterpreterNotRetried(env: nat -> AttemptOutcome, k: nat)
    requires k < MaxRetries
    requires forall i :: 0 <= i < k ==> env(i) == TimedOut
    requires env(k) == InterpreterMissing
    ensures Execute(env) == Execution(Err(NotFoundMessage), k + 1, BackoffSchedule(k))
  {
    AfterTimeouts(env, k);
  }

  /** Any other exception derived from `Exception` is never retried; it is
      wrapped unless its text already mentions an AppleScript error. */
  lemma CrashNotRetried(env: nat -> AttemptOutcome, k: nat, message: string)
    requires k < MaxRetries
    requires forall i :: 0 <= i < k ==> env(i) == TimedOut
    requires env(k) == Crashed(message)
    ensures Execute(env).attempts == k + 1 && Execute(env).sleeps == BackoffSchedule(k)
    ensures Contains(message, "AppleScript error") ==> Execute(env).result == Err(message)
    ensures !Contains(message, "AppleScript error") ==>
              Execute(env).result == Err("AppleScript execution failed: " + message)
  {
    AfterTimeouts(env, k);
  }

  /** Three timeouts in a row give up with the "may be unresponsive" message
      after sleeping 2 and 4 seconds; the 8-second back-off is never slept. */
  lemma AllAttemptsTimeOut(env: nat -> AttemptOutcome)
    requires forall i :: 0 <= i < MaxRetries ==> env(i) == TimedOut
    ensures Execute(env) == Execution(Err(TimeoutMessage()), 3, [2, 4])
    ensures TimeoutMessage() == "AppleScript execution timed out after " + "3" + " attempts. " + "Apple Mail may be unresponsive."
  {
    AfterTimeouts(env, MaxRetries - 1);
    ShortSchedules();
    TimeoutMessageText();
  }

  /** The back-off schedules that can occur: nothing, 2 s, then 2 s and 4 s. */
  lemma ShortSchedules()
    ensures BackoffSchedule(0) == []
    ensures BackoffSchedule(1) == [2]
    ensures BackoffSchedule(2) == [2, 4]
  {
    assert Backoff(0) == 2;
    assert Backoff(1) == 4;
  }

  lemma MaxRetriesText()
    ensures IntToString(MaxRetries) == "3"
  {
    assert DigitChar(3) == '3';
  }

  lemma TimeoutMessageText()
    ensures TimeoutMessage() == "AppleScript execution timed out after " + "3" + " attempts. " + "Apple Mail may be unresponsive."
  {
    MaxRetriesText();
  }

  /** Whatever happens, the sleeps are a prefix of 2 s, 4 s. */
  lemma SleepsArePrefixOfTwoFour(env: nat -> AttemptOutcome)
    ensures Execute(env).sleeps <= [2, 4]
    ensures 8 !in Execute(env).sleeps
  {
    ShortSchedules();
  }

  /** Only the outcomes of the attempts actually made matter. */
  lemma {:induction false} OnlyConsumedOutcomesMatter(env: nat -> AttemptOutcome, other: nat -> AttemptOutcome)
    requires forall i :: 0 <= i < Execute(env).attempts ==> other(i) == env(i)
    ensures Execute(other) == Execute(env)
  {
    LoopReadsOnlyItsAttempts(env, other, 0, []);
  }

  lemma {:induction false} LoopReadsOnlyItsAttempts(env: nat -> AttemptOutcome, other: nat -> AttemptOutcome,
                                                    attempt: nat, sleeps: seq<nat>)
    requires attempt < MaxRetries
    requires forall i :: attempt <= i < AttemptLoop(env, attempt, sleeps).attempts ==> other(i) == env(i)
    ensures AttemptLoop(other, attempt, sleeps) == AttemptLoop(env, attempt, sleeps)
    decreases MaxRetries - attempt
  {
    assert other(attempt) == env(attempt);
    if env(attempt) == TimedOut && attempt < MaxRetries - 1 {
      LoopReadsOnlyItsAttempts(env, other, attempt + 1, sleeps + [Backoff(attempt)]);
    }
  }

  /** The `for` loop of `run_applescript`, statement by statement. */
  method RunAppleScript(env: nat -> AttemptOutcome) returns (result: Result<string>, attempts: nat, sleeps: seq<nat>)
    ensures Execution(result, attempts, sleeps) == Execute(env)
  {
    sleeps := [];
    var attempt: nat := 0;
    while attempt < MaxRetries
      invariant attempt < MaxRetries
      invariant forall i :: 0 <= i < attempt ==> env(i) == TimedOut
      invariant sleeps == BackoffSchedule(attempt)
      decreases MaxRetries - attempt
    {
      match env(attempt) {
      case Completed(code, out, err) =>
        AfterTimeouts(env, attempt);
        if code != 0 {
          return Err(Reraised(ScriptErrorMessage(code, err))), attempt + 1, sleeps;
        }
        return Ok(Strip(out)), attempt + 1, sleeps;
      case TimedOut =>
        if attempt < MaxRetries - 1 {
          sleeps := sleeps + [Backoff(attempt)];
        } else {
          AfterTimeouts(env, attempt);
          return Err(TimeoutMessage()), attempt + 1, sleeps;
        }
      case InterpreterMissing =>
        AfterTimeouts(env, attempt);
        return Err(NotFoundMessage), attempt + 1, sleeps;
      case Crashed(message) =>
        AfterTimeouts(env, attempt);
        return Err(Reraised(message)), attempt + 1, sleeps;
      }
      attempt := attempt + 1;
    }
    assert false;
  }
}
