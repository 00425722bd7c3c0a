/**
 * The batch commands of backup.py: `cmd_initialize` and `cmd_backup`. Each loops
 * over the repositories and drives the engine through `Repository.initialize`
 * and `Repository.check`. A `ResticError` is caught where the source catches
 * it. A `RepositoryError` (a location that cannot be resolved) is never caught
 * and ends the batch.
 *
 * Each command returns the trace of engine invocations it made. The oracle
 * answers each invocation given the trace before it.
 */
module Commands {
  import opened Results
  import opened Engine
  import opened Repositories

  /** A backup job record: a directory, a description and target repositories. No command reads it. */
  datatype Operation = Operation(directory: string, description: string, repos: seq<string>)

  /* ---------------------------------------------------------------------- */
  /* cmd_initialize                                                          */
  /* ---------------------------------------------------------------------- */

  /** How `cmd_initialize` ends: with its two name lists, or with the uncaught location error. */
  datatype InitReport = Initialized(success: seq<string>, fails: seq<string>) | InitAborted(error: RepositoryError)

  /** The names of the repositories, in order. */
  function Names(repos: seq<Repository>): seq<string>
  {
    seq(|repos|, k requires 0 <= k < |repos| => repos[k].name)
  }

  /** For each invocation of `trace`: whether the engine, run after the ones before it, exited with status zero. */
  function Passed(trace: seq<Invocation>, engine: Oracle): (ok: seq<bool>)
    ensures |ok| == |trace|
  {
    if trace == [] then []
    else Passed(trace[..|trace| - 1], engine) + [engine(trace[..|trace| - 1], trace[|trace| - 1]) == 0]
  }

  /** Entry k of `Passed` is true exactly when call k, made after the calls before it, exited with status zero. */
  lemma {:induction false} PassedMeaning(trace: seq<Invocation>, engine: Oracle)
    ensures forall k :: 0 <= k < |trace| ==> (Passed(trace, engine)[k] <==> engine(trace[..k], trace[k]) == 0)
  {
    if trace != [] {
      var init := trace[..|trace| - 1];
      PassedMeaning(init, engine);
      forall k | 0 <= k < |init| ensures trace[..k] == init[..k] {
      }
    }
  }

  lemma PassedSnoc(trace: seq<Invocation>, engine: Oracle, c: Invocation)
    ensures Passed(trace + [c], engine) == Passed(trace, engine) + [engine(trace, c) == 0]
  {
    assert (trace + [c])[..|trace|] == trace;
  }

  /** The names whose flag equals `want`, in their original order. */
  function Select(names: seq<string>, ok: seq<bool>, want: bool): seq<string>
    requires |names| == |ok|
  {
    if names == [] then []
    else
      var n := |names| - 1;
      Select(names[..n], ok[..n], want) + (if ok[n] == want then [names[n]] else [])
  }

  lemma SelectSnoc(names: seq<string>, ok: seq<bool>, name: string, flag: bool, want: bool)
    requires |names| == |ok|
    ensures Select(names + [name], ok + [flag], want) == Select(names, ok, want) + (if flag == want then [name] else [])
  {
    assert (names + [name])[..|names|] == names;
    assert (ok + [flag])[..|ok|] == ok;
  }

  lemma MultisetSplit(t: seq<string>, f: seq<string>, a: seq<string>, b: seq<string>, init: seq<string>, last: seq<string>)
    requires multiset(t) + multiset(f) == multiset(init)
    requires multiset(a) + multiset(b) == multiset(last)
    ensures multiset(t + a) + multiset(f + b) == multiset(init + last)
  {
  }

  /** The two selections split the names: together they hold every name once. */
  lemma {:induction false} SelectPartition(names: seq<string>, ok: seq<bool>)
    requires |names| == |ok|
    ensures multiset(Select(names, ok, true)) + multiset(Select(names, ok, false)) == multiset(names)
    ensures |Select(names, ok, true)| + |Select(names, ok, false)| == |names|
  {
    if names != [] {
      var n := |names| - 1;
      var init, last := names[..n], [names[n]];
      SelectPartition(init, ok[..n]);
      var a: seq<string>, b: seq<string> := (if ok[n] then last else []), (if ok[n] then [] else last);
      MultisetSplit(Select(init, ok[..n], true), Select(init, ok[..n], false), a, b, init, last);
      assert names == init + last;
    }
  }

  lemma {:induction false} SelectUniform(names: seq<string>, ok: seq<bool>, want: bool)
    requires |names| == |ok|
    requires forall k :: 0 <= k < |ok| ==> ok[k] == want
    ensures Select(names, ok, want) == names
    ensures Select(names, ok, !want) == []
  {
    if names != [] {
      var n := |names| - 1;
      SelectUniform(names[..n], ok[..n], want);
      assert names == names[..n] + [names[n]];
    }
  }

  /**
   * When exactly the name at position `bad` is flagged false, the false
   * selection is that one name and the true selection is all the others.
   */
  lemma {:induction false} SelectSingleFailure(names: seq<string>, ok: seq<bool>, bad: nat)
    requires |names| == |ok| && bad < |names|
    requires forall k :: 0 <= k < |ok| ==> (ok[k] <==> k != bad)
    ensures Select(names, ok, false) == [names[bad]]
    ensures Select(names, ok, true) == names[..bad] + names[bad + 1..]
  {
    var n := |names| - 1;
    if bad == n {
      SelectUniform(names[..n], ok[..n], true);
    } else {
      SelectSingleFailure(names[..n], ok[..n], bad);
      assert names[..bad] == names[..n][..bad];
      assert names[bad + 1..] == names[..n][bad + 1..] + [names[n]];
    }
  }

  lemma NamesSnoc(repos: seq<Repository>, i: nat)
    requires i < |repos|
    ensures Names(repos[..i + 1]) == Names(repos[..i]) + [repos[i].name]
  {
  }

  lemma ExtendCalls(repos: seq<Repository>, environ: map<string, string>, trace: seq<Invocation>, i: nat)
    requires i == |trace| < |repos| && GetUrl(repos[i]).Ok?
    requires forall k :: 0 <= k < i ==> GetUrl(repos[k]).Ok? && trace[k] == RepoCall(repos[k], "init", environ)
    ensures var t := trace + [RepoCall(repos[i], "init", environ)];
      forall k :: 0 <= k < i + 1 ==> GetUrl(repos[k]).Ok? && t[k] == RepoCall(repos[k], "init", environ)
  {
  }

  /**
   * `cmd_initialize`: tries `initialize` on every repository in turn, collecting
   * the name in `success`, or in `fails` when the engine exits with a non-zero
   * status. A location that cannot be resolved is not caught and ends the
   * command. So `init` is called exactly once per repository, in order, up to
   * the first repository whose location does not resolve, and never for that
   * one or any later one; the command completes exactly when every location
   * resolves; and then `success` holds, in order, the names whose `init`
   * exited with status zero and `fails` the others.
   */
  method CmdInitialize(repos: seq<Repository>, environ: map<string, string>, engine: Oracle)
    returns (trace: seq<Invocation>, report: InitReport)
    ensures |trace| <= |repos|
    ensures forall k :: 0 <= k < |trace| ==> GetUrl(repos[k]).Ok? && trace[k] == RepoCall(repos[k], "init", environ)
    ensures report.Initialized? <==> forall k :: 0 <= k < |repos| ==> GetUrl(repos[k]).Ok?
    ensures report.InitAborted? ==> |trace| < |repos| && GetUrl(repos[|trace|]) == Err(report.error)
    ensures report.Initialized? ==>
      && |trace| == |repos|
      && report.success == Select(Names(repos), Passed(trace, engine), true)
      && report.fails == Select(Names(repos), Passed(trace, engine), false)
  {
    var success: seq<string> := [];
    var fails: seq<string> := [];
    trace := [];
    for i := 0 to |repos|
      invariant |trace| == i
      invariant forall k :: 0 <= k < i ==> GetUrl(repos[k]).Ok? && trace[k] == RepoCall(repos[k], "init", environ)
      invariant success == Select(Names(repos[..i]), Passed(trace, engine), true)
      invariant fails == Select(Names(repos[..i]), Passed(trace, engine), false)
    {
      var calls, fault := Initialize(repos[i], environ, engine, trace);
      if fault.Some? && fault.value.RepoFault? {
        report := InitAborted(fault.value.repoError);
        return;
      }
      var c := RepoCall(repos[i], "init", environ);
      assert calls == [c];
      PassedSnoc(trace, engine, c);
      NamesSnoc(repos, i);
      SelectSnoc(Names(repos[..i]), Passed(trace, engine), repos[i].name, fault.None?, true);
      SelectSnoc(Names(repos[..i]), Passed(trace, engine), repos[i].name, fault.None?, false);
      ExtendCalls(repos, environ, trace, i);
      trace := trace + calls;
      if fault.None? {
        success := success + [repos[i].name];
      } else {
        fails := fails + [repos[i].name];
      }
    }
    assert repos[..|repos|] == repos;
    report := Initialized(success, fails);
  }

  /**
   * The lists `cmd_initialize` reports split the repository names: together
   * they hold every name once. When only the repository at position `bad`
   * fails, `fails` names it alone and `success` all the others, in order.
   */
  lemma InitializeReportPartition(repos: seq<Repository>, ok: seq<bool>, bad: nat)
    requires |ok| == |repos|
    ensures |Select(Names(repos), ok, true)| + |Select(Names(repos), ok, false)| == |repos|
    ensures multiset(Select(Names(repos), ok, true)) + multiset(Select(Names(repos), ok, false)) == multiset(Names(repos))
    ensures bad < |repos| && (forall k :: 0 <= k < |ok| ==> (ok[k] <==> k != bad)) ==>
      && Select(Names(repos), ok, false) == [repos[bad].name]
      && Select(Names(repos), ok, true) == Names(repos)[..bad] + Names(repos)[bad + 1..]
  {
    SelectPartition(Names(repos), ok);
    if bad < |repos| && (forall k :: 0 <= k < |ok| ==> (ok[k] <==> k != bad)) {
      SelectSingleFailure(Names(repos), ok, bad);
    }
  }

  /* ---------------------------------------------------------------------- */
  /* cmd_backup                                                              */
  /* ---------------------------------------------------------------------- */

  /** The exit status of the last call of `calls`, made after `history`. */
  function LastStatus(engine: Oracle, history: seq<Invocation>, calls: seq<Invocation>): int
    requires calls != []
  {
    engine(history + calls[..|calls| - 1], calls[|calls| - 1])
  }

  /**
   * What `cmd_backup` does for one repository, after the calls in `history`:
   * the engine calls it makes and the exception that escapes, if any.
   */
  function BackupRepo(r: Repository, environ: map<string, string>, engine: Oracle, history: seq<Invocation>): (s: Step)
    // no engine call for a location that cannot be resolved; the error escapes
    ensures GetUrl(r).Err? ==> s == Step([], Some(RepoFault(GetUrl(r).error)))
    // check comes first, and there are at most three calls
    ensures GetUrl(r).Ok? ==> 1 <= |s.calls| <= 3 && s.calls[0] == RepoCall(r, "check", environ)
    // initialize is called exactly when the first check failed, and then second
    ensures |s.calls| >= 2 <==> GetUrl(r).Ok? && engine(history, s.calls[0]) != 0
    ensures |s.calls| >= 2 ==> s.calls[1] == RepoCall(r, "init", environ)
    // a successful initialize is always followed by exactly one more check
    ensures |s.calls| == 3 <==> |s.calls| >= 2 && engine(history + s.calls[..1], s.calls[1]) == 0
    ensures |s.calls| == 3 ==> s.calls[2] == RepoCall(r, "check", environ)
    // the step raises exactly when its last call failed, with that call's command and status
    ensures s.calls != [] ==> (s.fault.None? <==> LastStatus(engine, history, s.calls) == 0)
    ensures s.calls != [] && s.fault.Some? ==>
      s.fault.value == EngineFault(ResticError(if |s.calls| == 2 then "init" else "check", LastStatus(engine, history, s.calls)))
  {
    var first := Attempt(r, "check", environ, engine, history);
    if first.fault.None? || first.fault.value.RepoFault? then
      assert first.calls != [] ==> first.calls[..0] == [] && history + [] == history;
      first
    else
      var init := Attempt(r, "init", environ, engine, history + first.calls);
      var two := first.calls + init.calls;
      assert two[..1] == first.calls;
      if init.fault.Some? then
        Step(two, init.fault)
      else
        var again := Attempt(r, "check", environ, engine, history + two);
        var three := two + again.calls;
        assert three[..1] == first.calls && three[..2] == two;
        assert history + first.calls + init.calls == history + two;
        Step(three, again.fault)
  }

  /** The invocations of a sequence of steps, in order. */
  function Calls(steps: seq<Step>): seq<Invocation>
  {
    if steps == [] then [] else Calls(steps[..|steps| - 1]) + steps[|steps| - 1].calls
  }

  /** What the loop does for one repository, given the calls made before it. */
  type Body = (Repository, seq<Invocation>) -> Step

  /** The loop body of `cmd_backup`. */
  function LoopBody(environ: map<string, string>, engine: Oracle): Body
  {
    (r, history) => BackupRepo(r, environ, engine, history)
  }

  /** A run of `cmd_backup` so far: its trace, one step per repository processed, and the error that ended it. */
  datatype BackupRun = BackupRun(trace: seq<Invocation>, steps: seq<Step>, fault: Option<Fault>)

  /** The rest of the loop after `done`, with `repos` still to process: it stops at the first step that raises. */
  function BackupFrom(repos: seq<Repository>, body: Body, done: BackupRun): BackupRun
    decreases |repos|
  {
    if repos == [] then done
    else
      var s := body(repos[0], done.trace);
      var next := BackupRun(done.trace + s.calls, done.steps + [s], s.fault);
      if s.fault.Some? then next
      else BackupFrom(repos[1..], body, next)
  }

  /** The k-th step is the body for `repos[k]`, run after the calls of the earlier steps. */
  ghost predicate StepsFollow(repos: seq<Repository>, body: Body, steps: seq<Step>)
  {
    && |steps| <= |repos|
    && forall k :: 0 <= k < |steps| ==> steps[k] == body(repos[k], Calls(steps[..k]))
  }

  /** Only the last step raised, and what it raised is `fault`. */
  ghost predicate OnlyLastRaises(steps: seq<Step>, fault: Option<Fault>)
  {
    forall k :: 0 <= k < |steps| ==> steps[k].fault == (if k == |steps| - 1 then fault else None)
  }

  /**
   * A run over `repos` is well formed when its steps follow the body, its
   * trace is the calls of its steps, only its last step raised (so an error
   * comes from a processed repository), and it processed every repository
   * unless a step raised.
   */
  ghost predicate WellFormedRun(repos: seq<Repository>, body: Body, run: BackupRun)
  {
    && StepsFollow(repos, body, run.steps)
    && run.trace == Calls(run.steps)
    && OnlyLastRaises(run.steps, run.fault)
    && (run.fault.None? ==> |run.steps| == |repos|)
    && (run.fault.Some? ==> run.steps != [])
  }

  lemma CallsSnoc(steps: seq<Step>, s: Step)
    ensures Calls(steps + [s]) == Calls(steps) + s.calls
  {
    assert (steps + [s])[..|steps|] == steps;
  }

  lemma FollowExtend(prior: seq<Repository>, r: Repository, body: Body, steps: seq<Step>)
    requires |steps| == |prior| && StepsFollow(prior, body, steps)
    ensures StepsFollow(prior + [r], body, steps + [body(r, Calls(steps))])
  {
    var steps' := steps + [body(r, Calls(steps))];
    var prior' := prior + [r];
    forall k | 0 <= k < |steps'|
      ensures steps'[k] == body(prior'[k], Calls(steps'[..k]))
    {
      if k < |steps| {
        assert steps'[..k] == steps[..k];
      } else {
        assert steps'[..k] == steps;
      }
    }
  }

  lemma FollowWiden(prior: seq<Repository>, more: seq<Repository>, body: Body, steps: seq<Step>)
    requires StepsFollow(prior, body, steps)
    ensures StepsFollow(prior + more, body, steps)
  {
    var all := prior + more;
    forall k | 0 <= k < |steps|
      ensures steps[k] == body(all[k], Calls(steps[..k]))
    {
      assert all[k] == prior[k];
    }
  }

  lemma RaisesExtend(steps: seq<Step>, s: Step)
    requires OnlyLastRaises(steps, None)
    ensures OnlyLastRaises(steps + [s], s.fault)
  {
  }

  lemma {:induction false} BackupFromWellFormed(prior: seq<Repository>, repos: seq<Repository>, body: Body, done: BackupRun)
    requires done.fault.None? && |done.steps| == |prior|
    requires WellFormedRun(prior, body, done)
    ensures WellFormedRun(prior + repos, body, BackupFrom(repos, body, done))
    decreases |repos|
  {
    if repos == [] {
      assert prior + repos == prior;
    } else {
      var s := body(repos[0], done.trace);
      var next := BackupRun(done.trace + s.calls, done.steps + [s], s.fault);
      var prior' := prior + [repos[0]];
      assert prior' + repos[1..] == prior + repos;
      CallsSnoc(done.steps, s);
      FollowExtend(prior, repos[0], body, done.steps);
      RaisesExtend(done.steps, s);
      if s.fault.Some? {
        FollowWiden(prior', repos[1..], body, next.steps);
      } else {
        BackupFromWellFormed(prior', repos[1..], body, next);
      }
    }
  }

  /** The run that `cmd_backup` starts from. */
  const NoRun: BackupRun := BackupRun([], [], None)

  /**
   * The loop processes the repositories in order, one body each, over the
   * calls made so far. It stops at the first body that raises, so no later
   * repository is processed, and it processes all of them when none raises.
   */
  lemma BackupRunWellFormed(repos: seq<Repository>, body: Body)
    ensures WellFormedRun(repos, body, BackupFrom(repos, body, NoRun))
  {
    BackupFromWellFormed([], repos, body, NoRun);
    assert [] + repos == repos;
  }

  /** An invocation of `check` or `init`. */
  predicate Maintenance(c: Invocation)
  {
    |c.argv| >= 4 && (c.argv[3] == "check" || c.argv[3] == "init")
  }

  lemma StepMaintenance(r: Repository, environ: map<string, string>, engine: Oracle, history: seq<Invocation>)
    ensures forall j :: 0 <= j < |BackupRepo(r, environ, engine, history).calls| ==>
      Maintenance(BackupRepo(r, environ, engine, history).calls[j])
  {
    var s := BackupRepo(r, environ, engine, history);
    forall j | 0 <= j < |s.calls| ensures Maintenance(s.calls[j]) {
      var cmd := if j == 1 then "init" else "check";
      assert s.calls[j] == RepoCall(r, cmd, environ);
      assert ArgVector(GetUrl(r).value, cmd, None, r.identityFile)[3] == cmd;
    }
  }

  lemma {:induction false} CallsMaintenance(steps: seq<Step>)
    requires forall k, j :: 0 <= k < |steps| && 0 <= j < |steps[k].calls| ==> Maintenance(steps[k].calls[j])
    ensures forall j :: 0 <= j < |Calls(steps)| ==> Maintenance(Calls(steps)[j])
  {
    if steps != [] {
      var init := steps[..|steps| - 1];
      var last := steps[|steps| - 1];
      CallsMaintenance(init);
      forall j | 0 <= j < |Calls(steps)| ensures Maintenance(Calls(steps)[j]) {
        if j >= |Calls(init)| {
          assert Calls(steps)[j] == last.calls[j - |Calls(init)|];
        } else {
          assert Calls(steps)[j] == Calls(init)[j];
        }
      }
    }
  }

  /**
   * `cmd_backup` never issues a backup: every engine invocation it makes is a
   * `check` or an `init`.
   */
  lemma BackupIssuesNoBackup(repos: seq<Repository>, environ: map<string, string>, engine: Oracle)
    ensures var run := BackupFrom(repos, LoopBody(environ, engine), NoRun);
      forall j :: 0 <= j < |run.trace| ==> Maintenance(run.trace[j])
  {
    var run := BackupFrom(repos, LoopBody(environ, engine), NoRun);
    BackupRunWellFormed(repos, LoopBody(environ, engine));
    forall k, j | 0 <= k < |run.steps| && 0 <= j < |run.steps[k].calls|
      ensures Maintenance(run.steps[k].calls[j])
    {
      StepMaintenance(repos[k], environ, engine, Calls(run.steps[..k]));
    }
    CallsMaintenance(run.steps);
  }

  /**
   * The body of `cmd_backup`'s loop for one repository, run after `history`:
   * `check`; when that raises `ResticError`, `initialize` and then `check`
   * once more, and whatever those raise is not caught.
   */
  method BackupOne(r: Repository, environ: map<string, string>, engine: Oracle, history: seq<Invocation>)
    returns (calls: seq<Invocation>, fault: Option<Fault>)
    ensures Step(calls, fault) == BackupRepo(r, environ, engine, history)
  {
    calls, fault := Check(r, environ, engine, history);
    if fault.Some? && fault.value.EngineFault? {
      // the health check failed: initialize, then check once more
      var initCalls, initFault := Initialize(r, environ, engine, history + calls);
      assert history + calls + initCalls == history + (calls + initCalls);
      calls := calls + initCalls;
      fault := initFault;
      if fault.None? {
        var againCalls, againFault := Check(r, environ, engine, history + calls);
        calls := calls + againCalls;
        fault := againFault;
      }
    }
  }

  /**
   * `cmd_backup`: runs `check` on every repository in turn; when it raises
   * `ResticError`, runs `initialize` and `check` again, uncaught. The jobs are
   * accepted and not used. Returns the trace and the error that ended the
   * command, if any.
   */
  method CmdBackup(ops: seq<Operation>, repos: seq<Repository>, environ: map<string, string>, engine: Oracle)
    returns (trace: seq<Invocation>, aborted: Option<Fault>)
    ensures trace == BackupFrom(repos, LoopBody(environ, engine), NoRun).trace
    ensures aborted == BackupFrom(repos, LoopBody(environ, engine), NoRun).fault
  {
    trace := [];
    ghost var steps: seq<Step> := [];
    for i := 0 to |repos|
      invariant BackupFrom(repos[i..], LoopBody(environ, engine), BackupRun(trace, steps, None))
             == BackupFrom(repos, LoopBody(environ, engine), NoRun)
    {
      assert repos[i..][1..] == repos[i + 1..];
      var calls, fault := BackupOne(repos[i], environ, engine, trace);
      assert Step(calls, fault) == LoopBody(environ, engine)(repos[i], trace);
      trace := trace + calls;
      steps := steps + [Step(calls, fault)];
      if fault.Some? {
        return trace, fault;
      }
    }
    aborted := None;
  }
}
