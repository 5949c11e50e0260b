/**
  Installation: the steps `finalize` takes to turn an unpacked module tree
  into a registered module, and the two installers around it (a git clone
  and an uploaded zip archive), each reporting to its task log.

  Everything the installers ask of the operating system is a World value:
  the unpacked tree and the JSON decoder (for loadManifest), which programs
  are on PATH, how the copy went, which files exist, and what the `install.sh`
  hook printed and how it ended. The steps with effects are returned in
  order as a trace.
 */
module Installer {
  import opened Wrappers
  import opened GoStrings
  import opened GoPath
  import opened Manifests
  import opened Tasks
  import opened RunLog
  import opened ModuleRegistry
  import Unzip
  import UnzipErrors

  /** A finished subprocess: everything it printed, and its error if it failed. */
  datatype RunOutcome = RunOutcome(output: string, err: Option<string>)

  datatype World = World(
    fs: Fs,
    decode: string -> Result<Manifest, string>,
    onPath: string -> bool,
    copyErr: Option<string>,
    present: string -> bool,
    hook: RunOutcome)

  /** The steps of an installation that act on the system, in the order they happen. */
  datatype Step =
    | CheckDep(dep: string)
    | StopOld(killed: Option<Proc>)
    | RemoveDir(path: string)
    | CopyTree(src: string, dst: string)
    | RunHook(path: string)
    | RegisterModule(name: string)

  /** The phase a step belongs to; finalize never goes back to an earlier phase. */
  function Phase(s: Step): nat {
    match s
    case CheckDep(_) => 0
    case StopOld(_) => 1
    case RemoveDir(_) => 2
    case CopyTree(_, _) => 3
    case RunHook(_) => 4
    case RegisterModule(_) => 5
  }

  /** No step belongs to an earlier phase than the step before it. */
  predicate InPhaseOrder(steps: seq<Step>) {
    forall i :: 0 < i < |steps| ==> Phase(steps[i - 1]) <= Phase(steps[i])
  }

  /** The phase of the last step, 0 for no steps. */
  function LastPhase(steps: seq<Step>): nat {
    if steps == [] then 0 else Phase(steps[|steps| - 1])
  }

  datatype Outcome = Outcome(task: Task, reg: Registry, steps: seq<Step>, err: Option<string>)

  // ---------------------------------------------------------------------------
  // Log texts

  function SummaryText(mf: Manifest): string {
    "Модуль: " + mf.name + " v" + mf.version + " — " + mf.description
  }

  function MissingDep(dep: string): string {
    "требуется " + Quote(dep) + ", но не найден в PATH"
  }

  const UpdatingText: string := "Обновление существующего модуля"
  const CopyingText: string := "Копирование файлов..."
  const HookStartText: string := "Запуск install.sh..."
  const HookDoneText: string := "install.sh выполнен"

  function InstalledText(name: string): string {
    "Модуль «" + name + "» установлен! Активируйте его на странице модулей."
  }

  /** Plain log lines of one level. */
  function AsLines(texts: seq<string>, level: Level): (ls: seq<LogLine>)
    ensures |ls| == |texts|
  {
    if texts == [] then [] else [LogLine(texts[0], level, false, false)] + AsLines(texts[1..], level)
  }

  /** Each text becomes one plain line of the level, in order. */
  lemma {:induction false} AsLinesAt(texts: seq<string>, level: Level, i: nat)
    requires i < |texts|
    ensures AsLines(texts, level)[i] == LogLine(texts[i], level, false, false)
    decreases i
  {
    if i > 0 {
      AsLinesAt(texts[1..], level, i - 1);
    }
  }

  /** Logs each line at one level, in order. */
  function LogAll(t: Task, level: Level, lines: seq<string>): (r: Task)
    requires !t.closed
    ensures r.buf == t.buf + AsLines(lines, level)
    ensures t.buf <= r.buf
    ensures r.done == t.done && r.pending == t.pending && r.closed == t.closed
    decreases |lines|
  {
    if lines == [] then t
    else
      var r := LogAll(Log(t, level, lines[0]), level, lines[1..]);
      SeqAssoc(t.buf, [LogLine(lines[0], level, false, false)], AsLines(lines[1..], level));
      r
  }

  // ---------------------------------------------------------------------------
  // Dependencies

  /** The position of the first dependency missing from PATH. */
  function FirstMissing(deps: seq<string>, onPath: string -> bool): (k: Option<nat>)
    ensures k.Some? ==> k.value < |deps| && !onPath(deps[k.value])
    ensures k.Some? ==> forall i :: 0 <= i < k.value ==> onPath(deps[i])
    ensures k.None? ==> forall i :: 0 <= i < |deps| ==> onPath(deps[i])
    decreases |deps|
  {
    if deps == [] then None
    else if !onPath(deps[0]) then Some(0)
    else
      match FirstMissing(deps[1..], onPath)
      case None => None
      case Some(k) => Some(k + 1)
  }

  /** One dependency check per name, in order. */
  function Checks(deps: seq<string>): (s: seq<Step>)
    ensures |s| == |deps|
  {
    if deps == [] then [] else [CheckDep(deps[0])] + Checks(deps[1..])
  }

  lemma {:induction false} ChecksAt(deps: seq<string>, i: nat)
    requires i < |deps|
    ensures Checks(deps)[i] == CheckDep(deps[i])
    decreases i
  {
    if i > 0 {
      ChecksAt(deps[1..], i - 1);
    }
  }

  /** The "OK: <dep>" line texts for dependencies found. */
  function OkTexts(deps: seq<string>): (r: seq<string>)
    ensures |r| == |deps|
  {
    if deps == [] then [] else ["OK: " + deps[0]] + OkTexts(deps[1..])
  }

  /** How many dependencies the loop looks up: up to and including the first missing one. */
  function Looked(deps: seq<string>, onPath: string -> bool): (n: nat)
    ensures n <= |deps|
  {
    var k := FirstMissing(deps, onPath);
    if k.Some? then k.value + 1 else |deps|
  }

  /**
    The dependency loop: each dependency is looked up in order and logged
    "OK: <dep>" when found; the first one missing stops the loop with its name
    in the error, and none after it is looked up.
   */
  function CheckDeps(t: Task, deps: seq<string>, onPath: string -> bool): (r: (Task, seq<Step>, Option<string>))
    requires !t.closed
    ensures var k := FirstMissing(deps, onPath);
      && r.1 == Checks(deps[..Looked(deps, onPath)])
      && (k.Some? ==> r.2 == Some(MissingDep(deps[k.value])))
      && (k.None? ==> r.2 == None)
      && r.0.buf == t.buf + AsLines(OkTexts(deps[..if k.Some? then k.value else |deps|]), OK)
    ensures t.buf <= r.0.buf
    ensures r.0.done == t.done && r.0.pending == t.pending && r.0.closed == t.closed
    decreases |deps|
  {
    if deps == [] then
      assert deps[..0] == [];
      (t, [], None)
    else if !onPath(deps[0]) then
      assert deps[..1] == [deps[0]] && deps[..0] == [];
      (t, [CheckDep(deps[0])], Some(MissingDep(deps[0])))
    else
      var t1 := Log(t, OK, "OK: " + deps[0]);
      var (t2, s2, e2) := CheckDeps(t1, deps[1..], onPath);
      DepsPrefix(deps, Looked(deps, onPath));
      var m := if FirstMissing(deps, onPath).Some? then FirstMissing(deps, onPath).value else |deps|;
      DepsPrefix(deps, m);
      SeqAssoc(t.buf, [LogLine("OK: " + deps[0], OK, false, false)], AsLines(OkTexts(deps[1..][..m - 1]), OK));
      (t2, [CheckDep(deps[0])] + s2, e2)
  }

  /** A non-empty prefix of the dependencies is the first one and a prefix of the rest. */
  lemma DepsPrefix(deps: seq<string>, n: nat)
    requires 1 <= n <= |deps|
    ensures deps[..n] == [deps[0]] + deps[1..][..n - 1]
  {
  }

  // ---------------------------------------------------------------------------
  // finalize

  /** The record `finalize` registers: fields from the manifest, status "" and no process. */
  function Installed(mf: Manifest, srcType: string, srcUrl: string): Module {
    Module(mf.name, mf.version, mf.description, mf.author, Status.Unset, srcType, srcUrl, Some(mf), "", None)
  }

  /**
    The registry once an installed module of the name has been stopped: its
    process handle is cleared and nothing else changes, its status included.
   */
  function Stopped(reg: Registry, name: string): (r: Registry)
    ensures r.mods.Keys == reg.mods.Keys && r.db == reg.db && r.dataDir == reg.dataDir
    ensures forall n :: n in reg.mods && n != name ==> r.mods[n] == reg.mods[n]
    ensures name in reg.mods ==> r.mods[name].proc.None? && Moved(reg.mods[name], r.mods[name])
    ensures name in reg.mods ==> r.mods[name].status == reg.mods[name].status && r.mods[name].errorLog == reg.mods[name].errorLog
    ensures ModuleRegistry.Valid(reg) ==> ModuleRegistry.Valid(r)
  {
    if name in reg.mods then reg.(mods := reg.mods[name := StopProcess(reg.mods[name]).0]) else reg
  }

  /** The steps of replacing an installed module: stop its process, remove its directory. */
  function ReplaceSteps(reg: Registry, name: string, dst: string): seq<Step> {
    if name in reg.mods then [StopOld(reg.mods[name].proc), RemoveDir(dst)] else []
  }

  /** Replacing an installed module: the warning is logged, its process stopped and its directory removed. */
  method Replace(t: Task, reg: Registry, name: string, dst: string) returns (t': Task, reg': Registry, steps: seq<Step>)
    requires !t.closed
    ensures t' == if name in reg.mods then Log(t, Warn, UpdatingText) else t
    ensures reg' == Stopped(reg, name)
    ensures steps == ReplaceSteps(reg, name, dst)
    ensures name in reg.mods ==> steps[0].killed == reg.mods[name].proc
  {
    t', reg', steps := t, reg, [];
    if name in reg.mods {
      var (stopped, killed) := StopProcess(reg.mods[name]);
      t' := Log(t, Warn, UpdatingText);
      reg' := reg.(mods := reg.mods[name := stopped]);
      steps := [StopOld(killed), RemoveDir(dst)];
    }
  }

  /** The hook script's place in the module directory. */
  function HookPath(dst: string): string {
    JoinPath(dst, "install.sh")
  }

  /** The hook at `path` runs if the copied tree has one. */
  function HookSteps(path: string, w: World): seq<Step> {
    if w.present(path) then [RunHook(path)] else []
  }

  /** Whether the hook at `path` exists and fails. */
  predicate HookFails(path: string, w: World) {
    w.present(path) && w.hook.err.Some?
  }

  /** The hook at `path`, if the copied tree has one: its log lines and its error. */
  function Hook(t: Task, path: string, w: World): (r: (Task, Option<string>))
    requires !t.closed
    ensures !w.present(path) ==> r == (t, None)
    ensures r.1.Some? <==> HookFails(path, w)
    ensures r.1.Some? ==> r.1.value == "install.sh: " + w.hook.err.value
    ensures t.buf <= r.0.buf
    ensures r.0.done == t.done && r.0.pending == t.pending && r.0.closed == t.closed
  {
    if !w.present(path) then (t, None)
    else RunHookLogged(t, w.hook)
  }

  /** Running the hook: its output is logged line by line, then success or the error. */
  function RunHookLogged(t: Task, hook: RunOutcome): (r: (Task, Option<string>))
    requires !t.closed
    ensures r.1.Some? <==> hook.err.Some?
    ensures r.1.Some? ==> r.1.value == "install.sh: " + hook.err.value
    ensures var start := t.buf + [LogLine(HookStartText, Info, false, false)] + AsLines(OutputLines(hook.output), Info);
      r.0.buf == start + (if hook.err.None? then [LogLine(HookDoneText, OK, false, false)] else [])
    ensures t.buf <= r.0.buf
    ensures r.0.done == t.done && r.0.pending == t.pending && r.0.closed == t.closed
  {
    var t1 := Log(t, Info, HookStartText);
    var t2 := LogAll(t1, Info, OutputLines(hook.output));
    if hook.err.Some? then (t2, Some("install.sh: " + hook.err.value))
    else (Log(t2, OK, HookDoneText), None)
  }

  /**
    runLog as written: Wait returns when the command ends without joining the
    reader goroutine, which may by then have logged only the first `k` of its
    lines. This is the order in which the reader delivers the rest as soon as
    the caller logs its next line: after the "done" line on success. On
    failure the caller's next act is finish, so the unread lines (the third
    component) can only arrive after the final line.
   */
  function RunHookUnjoined(t: Task, hook: RunOutcome, k: nat): (r: (Task, Option<string>, seq<string>))
    requires !t.closed && k <= |OutputLines(hook.output)|
    ensures r.1 == RunHookLogged(t, hook).1
    ensures r.2 == if hook.err.Some? then OutputLines(hook.output)[k..] else []
    ensures r.0.done == t.done && r.0.pending == t.pending && r.0.closed == t.closed
  {
    var lines := OutputLines(hook.output);
    var t1 := LogAll(Log(t, Info, HookStartText), Info, lines[..k]);
    if hook.err.Some? then (t1, Some("install.sh: " + hook.err.value), lines[k..])
    else (LogAll(Log(t1, OK, HookDoneText), Info, lines[k..]), None, [])
  }

  /**
    With the reader joined (every line read before Wait's result is used)
    the unjoined order is RunHookLogged; a reader still at its first line
    puts the done line before the hook's output.
   */
  lemma HookOutputAfterDone(t: Task, hook: RunOutcome)
    requires !t.closed && hook.err.None? && OutputLines(hook.output) != []
    ensures RunHookUnjoined(t, hook, |OutputLines(hook.output)|).0 == RunHookLogged(t, hook).0
    ensures var b := RunHookUnjoined(t, hook, 0).0.buf;
      && |b| > |t.buf| + 2
      && b[|t.buf| + 1] == LogLine(HookDoneText, OK, false, false)
      && b[|t.buf| + 2] == LogLine(OutputLines(hook.output)[0], Info, false, false)
    ensures RunHookUnjoined(t, hook, 0).0.buf != RunHookLogged(t, hook).0.buf
  {
    var lines := OutputLines(hook.output);
    assert lines[..|lines|] == lines;
    LateLinesFollowDone(t, hook);
    var joined := RunHookLogged(t, hook).0.buf;
    assert joined == t.buf + [LogLine(HookStartText, Info, false, false)] + AsLines(lines, Info) + [LogLine(HookDoneText, OK, false, false)];
    AsLinesAt(lines, Info, 0);
    assert joined[|t.buf| + 1] == LogLine(lines[0], Info, false, false);
    FirstOutputNotDone(hook.output);
  }

  /** A reader still at its first line: start, done, then the output. */
  lemma LateLinesFollowDone(t: Task, hook: RunOutcome)
    requires !t.closed && hook.err.None? && OutputLines(hook.output) != []
    ensures var b := RunHookUnjoined(t, hook, 0).0.buf;
      && |b| > |t.buf| + 2
      && b[|t.buf| + 1] == LogLine(HookDoneText, OK, false, false)
      && b[|t.buf| + 2] == LogLine(OutputLines(hook.output)[0], Info, false, false)
  {
    var lines := OutputLines(hook.output);
    assert lines[0..] == lines && lines[..0] == [];
    var b0 := Log(LogAll(Log(t, Info, HookStartText), Info, []), OK, HookDoneText).buf;
    assert b0 == t.buf + [LogLine(HookStartText, Info, false, false), LogLine(HookDoneText, OK, false, false)];
    assert RunHookUnjoined(t, hook, 0).0.buf == b0 + AsLines(lines, Info);
    AsLinesAt(lines, Info, 0);
  }

  /** An output line is indented, so it is never the done line's text. */
  lemma FirstOutputNotDone(out: string)
    requires OutputLines(out) != []
    ensures OutputLines(out)[0] != HookDoneText
  {
    var lines := OutputLines(out);
    OutputLinesSplit(out);
    OutputLinesShape(Split(out, '\n'));
    assert AllShaped(lines);
    ShapedNotDone(lines[0]);
  }

  lemma ShapedNotDone(l: string)
    requires Shaped(l)
    ensures l != HookDoneText
  {
    assert l[0] == l[..2][0] == ' ';
    assert HookDoneText[0] == 'i';
  }

  /**
    A failing hook whose reader has not finished: the task is finished with
    lines still unread, so each of them is logged after the final line, and
    with room on the channel the channel is already closed, where the send
    in log panics.
   */
  lemma HookOutputAfterFinish(t: Task, hook: RunOutcome, k: nat)
    requires !t.done && !t.closed && t.pending.None?
    requires hook.err.Some? && k < |OutputLines(hook.output)|
    ensures var r := RunHookUnjoined(t, hook, k);
      var fin := FinishWith(r.0, r.1);
      && r.2 != []
      && Queue(fin) != [] && Queue(fin)[|Queue(fin)| - 1] == FinalLine(r.1)
      && (|r.0.ch| < ChanCap ==> fin.closed)
  {
  }

  /**
    The steps finalize takes for the manifest `mf` from `src`, in order:
    the dependency checks up to the first missing one; then, when none is
    missing, the replacement of an installed module, the copy, the hook
    (after a good copy, when there is one) and, when nothing failed, the
    registration.
   */
  function Trace(reg: Registry, mf: Manifest, src: string, dst: string, w: World, registered: bool): seq<Step> {
    var checks := Checks(mf.deps[..Looked(mf.deps, w.onPath)]);
    if FirstMissing(mf.deps, w.onPath).Some? then checks
    else
      checks + ReplaceSteps(reg, mf.name, dst) + [CopyTree(src, dst)]
        + (if w.copyErr.Some? then [] else HookSteps(HookPath(dst), w))
        + (if registered then [RegisterModule(mf.name)] else [])
  }

  /** Whether finalize gets through with the manifest `mf`: no dependency missing, the copy and the hook succeed. */
  predicate Succeeds(mf: Manifest, dst: string, w: World) {
    FirstMissing(mf.deps, w.onPath).None? && w.copyErr.None? && !HookFails(HookPath(dst), w)
  }

  /**
    What finalize guarantees once the manifest `mf` is loaded: the steps
    taken, the error of the first failure, and the registry left behind. A
    missing dependency changes nothing; a failed copy or hook leaves an old
    module of the name stopped but registered with its status; success
    registers the installed module.
   */
  predicate FinalizedFrom(reg: Registry, mf: Manifest, src: string, srcType: string, srcUrl: string, w: World,
                          encode: Option<Manifest> -> string, o: Outcome)
  {
    var k := FirstMissing(mf.deps, w.onPath);
    var dst := ModuleDir(reg.dataDir, mf.name);
    && o.steps == Trace(reg, mf, src, dst, w, o.err.None?)
    && (o.err.None? <==> Succeeds(mf, dst, w))
    && (k.Some? ==> o.err == Some(MissingDep(mf.deps[k.value])) && o.reg == reg)
    && (k.None? && w.copyErr.Some? ==> o.err == Some("copy: " + w.copyErr.value) && o.reg == Stopped(reg, mf.name))
    && (k.None? && w.copyErr.None? && HookFails(HookPath(dst), w) ==>
          o.err == Some("install.sh: " + w.hook.err.value) && o.reg == Stopped(reg, mf.name))
    && (o.err.None? ==> o.reg == Register(Stopped(reg, mf.name), Installed(mf, srcType, srcUrl), encode))
  }

  /**
    After a successful copy: the hook runs if there is one, and only if it
    succeeds is the module registered.
   */
  method AfterCopy(reg: Registry, t: Task, mf: Manifest, hookPath: string, srcType: string, srcUrl: string, w: World,
                   encode: Option<Manifest> -> string) returns (o: Outcome)
    requires !t.closed
    ensures o.steps == HookSteps(hookPath, w) + (if o.err.None? then [RegisterModule(mf.name)] else [])
    ensures o.err.Some? <==> HookFails(hookPath, w)
    ensures o.err.Some? ==> o.reg == reg && o.err == Some("install.sh: " + w.hook.err.value)
    ensures o.err.None? ==> o.reg == Register(reg, Installed(mf, srcType, srcUrl), encode)
    ensures t.buf <= o.task.buf
    ensures o.task.done == t.done && o.task.pending == t.pending && o.task.closed == t.closed
  {
    var (t5, hookErr) := Hook(t, hookPath, w);
    var hookSteps := HookSteps(hookPath, w);
    if hookErr.Some? {
      o := Outcome(t5, reg, hookSteps, hookErr);
    } else {
      var t6 := Log(t5, OK, InstalledText(mf.name));
      o := Outcome(t6, Register(reg, Installed(mf, srcType, srcUrl), encode), hookSteps + [RegisterModule(mf.name)], None);
    }
  }

  /**
    The second half of finalize, once the manifest and the dependencies are
    accepted: an installed module of the same name is stopped and its
    directory removed, then the tree is copied and AfterCopy runs.
   */
  method Deploy(reg: Registry, t: Task, mf: Manifest, src: string, dst: string, srcType: string, srcUrl: string,
                w: World, encode: Option<Manifest> -> string) returns (o: Outcome)
    requires !t.closed
    ensures o.steps == ReplaceSteps(reg, mf.name, dst) + [CopyTree(src, dst)]
      + (if w.copyErr.Some? then [] else HookSteps(HookPath(dst), w))
      + (if o.err.None? then [RegisterModule(mf.name)] else [])
    ensures o.err.None? <==> w.copyErr.None? && !HookFails(HookPath(dst), w)
    ensures w.copyErr.Some? ==> o.err == Some("copy: " + w.copyErr.value) && o.reg == Stopped(reg, mf.name)
    ensures w.copyErr.None? && HookFails(HookPath(dst), w) ==>
      o.err == Some("install.sh: " + w.hook.err.value) && o.reg == Stopped(reg, mf.name)
    ensures o.err.None? ==> o.reg == Register(Stopped(reg, mf.name), Installed(mf, srcType, srcUrl), encode)
    ensures t.buf <= o.task.buf
    ensures o.task.done == t.done && o.task.pending == t.pending && o.task.closed == t.closed
  {
    var t3, reg3, replSteps := Replace(t, reg, mf.name, dst);
    var t4 := Log(t3, Info, CopyingText);
    var s4 := replSteps + [CopyTree(src, dst)];
    if w.copyErr.Some? {
      o := Outcome(t4, reg3, s4, Some("copy: " + w.copyErr.value));
    } else {
      var a := AfterCopy(reg3, t4, mf, HookPath(dst), srcType, srcUrl, w, encode);
      SeqAssoc(s4, HookSteps(HookPath(dst), w), if a.err.None? then [RegisterModule(mf.name)] else []);
      o := Outcome(a.task, a.reg, s4 + a.steps, a.err);
    }
  }

  /**
    finalize: the manifest is loaded and checked first; a manifest that does
    not load ends the installation with its error before anything is logged.
   */
  method Finalize(reg: Registry, t: Task, src: string, srcType: string, srcUrl: string, w: World,
                  encode: Option<Manifest> -> string) returns (o: Outcome)
    requires !t.closed
    ensures t.buf <= o.task.buf
    ensures o.task.done == t.done && o.task.pending == t.pending && o.task.closed == t.closed
    ensures LoadManifest(w.fs, src, w.decode).Err? ==>
      o == Outcome(t, reg, [], Some(LoadErrorText(LoadManifest(w.fs, src, w.decode).error)))
    ensures LoadManifest(w.fs, src, w.decode).Ok? ==>
      FinalizedFrom(reg, LoadManifest(w.fs, src, w.decode).value, src, srcType, srcUrl, w, encode, o)
  {
    var lm := LoadManifest(w.fs, src, w.decode);
    if lm.Err? {
      o := Outcome(t, reg, [], Some(LoadErrorText(lm.error)));
    } else {
      o := FinalizeManifest(reg, t, lm.value, src, srcType, srcUrl, w, encode);
    }
  }

  /** finalize past the manifest check: the summary line, the dependency loop, then Deploy. */
  method FinalizeManifest(reg: Registry, t: Task, mf: Manifest, src: string, srcType: string, srcUrl: string,
                          w: World, encode: Option<Manifest> -> string) returns (o: Outcome)
    requires !t.closed
    ensures t.buf <= o.task.buf
    ensures o.task.done == t.done && o.task.pending == t.pending && o.task.closed == t.closed
    ensures FinalizedFrom(reg, mf, src, srcType, srcUrl, w, encode, o)
  {
    var t1 := Log(t, Info, SummaryText(mf));
    var (t2, depSteps, missing) := CheckDeps(t1, mf.deps, w.onPath);
    if missing.Some? {
      o := Outcome(t2, reg, depSteps, missing);
    } else {
      var dst := ModuleDir(reg.dataDir, mf.name);
      var d := Deploy(reg, t2, mf, src, dst, srcType, srcUrl, w, encode);
      o := Outcome(d.task, d.reg, depSteps + d.steps, d.err);
      Deployed(reg, mf, src, srcType, srcUrl, w, encode, d, o);
    }
  }

  /** What Deploy guarantees, with the checks before it, is what finalize guarantees. */
  lemma Deployed(reg: Registry, mf: Manifest, src: string, srcType: string, srcUrl: string, w: World,
                 encode: Option<Manifest> -> string, d: Outcome, o: Outcome)
    requires FirstMissing(mf.deps, w.onPath).None?
    requires var dst := ModuleDir(reg.dataDir, mf.name);
      && d.steps == ReplaceSteps(reg, mf.name, dst) + [CopyTree(src, dst)]
        + (if w.copyErr.Some? then [] else HookSteps(HookPath(dst), w))
        + (if d.err.None? then [RegisterModule(mf.name)] else [])
      && (d.err.None? <==> w.copyErr.None? && !HookFails(HookPath(dst), w))
      && (w.copyErr.Some? ==> d.err == Some("copy: " + w.copyErr.value) && d.reg == Stopped(reg, mf.name))
      && (w.copyErr.None? && HookFails(HookPath(dst), w) ==>
            d.err == Some("install.sh: " + w.hook.err.value) && d.reg == Stopped(reg, mf.name))
      && (d.err.None? ==> d.reg == Register(Stopped(reg, mf.name), Installed(mf, srcType, srcUrl), encode))
    requires o.reg == d.reg && o.err == d.err && o.steps == Checks(mf.deps[..Looked(mf.deps, w.onPath)]) + d.steps
    ensures FinalizedFrom(reg, mf, src, srcType, srcUrl, w, encode, o)
  {
    DeployedTrace(reg, mf, src, ModuleDir(reg.dataDir, mf.name), w, d.err.None?);
    assert mf.deps[..|mf.deps|] == mf.deps;
  }

  /** With every dependency found, the trace is all the checks and then Deploy's steps. */
  lemma DeployedTrace(reg: Registry, mf: Manifest, src: string, dst: string, w: World, registered: bool)
    requires FirstMissing(mf.deps, w.onPath).None?
    ensures Trace(reg, mf, src, dst, w, registered) == Checks(mf.deps) + (ReplaceSteps(reg, mf.name, dst)
      + [CopyTree(src, dst)] + (if w.copyErr.Some? then [] else HookSteps(HookPath(dst), w))
      + (if registered then [RegisterModule(mf.name)] else []))
  {
    assert mf.deps[..|mf.deps|] == mf.deps;
  }

  // ---------------------------------------------------------------------------
  // What the trace guarantees

  /** In a phase-ordered trace every step is in a phase no earlier than every step before it. */
  lemma {:induction false} PhaseOrderPairwise(steps: seq<Step>, i: nat, j: nat)
    requires InPhaseOrder(steps) && i <= j < |steps|
    ensures Phase(steps[i]) <= Phase(steps[j])
    decreases j - i
  {
    if i < j {
      PhaseOrderPairwise(steps, i, j - 1);
    }
  }

  /** Two phase-ordered traces join in order when the second begins no earlier than the first ends. */
  lemma PhasesJoin(a: seq<Step>, b: seq<Step>)
    requires InPhaseOrder(a) && InPhaseOrder(b)
    requires b != [] ==> LastPhase(a) <= Phase(b[0])
    ensures InPhaseOrder(a + b)
    ensures LastPhase(a + b) == if b == [] then LastPhase(a) else LastPhase(b)
  {
    if b == [] {
      assert a + b == a;
    } else {
      forall i | 0 < i < |a + b|
        ensures Phase((a + b)[i - 1]) <= Phase((a + b)[i])
      {
        if i == |a| && a != [] {
          assert (a + b)[i - 1] == a[|a| - 1] && (a + b)[i] == b[0];
        }
      }
    }
  }

  /** The dependency checks are all in the first phase. */
  lemma ChecksPhase(deps: seq<string>)
    ensures InPhaseOrder(Checks(deps)) && LastPhase(Checks(deps)) == 0
  {
    forall i | 0 <= i < |deps|
      ensures Checks(deps)[i] == CheckDep(deps[i])
    {
      ChecksAt(deps, i);
    }
  }

  /**
    finalize never goes back to an earlier phase: dependency checks, stop,
    remove, copy, hook, register, in that order, whatever happens.
   */
  lemma TraceInPhaseOrder(reg: Registry, mf: Manifest, src: string, dst: string, w: World, registered: bool)
    ensures InPhaseOrder(Trace(reg, mf, src, dst, w, registered))
  {
    var checks := Checks(mf.deps[..Looked(mf.deps, w.onPath)]);
    ChecksPhase(mf.deps[..Looked(mf.deps, w.onPath)]);
    if FirstMissing(mf.deps, w.onPath).None? {
      DeployOrder(checks, ReplaceSteps(reg, mf.name, dst), CopyTree(src, dst),
        if w.copyErr.Some? then [] else HookSteps(HookPath(dst), w),
        if registered then [RegisterModule(mf.name)] else []);
    }
  }

  /** The shape of a trace past the checks: stop and remove, copy, at most one hook, at most one registration. */
  lemma DeployOrder(checks: seq<Step>, r: seq<Step>, c: Step, h: seq<Step>, g: seq<Step>)
    requires InPhaseOrder(checks) && LastPhase(checks) == 0
    requires r == [] || (|r| == 2 && r[0].StopOld? && r[1].RemoveDir?)
    requires c.CopyTree?
    requires h == [] || (|h| == 1 && h[0].RunHook?)
    requires g == [] || (|g| == 1 && g[0].RegisterModule?)
    ensures InPhaseOrder(checks + r + [c] + h + g)
  {
    PhasesJoin(checks, r);
    PhasesJoin(checks + r, [c]);
    PhasesJoin(checks + r + [c], h);
    PhasesJoin(checks + r + [c] + h, g);
  }

  /**
    A missing dependency ends finalize during the checks: every step taken
    is a dependency check, the last of them for the missing one, and nothing
    is stopped, removed, copied or registered.
   */
  lemma MissingDependencyFirst(reg: Registry, mf: Manifest, src: string, dst: string, w: World, registered: bool)
    requires FirstMissing(mf.deps, w.onPath).Some?
    ensures var s := Trace(reg, mf, src, dst, w, registered);
      && |s| == FirstMissing(mf.deps, w.onPath).value + 1
      && (forall i :: 0 <= i < |s| ==> s[i] == CheckDep(mf.deps[i]))
      && s[|s| - 1] == CheckDep(mf.deps[FirstMissing(mf.deps, w.onPath).value])
  {
    var n := Looked(mf.deps, w.onPath);
    forall i | 0 <= i < n
      ensures Checks(mf.deps[..n])[i] == CheckDep(mf.deps[i])
    {
      ChecksAt(mf.deps[..n], i);
    }
  }

  /**
    The module is registered only as the last step, after its tree was
    copied and, when the tree has a hook, after the hook ran.
   */
  lemma RegisteredLast(reg: Registry, mf: Manifest, src: string, dst: string, w: World)
    requires FirstMissing(mf.deps, w.onPath).None? && w.copyErr.None?
    ensures var s := Trace(reg, mf, src, dst, w, true);
      && s[|s| - 1] == RegisterModule(mf.name)
      && CopyTree(src, dst) in s[..|s| - 1]
      && (w.present(HookPath(dst)) ==> RunHook(HookPath(dst)) in s[..|s| - 1])
  {
    var s := Trace(reg, mf, src, dst, w, true);
    var front := Checks(mf.deps[..Looked(mf.deps, w.onPath)]) + ReplaceSteps(reg, mf.name, dst) + [CopyTree(src, dst)];
    var hooks := HookSteps(HookPath(dst), w);
    assert s == front + hooks + [RegisterModule(mf.name)];
    assert s[..|s| - 1] == front + hooks;
    assert (front + hooks)[|front| - 1] == CopyTree(src, dst);
    if w.present(HookPath(dst)) {
      assert (front + hooks)[|front|] == RunHook(HookPath(dst));
    }
  }

  /**
    An update whose copy or hook fails leaves the old module registered with
    its process stopped but its status as it was: an "active" module is
    "active" with no process behind it until the exit watcher runs
    (FailedUpdateThenExit).
   */
  lemma FailedUpdateStaysActive(reg: Registry, mf: Manifest, src: string, srcType: string, srcUrl: string, w: World,
                                encode: Option<Manifest> -> string, o: Outcome)
    requires FinalizedFrom(reg, mf, src, srcType, srcUrl, w, encode, o)
    requires FirstMissing(mf.deps, w.onPath).None? && o.err.Some?
    requires mf.name in reg.mods && reg.mods[mf.name].status == Active
    ensures mf.name in o.reg.mods && o.reg.mods[mf.name].status == Active && o.reg.mods[mf.name].proc.None?
  {
  }

  /**
    The kill that stopped the old process wakes its exit watcher, and
    finalize writes no status on a failed update: the watcher then finds the
    module "active" and records "error" with the exit text, in memory and in
    the table.
   */
  lemma FailedUpdateThenExit(reg: Registry, mf: Manifest, src: string, srcType: string, srcUrl: string, w: World,
                             encode: Option<Manifest> -> string, o: Outcome)
    requires FinalizedFrom(reg, mf, src, srcType, srcUrl, w, encode, o)
    requires FirstMissing(mf.deps, w.onPath).None? && o.err.Some?
    requires mf.name in reg.mods && reg.mods[mf.name].status == Active && reg.mods[mf.name].proc.Some?
    ensures mf.name in o.reg.mods
    ensures Exited(o.reg, mf.name).mods[mf.name].status == Failed
    ensures Exited(o.reg, mf.name).mods[mf.name].errorLog == ExitedText
    ensures mf.name in o.reg.db ==>
      Exited(o.reg, mf.name).db[mf.name].status == Failed && Exited(o.reg, mf.name).db[mf.name].errorLog == ExitedText
  {
    FailedUpdateStaysActive(reg, mf, src, srcType, srcUrl, w, encode, o);
  }

  // ---------------------------------------------------------------------------
  // The two installers

  datatype Install = Install(task: Task, reg: Registry, tmp: string, steps: seq<Step>, err: Option<string>)

  /** Where a repository is cloned: "hf_clone_" and the repository's last path element, in the temp directory. */
  function CloneDir(tempDir: string, url: string): string {
    JoinPath(tempDir, "hf_clone_" + Base(TrimSuffix(url, ".git")))
  }

  function FinishWith(t: Task, err: Option<string>): (r: Task)
    requires !t.done && !t.closed && t.pending.None?
    ensures Queue(r) == Queue(t) + [FinalLine(err)] && r.done
  {
    Finish(t, err)
  }

  /**
    InstallGitHub: logs the clone, clones into the clone directory with the
    git output logged line by line, and on success hands the clone to
    finalize with source type "github" and the URL. The task always ends with
    exactly one final line, carrying the error if there was one.
   */
  method InstallGitHub(reg: Registry, url: string, tempDir: string, clone: RunOutcome, w: World,
                       encode: Option<Manifest> -> string) returns (r: Install)
    ensures r.tmp == CloneDir(tempDir, url)
    ensures r.task.done && r.task.buf != [] && r.task.buf[0] == LogLine("Клонирование: " + url, Info, false, false)
    ensures LoggedClone(url, clone).buf <= r.task.buf
    ensures Queue(r.task) != [] && Queue(r.task)[|Queue(r.task)| - 1] == FinalLine(r.err)
    ensures clone.err.Some? ==> r.reg == reg && r.steps == [] && r.err == Some("git clone: " + clone.err.value)
    ensures clone.err.None? && LoadManifest(w.fs, r.tmp, w.decode).Err? ==>
      r.reg == reg && r.steps == [] && r.err == Some(LoadErrorText(LoadManifest(w.fs, r.tmp, w.decode).error))
    ensures clone.err.None? && LoadManifest(w.fs, r.tmp, w.decode).Ok? ==>
      FinalizedFrom(reg, LoadManifest(w.fs, r.tmp, w.decode).value, r.tmp, "github", url, w, encode,
                    Outcome(r.task, r.reg, r.steps, r.err))
  {
    var t := LoggedClone(url, clone);
    var tmp := CloneDir(tempDir, url);
    if clone.err.Some? {
      var e := Some("git clone: " + clone.err.value);
      r := Install(FinishWith(t, e), reg, tmp, [], e);
    } else {
      var o := Finalize(reg, t, tmp, "github", url, w, encode);
      r := Install(FinishWith(o.task, o.err), o.reg, tmp, o.steps, o.err);
    }
  }

  /** A new task after the clone: its first line, then git's output, then "Клонировано" on success. */
  function LoggedClone(url: string, clone: RunOutcome): (t: Task)
    ensures !t.done && !t.closed && t.pending.None?
    ensures t.buf != [] && t.buf[0] == LogLine("Клонирование: " + url, Info, false, false)
    ensures t.buf == [LogLine("Клонирование: " + url, Info, false, false)] + AsLines(OutputLines(clone.output), Info)
      + (if clone.err.None? then [LogLine("Клонировано", OK, false, false)] else [])
  {
    var first := LogLine("Клонирование: " + url, Info, false, false);
    var t0 := Log(NewTask(), Info, "Клонирование: " + url);
    assert t0.buf == [first];
    var t1 := LogAll(t0, Info, OutputLines(clone.output));
    assert t1.buf == [first] + AsLines(OutputLines(clone.output), Info);
    if clone.err.None? then Log(t1, OK, "Клонировано") else t1
  }

  /**
    The clone directory is one new element directly below the temp
    directory, whatever the URL (for a URL whose last element is not all slashes).
   */
  lemma CloneDirIsChild(tempDir: string, url: string)
    requires tempDir != "" && CleanElems(tempDir) != []
    requires Base(TrimSuffix(url, ".git")) != "/"
    ensures var elem := "hf_clone_" + Base(TrimSuffix(url, ".git"));
      && CloneDir(tempDir, url) == Render(Rooted(tempDir), CleanElems(tempDir) + [elem])
      && HasPrefix(CloneDir(tempDir, url), Clean(tempDir) + "/")
  {
    var b := Base(TrimSuffix(url, ".git"));
    var elem := "hf_clone_" + b;
    assert '/' !in elem by {
      assert forall k :: 0 <= k < |elem| ==> elem[k] == if k < 9 then "hf_clone_"[k] else b[k - 9];
    }
    assert elem != "." && elem != ".." by {
      assert |elem| >= 9;
    }
    CleanOfElement(elem);
    Unzip.PlainNamesAccepted(tempDir, elem);
    Unzip.EntryPathResolves(tempDir, elem);
  }

  /**
    InstallZip: the archive is unpacked next to itself (into "<zip>_dir"),
    the manifest directory is searched for there, and that directory is
    handed to finalize with source type "zip" and no URL. The unzip error is
    UnzipErrors.Run's, which returns f.Open's error where the code panics.
   */
  method InstallZip(reg: Registry, zipPath: string, zip: UnzipErrors.Archive, w: World,
                    encode: Option<Manifest> -> string) returns (r: Install)
    ensures r.tmp == zipPath + "_dir"
    ensures r.task.done && r.task.buf != [] && r.task.buf[0] == LogLine("Распаковка архива...", Info, false, false)
    ensures Queue(r.task) != [] && Queue(r.task)[|Queue(r.task)| - 1] == FinalLine(r.err)
    ensures UnzipErrors.Run(r.tmp, zip).Some? ==>
      r.reg == reg && r.steps == [] && r.err == Some("unzip: " + UnzipErrors.Run(r.tmp, zip).value)
    ensures UnzipErrors.Run(r.tmp, zip).None? && FindManifestDir(w.fs, r.tmp).Err? ==>
      r.reg == reg && r.steps == [] && r.err == Some(FindErrorText(FindManifestDir(w.fs, r.tmp).error))
    ensures UnzipErrors.Run(r.tmp, zip).None? && FindManifestDir(w.fs, r.tmp).Ok? ==>
      var src := FindManifestDir(w.fs, r.tmp).value;
      && (LoadManifest(w.fs, src, w.decode).Err? ==>
            r.reg == reg && r.steps == [] && r.err == Some(LoadErrorText(LoadManifest(w.fs, src, w.decode).error)))
      && (LoadManifest(w.fs, src, w.decode).Ok? ==>
            FinalizedFrom(reg, LoadManifest(w.fs, src, w.decode).value, src, "zip", "", w, encode,
                          Outcome(r.task, r.reg, r.steps, r.err)))
  {
    var t0 := Log(NewTask(), Info, "Распаковка архива...");
    var tmp := zipPath + "_dir";
    var unzipErr := UnzipErrors.Run(tmp, zip);
    if unzipErr.Some? {
      var e := Some("unzip: " + unzipErr.value);
      r := Install(FinishWith(t0, e), reg, tmp, [], e);
    } else {
      r := InstallUnpacked(reg, tmp, w, encode);
    }
  }

  /** The rest of an archive install once the archive is unpacked into tmp: find, load and finalize the module. */
  method InstallUnpacked(reg: Registry, tmp: string, w: World, encode: Option<Manifest> -> string) returns (r: Install)
    ensures r.tmp == tmp
    ensures r.task.done && r.task.buf != [] && r.task.buf[0] == LogLine("Распаковка архива...", Info, false, false)
    ensures Queue(r.task) != [] && Queue(r.task)[|Queue(r.task)| - 1] == FinalLine(r.err)
    ensures FindManifestDir(w.fs, tmp).Err? ==>
      r.reg == reg && r.steps == [] && r.err == Some(FindErrorText(FindManifestDir(w.fs, tmp).error))
    ensures FindManifestDir(w.fs, tmp).Ok? ==>
      var src := FindManifestDir(w.fs, tmp).value;
      && (LoadManifest(w.fs, src, w.decode).Err? ==>
            r.reg == reg && r.steps == [] && r.err == Some(LoadErrorText(LoadManifest(w.fs, src, w.decode).error)))
      && (LoadManifest(w.fs, src, w.decode).Ok? ==>
            FinalizedFrom(reg, LoadManifest(w.fs, src, w.decode).value, src, "zip", "", w, encode,
                          Outcome(r.task, r.reg, r.steps, r.err)))
  {
    var t1 := Unpacked();
    var found := FindManifestDir(w.fs, tmp);
    if found.Err? {
      var e := Some(FindErrorText(found.error));
      r := Install(FinishWith(t1, e), reg, tmp, [], e);
    } else {
      var o := Finalize(reg, t1, found.value, "zip", "", w, encode);
      r := Install(FinishWith(o.task, o.err), o.reg, tmp, o.steps, o.err);
    }
  }

  /** The task after a successful unpack: its two lines. */
  function Unpacked(): (t: Task)
    ensures !t.done && !t.closed && t.pending.None?
    ensures t.buf == [LogLine("Распаковка архива...", Info, false, false), LogLine("Распаковано", OK, false, false)]
  {
    Log(Log(NewTask(), Info, "Распаковка архива..."), OK, "Распаковано")
  }
}
