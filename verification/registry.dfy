/**
  The module registry: a map from module name to its record, the rows the
  registry keeps in the `modules` table, and the transitions that move a
  module between the statuses "" (just registered), "inactive", "active"
  and "error".

  The operating system is a Host value: the server's environment, which
  paths exist, which log files can be opened, and what starting a command
  gives (a process id or an error text). A process exit is an explicit
  event, Exited. The table is a second map from name to row.
 */
module ModuleRegistry {
  import opened Wrappers
  import opened GoStrings
  import opened GoPath
  import opened Manifests

  datatype Status = Unset | Inactive | Active | Failed

  /** The text stored in the `status` column and shown by the UI. */
  function StatusText(s: Status): string {
    match s
    case Unset => ""
    case Inactive => "inactive"
    case Active => "active"
    case Failed => "error"
  }

  /** What `exec.Command` is given: program, arguments, working directory, environment, log file. */
  datatype Command = Command(path: string, args: seq<string>, dir: string, env: seq<string>, output: Option<string>)

  datatype Proc = Proc(pid: nat, cmd: Command)

  datatype Module = Module(
    name: string,
    version: string,
    description: string,
    author: string,
    status: Status,
    sourceType: string,
    sourceUrl: string,
    manifest: Option<Manifest>,
    errorLog: string,
    proc: Option<Proc>)

  /** A row of the `modules` table (the id and the install time are left out). */
  datatype Row = Row(
    name: string,
    version: string,
    description: string,
    author: string,
    status: Status,
    sourceType: string,
    sourceUrl: string,
    manifestJson: string,
    errorLog: string)

  datatype Registry = Registry(mods: map<string, Module>, db: map<string, Row>, dataDir: string)

  datatype Host = Host(
    environ: seq<string>,
    present: string -> bool,
    canOpen: string -> bool,
    launch: Command -> Result<nat, string>)

  /** Every entry is filed under its own name, in memory and in the table. */
  predicate Valid(reg: Registry) {
    && (forall n :: n in reg.mods ==> reg.mods[n].name == n)
    && (forall n :: n in reg.db ==> reg.db[n].name == n)
  }

  // ---------------------------------------------------------------------------
  // Paths

  function ModulesDir(dataDir: string): string {
    JoinPath(dataDir, "modules")
  }

  function ModuleDir(dataDir: string, name: string): string {
    JoinPath(ModulesDir(dataDir), name)
  }

  function ModuleDataDir(dataDir: string, name: string): string {
    JoinAll([dataDir, "module_data", name])
  }

  function ModuleLogPath(dataDir: string, name: string): string {
    JoinAll([dataDir, "logs", "module-" + name + ".log"])
  }

  // ---------------------------------------------------------------------------
  // The child environment

  /** The manifest's `env` as `key=value` entries, in the map's iteration order. */
  function EnvEntries(env: seq<(string, string)>): (r: seq<string>)
    ensures |r| == |env|
  {
    if env == [] then []
    else EnvEntries(env[..|env| - 1]) + [env[|env| - 1].0 + "=" + env[|env| - 1].1]
  }

  /** The environment list of a module's process, in the order it is built. */
  function ModuleEnv(environ: seq<string>, dataDir: string, name: string, mf: Manifest): seq<string> {
    environ
    + ["MODULE_NAME=" + name, "MODULE_DIR=" + ModuleDir(dataDir, name), "DATA_DIR=" + ModuleDataDir(dataDir, name)]
    + (if mf.port != 0 then ["PORT=" + FormatInt(mf.port)] else [])
    + EnvEntries(mf.env)
  }

  /**
    The value a child sees for `key`: os/exec removes duplicate keys keeping
    the last entry, so the last `key=` entry wins.
   */
  function Lookup(env: seq<string>, key: string): Option<string> {
    if env == [] then None
    else
      var last := env[|env| - 1];
      if HasPrefix(last, key + "=") then Some(last[|key| + 1..])
      else Lookup(env[..|env| - 1], key)
  }

  /** The manifest's value for `key`, the last one if a key were repeated. */
  function EnvValue(env: seq<(string, string)>, key: string): Option<string> {
    if env == [] then None
    else if env[|env| - 1].0 == key then Some(env[|env| - 1].1)
    else EnvValue(env[..|env| - 1], key)
  }

  /**
    The reference for what a module's process sees: its manifest's own
    entries first, then the three module variables, then PORT when the
    manifest sets a port, and otherwise whatever the server's environment says.
   */
  function ChildSees(environ: seq<string>, dataDir: string, name: string, mf: Manifest, key: string): Option<string> {
    if EnvValue(mf.env, key).Some? then EnvValue(mf.env, key)
    else if key == "MODULE_NAME" then Some(name)
    else if key == "MODULE_DIR" then Some(ModuleDir(dataDir, name))
    else if key == "DATA_DIR" then Some(ModuleDataDir(dataDir, name))
    else if key == "PORT" && mf.port != 0 then Some(FormatInt(mf.port))
    else Lookup(environ, key)
  }

  predicate PlainKeys(env: seq<(string, string)>) {
    forall i :: 0 <= i < |env| ==> '=' !in env[i].0
  }

  lemma {:induction false} LookupAppend(a: seq<string>, b: seq<string>, key: string)
    ensures Lookup(a + b, key) == if Lookup(b, key).Some? then Lookup(b, key) else Lookup(a, key)
    decreases |b|
  {
    if b == [] {
      assert a + b == a;
    } else {
      var n := |b|;
      assert (a + b)[|a + b| - 1] == b[n - 1];
      assert (a + b)[..|a + b| - 1] == a + b[..n - 1];
      LookupAppend(a, b[..n - 1], key);
    }
  }

  /** `k=v` starts with `key=` exactly when the keys agree, for keys without '='. */
  lemma EntryKey(k: string, v: string, key: string)
    requires '=' !in k && '=' !in key
    ensures HasPrefix(k + "=" + v, key + "=") <==> k == key
    ensures (k + "=" + v)[|k| + 1..] == v
  {
    HeadPrefix(k, v, key, "", '=');
    assert key + "=" + "" == key + "=";
    assert k + "=" + v == k + ['='] + v;
  }

  lemma {:induction false} LookupEntries(env: seq<(string, string)>, key: string)
    requires PlainKeys(env) && '=' !in key
    ensures Lookup(EnvEntries(env), key) == EnvValue(env, key)
    decreases |env|
  {
    if env != [] {
      var n := |env|;
      var (k, v) := env[n - 1];
      var es := EnvEntries(env);
      assert es == EnvEntries(env[..n - 1]) + [k + "=" + v];
      assert es[|es| - 1] == k + "=" + v;
      assert es[..|es| - 1] == EnvEntries(env[..n - 1]);
      EntryKey(k, v, key);
      LookupEntries(env[..n - 1], key);
    }
  }

  lemma FixedEntry(key: string, value: string, other: string)
    requires '=' !in key && '=' !in other
    ensures Lookup([key + "=" + value], other) == if key == other then Some(value) else None
  {
    EntryKey(key, value, other);
    assert [key + "=" + value][..0] == [];
  }

  /** Three entries with distinct plain keys: the last entry of a key gives its value. */
  lemma ThreeLookup(k1: string, v1: string, k2: string, v2: string, k3: string, v3: string, key: string)
    requires '=' !in k1 && '=' !in k2 && '=' !in k3 && '=' !in key
    ensures Lookup([k1 + "=" + v1, k2 + "=" + v2, k3 + "=" + v3], key) ==
      if key == k3 then Some(v3) else if key == k2 then Some(v2) else if key == k1 then Some(v1) else None
  {
    var a, b, c := k1 + "=" + v1, k2 + "=" + v2, k3 + "=" + v3;
    assert [a, b, c] == [a] + [b] + [c];
    LookupAppend([a] + [b], [c], key);
    LookupAppend([a], [b], key);
    FixedEntry(k1, v1, key);
    FixedEntry(k2, v2, key);
    FixedEntry(k3, v3, key);
  }

  /** The three module variables, looked up on their own. */
  lemma FixedLookup(name: string, dir: string, data: string, key: string)
    requires '=' !in key
    ensures Lookup(["MODULE_NAME=" + name, "MODULE_DIR=" + dir, "DATA_DIR=" + data], key) ==
      if key == "MODULE_NAME" then Some(name)
      else if key == "MODULE_DIR" then Some(dir)
      else if key == "DATA_DIR" then Some(data)
      else None
  {
    assert "MODULE_NAME=" + name == "MODULE_NAME" + "=" + name;
    assert "MODULE_DIR=" + dir == "MODULE_DIR" + "=" + dir;
    assert "DATA_DIR=" + data == "DATA_DIR" + "=" + data;
    ThreeLookup("MODULE_NAME", name, "MODULE_DIR", dir, "DATA_DIR", data, key);
  }

  lemma PortLookup(port: int, key: string)
    requires '=' !in key
    ensures Lookup(if port != 0 then ["PORT=" + FormatInt(port)] else [], key) ==
      if key == "PORT" && port != 0 then Some(FormatInt(port)) else None
  {
    if port != 0 {
      FixedEntry("PORT", FormatInt(port), key);
    }
  }

  /**
    The list the registry builds gives a module's process exactly the
    environment ChildSees describes: the manifest overrides everything, the
    module variables override the server's, and with port 0 the server's own
    PORT, if any, leaks through.
   */
  lemma ModuleEnvSees(environ: seq<string>, dataDir: string, name: string, mf: Manifest, key: string)
    requires PlainKeys(mf.env) && '=' !in key
    ensures Lookup(ModuleEnv(environ, dataDir, name, mf), key) == ChildSees(environ, dataDir, name, mf, key)
  {
    var dir, data := ModuleDir(dataDir, name), ModuleDataDir(dataDir, name);
    var fixed := ["MODULE_NAME=" + name, "MODULE_DIR=" + dir, "DATA_DIR=" + data];
    var port: seq<string> := if mf.port != 0 then ["PORT=" + FormatInt(mf.port)] else [];
    assert ModuleEnv(environ, dataDir, name, mf) == environ + fixed + port + EnvEntries(mf.env);
    LookupEntries(mf.env, key);
    LookupAppend(environ + fixed + port, EnvEntries(mf.env), key);
    LookupAppend(environ + fixed, port, key);
    LookupAppend(environ, fixed, key);
    FixedLookup(name, dir, data, key);
    PortLookup(mf.port, key);
  }

  /** Decoded JSON never repeats a key, so the value found is the entry's own. */
  lemma {:induction false} EnvValueAt(env: seq<(string, string)>, i: nat)
    requires EnvKeysUnique(env) && i < |env|
    ensures EnvValue(env, env[i].0) == Some(env[i].1)
    decreases |env|
  {
    var n := |env|;
    if i < n - 1 {
      assert env[n - 1].0 != env[i].0;
      var init := env[..n - 1];
      assert EnvKeysUnique(init) by {
        forall a, b | 0 <= a < b < |init| ensures init[a].0 != init[b].0 {
          assert init[a] == env[a] && init[b] == env[b];
        }
      }
      assert env[..n - 1][i] == env[i];
      EnvValueAt(env[..n - 1], i);
    }
  }

  // ---------------------------------------------------------------------------
  // Starting and stopping a process

  predicate HasEntrypoint(m: Module) {
    m.manifest.Some? && m.manifest.value.entrypoint != ""
  }

  function EntryPath(dataDir: string, m: Module): string
    requires m.manifest.Some?
  {
    JoinPath(ModuleDir(dataDir, m.name), m.manifest.value.entrypoint)
  }

  function EntryMissing(entrypoint: string): string {
    "entrypoint " + Quote(entrypoint) + " not found"
  }

  /**
    startProcess: nothing to start without a manifest or an entrypoint; a
    missing entrypoint file is reported before any start; a failed start is
    reported with the prefix "start: "; otherwise the process runs the
    entrypoint in the module's directory with the manifest's arguments and the
    module environment, with output appended to the module's log when it opens.
   */
  function StartProcess(dataDir: string, m: Module, host: Host): (r: Result<Option<Proc>, string>)
    ensures r == Ok(None) <==> !HasEntrypoint(m)
    ensures HasEntrypoint(m) ==>
      (r == Err(EntryMissing(m.manifest.value.entrypoint)) <==> !host.present(EntryPath(dataDir, m)))
    ensures HasEntrypoint(m) && host.present(EntryPath(dataDir, m)) ==>
      (r.Err? <==> host.launch(CommandOf(dataDir, m, host)).Err?)
    ensures r.Err? && host.present(EntryPath(dataDir, m)) ==>
      r.error == "start: " + host.launch(CommandOf(dataDir, m, host)).error
    ensures r.Ok? && r.value.Some? ==>
      && r.value.value.cmd == CommandOf(dataDir, m, host)
      && host.launch(r.value.value.cmd) == Ok(r.value.value.pid)
  {
    if !HasEntrypoint(m) then Ok(None)
    else if !host.present(EntryPath(dataDir, m)) then Err(EntryMissing(m.manifest.value.entrypoint))
    else
      var cmd := CommandOf(dataDir, m, host);
      match host.launch(cmd)
      case Err(e) =>
        assert ("start: " + e)[0] != EntryMissing(m.manifest.value.entrypoint)[0];
        Err("start: " + e)
      case Ok(pid) => Ok(Some(Proc(pid, cmd)))
  }

  /** The command a module's process is started with. */
  function CommandOf(dataDir: string, m: Module, host: Host): (c: Command)
    requires m.manifest.Some?
    ensures c.path == EntryPath(dataDir, m) && c.dir == ModuleDir(dataDir, m.name)
    ensures c.args == m.manifest.value.args
    ensures c.env == ModuleEnv(host.environ, dataDir, m.name, m.manifest.value)
  {
    var log := ModuleLogPath(dataDir, m.name);
    Command(EntryPath(dataDir, m), m.manifest.value.args, ModuleDir(dataDir, m.name),
      ModuleEnv(host.environ, dataDir, m.name, m.manifest.value),
      if host.canOpen(log) then Some(log) else None)
  }

  /** stopProcess: kills and forgets the recorded process, if any; returns the one killed. */
  function StopProcess(m: Module): (r: (Module, Option<Proc>))
    ensures r.0.proc == None && r.1 == m.proc
    ensures r.0 == m.(proc := None)
  {
    (m.(proc := None), m.proc)
  }

  // ---------------------------------------------------------------------------
  // The table

  /** An UPDATE by name: a missing row stays missing; `errorLog` None leaves the column. */
  function UpdateRow(db: map<string, Row>, name: string, status: Status, errorLog: Option<string>): (r: map<string, Row>)
    ensures r.Keys == db.Keys
    ensures forall n :: n in db && n != name ==> r[n] == db[n]
    ensures name in db ==> r[name].status == status
    ensures name in db ==> r[name].errorLog == (if errorLog.Some? then errorLog.value else db[name].errorLog)
    ensures name in db ==> r[name].(status := db[name].status, errorLog := db[name].errorLog) == db[name]
  {
    if name in db then
      db[name := db[name].(status := status, errorLog := if errorLog.Some? then errorLog.value else db[name].errorLog)]
    else db
  }

  /** A module's record moved to a new status, error log and process; nothing else changes. */
  predicate Moved(before: Module, after: Module) {
    after.(status := before.status, errorLog := before.errorLog, proc := before.proc) == before
  }

  /** Only `name` changes, in memory and in the table, and both still hold the same names. */
  predicate OnlyTouches(reg: Registry, r: Registry, name: string) {
    && r.dataDir == reg.dataDir
    && r.mods.Keys == reg.mods.Keys
    && r.db.Keys == reg.db.Keys
    && (forall n :: n in reg.mods && n != name ==> r.mods[n] == reg.mods[n])
    && (forall n :: n in reg.db && n != name ==> r.db[n] == reg.db[n])
    && (name in reg.mods ==> Moved(reg.mods[name], r.mods[name]))
    && (name in reg.db ==> r.db[name].(status := reg.db[name].status, errorLog := reg.db[name].errorLog) == reg.db[name])
  }

  /**
    The write every transition makes: the module's new record in memory and
    the UPDATE of its row, both by name.
   */
  function Update(reg: Registry, name: string, m: Module, status: Status, errorLog: Option<string>): (r: Registry)
    requires name in reg.mods && Moved(reg.mods[name], m)
    ensures OnlyTouches(reg, r, name)
    ensures r.mods[name] == m
    ensures name in reg.db ==> r.db[name].status == status
    ensures name in reg.db ==> r.db[name].errorLog == (if errorLog.Some? then errorLog.value else reg.db[name].errorLog)
    ensures Valid(reg) ==> Valid(r)
  {
    reg.(mods := reg.mods[name := m], db := UpdateRow(reg.db, name, status, errorLog))
  }

  // ---------------------------------------------------------------------------
  // Transitions

  function NotFound(name: string): string {
    "module " + Quote(name) + " not found"
  }

  /**
    Activate: an unknown name is an error and changes nothing. With an
    entrypoint, a failed start moves the module to "error" with the error's
    text, in memory and in the table, and returns it. Otherwise the module is
    "active" with an empty error log; a started process replaces the recorded
    one without stopping it.
   */
  function Activate(reg: Registry, name: string, host: Host): (r: (Registry, Option<string>))
    ensures name !in reg.mods ==> r == (reg, Some(NotFound(name)))
    ensures name in reg.mods ==> OnlyTouches(reg, r.0, name)
    ensures Valid(reg) ==> Valid(r.0)
    ensures name in reg.mods ==>
      var m := reg.mods[name];
      var s := StartProcess(reg.dataDir, m, host);
      && (r.1.Some? <==> s.Err?)
      && (s.Err? ==> r.1 == Some(s.error) && r.0.mods[name] == m.(status := Failed, errorLog := s.error))
      && (s.Ok? ==> r.0.mods[name].status == Active && r.0.mods[name].errorLog == "")
      && (s.Ok? && s.value.Some? ==> r.0.mods[name].proc == s.value)
      && (s.Ok? && s.value.None? ==> r.0.mods[name].proc == m.proc)
      && (name in reg.db ==> r.0.db[name].status == r.0.mods[name].status && r.0.db[name].errorLog == r.0.mods[name].errorLog)
  {
    if name !in reg.mods then (reg, Some(NotFound(name)))
    else
      var m := reg.mods[name];
      match StartProcess(reg.dataDir, m, host)
      case Err(e) => (Update(reg, name, m.(status := Failed, errorLog := e), Failed, Some(e)), Some(e))
      case Ok(p) =>
        var m' := m.(status := Active, errorLog := "", proc := if p.Some? then p else m.proc);
        (Update(reg, name, m', Active, Some("")), None)
  }

  /**
    Deactivate: a no-op for an unknown name. Otherwise the recorded process
    is stopped and forgotten and the status is "inactive" in memory and in the
    table; the error log is left as it was. Returns the process it killed.
   */
  function Deactivate(reg: Registry, name: string): (r: (Registry, Option<Proc>))
    ensures name !in reg.mods ==> r == (reg, None)
    ensures name in reg.mods ==> OnlyTouches(reg, r.0, name)
    ensures Valid(reg) ==> Valid(r.0)
    ensures name in reg.mods ==>
      && r.1 == reg.mods[name].proc
      && r.0.mods[name].proc == None
      && r.0.mods[name].status == Inactive
      && r.0.mods[name].errorLog == reg.mods[name].errorLog
      && (name in reg.db ==> r.0.db[name].status == Inactive && r.0.db[name].errorLog == reg.db[name].errorLog)
  {
    if name !in reg.mods then (reg, None)
    else
      var (m, killed) := StopProcess(reg.mods[name]);
      (Update(reg, name, m.(status := Inactive), Inactive, None), killed)
  }

  /**
    Delete: deactivates, then drops the entry from memory and from the
    table, and removes the module's directory (the path is returned; the
    directory is removed even for an unknown name).
   */
  function Delete(reg: Registry, name: string): (r: (Registry, Option<Proc>, string))
    ensures name !in r.0.mods && name !in r.0.db
    ensures r.0.mods.Keys == reg.mods.Keys - {name} && r.0.db.Keys == reg.db.Keys - {name}
    ensures forall n :: n in reg.mods && n != name ==> r.0.mods[n] == reg.mods[n]
    ensures forall n :: n in reg.db && n != name ==> r.0.db[n] == reg.db[n]
    ensures r.1 == (if name in reg.mods then reg.mods[name].proc else None)
    ensures r.2 == ModuleDir(reg.dataDir, name) && r.0.dataDir == reg.dataDir
    ensures Valid(reg) ==> Valid(r.0)
  {
    var (d, killed) := Deactivate(reg, name);
    (Forget(d, name), killed, ModuleDir(reg.dataDir, name))
  }

  /** The entry and the row of `name` are dropped; every other one stays. */
  function Forget(reg: Registry, name: string): (r: Registry)
    ensures name !in r.mods && name !in r.db
    ensures r.mods.Keys == reg.mods.Keys - {name} && r.db.Keys == reg.db.Keys - {name}
    ensures forall n :: n in r.mods ==> r.mods[n] == reg.mods[n]
    ensures forall n :: n in r.db ==> r.db[n] == reg.db[n]
    ensures r.dataDir == reg.dataDir
    ensures Valid(reg) ==> Valid(r)
  {
    reg.(mods := reg.mods - {name}, db := reg.db - {name})
  }

  /** The row `register` writes: the module's fields, its encoded manifest, status inactive, no error. */
  function RowOf(m: Module, encode: Option<Manifest> -> string): Row {
    Row(m.name, m.version, m.description, m.author, Inactive, m.sourceType, m.sourceUrl, encode(m.manifest), "")
  }

  /**
    register: the one entry for the module's name is replaced by the module
    as given, and the table's row (inserted or updated) gets the module's
    fields with status 'inactive' and an empty error log. Nothing else changes,
    and no process is stopped here.
   */
  function Register(reg: Registry, m: Module, encode: Option<Manifest> -> string): (r: Registry)
    ensures r.mods.Keys == reg.mods.Keys + {m.name} && r.db.Keys == reg.db.Keys + {m.name}
    ensures r.mods[m.name] == m
    ensures r.db[m.name].status == Inactive && r.db[m.name].errorLog == ""
    ensures r.db[m.name].manifestJson == encode(m.manifest)
    ensures forall n :: n in reg.mods && n != m.name ==> r.mods[n] == reg.mods[n]
    ensures forall n :: n in reg.db && n != m.name ==> r.db[n] == reg.db[n]
    ensures r.dataDir == reg.dataDir
    ensures Valid(reg) ==> Valid(r)
  {
    reg.(mods := reg.mods[m.name := m], db := reg.db[m.name := RowOf(m, encode)])
  }

  const ExitedText: string := "process exited unexpectedly"

  /**
    The exit watcher, when a module's process ends: only a module still
    present and "active" moves to "error" with the exit text, in memory and in
    the table; otherwise nothing changes. The dead process stays recorded.
   */
  function Exited(reg: Registry, name: string): (r: Registry)
    ensures !(name in reg.mods && reg.mods[name].status == Active) ==> r == reg
    ensures name in reg.mods ==> OnlyTouches(reg, r, name)
    ensures name in reg.mods && reg.mods[name].status == Active ==>
      && r.mods[name] == reg.mods[name].(status := Failed, errorLog := ExitedText)
      && (name in reg.db ==> r.db[name].status == Failed && r.db[name].errorLog == ExitedText)
    ensures Valid(reg) ==> Valid(r)
  {
    if name in reg.mods && reg.mods[name].status == Active then
      Update(reg, name, reg.mods[name].(status := Failed, errorLog := ExitedText), Failed, Some(ExitedText))
    else reg
  }

  // ---------------------------------------------------------------------------
  // Loading at start-up

  /**
    One row of LoadFromDB: the record is built from the row with the decoded
    manifest (none when the JSON does not decode) and no process; an "active"
    row is started, and a failed start demotes it to "error" with the error's
    text, which is the second component.
   */
  function LoadRow(dataDir: string, row: Row, decode: string -> Option<Manifest>, host: Host): (r: (Module, Option<string>))
    ensures r.0.name == row.name && r.0.version == row.version && r.0.description == row.description
    ensures r.0.author == row.author && r.0.sourceType == row.sourceType && r.0.sourceUrl == row.sourceUrl
    ensures r.0.manifest == decode(row.manifestJson)
    ensures row.status != Active ==> r == (RowModule(row, decode), None)
    ensures r.1.Some? <==> row.status == Active && StartProcess(dataDir, RowModule(row, decode), host).Err?
    ensures r.1.Some? ==> r.0.status == Failed && r.0.errorLog == r.1.value && r.0.proc == None
    ensures r.1.None? ==> r.0.status == row.status && r.0.errorLog == row.errorLog
  {
    var m := RowModule(row, decode);
    if row.status == Active then
      match StartProcess(dataDir, m, host)
      case Err(e) => (m.(status := Failed, errorLog := e), Some(e))
      case Ok(p) => (m.(proc := p), None)
    else (m, None)
  }

  function RowModule(row: Row, decode: string -> Option<Manifest>): Module {
    Module(row.name, row.version, row.description, row.author, row.status, row.sourceType, row.sourceUrl,
      decode(row.manifestJson), row.errorLog, None)
  }

  function LoadOne(reg: Registry, row: Row, decode: string -> Option<Manifest>, host: Host): Registry {
    var (m, err) := LoadRow(reg.dataDir, row, decode, host);
    reg.(mods := reg.mods[row.name := m],
         db := if err.Some? then UpdateRow(reg.db, row.name, Failed, err) else reg.db)
  }

  function LoadRows(reg: Registry, rows: seq<Row>, decode: string -> Option<Manifest>, host: Host): Registry
    decreases |rows|
  {
    if rows == [] then reg else LoadRows(LoadOne(reg, rows[0], decode, host), rows[1..], decode, host)
  }

  /** LoadFromDB: a failed query loads nothing; otherwise the rows are loaded in order. */
  function LoadFromDB(reg: Registry, rows: Option<seq<Row>>, decode: string -> Option<Manifest>, host: Host): Registry {
    if rows.None? then reg else LoadRows(reg, rows.value, decode, host)
  }

  predicate DistinctNames(rows: seq<Row>) {
    forall i, j :: 0 <= i < j < |rows| ==> rows[i].name != rows[j].name
  }

  /** Distinct names stay distinct in the rest of the rows, and none of them is the first row's. */
  lemma DistinctTail(rows: seq<Row>)
    requires DistinctNames(rows) && rows != []
    ensures DistinctNames(rows[1..])
    ensures forall k :: 0 <= k < |rows[1..]| ==> rows[1..][k].name != rows[0].name
  {
    var tail := rows[1..];
    forall a, b | 0 <= a < b < |tail| ensures tail[a].name != tail[b].name {
      assert tail[a] == rows[a + 1] && tail[b] == rows[b + 1];
    }
    forall k | 0 <= k < |tail| ensures tail[k].name != rows[0].name {
      assert tail[k] == rows[k + 1];
    }
  }

  /** Loading rows leaves the entries of names no row has, and the data directory. */
  lemma {:induction false} LoadRowsKeeps(reg: Registry, rows: seq<Row>, decode: string -> Option<Manifest>, host: Host, n: string)
    requires n in reg.mods && forall i :: 0 <= i < |rows| ==> rows[i].name != n
    ensures var r := LoadRows(reg, rows, decode, host);
      r.dataDir == reg.dataDir && n in r.mods && r.mods[n] == reg.mods[n]
    decreases |rows|
  {
    if rows != [] {
      var next := LoadOne(reg, rows[0], decode, host);
      assert forall k :: 0 <= k < |rows[1..]| ==> rows[1..][k] == rows[k + 1];
      LoadRowsKeeps(next, rows[1..], decode, host, n);
    }
  }

  lemma {:induction false} LoadRowsDataDir(reg: Registry, rows: seq<Row>, decode: string -> Option<Manifest>, host: Host)
    ensures LoadRows(reg, rows, decode, host).dataDir == reg.dataDir
    decreases |rows|
  {
    if rows != [] {
      LoadRowsDataDir(LoadOne(reg, rows[0], decode, host), rows[1..], decode, host);
    }
  }

  /**
    Every row of the table is loaded, each one by itself: the entry for a
    row's name is exactly what LoadRow makes of that row, whether or not
    earlier rows failed to start.
   */
  lemma {:induction false} LoadRowsEntries(reg: Registry, rows: seq<Row>, decode: string -> Option<Manifest>, host: Host)
    requires DistinctNames(rows)
    ensures var r := LoadRows(reg, rows, decode, host);
      forall i :: 0 <= i < |rows| ==> rows[i].name in r.mods && r.mods[rows[i].name] == LoadRow(reg.dataDir, rows[i], decode, host).0
    decreases |rows|
  {
    if rows != [] {
      var next := LoadOne(reg, rows[0], decode, host);
      var tail := rows[1..];
      DistinctTail(rows);
      LoadRowsEntries(next, tail, decode, host);
      LoadRowsKeeps(next, tail, decode, host, rows[0].name);
      var r := LoadRows(next, tail, decode, host);
      forall i | 0 < i < |rows|
        ensures rows[i].name in r.mods && r.mods[rows[i].name] == LoadRow(reg.dataDir, rows[i], decode, host).0
      {
        assert tail[i - 1] == rows[i];
      }
    }
  }

  /** Loading adds no entry for a name that no row has. */
  lemma {:induction false} LoadRowsNames(reg: Registry, rows: seq<Row>, decode: string -> Option<Manifest>, host: Host)
    ensures forall n :: n in LoadRows(reg, rows, decode, host).mods ==>
      n in reg.mods || exists i :: 0 <= i < |rows| && rows[i].name == n
    decreases |rows|
  {
    if rows != [] {
      var next := LoadOne(reg, rows[0], decode, host);
      var tail := rows[1..];
      LoadRowsNames(next, tail, decode, host);
      forall n | n in LoadRows(reg, rows, decode, host).mods ensures n in reg.mods || exists i :: 0 <= i < |rows| && rows[i].name == n {
        if n !in reg.mods && n != rows[0].name {
          var k :| 0 <= k < |tail| && tail[k].name == n;
          assert rows[k + 1].name == n;
        }
      }
    }
  }

  /**
    A registered module read back at the next start: with a decoder that
    inverts the encoder, the record comes back with all its fields, status
    "inactive", an empty error log and no process.
   */
  lemma RegisterThenLoad(reg: Registry, m: Module, encode: Option<Manifest> -> string,
                         decode: string -> Option<Manifest>, host: Host)
    requires decode(encode(m.manifest)) == m.manifest
    ensures var row := Register(reg, m, encode).db[m.name];
      LoadRow(reg.dataDir, row, decode, host) == (m.(status := Inactive, errorLog := "", proc := None), None)
  {
  }

  // ---------------------------------------------------------------------------
  // Properties of the transitions

  /** Deactivating twice is deactivating once, and the second time kills nothing. */
  lemma DeactivateIdempotent(reg: Registry, name: string)
    ensures var once := Deactivate(reg, name).0;
      Deactivate(once, name).0 == once && Deactivate(once, name).1 == None
  {
    var once := Deactivate(reg, name).0;
    if name in reg.mods {
      assert once.mods[name := once.mods[name].(proc := None, status := Inactive)] == once.mods;
      assert name in reg.db ==> UpdateRow(once.db, name, Inactive, None)[name] == once.db[name];
      assert UpdateRow(once.db, name, Inactive, None) == once.db;
    }
  }

  /**
    Activating a running module twice orphans the first process: the second
    start replaces it, and a later Deactivate kills only the second.
   */
  lemma ActivateTwiceOrphans(reg: Registry, name: string, h1: Host, h2: Host)
    requires name in reg.mods
    requires StartProcess(reg.dataDir, reg.mods[name], h1).Ok?
    requires StartProcess(reg.dataDir, reg.mods[name], h2).Ok?
    requires HasEntrypoint(reg.mods[name])
    ensures var first := StartProcess(reg.dataDir, reg.mods[name], h1).value;
      var once := Activate(reg, name, h1).0;
      var twice := Activate(once, name, h2).0;
      && once.mods[name].proc == first
      && Deactivate(twice, name).1 == StartProcess(reg.dataDir, reg.mods[name], h2).value
  {
    var once := Activate(reg, name, h1).0;
    assert Moved(reg.mods[name], once.mods[name]);
    assert StartProcess(reg.dataDir, once.mods[name], h2) == StartProcess(reg.dataDir, reg.mods[name], h2);
  }

  /** After Deactivate the exit watcher finds the module inactive and changes nothing. */
  lemma ExitAfterDeactivate(reg: Registry, name: string)
    ensures Exited(Deactivate(reg, name).0, name) == Deactivate(reg, name).0
  {
  }

  /**
    Deactivate as the code interleaves it: the lock is released before the
    kill, so the exit watcher woken by the kill may run before the status
    write. This is that order: the process is stopped and forgotten, the
    watcher runs, then "inactive" is written in memory and in the table.
   */
  function DeactivateRaced(reg: Registry, name: string): (r: Registry)
    ensures name !in reg.mods ==> r == reg
    ensures name in reg.mods ==> OnlyTouches(reg, r, name)
    ensures name in reg.mods ==> r.mods[name].status == Inactive && r.mods[name].proc == None
  {
    if name !in reg.mods then reg
    else
      var (m, _) := StopProcess(reg.mods[name]);
      var watched := Exited(reg.(mods := reg.mods[name := m]), name);
      Update(watched, name, watched.mods[name].(status := Inactive), Inactive, None)
  }

  /**
    In that order an active module ends inactive but carrying the watcher's
    "process exited unexpectedly", in memory and in the table, where
    Deactivate leaves its earlier error log.
   */
  lemma ExitDuringDeactivate(reg: Registry, name: string)
    requires name in reg.mods && reg.mods[name].status == Active
    ensures DeactivateRaced(reg, name).mods[name].status == Inactive
    ensures DeactivateRaced(reg, name).mods[name].errorLog == ExitedText
    ensures name in reg.db ==>
      DeactivateRaced(reg, name).db[name].status == Inactive && DeactivateRaced(reg, name).db[name].errorLog == ExitedText
    ensures reg.mods[name].errorLog != ExitedText ==>
      DeactivateRaced(reg, name).mods[name].errorLog != Deactivate(reg, name).0.mods[name].errorLog
  {
    var (m, _) := StopProcess(reg.mods[name]);
    var stopped := reg.(mods := reg.mods[name := m]);
    assert stopped.mods[name].status == Active;
    var watched := Exited(stopped, name);
    assert watched.mods[name].errorLog == ExitedText;
    assert name in reg.db ==> name in stopped.db && stopped.db == reg.db;
  }

  /** A module deleted and then reported exited stays deleted: the watcher finds no entry. */
  lemma ExitAfterDelete(reg: Registry, name: string)
    ensures Exited(Delete(reg, name).0, name) == Delete(reg, name).0
  {
  }

  // ---------------------------------------------------------------------------
  // The navigation menu

  datatype NavItem = NavItem(name: string, labelText: string, icon: string, href: string, position: int)

  /** A module is in the menu when it is active, has a manifest, and the menu entry is not hidden. */
  predicate Shown(m: Module) {
    m.status == Active && m.manifest.Some? && !m.manifest.value.menu.hidden
  }

  /** The menu entry: label falls back to the description, then the name; icon to "package". */
  function NavItemOf(m: Module): (it: NavItem)
    requires m.manifest.Some?
    ensures it.name == m.name && it.href == "/modules/" + m.name
    ensures it.position == m.manifest.value.menu.position
    ensures it.labelText in {m.manifest.value.menu.labelText, m.description, m.name}
    ensures m.name != "" ==> it.labelText != ""
    ensures it.labelText == m.manifest.value.menu.labelText || m.manifest.value.menu.labelText == ""
    ensures it.icon != ""
    ensures it.labelText == (if m.manifest.value.menu.labelText != "" then m.manifest.value.menu.labelText
                             else if m.description != "" then m.description else m.name)
    ensures it.icon == (if m.manifest.value.menu.icon != "" then m.manifest.value.menu.icon else "package")
  {
    var menu := m.manifest.value.menu;
    var lbl := if menu.labelText != "" then menu.labelText else if m.description != "" then m.description else m.name;
    NavItem(m.name, lbl, if menu.icon != "" then menu.icon else "package", "/modules/" + m.name, menu.position)
  }

  /** The menu order: by position, then by name. */
  predicate NavBefore(a: NavItem, b: NavItem) {
    a.position < b.position || (a.position == b.position && LexLess(a.name, b.name))
  }

  predicate SortedNav(s: seq<NavItem>) {
    forall i, j :: 0 <= i < j < |s| ==> NavBefore(s[i], s[j])
  }

  lemma NavTransitive(a: NavItem, b: NavItem, c: NavItem)
    ensures NavBefore(a, b) && NavBefore(b, c) ==> NavBefore(a, c)
  {
    if NavBefore(a, b) && NavBefore(b, c) && a.position == b.position == c.position {
      LexLessTransitive(a.name, b.name, c.name);
    }
  }

  lemma NavAsymmetric(a: NavItem, b: NavItem)
    ensures NavBefore(a, b) ==> !NavBefore(b, a)
  {
    if NavBefore(a, b) && a.position == b.position {
      if LexLess(b.name, a.name) {
        LexLessTransitive(a.name, b.name, a.name);
        LexLessIrreflexive(a.name);
      }
    }
  }

  lemma NavTotal(a: NavItem, b: NavItem)
    requires a.name != b.name
    ensures NavBefore(a, b) || NavBefore(b, a)
  {
    LexLessTotal(a.name, b.name);
  }

  lemma ConsSorted(h: NavItem, t: seq<NavItem>)
    requires SortedNav(t)
    requires forall k :: 0 <= k < |t| ==> NavBefore(h, t[k])
    ensures SortedNav([h] + t)
  {
    assert forall k :: 0 < k < |[h] + t| ==> ([h] + t)[k] == t[k - 1];
  }

  lemma FrontSorted(x: NavItem, s: seq<NavItem>)
    requires SortedNav(s) && s != [] && NavBefore(x, s[0])
    ensures SortedNav([x] + s)
  {
    forall k | 0 <= k < |s| ensures NavBefore(x, s[k]) {
      if k > 0 { NavTransitive(x, s[0], s[k]); }
    }
    ConsSorted(x, s);
  }

  /** Places an item with a new name into a sorted menu. */
  function Insert(s: seq<NavItem>, x: NavItem): (r: seq<NavItem>)
    requires SortedNav(s)
    requires forall i :: 0 <= i < |s| ==> s[i].name != x.name
    ensures SortedNav(r) && |r| == |s| + 1
    ensures forall y :: y in r <==> y in s || y == x
    decreases |s|
  {
    if s == [] then [x]
    else if NavBefore(x, s[0]) then
      FrontSorted(x, s);
      [x] + s
    else
      NavTotal(x, s[0]);
      var rest := Insert(s[1..], x);
      assert forall y :: y in s[1..] ==> NavBefore(s[0], y);
      ConsSorted(s[0], rest);
      [s[0]] + rest
  }

  /**
    NavItems: the menu entries of exactly the shown modules, ordered by
    position and then name.
   */
  method NavItems(reg: Registry) returns (items: seq<NavItem>)
    requires Valid(reg)
    ensures SortedNav(items)
    ensures forall it :: it in items <==>
      exists n :: n in reg.mods && Shown(reg.mods[n]) && it == NavItemOf(reg.mods[n])
  {
    items := [];
    var keys := reg.mods.Keys;
    while keys != {}
      invariant keys <= reg.mods.Keys
      invariant SortedNav(items)
      invariant forall it :: it in items ==> it.name in reg.mods && it.name !in keys
      invariant forall it :: it in items <==>
        exists n :: n in reg.mods && n !in keys && Shown(reg.mods[n]) && it == NavItemOf(reg.mods[n])
      decreases |keys|
    {
      var n :| n in keys;
      var m := reg.mods[n];
      if Shown(m) {
        items := Insert(items, NavItemOf(m));
      }
      keys := keys - {n};
    }
  }

  lemma SortedHead(s: seq<NavItem>, x: NavItem)
    requires SortedNav(s) && x in s
    ensures x == s[0] || NavBefore(s[0], x)
  {
  }

  /** The menu order leaves no freedom: two sorted lists of the same entries are equal. */
  lemma {:induction false} SortedNavUnique(a: seq<NavItem>, b: seq<NavItem>)
    requires SortedNav(a) && SortedNav(b)
    requires forall x :: x in a <==> x in b
    ensures a == b
    decreases |a|
  {
    assert a != [] ==> a[0] in b;
    assert b != [] ==> b[0] in a;
    if a != [] && b != [] {
      SortedHead(b, a[0]);
      SortedHead(a, b[0]);
      NavAsymmetric(a[0], b[0]);
      assert a[0] == b[0];
      forall x ensures x in a[1..] <==> x in b[1..] {
        if x in a[1..] {
          var k :| 0 <= k < |a[1..]| && a[1..][k] == x;
          assert a[k + 1] == x && x in a && x in b;
          assert NavBefore(a[0], a[k + 1]);
          NavAsymmetric(a[0], x);
          assert x != b[0];
          assert b == [b[0]] + b[1..];
        }
        if x in b[1..] {
          var k :| 0 <= k < |b[1..]| && b[1..][k] == x;
          assert b[k + 1] == x && x in b && x in a;
          assert NavBefore(b[0], b[k + 1]);
          NavAsymmetric(b[0], x);
          assert x != a[0];
          assert a == [a[0]] + a[1..];
        }
      }
      SortedNavUnique(a[1..], b[1..]);
    }
  }
}
