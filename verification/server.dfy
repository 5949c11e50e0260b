/**
  The HTTP handlers' own logic: reading names and ids out of request paths,
  the module actions and views, the module proxy's gate and target URL, the
  log page's tail of the application log, the install forms' input checks
  and the settings read from the environment at start-up.

  A handler is a function from the parts of the request it reads (and the
  registry) to its reply and the registry after it. An error reply is its
  status code and message; the install forms' alerts are HTML fragments sent
  with status 200, modelled by their message text.
 */
module Server {
  import opened Wrappers
  import opened GoStrings
  import opened GoPath
  import opened Manifests
  import opened ModuleRegistry

  /** An error reply: the status code and the message written with it. */
  datatype Reply = Reply(code: nat, message: string)

  // ---------------------------------------------------------------------------
  // Path segments

  /** The pieces of a path between slashes, after the outer slashes are trimmed. */
  function Segments(path: string): seq<string> {
    Split(Trim(path, '/'), '/')
  }

  /** pathSeg: the piece at `idx`, or "" when the path has fewer pieces. */
  function PathSeg(path: string, idx: nat): (r: string)
    ensures '/' !in r
  {
    var parts := Segments(path);
    if idx < |parts| then parts[idx] else ""
  }

  /** A path written as a slash and non-empty slash-free segments splits back into them. */
  lemma SegmentsOfJoin(segs: seq<string>)
    requires segs != [] && ElemsWellFormed(segs)
    ensures Segments("/" + Join(segs, '/')) == segs
  {
    TrimOfJoin(segs);
    SplitJoin(segs, '/');
  }

  /** The outer slashes trimmed off such a path are exactly the leading one. */
  lemma TrimOfJoin(segs: seq<string>)
    requires segs != [] && ElemsWellFormed(segs)
    ensures Trim("/" + Join(segs, '/'), '/') == Join(segs, '/')
  {
    var j := Join(segs, '/');
    JoinEnds(segs, '/');
    EndsKept(j, segs[0], segs[|segs| - 1]);
    TrimOneLeading(j, '/');
  }

  /** A string that starts and ends like two slash-free non-empty strings has no slash at either end. */
  lemma EndsKept(j: string, first: string, last: string)
    requires first != "" && '/' !in first && last != "" && '/' !in last
    requires |j| > 0 && j[0] == first[0] && j[|j| - 1] == last[|last| - 1]
    ensures j[0] != '/' && j[|j| - 1] != '/'
  {
    assert first[0] in first;
    assert last[|last| - 1] in last;
  }

  /** pathSeg of such a path is the segment at the index, or "" past the last one. */
  lemma PathSegOfJoin(segs: seq<string>, idx: nat)
    requires segs != [] && ElemsWellFormed(segs)
    ensures PathSeg("/" + Join(segs, '/'), idx) == if idx < |segs| then segs[idx] else ""
  {
    SegmentsOfJoin(segs);
  }

  lemma Join2(a: string, b: string)
    ensures Join([a, b], '/') == a + "/" + b
  {
    assert [a, b][1..] == [b];
  }

  lemma Join3(a: string, b: string, c: string)
    ensures Join([a, b, c], '/') == a + "/" + b + "/" + c
  {
    assert [a, b, c][1..] == [b, c];
    Join2(b, c);
  }

  lemma Join4(a: string, b: string, c: string, d: string)
    ensures Join([a, b, c, d], '/') == a + "/" + b + "/" + c + "/" + d
  {
    assert [a, b, c, d][1..] == [b, c, d];
    Join3(b, c, d);
  }

  /** A segment of a route: non-empty and slash-free. */
  predicate IsSegment(s: string) {
    s != "" && '/' !in s
  }

  /** The segment index the module and user handlers read (one past the name). */
  const NameSegAsWritten: nat := 2

  /** The segment index the task stream handler reads (one past the task id). */
  const TaskSegAsWritten: nat := 3

  /** The index of the name in `/modules/<name>/...`, `/users/<id>/...` and `/module-proxy/<name>/...`. */
  const NameSeg: nat := 1

  /** The index of the id in `/modules/install/<id>/stream`. */
  const TaskSeg: nat := 2

  /** The segments of `/<a>/<b>/<c>`. */
  lemma ThreeSegments(a: string, b: string, c: string, idx: nat)
    requires IsSegment(a) && IsSegment(b) && IsSegment(c)
    ensures PathSeg("/" + a + "/" + b + "/" + c, idx) == if idx < 3 then [a, b, c][idx] else ""
  {
    Join3(a, b, c);
    assert "/" + a + "/" + b + "/" + c == "/" + (a + "/" + b + "/" + c);
    PathSegOfJoin([a, b, c], idx);
  }

  /** The segments of `/<a>/<b>`. */
  lemma TwoSegments(a: string, b: string, idx: nat)
    requires IsSegment(a) && IsSegment(b)
    ensures PathSeg("/" + a + "/" + b, idx) == if idx < 2 then [a, b][idx] else ""
  {
    Join2(a, b);
    assert "/" + a + "/" + b == "/" + (a + "/" + b);
    PathSegOfJoin([a, b], idx);
  }

  /** The segments of `/<a>/<b>/<c>/<d>`. */
  lemma FourSegments(a: string, b: string, c: string, d: string, idx: nat)
    requires IsSegment(a) && IsSegment(b) && IsSegment(c) && IsSegment(d)
    ensures PathSeg("/" + a + "/" + b + "/" + c + "/" + d, idx) == if idx < 4 then [a, b, c, d][idx] else ""
  {
    Join4(a, b, c, d);
    assert "/" + a + "/" + b + "/" + c + "/" + d == "/" + (a + "/" + b + "/" + c + "/" + d);
    PathSegOfJoin([a, b, c, d], idx);
  }

  /** The segments of the module view route `/modules/<name>`. */
  lemma ViewPath(name: string)
    requires IsSegment(name)
    ensures PathSeg("/modules/" + name, 1) == name && PathSeg("/modules/" + name, 2) == ""
  {
    TwoSegments("modules", name, 1);
    TwoSegments("modules", name, 2);
    ModulesPrefix(name);
  }

  lemma ModulesPrefix(x: string)
    ensures "/modules/" + x == "/" + "modules" + "/" + x
  {
    assert "/" + "modules" + "/" == "/modules/";
  }

  lemma ActionPath(name: string, action: string)
    requires IsSegment(name) && IsSegment(action)
    ensures PathSeg("/modules/" + name + "/" + action, 1) == name
    ensures PathSeg("/modules/" + name + "/" + action, 2) == action
  {
    ThreeSegments("modules", name, action, 1);
    ThreeSegments("modules", name, action, 2);
    ModulesPrefix(name);
  }

  /** The segments of `/modules/<name>/activate`. */
  lemma ActivatePath(name: string)
    requires IsSegment(name)
    ensures PathSeg("/modules/" + name + "/activate", 1) == name
    ensures PathSeg("/modules/" + name + "/activate", 2) == "activate"
  {
    Suffix("/modules/" + name, "activate");
    ActionPath(name, "activate");
  }

  /** The segments of `/modules/<name>/deactivate`. */
  lemma DeactivatePath(name: string)
    requires IsSegment(name)
    ensures PathSeg("/modules/" + name + "/deactivate", 1) == name
  {
    Suffix("/modules/" + name, "deactivate");
    ActionPath(name, "deactivate");
  }

  /** The segments of `/modules/<name>/delete`. */
  lemma DeletePath(name: string)
    requires IsSegment(name)
    ensures PathSeg("/modules/" + name + "/delete", 1) == name
  {
    Suffix("/modules/" + name, "delete");
    ActionPath(name, "delete");
  }

  /** The three action suffixes, spelled out. */
  lemma Suffix(p: string, w: string)
    requires w in {"activate", "deactivate", "delete"}
    ensures p + "/" + w == p + ("/" + w)
    ensures w == "activate" ==> "/" + w == "/activate"
    ensures w == "deactivate" ==> "/" + w == "/deactivate"
    ensures w == "delete" ==> "/" + w == "/delete"
  {
  }

  /** The segments of the stream route `/modules/install/<id>/stream`. */
  lemma StreamPathSegs(id: string)
    requires IsSegment(id)
    ensures PathSeg("/modules/install/" + id + "/stream", 2) == id
    ensures PathSeg("/modules/install/" + id + "/stream", 3) == "stream"
  {
    FourSegments("modules", "install", id, "stream", 2);
    FourSegments("modules", "install", id, "stream", 3);
    StreamLiteral(id);
  }

  lemma StreamLiteral(id: string)
    ensures "/modules/install/" + id + "/stream" == "/" + "modules" + "/" + "install" + "/" + id + "/" + "stream"
  {
    assert "/" + "modules" + "/" + "install" + "/" == "/modules/install/";
    assert "/" + "stream" == "/stream";
  }

  /** The segments of the user routes `/users/<id>/<action>`. */
  lemma UserPathSegs(id: string, action: string)
    requires IsSegment(id) && IsSegment(action)
    ensures PathSeg("/users/" + id + "/" + action, 1) == id
    ensures PathSeg("/users/" + id + "/" + action, 2) == action
  {
    ThreeSegments("users", id, action, 1);
    ThreeSegments("users", id, action, 2);
    UsersLiteral(id, action);
  }

  lemma UsersLiteral(id: string, action: string)
    ensures "/users/" + id + "/" + action == "/" + "users" + "/" + id + "/" + action
  {
    assert "/" + "users" + "/" == "/users/";
  }

  // ---------------------------------------------------------------------------
  // Module actions and the module view

  /** moduleActivate: the registry's error becomes a 500 reply; success asks the page to refresh. */
  function ActivateHandler(reg: Registry, path: string, host: Host, idx: nat): (Registry, Option<Reply>) {
    var (r, err) := Activate(reg, PathSeg(path, idx), host);
    (r, if err.Some? then Some(Reply(500, err.value)) else None)
  }

  /** moduleDeactivate: never fails. */
  function DeactivateHandler(reg: Registry, path: string, idx: nat): (Registry, Option<Proc>) {
    Deactivate(reg, PathSeg(path, idx))
  }

  /** moduleDelete: the registry after it, the process it killed and the directory it removed. */
  function DeleteHandler(reg: Registry, path: string, idx: nat): (Registry, Option<Proc>, string) {
    Delete(reg, PathSeg(path, idx))
  }

  const ViewNotFound: string := "Модуль не найден"

  /** moduleView: the error shown in the frame, if any: unknown, or not active (with the status). */
  function ViewError(reg: Registry, name: string): (r: Option<string>)
    ensures r.None? <==> name in reg.mods && reg.mods[name].status == Active
    ensures name !in reg.mods ==> r == Some(ViewNotFound)
  {
    if name !in reg.mods then Some(ViewNotFound)
    else if reg.mods[name].status != Active then
      Some("Модуль не активен (" + StatusText(reg.mods[name].status) + ")")
    else None
  }

  function ViewHandler(reg: Registry, path: string, idx: nat): Option<string> {
    ViewError(reg, PathSeg(path, idx))
  }

  /**
    As written, POST /modules/<name>/activate activates the module named
    "activate": an unregistered name, so the reply is a 500 and nothing changes.
   */
  lemma ActivateRouteAsWritten(reg: Registry, name: string, host: Host)
    requires IsSegment(name) && "activate" !in reg.mods
    ensures ActivateHandler(reg, "/modules/" + name + "/activate", host, NameSegAsWritten)
      == (reg, Some(Reply(500, NotFound("activate"))))
  {
    ActivatePath(name);
  }

  /** Reading segment 1, the action reaches the module the path names. */
  lemma ActivateRoute(reg: Registry, name: string, host: Host)
    requires IsSegment(name)
    ensures ActivateHandler(reg, "/modules/" + name + "/activate", host, NameSeg).0 == Activate(reg, name, host).0
    ensures DeactivateHandler(reg, "/modules/" + name + "/deactivate", NameSeg) == Deactivate(reg, name)
  {
    ActivatePath(name);
    DeactivatePath(name);
  }

  /** Deleting the empty name removes the directory that holds every module. */
  lemma ModuleDirOfEmpty(dataDir: string)
    ensures ModuleDir(dataDir, "") == ModulesDir(dataDir)
  {
    var x := if dataDir != "" then dataDir + "/" + "modules" else "modules";
    var m := ModulesDir(dataDir);
    assert m == Clean(x);
    CleanNonEmpty(x);
    assert m + "/" + "" == m + "/";
    TrailingSlash(m);
    CleanIdempotent(x);
  }

  /**
    As written, DELETE /modules/<name> (the router sends any DELETE under
    /modules/ to moduleDelete) deletes the empty name, and the directory it
    removes is the modules directory itself; the module stays registered.
   */
  lemma DeleteRouteAsWritten(reg: Registry, name: string)
    requires IsSegment(name) && name in reg.mods
    ensures var r := DeleteHandler(reg, "/modules/" + name, NameSegAsWritten);
      && r.2 == ModulesDir(reg.dataDir)
      && name in r.0.mods && r.0.mods[name] == reg.mods[name]
  {
    ViewPath(name);
    ModuleDirOfEmpty(reg.dataDir);
  }

  /** Reading segment 1, both delete routes forget the named module and remove its own directory. */
  lemma DeleteRoute(reg: Registry, name: string)
    requires IsSegment(name)
    ensures var r := DeleteHandler(reg, "/modules/" + name, NameSeg);
      && r == Delete(reg, name) && name !in r.0.mods && r.2 == ModuleDir(reg.dataDir, name)
    ensures DeleteHandler(reg, "/modules/" + name + "/delete", NameSeg) == Delete(reg, name)
  {
    ViewPath(name);
    DeletePath(name);
  }

  /** As written, the view of /modules/<name> looks up the empty name. */
  lemma ViewRouteAsWritten(reg: Registry, name: string)
    requires IsSegment(name) && "" !in reg.mods
    ensures ViewHandler(reg, "/modules/" + name, NameSegAsWritten) == Some(ViewNotFound)
  {
    ViewPath(name);
  }

  /** Reading segment 1, the view shows an active module without an error. */
  lemma ViewRoute(reg: Registry, name: string)
    requires IsSegment(name)
    ensures ViewHandler(reg, "/modules/" + name, NameSeg).None? <==> name in reg.mods && reg.mods[name].status == Active
  {
    ViewPath(name);
  }

  // ---------------------------------------------------------------------------
  // The install stream and the user actions

  const TaskNotFound: Reply := Reply(404, "task not found")

  /** moduleInstallStream: the task the path names, or 404. */
  function StreamHandler<T>(tasks: map<string, T>, path: string, idx: nat): (r: Result<T, Reply>)
    ensures r.Ok? <==> PathSeg(path, idx) in tasks
    ensures r.Ok? ==> r.value == tasks[PathSeg(path, idx)]
    ensures r.Err? ==> r.error == TaskNotFound
  {
    var id := PathSeg(path, idx);
    if id in tasks then Ok(tasks[id]) else Err(TaskNotFound)
  }

  /** As written, /modules/install/<id>/stream looks up the task "stream": a running task's log is never found. */
  lemma StreamRouteAsWritten<T>(tasks: map<string, T>, id: string)
    requires IsSegment(id) && "stream" !in tasks
    ensures StreamHandler(tasks, "/modules/install/" + id + "/stream", TaskSegAsWritten) == Err(TaskNotFound)
  {
    StreamPathSegs(id);
  }

  /** Reading segment 2, the stream of a known task is found. */
  lemma StreamRoute<T>(tasks: map<string, T>, id: string)
    requires IsSegment(id) && id in tasks
    ensures StreamHandler(tasks, "/modules/install/" + id + "/stream", TaskSeg) == Ok(tasks[id])
  {
    StreamPathSegs(id);
  }

  /**
    userToggle and userDelete: the id from the path, refused with 400 when it
    is the signed-in user's own id (compared as decimal text); otherwise the id
    the UPDATE or DELETE statement is given.
   */
  function UserActionHandler(self: int, path: string, idx: nat, refusal: string): (r: Result<string, Reply>)
    ensures r.Err? <==> PathSeg(path, idx) == FormatInt(self)
    ensures r.Err? ==> r.error == Reply(400, refusal)
    ensures r.Ok? ==> r.value == PathSeg(path, idx)
  {
    var id := PathSeg(path, idx);
    if FormatInt(self) == id then Err(Reply(400, refusal)) else Ok(id)
  }

  const CannotModifySelf: string := "cannot modify yourself"
  const CannotDeleteSelf: string := "cannot delete yourself"

  /**
    As written, /users/<id>/toggle reads the id "toggle": the guard against
    changing one's own account never fires, even on one's own id, and the
    statement is given an id that matches no user.
   */
  lemma UserRouteAsWritten(self: int, action: string)
    requires IsSegment(action) && !IsNumberStart(action[0])
    ensures UserActionHandler(self, "/users/" + FormatInt(self) + "/" + action, NameSegAsWritten, CannotModifySelf) == Ok(action)
  {
    var id := FormatInt(self);
    NumberIsSegment(self);
    UserPathSegs(id, action);
    assert action[0] != id[0];
  }

  /** The first byte of a decimal number: a digit or the minus sign. */
  predicate IsNumberStart(c: char) {
    c == '-' || IsDigit(c)
  }

  /** A decimal number is a segment, and it starts like a number. */
  lemma NumberIsSegment(n: int)
    ensures IsSegment(FormatInt(n)) && IsNumberStart(FormatInt(n)[0])
  {
    var r := FormatInt(n);
    var d := FormatNat(if n < 0 then -n else n);
    assert AllDigits(d);
    forall k | 0 <= k < |r| ensures r[k] != '/' {
      if n < 0 {
        if k > 0 { assert r[k] == d[k - 1]; }
      } else {
        assert r[k] == d[k];
      }
    }
  }

  /** Reading segment 1, the guard refuses exactly the user's own id. */
  lemma UserRoute(self: int, id: string, action: string, refusal: string)
    requires IsSegment(id) && IsSegment(action)
    ensures UserActionHandler(self, "/users/" + id + "/" + action, NameSeg, refusal).Err? <==> id == FormatInt(self)
    ensures id != FormatInt(self) ==> UserActionHandler(self, "/users/" + id + "/" + action, NameSeg, refusal) == Ok(id)
  {
    UserPathSegs(id, action);
  }

  // ---------------------------------------------------------------------------
  // The module proxy

  const Unavailable: Reply := Reply(503, "module unavailable")
  const NoPort: Reply := Reply(502, "module has no HTTP port")

  /** The gate of moduleProxy: the module must be registered and active, then have a manifest with a port. */
  function ProxyGate(m: Option<Module>): (r: Result<int, Reply>)
    ensures r.Ok? <==> m.Some? && m.value.status == Active && m.value.manifest.Some? && m.value.manifest.value.port != 0
    ensures r.Ok? ==> r.value == m.value.manifest.value.port
    ensures r.Err? ==> r.error == (if m.Some? && m.value.status == Active then NoPort else Unavailable)
  {
    if m.None? || m.value.status != Active then Err(Unavailable)
    else if m.value.manifest.None? || m.value.manifest.value.port == 0 then Err(NoPort)
    else Ok(m.value.manifest.value.port)
  }

  const LocalBase: string := "http://127.0.0.1:"

  /** The part of the request path after the module's prefix, "/" when nothing is left. */
  function SubPath(path: string, name: string): string {
    var sub := TrimPrefix(path, "/module-proxy/" + name);
    if sub == "" then "/" else sub
  }

  /** The URL moduleProxy forwards to: the module's port on the loopback address, the sub-path, the query. */
  function ProxyTarget(path: string, name: string, port: int, rawQuery: string): string {
    LocalBase + FormatInt(port) + SubPath(path, name) + (if rawQuery != "" then "?" + rawQuery else "")
  }

  /** A request for the module's prefix plus `rest` is forwarded with `rest` (or "/") as its path. */
  lemma ProxyTargetOf(name: string, rest: string, port: int, rawQuery: string)
    ensures ProxyTarget("/module-proxy/" + name + rest, name, port, rawQuery)
      == LocalBase + FormatInt(port) + (if rest == "" then "/" else rest) + (if rawQuery != "" then "?" + rawQuery else "")
  {
    var p := "/module-proxy/" + name;
    assert HasPrefix(p + rest, p);
    assert (p + rest)[|p|..] == rest;
  }

  function ModuleAt(reg: Registry, name: string): Option<Module> {
    if name in reg.mods then Some(reg.mods[name]) else None
  }

  /** moduleProxy up to the forwarded request: the gate's reply, or the target URL. */
  function ProxyHandler(reg: Registry, path: string, rawQuery: string, idx: nat): Result<string, Reply> {
    var name := PathSeg(path, idx);
    match ProxyGate(ModuleAt(reg, name))
    case Err(e) => Err(e)
    case Ok(port) => Ok(ProxyTarget(path, name, port, rawQuery))
  }

  /** The path of a proxied request: the module's prefix, then nothing or further segments. */
  predicate ProxyPath(name: string, more: seq<string>, path: string) {
    path == "/module-proxy/" + name + (if more == [] then "" else "/" + Join(more, '/'))
  }

  lemma ProxySegments(name: string, more: seq<string>, path: string)
    requires IsSegment(name) && ElemsWellFormed(more) && ProxyPath(name, more, path)
    ensures PathSeg(path, NameSeg) == name
    ensures more != [] ==> PathSeg(path, NameSegAsWritten) == more[0]
    ensures more == [] ==> PathSeg(path, NameSegAsWritten) == ""
  {
    var segs := ["module-proxy", name] + more;
    ProxySegsWellFormed(name, more);
    ProxyJoin(name, more, path);
    PathSegOfJoin(segs, NameSeg);
    PathSegOfJoin(segs, NameSegAsWritten);
  }

  lemma ProxySegsWellFormed(name: string, more: seq<string>)
    requires IsSegment(name) && ElemsWellFormed(more)
    ensures ElemsWellFormed(["module-proxy", name] + more)
  {
    var segs := ["module-proxy", name] + more;
    forall i | 0 <= i < |segs| ensures segs[i] != "" && '/' !in segs[i] {
      if i >= 2 { assert segs[i] == more[i - 2]; }
    }
  }

  /** A proxied path is a slash and its segments joined by slashes. */
  lemma ProxyJoin(name: string, more: seq<string>, path: string)
    requires ProxyPath(name, more, path)
    ensures path == "/" + Join(["module-proxy", name] + more, '/')
  {
    var segs := ["module-proxy", name] + more;
    ProxyLiteral(name);
    if more == [] {
      assert segs == ["module-proxy", name];
      Join2("module-proxy", name);
    } else {
      assert segs == ["module-proxy"] + ([name] + more);
      JoinCons("module-proxy", [name] + more, '/');
      JoinCons(name, more, '/');
      assert ([name] + more)[1..] == more;
    }
  }

  lemma ProxyLiteral(x: string)
    ensures "/module-proxy/" + x == "/" + ("module-proxy" + "/" + x)
  {
    assert "/" + "module-proxy" + "/" == "/module-proxy/";
  }

  /**
    Reading segment 1, a request under an active module with a port is
    forwarded to that port with the rest of the path; any other module state
    gets the gate's reply.
   */
  lemma ProxyRoute(reg: Registry, name: string, more: seq<string>, path: string, rawQuery: string)
    requires IsSegment(name) && ElemsWellFormed(more) && ProxyPath(name, more, path)
    ensures var r := ProxyHandler(reg, path, rawQuery, NameSeg);
      && (r.Ok? <==> ProxyGate(ModuleAt(reg, name)).Ok?)
      && (r.Ok? ==>
            r.value == LocalBase + FormatInt(reg.mods[name].manifest.value.port)
                       + (if more == [] then "/" else "/" + Join(more, '/'))
                       + (if rawQuery != "" then "?" + rawQuery else ""))
  {
    ProxySegments(name, more, path);
    var rest := if more == [] then "" else "/" + Join(more, '/');
    if name in reg.mods && reg.mods[name].manifest.Some? {
      ProxyTargetOf(name, rest, reg.mods[name].manifest.value.port, rawQuery);
    }
  }

  /**
    As written, /module-proxy/<name> reads the empty name and /module-proxy/<name>/<x>/...
    reads <x>: a request for the module's root is refused whenever no module has the empty name.
   */
  lemma ProxyRouteAsWritten(reg: Registry, name: string, rawQuery: string)
    requires IsSegment(name) && "" !in reg.mods
    ensures ProxyHandler(reg, "/module-proxy/" + name, rawQuery, NameSegAsWritten) == Err(Unavailable)
  {
    ProxySegments(name, [], "/module-proxy/" + name);
    assert "/module-proxy/" + name + "" == "/module-proxy/" + name;
  }

  /** After Deactivate or Delete, the proxy refuses the module as unavailable. */
  lemma ProxyAfterStop(reg: Registry, name: string)
    requires name in reg.mods
    ensures ProxyGate(ModuleAt(Deactivate(reg, name).0, name)) == Err(Unavailable)
    ensures ProxyGate(ModuleAt(Delete(reg, name).0, name)) == Err(Unavailable)
  {
  }

  // ---------------------------------------------------------------------------
  // The log page

  /** The lines of a file: trailing line feeds dropped, then split at line feeds. */
  function FileLines(data: string): (ls: seq<string>)
    ensures |ls| >= 1
  {
    Split(TrimRight(data, '\n'), '\n')
  }

  /** tailFile after the read: the last `n` lines, or all of them when there are fewer. */
  function TailLines(data: string, n: nat): (r: seq<string>)
    ensures var ls := FileLines(data);
      && |r| == (if |ls| > n then n else |ls|)
      && r == ls[|ls| - |r|..]
  {
    var ls := FileLines(data);
    if |ls| > n then ls[|ls| - n..] else ls
  }

  /** tailFile: a file that cannot be read gives no lines. */
  function TailFile(read: Option<string>, n: nat): (r: seq<string>)
    ensures read.None? ==> r == []
    ensures read.Some? ==> r == TailLines(read.value, n)
  {
    if read.None? then [] else TailLines(read.value, n)
  }

  /** A file written as lines, each ended by a line feed, gives back its last `n` lines. */
  lemma TailOfWrittenLines(ls: seq<string>, n: nat)
    requires |ls| >= 1 && forall i :: 0 <= i < |ls| ==> '\n' !in ls[i]
    requires ls[|ls| - 1] != ""
    ensures FileLines(Join(ls, '\n') + "\n") == ls
    ensures TailLines(Join(ls, '\n') + "\n", n) == (if |ls| > n then ls[|ls| - n..] else ls)
  {
    WrittenLines(ls);
  }

  lemma WrittenLines(ls: seq<string>)
    requires |ls| >= 1 && forall i :: 0 <= i < |ls| ==> '\n' !in ls[i]
    requires ls[|ls| - 1] != ""
    ensures FileLines(Join(ls, '\n') + "\n") == ls
  {
    TrimWritten(ls);
    SplitJoin(ls, '\n');
  }

  /** Only the final line feed is trimmed when the last line is not empty. */
  lemma TrimWritten(ls: seq<string>)
    requires |ls| >= 1 && ls[|ls| - 1] != ""
    requires '\n' !in ls[|ls| - 1]
    ensures TrimRight(Join(ls, '\n') + "\n", '\n') == Join(ls, '\n')
  {
    var j := Join(ls, '\n');
    var last := ls[|ls| - 1];
    JoinEndsLast(ls, '\n');
    assert last[|last| - 1] in last;
    TrimRightOneTrailing(j, '\n');
  }

  /** The last byte of a join is the last byte of its last part, when that part is non-empty. */
  lemma {:induction false} JoinEndsLast(parts: seq<string>, sep: char)
    requires |parts| >= 1 && parts[|parts| - 1] != ""
    ensures var j := Join(parts, sep);
      |j| > 0 && j[|j| - 1] == parts[|parts| - 1][|parts[|parts| - 1]| - 1]
    decreases |parts|
  {
    if |parts| > 1 {
      JoinEndsLast(parts[1..], sep);
      assert Join(parts, sep) == parts[0] + [sep] + Join(parts[1..], sep);
    }
  }

  /** logsPage: 500 lines when the query asks for exactly "500", otherwise 200. */
  function LogsLineCount(lines: string): (n: nat)
    ensures n == 500 || n == 200
    ensures n == 500 <==> lines == "500"
  {
    if lines == "500" then 500 else 200
  }

  /** The lines the log page shows. */
  function LogsPage(read: Option<string>, lines: string): (r: seq<string>)
    ensures |r| <= LogsLineCount(lines) && |r| <= 500
    ensures lines != "500" ==> |r| <= 200
  {
    TailFile(read, LogsLineCount(lines))
  }

  // ---------------------------------------------------------------------------
  // The install forms

  const UrlRequired: string := "URL обязателен"
  const NoFile: string := "Файл не получен"
  const ZipOnly: string := "Только .zip файлы"

  /** moduleInstallGitHub's check: the trimmed URL, which must not be empty. */
  function GitHubUrl(form: string): (r: Result<string, string>)
    ensures r.Err? <==> TrimSpace(form) == ""
    ensures r.Err? ==> r.error == UrlRequired
    ensures r.Ok? ==> r.value != "" && TrimSpace(r.value) == r.value && r.value == TrimSpace(form)
  {
    var u := TrimSpace(form);
    TrimSpaceIdempotent(form);
    if u == "" then Err(UrlRequired) else Ok(u)
  }

  /**
    moduleInstallZip's checks: a file must have been sent and its name must end
    in ".zip" (case matters); the upload is saved as hf_<nanoseconds>.zip in
    the temporary directory, the path the install task is given.
   */
  function ZipUpload(fileName: Option<string>, tempDir: string, nanos: int): (r: Result<string, string>)
    ensures fileName.None? ==> r == Err(NoFile)
    ensures fileName.Some? && !HasSuffix(fileName.value, ".zip") ==> r == Err(ZipOnly)
    ensures r.Ok? <==> fileName.Some? && HasSuffix(fileName.value, ".zip")
    ensures r.Ok? ==> r.value == JoinPath(tempDir, UploadName(nanos))
  {
    if fileName.None? then Err(NoFile)
    else if !HasSuffix(fileName.value, ".zip") then Err(ZipOnly)
    else Ok(JoinPath(tempDir, UploadName(nanos)))
  }

  function UploadName(nanos: int): (s: string)
    ensures HasPrefix(s, "hf_") && HasSuffix(s, ".zip")
  {
    "hf_" + FormatInt(nanos) + ".zip"
  }

  // ---------------------------------------------------------------------------
  // Start-up settings

  /** envOr: the variable's value, or the default when it is unset or empty. */
  function EnvOr(getenv: string -> string, key: string, def: string): (r: string)
    ensures getenv(key) != "" ==> r == getenv(key)
    ensures getenv(key) == "" ==> r == def
  {
    var v := getenv(key);
    if v != "" then v else def
  }

  datatype Config = Config(port: string, dataDir: string, secret: string)

  const SecretRequired: string := "ERROR: SECRET_KEY is required\nGenerate: openssl rand -hex 32"

  /** The settings main reads from the environment; the server refuses to start without a secret. */
  function LoadConfig(getenv: string -> string): (r: Result<Config, string>)
    ensures r.Err? <==> getenv("SECRET_KEY") == ""
    ensures r.Err? ==> r.error == SecretRequired
    ensures r.Ok? ==> r.value.secret == getenv("SECRET_KEY") && r.value.secret != ""
    ensures r.Ok? ==> r.value.port == (if getenv("PORT") != "" then getenv("PORT") else "8080")
    ensures r.Ok? ==> r.value.dataDir == (if getenv("DATA_DIR") != "" then getenv("DATA_DIR") else "/var/lib/hopefully")
  {
    var c := Config(EnvOr(getenv, "PORT", "8080"), EnvOr(getenv, "DATA_DIR", "/var/lib/hopefully"), EnvOr(getenv, "SECRET_KEY", ""));
    if c.secret == "" then Err(SecretRequired) else Ok(c)
  }
}
