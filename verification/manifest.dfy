/**
  Module manifests: the grammar of module names, the order in which
  `loadManifest` reports its errors, and the search `findManifestDir` makes
  for `manifest.json` in an unpacked archive.

  The filesystem is a map of regular files to their contents and a map of
  directories to their `os.ReadDir` listings, both keyed by cleaned path
  strings. JSON decoding is a parameter that may fail.
 */
module Manifests {
  import opened Wrappers
  import opened GoStrings
  import opened GoPath

  datatype MenuItem = MenuItem(labelText: string, icon: string, position: int, hidden: bool)

  /**
    The decoded `manifest.json`. `env` is Go's map in some iteration order;
    a decoded map never repeats a key (see EnvKeysUnique). `deps` is the
    `requires` list: executables that must be on PATH.
   */
  datatype Manifest = Manifest(
    name: string,
    version: string,
    description: string,
    author: string,
    license: string,
    repository: string,
    entrypoint: string,
    args: seq<string>,
    env: seq<(string, string)>,
    port: int,
    deps: seq<string>,
    menu: MenuItem)

  predicate EnvKeysUnique(env: seq<(string, string)>) {
    forall i, j :: 0 <= i < j < |env| ==> env[i].0 != env[j].0
  }

  // ---------------------------------------------------------------------------
  // The name grammar

  /** The source text of the name pattern, as the error message prints it. */
  const NamePattern: string := "^[a-z0-9][a-z0-9_-]{1,63}$"

  predicate NameStart(c: char) {
    'a' <= c <= 'z' || '0' <= c <= '9'
  }

  predicate NameChar(c: char) {
    NameStart(c) || c == '_' || c == '-'
  }

  /**
    The language of NamePattern. Without the multi-line flag `$` matches only
    at the end of the text, so nothing may follow the last name byte.
   */
  predicate ValidName(s: string) {
    && 2 <= |s| <= 64
    && NameStart(s[0])
    && (forall i :: 1 <= i < |s| ==> NameChar(s[i]))
  }

  /**
    The pattern matched the way an automaton reads it: one start byte, then
    between one and sixty-three tail bytes, then the end of the text.
   */
  method MatchName(s: string) returns (ok: bool)
    ensures ok <==> ValidName(s)
  {
    if |s| == 0 || !NameStart(s[0]) {
      return false;
    }
    var i := 1;
    while i < |s|
      invariant 1 <= i <= |s| && i <= 64
      invariant forall k :: 1 <= k < i ==> NameChar(s[k])
    {
      if i == 64 || !NameChar(s[i]) {
        return false;
      }
      i := i + 1;
    }
    return i >= 2;
  }

  /** Boundary cases of the grammar. */
  lemma NameExamples()
    ensures ValidName("demo") && ValidName("a1") && ValidName("9-lives_x")
    ensures !ValidName("Demo") && !ValidName("-demo") && !ValidName("_demo")
    ensures !ValidName("a") && !ValidName("demo\n") && !ValidName("de mo")
  {
    assert "Demo"[0] == 'D';
    assert "demo\n"[4] == '\n';
    assert "de mo"[2] == ' ';
  }

  /** The length bound: sixty-four name bytes are accepted, sixty-five are not. */
  lemma NameLengthBound()
    ensures ValidName(seq(64, _ => 'a'))
    ensures !ValidName(seq(65, _ => 'a'))
  {
  }

  /** A valid name is one path element: no slash, no space, never "." or "..". */
  lemma ValidNameIsElement(s: string)
    requires ValidName(s)
    ensures s != "" && '/' !in s && NoSpace(s)
    ensures s != "." && s != ".."
    ensures !ValidName(s + "\n")
  {
    assert s[0] != '.';
    assert (s + "\n")[|s|] == '\n';
  }

  // ---------------------------------------------------------------------------
  // An abstract filesystem

  /** One `os.ReadDir` entry; `isDir` is false for a symbolic link. */
  datatype DirEntry = DirEntry(name: string, isDir: bool)

  /**
    Files by path, listable directories by path, and the operating system's
    reason (an errno text such as "no such file or directory") for any path
    that cannot be listed.
   */
  datatype Fs = Fs(files: map<string, string>, dirs: map<string, seq<DirEntry>>, listErr: string -> string)

  /** `os.Stat` succeeds: the path names a file or a directory. */
  predicate Exists(fs: Fs, p: string) {
    p in fs.files || p in fs.dirs
  }

  /** `os.ReadDir` sorts its entries by name. */
  predicate ListingSorted(l: seq<DirEntry>) {
    forall i, j :: 0 <= i < j < |l| ==> LexLess(l[i].name, l[j].name)
  }

  function ManifestPath(dir: string): string {
    JoinPath(dir, "manifest.json")
  }

  // ---------------------------------------------------------------------------
  // loadManifest

  datatype LoadError =
    | ManifestUnreadable(dir: string)
    | InvalidJson(cause: string)
    | BadName(got: string)
    | MissingVersion

  function LoadErrorText(e: LoadError): string {
    match e
    case ManifestUnreadable(dir) => "manifest.json not found in " + dir
    case InvalidJson(cause) => "invalid manifest.json: " + cause
    case BadName(got) => "name must match " + NamePattern + ", got " + Quote(got)
    case MissingVersion => "version is required"
  }

  /**
    Reads, decodes and validates `dir/manifest.json`. Each error implies that
    every earlier check passed: readable, then decodable, then the name, then
    the version.
   */
  function LoadManifest(fs: Fs, dir: string, decode: string -> Result<Manifest, string>): (r: Result<Manifest, LoadError>)
    ensures r.Ok? <==>
      && ManifestPath(dir) in fs.files
      && decode(fs.files[ManifestPath(dir)]).Ok?
      && ValidName(decode(fs.files[ManifestPath(dir)]).value.name)
      && decode(fs.files[ManifestPath(dir)]).value.version != ""
    ensures r.Ok? ==> ValidName(r.value.name) && r.value.version != ""
    ensures r.Ok? ==> r.value == decode(fs.files[ManifestPath(dir)]).value
    ensures r == Err(ManifestUnreadable(dir)) <==> ManifestPath(dir) !in fs.files
    ensures r.Err? && r.error.ManifestUnreadable? ==> r.error.dir == dir
    ensures r.Err? && r.error.InvalidJson? ==>
      ManifestPath(dir) in fs.files && decode(fs.files[ManifestPath(dir)]) == Err(r.error.cause)
    ensures r.Err? && r.error.BadName? ==>
      && ManifestPath(dir) in fs.files
      && decode(fs.files[ManifestPath(dir)]).Ok?
      && decode(fs.files[ManifestPath(dir)]).value.name == r.error.got
      && !ValidName(r.error.got)
    ensures r.Err? && r.error.MissingVersion? ==>
      && ManifestPath(dir) in fs.files
      && decode(fs.files[ManifestPath(dir)]).Ok?
      && ValidName(decode(fs.files[ManifestPath(dir)]).value.name)
      && decode(fs.files[ManifestPath(dir)]).value.version == ""
  {
    var p := ManifestPath(dir);
    if p !in fs.files then Err(ManifestUnreadable(dir))
    else
      match decode(fs.files[p])
      case Err(cause) => Err(InvalidJson(cause))
      case Ok(m) =>
        if !ValidName(m.name) then Err(BadName(m.name))
        else if m.version == "" then Err(MissingVersion)
        else Ok(m)
  }

  // ---------------------------------------------------------------------------
  // findManifestDir

  datatype FindError = ReadDirFailed(path: string, cause: string) | NoManifest

  /**
    The `*fs.PathError` of a failed os.ReadDir reads "open <path>: <cause>"
    when the root cannot be opened. The roots searched are directories an
    install created; a root that is a regular file would fail reading the
    listing, whose error names a different operation, and that case is not
    modelled.
   */
  function FindErrorText(e: FindError): string {
    match e
    case ReadDirFailed(path, cause) => "open " + path + ": " + cause
    case NoManifest => "manifest.json not found"
  }

  /** A listed entry that is a directory holding `manifest.json`. */
  predicate Qualifies(fs: Fs, root: string, e: DirEntry) {
    e.isDir && Exists(fs, ManifestPath(JoinPath(root, e.name)))
  }

  /** The index of the first qualifying entry, if any. */
  function FirstQualifying(fs: Fs, root: string, l: seq<DirEntry>): (k: Option<nat>)
    ensures k.Some? ==> k.value < |l| && Qualifies(fs, root, l[k.value])
  {
    if l == [] then None
    else if Qualifies(fs, root, l[0]) then Some(0)
    else
      match FirstQualifying(fs, root, l[1..])
      case None => None
      case Some(j) => Some(j + 1)
  }

  /** The entry found is the first that qualifies, and none is found only when none qualifies. */
  lemma {:induction false} FirstQualifyingIsFirst(fs: Fs, root: string, l: seq<DirEntry>)
    ensures var k := FirstQualifying(fs, root, l);
      && (k.Some? ==> forall j :: 0 <= j < k.value ==> !Qualifies(fs, root, l[j]))
      && (k.None? ==> forall j :: 0 <= j < |l| ==> !Qualifies(fs, root, l[j]))
    decreases |l|
  {
    if l != [] && !Qualifies(fs, root, l[0]) {
      FirstQualifyingIsFirst(fs, root, l[1..]);
      forall j | 1 <= j < |l| ensures l[j] == l[1..][j - 1] {
      }
    }
  }

  /**
    `root` itself when it holds `manifest.json`; otherwise the first entry of
    root's listing that is a directory holding one. Deeper levels are never
    looked at.
   */
  function FindManifestDir(fs: Fs, root: string): (r: Result<string, FindError>)
    ensures Exists(fs, ManifestPath(root)) ==> r == Ok(root)
    ensures !Exists(fs, ManifestPath(root)) && root !in fs.dirs ==> r == Err(ReadDirFailed(root, fs.listErr(root)))
    ensures !Exists(fs, ManifestPath(root)) && root in fs.dirs ==>
      (r.Ok? <==> exists i :: 0 <= i < |fs.dirs[root]| && Qualifies(fs, root, fs.dirs[root][i]))
    ensures r.Err? ==> r.error == NoManifest || r.error == ReadDirFailed(root, fs.listErr(root))
    ensures r.Ok? ==> Exists(fs, ManifestPath(r.value))
    ensures r.Ok? && r.value != root ==>
      && root in fs.dirs
      && exists i :: (0 <= i < |fs.dirs[root]|
        && fs.dirs[root][i].isDir
        && r.value == JoinPath(root, fs.dirs[root][i].name)
        && forall j :: 0 <= j < i ==> !Qualifies(fs, root, fs.dirs[root][j]))
  {
    if Exists(fs, ManifestPath(root)) then Ok(root)
    else if root !in fs.dirs then Err(ReadDirFailed(root, fs.listErr(root)))
    else
      var l := fs.dirs[root];
      FirstQualifyingIsFirst(fs, root, l);
      match FirstQualifying(fs, root, l)
      case None => Err(NoManifest)
      case Some(k) => Ok(JoinPath(root, l[k].name))
  }

  /**
    A root with no manifest that cannot be listed: the search reports the
    listing's error, "open <root>: <cause>".
   */
  lemma UnlistableRootText(fs: Fs, root: string)
    requires !Exists(fs, ManifestPath(root)) && root !in fs.dirs
    ensures FindManifestDir(fs, root).Err?
    ensures FindErrorText(FindManifestDir(fs, root).error) == "open " + root + ": " + fs.listErr(root)
  {
  }

  /**
    With the listing sorted by name, the directory found is the one whose
    name is least among all qualifying entries.
   */
  lemma FoundIsLeast(fs: Fs, root: string)
    requires !Exists(fs, ManifestPath(root)) && root in fs.dirs
    requires ListingSorted(fs.dirs[root])
    requires FindManifestDir(fs, root).Ok?
    ensures exists i :: (0 <= i < |fs.dirs[root]|
      && Qualifies(fs, root, fs.dirs[root][i])
      && FindManifestDir(fs, root).value == JoinPath(root, fs.dirs[root][i].name)
      && forall j :: 0 <= j < |fs.dirs[root]| && j != i && Qualifies(fs, root, fs.dirs[root][j]) ==>
        LexLess(fs.dirs[root][i].name, fs.dirs[root][j].name))
  {
    var l := fs.dirs[root];
    var k := FirstQualifying(fs, root, l).value;
    FirstQualifyingIsFirst(fs, root, l);
    assert FindManifestDir(fs, root).value == JoinPath(root, l[k].name);
    forall j | 0 <= j < |l| && j != k && Qualifies(fs, root, l[j])
      ensures LexLess(l[k].name, l[j].name)
    {
      assert k < j;
    }
  }

  /** The first qualifying entry depends only on each entry's own manifest. */
  lemma {:induction false} FirstQualifyingFrame(fs1: Fs, fs2: Fs, root: string, l: seq<DirEntry>)
    requires forall i :: 0 <= i < |l| ==>
      Exists(fs1, ManifestPath(JoinPath(root, l[i].name))) == Exists(fs2, ManifestPath(JoinPath(root, l[i].name)))
    ensures FirstQualifying(fs1, root, l) == FirstQualifying(fs2, root, l)
    decreases |l|
  {
    if l != [] {
      FirstQualifyingFrame(fs1, fs2, root, l[1..]);
    }
  }

  /**
    The search reads only root's manifest, root's listing (or the reason it
    cannot be listed) and each listed child's manifest: two filesystems that
    agree there give the same answer,
    whatever else (deeper directories, other files) they hold.
   */
  lemma FindManifestDirFrame(fs1: Fs, fs2: Fs, root: string)
    requires Exists(fs1, ManifestPath(root)) == Exists(fs2, ManifestPath(root))
    requires (root in fs1.dirs) == (root in fs2.dirs)
    requires root !in fs1.dirs ==> fs1.listErr(root) == fs2.listErr(root)
    requires root in fs1.dirs ==> root in fs2.dirs && fs1.dirs[root] == fs2.dirs[root]
    requires root in fs1.dirs ==> forall i :: 0 <= i < |fs1.dirs[root]| ==>
      Exists(fs1, ManifestPath(JoinPath(root, fs1.dirs[root][i].name)))
        == Exists(fs2, ManifestPath(JoinPath(root, fs1.dirs[root][i].name)))
    ensures FindManifestDir(fs1, root) == FindManifestDir(fs2, root)
  {
    if root in fs1.dirs {
      FirstQualifyingFrame(fs1, fs2, root, fs1.dirs[root]);
    }
  }
}
