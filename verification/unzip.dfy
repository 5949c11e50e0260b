/**
  The path-traversal guard of `unzip`: an archive entry is written only if
  `Join(dst, Clean(name))` starts with `Clean(dst) + "/"`.

  Over elements the guard says: walking the entry's cleaned elements from
  dst's cleaned elements must end strictly below dst.
 */
module Unzip {
  import opened GoStrings
  import opened GoPath

  /** Where an entry named `name` would be written. */
  function EntryPath(dst: string, name: string): string {
    JoinPath(dst, Clean(name))
  }

  /** The guard of the extraction loop; a rejected entry is skipped without error. */
  predicate Accept(dst: string, name: string) {
    HasPrefix(EntryPath(dst, name), Clean(dst) + "/")
  }

  /** The elements an entry resolves to, starting from dst's cleaned elements. */
  function Resolve(dst: string, name: string): seq<string> {
    Walk(Rooted(dst), CleanElems(dst), Elems(Clean(name)))
  }

  /** `e` lies strictly below `d`. */
  predicate Inside(d: seq<string>, e: seq<string>) {
    |d| < |e| && e[..|d|] == d
  }

  lemma EntryPathResolves(dst: string, name: string)
    requires dst != ""
    ensures EntryPath(dst, name) == Render(Rooted(dst), Resolve(dst, name))
    ensures Cleaned(Rooted(dst), Resolve(dst, name))
  {
    var c := Clean(name);
    var s := dst + "/" + c;
    assert Rooted(s) == Rooted(dst) by {
      assert s[0] == dst[0];
    }
    ElemsConcat(dst, c);
    WalkAppend(Rooted(dst), [], Elems(dst), Elems(c));
    CleanElemsCleaned(dst);
    WalkCleaned(Rooted(dst), CleanElems(dst), Elems(c));
  }

  /**
    For a destination with at least one element, an entry is accepted exactly
    when it resolves strictly below the destination.
   */
  lemma AcceptIffInside(dst: string, name: string)
    requires dst != "" && CleanElems(dst) != []
    ensures Accept(dst, name) <==> Inside(CleanElems(dst), Resolve(dst, name))
  {
    EntryPathResolves(dst, name);
    CleanElemsCleaned(dst);
    RenderPrefix(Rooted(dst), CleanElems(dst), Resolve(dst, name));
  }

  /**
    Under an absolute destination an accepted entry lies strictly below it,
    and no ".." or "." is left in what it adds.
   */
  lemma AcceptedStaysInside(dst: string, name: string)
    requires Rooted(dst) && CleanElems(dst) != []
    requires Accept(dst, name)
    ensures
      var d, e := CleanElems(dst), Resolve(dst, name);
      && |d| < |e| && e[..|d|] == d
      && forall k :: |d| <= k < |e| ==> e[k] != ".." && e[k] != "." && e[k] != ""
  {
    AcceptIffInside(dst, name);
    EntryPathResolves(dst, name);
  }

  /** An entry whose cleaned name has elements and never climbs is accepted. */
  lemma PlainNamesAccepted(dst: string, name: string)
    requires dst != "" && CleanElems(dst) != []
    requires CleanElems(name) != []
    requires forall k :: 0 <= k < |CleanElems(name)| ==> CleanElems(name)[k] != ".."
    ensures Resolve(dst, name) == CleanElems(dst) + CleanElems(name)
    ensures Accept(dst, name)
  {
    var e := CleanElems(name);
    CleanElemsCleaned(name);
    ElemsOfRender(Rooted(name), e);
    WalkPlain(Rooted(dst), CleanElems(dst), e);
    AcceptIffInside(dst, name);
    assert (CleanElems(dst) + e)[..|CleanElems(dst)|] == CleanElems(dst);
  }

  /** An entry that cleans to "." or "/" resolves to dst itself and is skipped. */
  lemma SelfRejected(dst: string, name: string)
    requires dst != "" && CleanElems(dst) != []
    requires CleanElems(name) == []
    ensures Resolve(dst, name) == CleanElems(dst)
    ensures !Accept(dst, name)
  {
    if Rooted(name) {
      ElemsOfRender(true, []);
    } else {
      ElemsOfElem(".");
    }
    AcceptIffInside(dst, name);
  }

  /**
    Under an absolute destination, an entry that climbs one level is accepted
    only when it comes straight back into the destination: `../<last>/x` is
    written, `../<last>` and a sibling `../<other>/x` are skipped.
   */
  lemma OneLevelUp(dst: string, name: string, plain: seq<string>)
    requires Rooted(dst) && CleanElems(dst) != []
    requires CleanElems(name) == [".."] + plain
    requires forall k :: 0 <= k < |plain| ==> plain[k] != ".."
    ensures
      var d := CleanElems(dst);
      Accept(dst, name) <==> |plain| >= 2 && plain[0] == d[|d| - 1]
  {
    var d := CleanElems(dst);
    ClimbResolves(dst, name, plain);
    AcceptIffInside(dst, name);
    ClimbInside(d, plain);
  }

  /** Climbing one level and then down `plain` ends at the parent's elements followed by `plain`. */
  lemma ClimbResolves(dst: string, name: string, plain: seq<string>)
    requires Rooted(dst) && CleanElems(dst) != []
    requires CleanElems(name) == [".."] + plain
    requires forall k :: 0 <= k < |plain| ==> plain[k] != ".."
    ensures Resolve(dst, name) == CleanElems(dst)[..|CleanElems(dst)| - 1] + plain
  {
    var d := CleanElems(dst);
    var n := |d|;
    var e := CleanElems(name);
    CleanElemsCleaned(name);
    CleanElemsCleaned(dst);
    assert !Rooted(name) by {
      assert e[0] == "..";
    }
    ElemsOfRender(false, e);
    assert forall k :: 0 <= k < |plain| ==> plain[k] == e[k + 1];
    assert d[n - 1] != "..";
    assert Step(true, d, "..") == d[..n - 1];
    assert e[1..] == plain;
    WalkPlain(true, d[..n - 1], plain);
  }

  /** The parent's elements and then `plain` lie below `d` exactly when `plain` re-enters d's last element and goes further. */
  lemma ClimbInside(d: seq<string>, plain: seq<string>)
    requires d != []
    ensures Inside(d, d[..|d| - 1] + plain) <==> |plain| >= 2 && plain[0] == d[|d| - 1]
  {
    var n := |d|;
    var r := d[..n - 1] + plain;
    if |plain| >= 2 && plain[0] == d[n - 1] {
      assert r[..n] == d[..n - 1] + [plain[0]];
      assert d == d[..n - 1] + [d[n - 1]];
    }
    if Inside(d, r) {
      assert r[n - 1] == plain[0];
    }
  }

  /** A cleaned path never starts with "./" or "//". */
  lemma CleanedPrefixes(rooted: bool, e: seq<string>)
    requires Cleaned(rooted, e)
    ensures !HasPrefix(Render(rooted, e), "./") && !HasPrefix(Render(rooted, e), "//")
  {
    var r := Render(rooted, e);
    if e != [] {
      JoinHasFirst(e, '/');
      var j := Join(e, '/');
      var x := e[0];
      assert x[0] in x;
      assert x[0] != '/' && j[0] == x[0];
      if rooted {
        assert r == "/" + j && r[0] == '/' && r[1] == x[0];
      } else {
        assert r == j;
        if |x| == 1 {
          assert x == [x[0]];
          assert x[0] != '.';
        } else {
          assert x[1] in x;
          assert r[1] == x[1] && x[1] != '/';
        }
      }
    }
  }

  /**
    Unpacking into "/" or "." (or anything that cleans to them) writes
    nothing: every entry is rejected.
   */
  lemma NothingAcceptedAtTop(dst: string, name: string)
    requires CleanElems(dst) == []
    ensures !Accept(dst, name)
  {
    if dst == "" {
      TopOfEmpty(name);
    } else {
      var p := Clean(dst) + "/";
      assert p == "//" || p == "./";
      EntryPathResolves(dst, name);
      CleanedPrefixes(Rooted(dst), Resolve(dst, name));
    }
  }

  lemma TopOfEmpty(name: string)
    ensures !Accept("", name)
  {
    var c := Clean(name);
    CleanNonEmpty(name);
    assert EntryPath("", name) == Clean(c);
    assert Clean("") + "/" == "./" by {
      assert Elems("") == [];
    }
    CleanElemsCleaned(c);
    CleanedPrefixes(Rooted(c), CleanElems(c));
  }

  // ---------------------------------------------------------------------------
  // The extraction loop

  /**
    One archive entry: its name, whether it is a directory, and whether
    `f.Open` can open its data (it cannot for a compression method the
    reader does not support or a corrupt local header).
   */
  datatype ZipEntry = ZipEntry(name: string, isDir: bool, readable: bool)

  /** A file entry that cannot be extracted: its target cannot be opened for writing, or its data cannot be read. */
  predicate Stops(e: ZipEntry, target: string -> string, canOpen: string -> bool) {
    !e.isDir && (!canOpen(target(e.name)) || !e.readable)
  }

  /**
    The extraction loop, for a guard and a target path per entry name: an
    entry the guard rejects is skipped; an accepted directory is created and
    an accepted file written; the first accepted file that Stops ends the
    loop with an error. The result is the paths created, in order, and
    whether the loop ran to the end. A file whose data cannot be read ends
    the loop with f.Open's error here; the code as written ignores that
    error instead (UnzipErrors.RunAsWritten).
   */
  function ExtractWith(entries: seq<ZipEntry>, guard: string -> bool, target: string -> string,
                       canOpen: string -> bool): (r: (seq<string>, bool))
    ensures |r.0| <= |entries|
    ensures forall p :: p in r.0 ==>
      exists j :: 0 <= j < |entries| && guard(entries[j].name) && p == target(entries[j].name)
    ensures r.1 ==> forall j :: 0 <= j < |entries| && guard(entries[j].name) ==> target(entries[j].name) in r.0
    ensures !r.1 <==> exists j :: 0 <= j < |entries| && guard(entries[j].name) && Stops(entries[j], target, canOpen)
    decreases |entries|
  {
    if entries == [] then ([], true)
    else
      var e := entries[0];
      var (rest, ok) := ExtractWith(entries[1..], guard, target, canOpen);
      assert forall j :: 0 < j < |entries| ==> entries[j] == entries[1..][j - 1];
      if !guard(e.name) then (rest, ok)
      else if Stops(e, target, canOpen) then ([], false)
      else ([target(e.name)] + rest, ok)
  }

  /** unzip into `dst`: the guard is Accept and an entry goes to its EntryPath. */
  function Extract(dst: string, entries: seq<ZipEntry>, canOpen: string -> bool): (seq<string>, bool) {
    ExtractWith(entries, name => Accept(dst, name), name => EntryPath(dst, name), canOpen)
  }

  /** Under an absolute destination, everything unzip creates lies strictly below it. */
  lemma ExtractStaysInside(dst: string, entries: seq<ZipEntry>, canOpen: string -> bool, p: string)
    requires Rooted(dst) && CleanElems(dst) != []
    requires p in Extract(dst, entries, canOpen).0
    ensures exists name :: (
      && p == Render(true, Resolve(dst, name))
      && Inside(CleanElems(dst), Resolve(dst, name)))
  {
    var j :| 0 <= j < |entries| && Accept(dst, entries[j].name) && p == EntryPath(dst, entries[j].name);
    AcceptIffInside(dst, entries[j].name);
    EntryPathResolves(dst, entries[j].name);
  }
}

/** The error unzip returns: the archive's own, or the first file it cannot extract. */
module UnzipErrors {
  import opened Wrappers
  import opened Unzip

  /**
    The index of the entry that ends the extraction loop: the first entry
    the guard accepts that Stops, if there is one.
   */
  function FailedEntry(entries: seq<ZipEntry>, guard: string -> bool, target: string -> string,
                       canOpen: string -> bool): (r: Option<nat>)
    ensures r.None? <==> ExtractWith(entries, guard, target, canOpen).1
    ensures r.Some? ==> r.value < |entries| && guard(entries[r.value].name) && Stops(entries[r.value], target, canOpen)
    ensures r.Some? ==> forall j :: 0 <= j < r.value ==> !(guard(entries[j].name) && Stops(entries[j], target, canOpen))
    decreases |entries|
  {
    if entries == [] then None
    else
      var e := entries[0];
      assert forall j :: 0 < j < |entries| ==> entries[j] == entries[1..][j - 1];
      if guard(e.name) && Stops(e, target, canOpen) then Some(0)
      else
        match FailedEntry(entries[1..], guard, target, canOpen)
        case None => None
        case Some(k) => Some(k + 1)
  }

  /**
    What unzip is given: the archive's entries, or the error zip.OpenReader
    reports; which paths can be opened for writing, and the operating
    system's reason when one cannot; and f.Open's error for an entry, by
    name, whose data cannot be read.
   */
  datatype Archive = Archive(entries: Result<seq<ZipEntry>, string>, canOpen: string -> bool,
                             openCause: string -> string, readErr: string -> string)

  /**
    The failing entry, when the archive opened: the index of the first
    accepted file that cannot be written or read, where unzip stops.
   */
  function Failure(dst: string, zip: Archive): (r: Option<nat>)
    requires zip.entries.Ok?
    ensures r.Some? ==> r.value < |zip.entries.value| && Accept(dst, zip.entries.value[r.value].name)
    ensures r.Some? ==> forall j :: 0 <= j < r.value ==>
      !(Accept(dst, zip.entries.value[j].name) && Stops(zip.entries.value[j], n => EntryPath(dst, n), zip.canOpen))
  {
    FailedEntry(zip.entries.value, name => Accept(dst, name), name => EntryPath(dst, name), zip.canOpen)
  }

  /**
    unzip with f.Open's error returned: the archive's open error; the
    `*fs.PathError` of the first file that cannot be opened for writing
    ("open <path>: <cause>"); or, when that file's target opens, the error of
    opening its data. None when every accepted entry was extracted.
   */
  function Run(dst: string, zip: Archive): (r: Option<string>)
    ensures r.None? <==> zip.entries.Ok? && Extract(dst, zip.entries.value, zip.canOpen).1
    ensures zip.entries.Err? ==> r == Some(zip.entries.error)
    ensures zip.entries.Ok? && r.Some? ==> (
      && Failure(dst, zip).Some?
      && var j := Failure(dst, zip).value;
      && j < |zip.entries.value| && Accept(dst, zip.entries.value[j].name) && !zip.entries.value[j].isDir
      && var p := EntryPath(dst, zip.entries.value[j].name);
      if !zip.canOpen(p) then r.value == "open " + p + ": " + zip.openCause(p)
      else !zip.entries.value[j].readable && r.value == zip.readErr(zip.entries.value[j].name))
  {
    match zip.entries
    case Err(e) => Some(e)
    case Ok(entries) =>
      match Failure(dst, zip)
      case None => None
      case Some(j) =>
        var p := EntryPath(dst, entries[j].name);
        if !zip.canOpen(p) then Some("open " + p + ": " + zip.openCause(p))
        else Some(zip.readErr(entries[j].name))
  }

  /** How unzip as written ends: it returns nil, returns an error, or panics. */
  datatype Unzipped = Unpacked | Failed(err: string) | Panicked

  /**
    unzip as written: `rc, _ := f.Open()` drops the error, so for a file
    whose target opens but whose data cannot be read, io.Copy reads from a
    nil reader and panics. Otherwise it ends as Run does.
   */
  function RunAsWritten(dst: string, zip: Archive): (r: Unzipped)
    ensures r.Unpacked? <==> Run(dst, zip).None?
    ensures r.Failed? ==> Run(dst, zip) == Some(r.err)
    ensures r.Panicked? <==> (
      && zip.entries.Ok? && Failure(dst, zip).Some?
      && var j := Failure(dst, zip).value;
      && j < |zip.entries.value| && !zip.entries.value[j].isDir && !zip.entries.value[j].readable
      && zip.canOpen(EntryPath(dst, zip.entries.value[j].name)))
  {
    match zip.entries
    case Err(e) => Failed(e)
    case Ok(entries) =>
      match Failure(dst, zip)
      case None => Unpacked
      case Some(j) =>
        var p := EntryPath(dst, entries[j].name);
        if !zip.canOpen(p) then Failed("open " + p + ": " + zip.openCause(p)) else Panicked
  }

  /**
    An archive holding one accepted file whose data cannot be read (say, an
    unsupported compression method): as written unzip panics, which in the
    install goroutine ends the server; with f.Open's error returned it fails
    with that error.
   */
  lemma UnreadableEntryPanics(dst: string, name: string, zip: Archive)
    requires zip.entries == Ok([ZipEntry(name, false, false)])
    requires Accept(dst, name) && zip.canOpen(EntryPath(dst, name))
    ensures RunAsWritten(dst, zip) == Panicked
    ensures Run(dst, zip) == Some(zip.readErr(name))
  {
    var es := zip.entries.value;
    assert FailedEntry(es, n => Accept(dst, n), n => EntryPath(dst, n), zip.canOpen) == Some(0);
  }
}
