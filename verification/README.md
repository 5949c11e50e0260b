# Hopefully: the module lifecycle, modelled in Dafny

Hopefully is a small Go server that administers a host over a web UI. Its
main feature is a set of *modules*: add-ons installed from a GitHub
repository or an uploaded zip archive, each described by a `manifest.json`.
The server runs each module as a child process and proxies the module's
HTTP port under `/module-proxy/<name>/`.

This project models that lifecycle as pure functions over immutable
datatypes. It covers:

- **Manifests**: the module-name grammar, the order of `loadManifest`'s
  checks, and the search `findManifestDir` makes (the root first, then the
  first immediate subdirectory in listing order).
- **Tasks** and **EventStream**: an install task's append-only log and its
  256-slot live channel (`log` drops a line when the channel is full,
  `finish` never does), and `Stream`'s replay-then-live protocol framed as
  server-sent events (section 9.2 of the HTML Living Standard).
- **RunLog**: the line splitter applied to a subprocess's output.
- **Unzip**: the path-traversal guard of `unzip`, over Go's lexical `Clean`.
- **Installer**: the steps `finalize` takes and their order (validate,
  check dependencies, stop and remove the old copy, copy, run `install.sh`,
  register), and the GitHub and zip install flows around it.
- **ModuleRegistry**: the registry's state machine (`Activate`,
  `Deactivate`, `Delete`, `register`, the exit watcher, the `LoadFromDB`
  autostart loop), the child's environment list, and the menu `NavItems`
  builds.
- **Server**: the request helpers of `cmd/server/main.go`. These are
  `pathSeg`, the proxy gate and target URL, `tailFile` after the read, the
  line count of the logs page, `envOr` and the install input checks.
- **Auth**: token extraction (cookie first, then a bearer header as in
  section 2.1 of RFC 6750), the Middleware and AdminOnly decision tree, the
  redirect status and `DisplayName`.
- **Metrics**: the integer helpers of the dashboard. These are the unit
  choice of `fmtBytes`, the breakdown of `uptime`, `loadAvg`, and the
  `/proc/stat` and `/proc/meminfo` line parsers.

Support modules hold no source behaviour of their own:

- **Wrappers**: Option and Result.
- **GoStrings**: the part of Go's `strings` and `strconv` the core uses:
  `Split`, `Trim`, `TrimSpace`, `Fields`, `HasPrefix`, `ParseUint`,
  `FormatInt` and the like.
- **GoPath**: `filepath.Clean`, `Join` and `Base` over path elements.

Strings are sequences of characters, one character per byte of a Go string.

The operating system, the database, HTTP and JSON are parameters:

- The filesystem is a value: files, directories and each directory's listing.
- Starting a process is an oracle that answers a pid or an error.
- A process exiting is an explicit event.
- The database is a second map of rows, keyed by name.
- JSON decoding, the JWT check and the users table are functions passed in.

## Model

| member | source | states |
|---|---|---|
| Manifests.MatchName | internal/modules/manifest.go:11 | accepts a name exactly when it has 2 to 64 characters, starts with a lower-case letter or digit, and continues with lower-case letters, digits, `_` or `-` |
| Manifests.NameExamples | internal/modules/manifest.go:11 | upper case, a leading `-` or `_`, one character, a space and a trailing newline are all rejected (RE2's `$` is end of text) |
| Manifests.NameLengthBound | internal/modules/manifest.go:11 | a 64-byte name is accepted and a 65-byte one rejected |
| Manifests.ValidNameIsElement | internal/modules/manifest.go:11 | a valid name is one path element: non-empty, no slash or space, never `.` or `..`; appending a newline makes it invalid |
| Manifests.LoadManifest | internal/modules/manifest.go:35-51 | success iff the file is readable, decodes, and has a valid name and a non-empty version; on success the decoded manifest is returned; each error reports the first check that fails, in the order unreadable, bad JSON, bad name, missing version |
| Manifests.FirstQualifyingIsFirst | internal/modules/manifest.go:61-68 | the entry found is the first directory entry holding `manifest.json`; nothing is found only when no entry qualifies |
| Manifests.FindManifestDir | internal/modules/manifest.go:53-70 | root when it holds `manifest.json`; a failed ReadDir is propagated with the operating system's cause; otherwise success iff some listed directory holds the file, and the result is root/<the first such entry>; every result holds a manifest |
| Manifests.FoundIsLeast | internal/modules/manifest.go:57-67 | under ReadDir's sorted listing, the subdirectory found has the least name of all qualifying ones |
| Manifests.FirstQualifyingFrame | internal/modules/manifest.go:61-67 | which entry is found depends only on whether each listed entry's own `manifest.json` exists |
| Manifests.UnlistableRootText | internal/modules/manifest.go:57-60 | a root without a manifest that cannot be listed reports `open <root>: <cause>` |
| Manifests.FindManifestDirFrame | internal/modules/manifest.go:53-70 | the search depends only on the root's manifest, its listing and its children's manifests: files and deeper directories never matter |
| Tasks.NewTaskValid | internal/modules/installer.go:38-43 | a new task has an empty buffer and channel and satisfies the task invariant |
| Tasks.Log | internal/modules/installer.go:50-54 | appends exactly one plain line to the buffer; the line goes onto the channel only when fewer than 256 are queued and is dropped from it otherwise; nothing else changes |
| Tasks.FinalLine | internal/modules/installer.go:57-59 | the last line sent is marked done, and marked error exactly when there is an error |
| Tasks.Finish | internal/modules/installer.go:56-63 | with no error the buffer is unchanged; with an error one `"ERROR: "+msg` line at error level is appended; the final line is queued after everything already queued, even on a full channel |
| Tasks.LogValid | internal/modules/installer.go:50-54 | logging keeps the invariant: at most 256 queued, no done line in the buffer, every queued plain line also in the buffer |
| Tasks.FinishValid | internal/modules/installer.go:56-63 | finishing keeps the invariant; a done line is only ever last, and only once the channel is closed |
| Tasks.ReceiveValid | internal/modules/installer.go:84 | a receive takes the head of the queue; a closed, empty channel answers a zero line with open false; a running task's empty channel blocks |
| Tasks.DrainFinished | internal/modules/installer.go:62 | a finished task delivers its whole queue, then reports the channel closed |
| Tasks.DrainRunning | internal/modules/installer.go:84 | a running task delivers what is on its channel, then blocks |
| Tasks.FinalNeverDropped | internal/modules/installer.go:62 | even with a full channel the final line reaches the subscriber, after every queued line |
| Tasks.Replay | internal/modules/installer.go:78-79 | the snapshot is sent as one data frame per buffered line, in order |
| Tasks.Live | internal/modules/installer.go:82-90 | the live loop forwards at most one frame per event and no done line before its last frame |
| Tasks.Stream | internal/modules/installer.go:65-91 | a stream begins with the replay of the buffer snapshot |
| Tasks.LiveStopsAt | internal/modules/installer.go:86-87 | nothing after the first done line, closed channel or cancellation is read |
| Tasks.LiveOfDeliveries | internal/modules/installer.go:84-86 | delivered lines that are not done are forwarded one for one |
| Tasks.AttachAfterFinish | internal/modules/installer.go:78-80 | attaching after finish shows the buffer, then exactly one done marker whose error flag is false, even when the task failed |
| Tasks.AttachThenFinish | internal/modules/installer.go:78-86 | attaching to a running task shows the buffer, then the lines still queued a second time, then the final line |
| Tasks.DuplicateDelivery | internal/modules/installer.go:52-53 | one line logged before attaching is shown twice, then the done marker |
| EventStream.SplitRender | internal/modules/installer.go:72-76 | when no payload holds a line feed, the rendered stream splits into each frame's line followed by a blank line |
| EventStream.ProcessDataFrame | internal/modules/installer.go:74 | a `data: ` line and a blank line dispatch the payload |
| EventStream.ProcessPingFrame | internal/modules/installer.go:88 | the keep-alive comment dispatches nothing |
| EventStream.ProcessFrameLines | internal/modules/installer.go:72-88 | reading the frames' lines dispatches exactly the data payloads, in order |
| EventStream.ReadRender | internal/modules/installer.go:72-76 | a reader following the standard's parsing rules gets back exactly the payloads of the data frames that were sent |
| RunLog.Emit | internal/modules/installer.go:177-178 | a piece of output yields at most one line |
| RunLog.OutputLinesSplit | internal/modules/installer.go:173-179 | the reader's lines are the output split at line feeds, trimmed, with blanks dropped and two spaces prepended |
| RunLog.SplitOutput | internal/modules/installer.go:172-180 | the byte-at-a-time loop logs exactly the reference lines |
| RunLog.ReadPieces | internal/modules/installer.go:175-179 | the loop's lines are those of the split pieces, an unterminated tail included |
| RunLog.Flush | internal/modules/installer.go:177 | the earlier lines are kept and at most one line is added: two spaces and the trimmed builder, exactly when that is not blank; for a last piece with no line feed this is the reference splitter's result |
| RunLog.OutputLinesShape | internal/modules/installer.go:177-178 | every logged line is two spaces, then text that neither starts nor ends with white space |
| RunLog.TrailingLineFeed | internal/modules/installer.go:177 | an unterminated last line is logged as if it had its line feed |
| RunLog.JoinedLines | internal/modules/installer.go:178 | a line feed separates independent parts: the lines of `a\nb` are those of `a`, then those of `b` |
| Unzip.EntryPathResolves | internal/modules/installer.go:190 | the joined path is the rendering of the entry's elements resolved from the destination's, and is itself clean |
| Unzip.AcceptIffInside | internal/modules/installer.go:190-191 | the prefix test accepts an entry iff it resolves strictly below the destination |
| Unzip.AcceptedStaysInside | internal/modules/installer.go:190-191 | an accepted entry keeps the destination's elements and adds only plain ones, never `..`, `.` or empty |
| Unzip.PlainNamesAccepted | internal/modules/installer.go:190-191 | a name that never climbs and has an element resolves to the destination plus its elements, and is accepted |
| Unzip.SelfRejected | internal/modules/installer.go:190-191 | a name that cleans to the destination itself is skipped |
| Unzip.ClimbResolves | internal/modules/installer.go:190 | a name that climbs one level and then descends plain elements resolves to the destination's parent followed by those elements |
| Unzip.ClimbInside | internal/modules/installer.go:191 | the parent followed by plain elements lies below the destination iff they re-enter its last element and go further |
| Unzip.OneLevelUp | internal/modules/installer.go:190-191 | a name starting with one `..` is accepted only if it comes straight back into the destination; a sibling sharing its prefix is skipped |
| Unzip.NothingAcceptedAtTop | internal/modules/installer.go:191 | a destination that cleans to `/` or `.` accepts nothing |
| Unzip.TopOfEmpty | internal/modules/installer.go:191 | an empty destination accepts nothing |
| Unzip.ExtractWith | internal/modules/installer.go:189-198 | only entries that pass the guard are created, each at its target; extraction fails iff a file that passes cannot be opened for writing or its data cannot be read (the corrected loop: see Findings); on success every entry that passes is created |
| UnzipErrors.FailedEntry | internal/modules/installer.go:189-196 | the failing entry exists iff the extraction does not run to the end; it is an accepted file that cannot be written or read, and no earlier accepted entry is one |
| UnzipErrors.Run | internal/modules/installer.go:184-199 | unzip with f.Open's error returned: success iff the archive opens and the extraction runs to the end; otherwise the archive's error, or the error of the first accepted file that cannot be extracted: `open <path>: <cause>` when it cannot be written, f.Open's error when it can but its data cannot be read |
| UnzipErrors.Failure | internal/modules/installer.go:189-196 | the entry unzip stops at is accepted, and no earlier accepted entry fails |
| UnzipErrors.RunAsWritten | internal/modules/installer.go:184-199 | unzip as written: where Run succeeds it succeeds, where Run fails it returns Run's error, except that it panics exactly when the first accepted file that cannot be extracted is writable but unreadable |
| UnzipErrors.UnreadableEntryPanics | internal/modules/installer.go:196 | one accepted, writable file with unreadable data: the code as written panics, Run fails with f.Open's error |
| Unzip.ExtractStaysInside | internal/modules/installer.go:184-199 | under an absolute destination, every path unzip creates lies strictly below it |
| Installer.FirstMissing | internal/modules/installer.go:132-135 | the first dependency not on PATH; all before it are on PATH; none means all are |
| Installer.CheckDeps | internal/modules/installer.go:132-137 | dependencies are checked in order up to and including the first missing one; "OK" lines are logged for those before it; the error names it |
| Installer.Stopped | internal/modules/installer.go:140-143 | stopping the old module clears only its process; its status, error log and every other entry are unchanged |
| Installer.Replace | internal/modules/installer.go:139-144 | an installed module is warned about, stopped and its directory removed; otherwise nothing happens |
| Installer.Hook | internal/modules/installer.go:148-156 | without `install.sh` nothing happens; the hook fails iff it exists and exits with an error, and the error is prefixed with `install.sh: ` |
| Installer.RunHookLogged | internal/modules/installer.go:150-155 | with the output reader joined, the hook's start line, its output lines, and on success the done line are logged, in that order |
| Installer.RunHookUnjoined | internal/modules/installer.go:172-181 | runLog as written, with the reader `k` lines in when Wait returns: the error is the joined one's, and on failure the rest of the output is still unread |
| Installer.HookOutputAfterDone | internal/modules/installer.go:150-155 | a reader that has read everything gives RunHookLogged; one still at its first line puts the done line before the hook's output |
| Installer.LateLinesFollowDone | internal/modules/installer.go:172-181 | with the reader at its first line, the done line comes straight after the start line and the first output line after it |
| Installer.HookOutputAfterFinish | internal/modules/installer.go:53-62 | a failing hook with output still unread is finished first, so the rest comes after the final line, and with room on the channel the channel is already closed |
| Installer.AfterCopy | internal/modules/installer.go:148-162 | registration happens iff the hook does not fail; a failing hook leaves the registry as it was |
| Installer.Deploy | internal/modules/installer.go:139-162 | the steps are stop and remove, copy, the hook when the copy succeeded, and register when nothing failed; a copy or hook error leaves the module stopped and unregistered |
| Installer.Finalize | internal/modules/installer.go:127-163 | a manifest error aborts before any step with that error; otherwise the outcome is that of the dependency loop and Deploy |
| Installer.FinalizeManifest | internal/modules/installer.go:130-162 | past the manifest check, the outcome is the summary line, the dependency loop, then Deploy |
| Installer.TraceInPhaseOrder | internal/modules/installer.go:127-163 | every trace of finalize is in phase order: checks, stop and remove, copy, hook, register |
| Installer.MissingDependencyFirst | internal/modules/installer.go:132-135 | a missing dependency ends the trace at its own check, before any stop, remove or copy |
| Installer.RegisteredLast | internal/modules/installer.go:145-160 | registration is the last step, after the copy and after the hook when there is one |
| Installer.FailedUpdateStaysActive | internal/modules/installer.go:140-146 | an update of an active module that fails after the checks leaves it recorded as active with no process, until the exit watcher runs |
| Installer.FailedUpdateThenExit | internal/modules/installer.go:140-146 | when the old process existed, the exit watcher woken by its kill then records the module as error with `process exited unexpectedly`, in memory and in the table |
| Installer.InstallGitHub | internal/modules/installer.go:93-108 | the clone directory is named after the repository; a clone error ends the task as `git clone: <err>`; otherwise finalize's outcome; the clone's lines begin the log; the last line queued is the final line |
| Installer.LoggedClone | internal/modules/installer.go:96-103 | the task's lines are the clone announcement, git's output lines in order, and `Клонировано` on success, with the reader joined |
| Installer.CloneDirIsChild | internal/modules/installer.go:97-98 | the clone directory lies directly inside the temp directory |
| Installer.InstallZip | internal/modules/installer.go:110-125 | the archive unpacks to `<zip>_dir`; unzip's error (`unzip: ` and the archive's open error, `open <path>: <cause>` for the first file that cannot be written, or f.Open's error for the first whose data cannot be read, where the code as written panics instead), a failed manifest search or a manifest error ends the task with that error; otherwise finalize's outcome on the directory found |
| Installer.InstallUnpacked | internal/modules/installer.go:118-122 | after a successful unpack the log holds the unpack lines; a failed manifest search or a manifest error ends the task with that error and leaves the registry as it was; otherwise finalize's outcome on the directory found; the last line queued is the final line |
| Installer.Unpacked | internal/modules/installer.go:114-118 | after a successful unpack the task holds its two lines |
| ModuleRegistry.EnvEntries | internal/modules/registry.go:190-192 | one `k=v` entry per manifest variable |
| ModuleRegistry.LookupEntries | internal/modules/registry.go:190-192 | under os/exec's last-one-wins rule, looking a key up among the manifest's entries gives the manifest's value |
| ModuleRegistry.PortLookup | internal/modules/registry.go:187-189 | `PORT` is set, to the decimal port, only when the port is not 0 |
| ModuleRegistry.ModuleEnvSees | internal/modules/registry.go:182-192 | the child sees a manifest variable first, then `PORT`, then the three module variables, then the host's environment |
| ModuleRegistry.EnvValueAt | internal/modules/registry.go:190-191 | with unique keys every manifest variable is seen with its own value |
| ModuleRegistry.StartProcess | internal/modules/registry.go:171-216 | no process without a manifest or an entrypoint; a missing entrypoint file is an error; otherwise the launch result, with `start: ` before its error |
| ModuleRegistry.CommandOf | internal/modules/registry.go:173-192 | the command runs the entrypoint in the module's directory with the manifest's arguments and the module environment |
| ModuleRegistry.StopProcess | internal/modules/registry.go:218-223 | the recorded process is returned as killed and forgotten; nothing else changes |
| ModuleRegistry.UpdateRow | internal/modules/registry.go:142-148 | an UPDATE by name changes only that row's status and error log, and only if the row exists |
| ModuleRegistry.Update | internal/modules/registry.go:141-148 | only the named entry and its row change, and the names stay filed under themselves |
| ModuleRegistry.Activate | internal/modules/registry.go:133-150 | an unknown name is an error with no change; a failed start records status error and its message and returns it; otherwise status active and an empty error log |
| ModuleRegistry.Deactivate | internal/modules/registry.go:152-160 | no change for an unknown name; otherwise the process is killed and cleared and the status becomes inactive, with the error log left as it was |
| ModuleRegistry.Delete | internal/modules/registry.go:162-168 | the entry and the row are gone, every other one is unchanged, the process is killed and the module's directory is removed |
| ModuleRegistry.Forget | internal/modules/registry.go:164-167 | the entry and the row of the name are dropped and every other one stays |
| ModuleRegistry.Register | internal/modules/registry.go:225-239 | the single entry for the name is replaced by the caller's record; its row is written with status inactive, an empty error log and the encoded manifest |
| ModuleRegistry.Exited | internal/modules/registry.go:203-212 | only a module still present and active becomes error, with "process exited unexpectedly"; otherwise nothing changes |
| ModuleRegistry.LoadRow | internal/modules/registry.go:57-76 | a row becomes a module with its fields and decoded manifest; an active row whose start fails is demoted to error with the message |
| ModuleRegistry.LoadRowsKeeps | internal/modules/registry.go:56-77 | loading leaves the entries of names no row has |
| ModuleRegistry.LoadRowsEntries | internal/modules/registry.go:56-77 | every row is loaded, later rows after a failed one included |
| ModuleRegistry.LoadRowsNames | internal/modules/registry.go:56-77 | loading adds entries only for the rows' names |
| ModuleRegistry.RegisterThenLoad | internal/modules/registry.go:225-239 | a registered module, loaded back from its row, is the record with status inactive, no error and no process |
| ModuleRegistry.DeactivateIdempotent | internal/modules/registry.go:152-160 | deactivating twice is deactivating once, and the second time kills nothing |
| ModuleRegistry.ActivateTwiceOrphans | internal/modules/registry.go:140-146 | activating a running module records only the second process, so Deactivate never kills the first |
| ModuleRegistry.ExitAfterDeactivate | internal/modules/registry.go:207 | when the status write comes before the watcher, the watcher changes nothing after Deactivate |
| ModuleRegistry.DeactivateRaced | internal/modules/registry.go:152-159 | Deactivate with the exit watcher running between the kill and the status write: only the module changes, and it ends inactive with no process |
| ModuleRegistry.ExitDuringDeactivate | internal/modules/registry.go:204-211 | in that order an active module ends inactive carrying `process exited unexpectedly`, in memory and in the table, unlike Deactivate |
| ModuleRegistry.ExitAfterDelete | internal/modules/registry.go:207 | the exit watcher changes nothing after Delete |
| ModuleRegistry.NavItemOf | internal/modules/registry.go:114-122 | the label falls back from the menu label to the description to the name; the icon defaults to `package`; the href is `/modules/<name>` |
| ModuleRegistry.NavTransitive | internal/modules/registry.go:124-129 | the menu order is transitive |
| ModuleRegistry.NavAsymmetric | internal/modules/registry.go:124-129 | the menu order is asymmetric |
| ModuleRegistry.NavTotal | internal/modules/registry.go:124-129 | the menu order is total on distinct names |
| ModuleRegistry.Insert | internal/modules/registry.go:124-129 | inserting into a sorted menu keeps it sorted and adds exactly the new item |
| ModuleRegistry.NavItems | internal/modules/registry.go:106-131 | the menu holds exactly the active, visible modules that have a manifest, sorted by position and then name |
| ModuleRegistry.SortedNavUnique | internal/modules/registry.go:124-129 | two sorted menus with the same items are equal, whatever order the map gives |
| Server.PathSegOfJoin | cmd/server/main.go:359-363 | the piece of a path at an index, counting from 0 after the outer slashes are trimmed, or "" past the last piece |
| Server.SegmentsOfJoin | cmd/server/main.go:360 | a path written as a slash and slash-free pieces splits back into those pieces |
| Server.ActivatePath | cmd/server/main.go:359-363 | in `/modules/<name>/activate`, piece 1 is the name and piece 2 is `activate` |
| Server.ViewPath | cmd/server/main.go:359-363 | in `/modules/<name>`, piece 1 is the name and piece 2 is "" |
| Server.StreamPathSegs | cmd/server/main.go:359-363 | in `/modules/install/<id>/stream`, piece 2 is the id and piece 3 is `stream` |
| Server.UserPathSegs | cmd/server/main.go:359-363 | in `/users/<id>/<action>`, piece 1 is the id and piece 2 the action |
| Server.ViewError | cmd/server/main.go:242-246 | the module frame shows no error iff the module is registered and active; an unknown name shows "not found" |
| Server.StreamHandler | cmd/server/main.go:217-222 | the task named by the path piece, or 404 |
| Server.ActivateRouteAsWritten | cmd/server/main.go:224-228 | as written, activating `/modules/<name>/activate` looks up a module named `activate` |
| Server.ActivateRoute | cmd/server/main.go:224-233 | reading piece 1, activate and deactivate reach the module the path names |
| Server.ModuleDirOfEmpty | internal/modules/registry.go:45-46 | the directory of the empty name is the directory of all modules |
| Server.DeleteRouteAsWritten | cmd/server/main.go:235-238 | as written, `DELETE /modules/<name>` removes the directory of every module and leaves the module registered |
| Server.DeleteRoute | cmd/server/main.go:235-238 | reading piece 1, both delete routes forget the named module and remove only its own directory |
| Server.ViewRouteAsWritten | cmd/server/main.go:240-248 | as written, the view of `/modules/<name>` reports "not found" |
| Server.ViewRoute | cmd/server/main.go:240-248 | reading piece 1, the view shows no error iff the named module is active |
| Server.StreamRouteAsWritten | cmd/server/main.go:217-222 | as written, `/modules/install/<id>/stream` looks up the task `stream` and answers 404 |
| Server.StreamRoute | cmd/server/main.go:217-222 | reading piece 2, the stream of a known task is found |
| Server.UserActionHandler | cmd/server/main.go:164-176 | refuses with 400 exactly when the path piece is the caller's own id; otherwise acts on that piece |
| Server.UserRouteAsWritten | cmd/server/main.go:164-169 | as written the guard never fires, even on the caller's own id, and the statement is given the action word as the id, so no user is changed |
| Server.UserRoute | cmd/server/main.go:164-176 | reading piece 1, the guard refuses exactly the caller's own id |
| Server.ProxyGate | cmd/server/main.go:252-254 | 503 when the module is unknown or inactive, then 502 when it has no manifest or port 0, in that order; otherwise its port |
| Server.ProxyTargetOf | cmd/server/main.go:255-258 | the target is the loopback address and port, the path after the module's prefix or "/", and "?query" only when the query is non-empty |
| Server.ProxySegments | cmd/server/main.go:251 | in a proxied path the module name is piece 1; piece 2 is the first piece of the sub-path |
| Server.ProxyRouteAsWritten | cmd/server/main.go:250-253 | as written, a request for `/module-proxy/<name>` is refused as unavailable |
| Server.ProxyRoute | cmd/server/main.go:250-258 | reading piece 1, the proxy forwards iff the gate passes, to the module's port with the sub-path and query |
| Server.ProxyAfterStop | cmd/server/main.go:252-253 | after Deactivate or Delete the proxy answers unavailable |
| Server.FileLines | cmd/server/main.go:368 | a file always splits into at least one line |
| Server.TailLines | cmd/server/main.go:368-370 | the last min(n, k) of the file's k lines, in their order |
| Server.TailFile | cmd/server/main.go:365-371 | an unreadable file gives no lines; otherwise the tail of its lines |
| Server.TailOfWrittenLines | cmd/server/main.go:365-371 | a file written as line-feed-terminated lines gives back exactly its last n lines |
| Server.LogsLineCount | cmd/server/main.go:272-273 | 500 lines iff the query asks for exactly "500", otherwise 200 |
| Server.LogsPage | cmd/server/main.go:271-276 | the logs page never shows more lines than its count |
| Server.GitHubUrl | cmd/server/main.go:194-195 | a URL that trims to blank is refused before any task exists; otherwise the trimmed URL is used |
| Server.ZipUpload | cmd/server/main.go:202-208 | a missing file and a name without `.zip` are refused; otherwise the upload goes to an `hf_<n>.zip` file in the temp directory |
| Server.UploadName | cmd/server/main.go:208 | the upload's file name starts with `hf_` and ends with `.zip` |
| Server.EnvOr | cmd/server/main.go:373-376 | the variable's value when it is non-empty, the default otherwise |
| Server.LoadConfig | cmd/server/main.go:380-389 | the server refuses to start without a secret; the port and data directory fall back to 8080 and /var/lib/hopefully |
| Auth.DisplayName | internal/auth/auth.go:36-41 | the full name when set, otherwise the username |
| Auth.CookieToken | internal/auth/auth.go:173-181 | a "tok" cookie wins, even an empty one; otherwise the text after `Bearer `; otherwise no token |
| Auth.BearerRoundTrip | internal/auth/auth.go:177-179 | a bearer token sent without a cookie is read back unchanged |
| Auth.CookieShadowsHeader | internal/auth/auth.go:174-176 | with a cookie, the Authorization header is never read |
| Auth.ParseToken | internal/auth/auth.go:72-87 | a uid only for a token that parses, is HMAC-signed and is accepted; a non-HMAC token is refused for its method |
| Auth.RedirectReply | internal/auth/auth.go:183-190 | 401 with HX-Redirect iff the request is an htmx request, otherwise a 302 with Location; both point to /login |
| Auth.ClearMatchesSession | internal/auth/auth.go:158-171 | the clearing cookie has the session cookie's name and path and expires at once, while the session cookie lives a day |
| Auth.Middleware | internal/auth/auth.go:125-146 | every refusal is the login redirect; the cookie is cleared iff a token was presented; only active users are served |
| Auth.MiddlewareServes | internal/auth/auth.go:127-144 | Middleware serves a user iff the request's token parses, is accepted, and names that active user |
| Auth.MiddlewareRefuses | internal/auth/auth.go:127-143 | a request that authenticates nobody is redirected, clearing the cookie iff a token was presented |
| Auth.EmptyCookieRefuses | internal/auth/auth.go:127-131 | an empty "tok" cookie is redirected without clearing, even beside a valid bearer header |
| Auth.AdminOnly | internal/auth/auth.go:148-156 | only admins are served; a 403 never clears the cookie |
| Auth.AdminOnlyOverMiddleware | internal/auth/auth.go:148-156 | AdminOnly serves exactly the admins Middleware serves, answers 403 to the other users it serves, and passes its refusals on unchanged |
| Metrics.GoQuot | internal/system/metrics.go:134-136 | Go's integer quotient truncates toward zero |
| Metrics.GoRem | internal/system/metrics.go:135-136 | Go's remainder takes the dividend's sign and completes the quotient |
| Metrics.FmtBytes | internal/system/metrics.go:155-166 | below 1024 the count in bytes; otherwise a unit index below 6, a divisor of 1024^(index+1) with divisor <= b < 1024*divisor, and the index is b's base-1024 order minus one |
| Metrics.PowBound | internal/system/metrics.go:161-165 | no seventh power of 1024 fits in a uint64, so "KMGTPE" is always indexed in bounds |
| Metrics.ClockBreakdown | internal/system/metrics.go:133-136 | for a non-negative duration, hours below 24 and minutes below 60, and the days, hours and minutes cover the seconds to within a minute |
| Metrics.ClockNegative | internal/system/metrics.go:134 | a negative duration has no days |
| Metrics.ClockDays | internal/system/metrics.go:134-137 | the day count is positive exactly from 86400 seconds on |
| Metrics.UptimeText | internal/system/metrics.go:137-140 | the text ends with the minutes mark |
| Metrics.UptimeDayForm | internal/system/metrics.go:137-140 | the three-part form with a day count is used iff the duration is a day or more |
| Metrics.Uptime | internal/system/metrics.go:127-141 | "?" iff the file is empty; otherwise the text of the first field's seconds |
| Metrics.LoadAvg | internal/system/metrics.go:143-153 | "?" iff the data is empty or has fewer than 3 fields; otherwise the first three fields joined by single spaces |
| Metrics.DropCR | internal/system/metrics.go:72-74 | the line scanner drops one trailing carriage return |
| Metrics.ScanLines | internal/system/metrics.go:72-74 | the scanner's lines are the line-feed pieces without a trailing carriage return, one per piece, a final empty piece not counted |
| Metrics.FirstCpuLine | internal/system/metrics.go:73-77 | the first line starting with "cpu " (so `cpu0` lines are skipped) |
| Metrics.CpuFields | internal/system/metrics.go:75-78 | such a line's first field is `cpu` |
| Metrics.ReadStat | internal/system/metrics.go:66-86 | nothing for an unreadable file or no cpu line; otherwise one uint64 per field after the first, parsed as ParseUint parses |
| Metrics.Entry | internal/system/metrics.go:97-100 | a line with at least two fields gives its first field without a trailing ':' and its value times 1024, wrapping as a uint64 |
| Metrics.KvKeys | internal/system/metrics.go:94-102 | a key is in the map iff some line has it |
| Metrics.KvLastWins | internal/system/metrics.go:96-102 | a key's value is that of the last line that has it |
| Metrics.KvBounded | internal/system/metrics.go:99-100 | every value in the map is a uint64 |
| Metrics.MemOf | internal/system/metrics.go:103-110 | the total is MemTotal; a zero total gives zero used; otherwise used is total minus MemAvailable, wrapping as a uint64 |
| Metrics.MemInfo | internal/system/metrics.go:88-111 | an unreadable file gives zeros; both values are uint64s |
| Metrics.MemTotalFromLastLine | internal/system/metrics.go:96-103 | the total reported is the value of the last MemTotal line |
| Metrics.NoMemTotal | internal/system/metrics.go:103-107 | without a MemTotal line, nothing used of nothing |

## Where the code is followed over its own description

- Activate sleeps 300 ms after a start, but that does not turn an
  immediate crash into an error. During the sleep the status is not yet
  active, so the exit watcher does nothing, and Activate then sets the
  status to active.
- An update runs `RemoveAll` on the old directory only when the module is
  registered. A stale directory left by an unregistered module is copied
  into.
- Activating a running module starts a second process and records only
  that one. The first process is orphaned (`ActivateTwiceOrphans`).
- `ParseUint` on an overflowing number answers the largest uint64, not 0.
  The code ignores the error but keeps the value.
- `uptime` on data that is only white space indexes an empty field list,
  so it panics.
- An empty "tok" cookie shadows a valid bearer header, and the request is
  redirected (`EmptyCookieRefuses`).
- A subscriber that attaches while a task runs sees the buffer and then the
  lines still on the channel, so it can be shown a line twice. The code
  snapshots the buffer, then reads the channel, and nothing de-duplicates
  (`AttachThenFinish`, `DuplicateDelivery`). Nothing is lost.
- An update whose copy or hook fails stops the old process and writes no
  status. The exit watcher then records the module as error with
  `process exited unexpectedly` (`FailedUpdateThenExit`).

## Left out

- Goroutines, mutexes, blocking channel semantics beyond the queue model,
  the 10-minute task clean-up and the clock-derived task ids: they are
  concurrency and time. A task id is any string in the task map.
- Spawning, killing and waiting for processes, and the 300 ms sleep.
  Start is an oracle and exit is an explicit event.
- SQL and the schema in `internal/db/db.go`. Rows are a second map by
  name. The row id and the installation time are not modelled.
- JSON encoding and decoding. The manifest decoder and the log-line
  encoder are parameters; the stream round trip assumes the encoder emits
  no line feed, as `json.Marshal` does not.
- Real filesystem effects: file copying, `RemoveAll`, `Chmod`, `MkdirAll`
  and file contents. Reads of `/proc` and log files are passed in as
  optional strings.
- `copyDir` itself: the copy is one step whose error is a parameter.
- HTTP plumbing: response writing, proxy body and header forwarding,
  flushing, templates, router wiring, seeding, the command-line flags that
  override `envOr`, and the startup directories.
- The server-sent-events keep-alive is a frame kind that a subscriber
  event produces. The 25 s timer itself is time.
- bcrypt, and JWT signing and verification: `ParseToken` takes the
  library's verdict as an oracle. `HashPassword`, `CheckPassword`,
  `NewToken` and the login handlers are not modelled.
- `GetByID` is a map lookup and `GetByUsername` is not modelled: both
  are SQL.
- Floating point in metrics: `cpuPct`, the percentages, the `%.1f`
  mantissa of `fmtBytes` (ByteText takes it as text), and `ParseFloat` in
  `uptime` (a parameter maps the field to whole seconds).
- `diskInfo` is not modelled: it only calls `Statfs` and multiplies.
- The nanosecond overflow of `time.Duration` for very long uptimes.
- bufio's 64 KB token limit on a scanned line.
- Unicode white space: only ASCII white space counts in `TrimSpace` and
  `Fields`.
- `web/static/js/app.js`: browser UI code.
- Metrics.Uptime: requires non-empty data to have a field, because the
  code panics on white-space-only data.
- Metrics.FmtBytes: states the unit choice, not the rendered text, because
  the text needs floating point.
- Server.PathSeg: its own contract states only that a piece has no slash.
  Server.PathSegOfJoin states the full result for well-formed paths.
- Server.LogsPage: states the bound on the count. Server.TailFile and
  Server.TailLines state the lines themselves.
- Tasks.Live: its own contract states only the bounds.
  Tasks.LiveStopsAt, Tasks.LiveOfDeliveries and the Attach lemmas state
  the frames.
- Tasks.Stream: its own contract states only the replayed prefix.
  Tasks.AttachAfterFinish and Tasks.AttachThenFinish state whole streams.
- ModuleRegistry.EnvEntries: states only the length.
  ModuleRegistry.LookupEntries states what the child sees.
- ModuleRegistry.ExitAfterDeactivate: holds only when the status write
  comes before the exit watcher. ModuleRegistry.DeactivateRaced models
  the other order, which the code allows (see Findings).
- Installer.RunHookLogged: Installer.LoggedClone and the logs of
  Installer.InstallGitHub and Installer.InstallZip assume the output
  reader is joined before Wait's result is used. The code does not join
  it. Installer.RunHookUnjoined models one other order; the others, and a
  late send on a closed channel, are concurrency (see Findings).
- Installer.InstallGitHub: the clone's and the hook's outcomes are given.
  Both commands run under the request's context, which net/http cancels
  when the install handler returns (cmd/server/main.go:196, :213). A clone
  or `install.sh` run that starts after that, or is still running then,
  fails with the context's error or is killed. That dependence on request
  timing is not modelled, and neither is the context in Installer.InstallZip.
- Installer.InstallZip: it follows the corrected unzip (UnzipErrors.Run),
  which returns f.Open's error where the code panics (see Findings).
  The tree the manifest search reads is given as a
  filesystem value. It is not built from the paths the extraction
  creates, and the ignored `MkdirAll` errors are not modelled.

## Findings

| source | as written | input that shows it | evidently intended | confidence | as-written member | corrected member |
|---|---|---|---|---|---|---|
| cmd/server/main.go:225 | moduleActivate and moduleDeactivate read `pathSeg(path, 2)`, which is the action word | `POST /modules/demo/activate` activates a module named `activate`: a 500 "not found" | read piece 1, the module name | not executed | Server.ActivateRouteAsWritten | Server.ActivateRoute |
| cmd/server/main.go:236 | moduleDelete reads piece 2, which is "" for `DELETE /modules/demo` | `DELETE /modules/demo` removes `<data>/modules`, every module's files, and `demo` stays registered | read piece 1 | not executed | Server.DeleteRouteAsWritten | Server.DeleteRoute |
| cmd/server/main.go:241 | moduleView reads piece 2, which is "" for `/modules/demo` | `GET /modules/demo` for an active module shows "not found" | read piece 1 | not executed | Server.ViewRouteAsWritten | Server.ViewRoute |
| cmd/server/main.go:218 | moduleInstallStream reads piece 3, which is `stream` | `GET /modules/install/<id>/stream` for a live task answers 404 | read piece 2, the task id | not executed | Server.StreamRouteAsWritten | Server.StreamRoute |
| cmd/server/main.go:165 | userToggle and userDelete read piece 2, the action word: the self-guard never fires and the UPDATE or DELETE is given `toggle` or `delete` as the id | user 1 sending `POST /users/1/toggle` is not refused, and no user is changed | read piece 1, the user id | not executed | Server.UserRouteAsWritten | Server.UserRoute |
| cmd/server/main.go:251 | moduleProxy reads piece 2, the first piece of the sub-path | `GET /module-proxy/demo` for an active module with a port answers 503 | read piece 1 | not executed | Server.ProxyRouteAsWritten | Server.ProxyRoute |
| internal/modules/registry.go:152-159 | Deactivate releases the lock before stopProcess and writes "inactive" afterwards, so the exit watcher woken by the kill can still see "active" | an active module with a running process is deactivated, and the watcher takes the lock between the kill and the status write: it ends inactive with error log `process exited unexpectedly` | the module ends inactive with its error log unchanged | not executed | ModuleRegistry.ExitDuringDeactivate | ModuleRegistry.ExitAfterDeactivate |
| internal/modules/installer.go:172-181 | runLog returns cmd.Wait() without waiting for the reader goroutine, which may not yet have logged all output | `install.sh` prints one line and succeeds, and Wait returns before the reader logs it: `install.sh выполнен` comes before the output; on a failing hook the late line is logged after finish has closed the channel, and that send panics | every output line is logged before runLog returns | not executed | Installer.HookOutputAfterDone | Installer.RunHookLogged |
| internal/modules/installer.go:196 | `rc, _ := f.Open()` drops the error, so for an entry the reader cannot open rc is nil and `io.Copy` reads from it and panics, in the install goroutine with no recover | a `.zip` whose one file `a.txt` uses a compression method the reader does not support, uploaded for install | unzip returns f.Open's error, and the task ends with `unzip: <err>` | not executed | UnzipErrors.UnreadableEntryPanics | UnzipErrors.Run |
