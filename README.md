# ggfonts core, modelled in Dafny

ggfonts is a command-line tool that looks fonts up in the Google Fonts
catalog, downloads a family's archive and installs its font files on macOS,
Linux or Windows. This project models the decision and bookkeeping core of
`utilities/fs_utility.js` and the `config` command of `commands/config.js`,
and proves what they promise.

- The filesystem is a map from path to content (`Files.FileMap`).
- The network is a finite sequence of HTTP exchanges: the i-th request gets
  the i-th exchange.
- A ZIP archive is the sequence of its entry names.
- `os.platform()`, `os.version()`, `os.homedir()` and `os.EOL` form a `Host`.
- The console output is a sequence of `Console.Event` values.
- A callback is modelled by the operation returning whether it called its
  continuation, and the caller running that continuation.

Modules, one per file:

- `Strings` (strings.dfy): substring search, `toLowerCase`, `trim` and
  joining.
- `JsValues` (values.dfy): `arrayOf`, `contains` and `containsAny` over a
  datatype of JavaScript values. Arrays, objects and functions have a
  reference identity.
- `Paths` (paths.dfy): the host's fixed paths, `path.basename`,
  `path.extname` and `getFileExt`.
- `Catalog` (catalog.dfy): the catalog items, the minimisation,
  `getFontVersion` and the catalog URL chosen from the credential file.
- `Files` (files.dfy): file contents and how the tool reads them back.
- `Console` (console.dfy): the printed lines and uncaught exceptions.
- `Fetch` (fetch.dfy): the redirect chain of `_download`, and the
  temp-then-promote protocol of `download` as a function of its outcome.
- `Archive` (archive.dfy): the extension filter, extraction and copying, as
  sequences of writes.
- `Platform` (platform.dfy): the OS dispatch and the first-match Linux
  distro chain.
- `Search` (search.dfy): the result display loop of `searchFont`.
- `FsUtility` (disk.dfy): class `Disk`, whose `files` field is the
  filesystem and whose methods are the tool's operations.
- `ConfigCommand` (config.dfy): `_action` of the `config` command.

Three defects of the code are modelled as written:

- An unknown Linux distro throws a `ReferenceError` instead of warning
  (utilities/fs_utility.js:464).
- Any fc-cache error throws a `TypeError`, because the callback parameter
  `error` shadows the logging function (utilities/fs_utility.js:429-437).
- The Fedora target is the relative path `usr/share/fonts/<family>`
  (utilities/fs_utility.js:460).

## Model

| member | source | states |
|---|---|---|
| Strings.IncludesIff | utilities/fs_utility.js:106-107 | `includes` holds exactly when the needle occurs at some index of the string |
| Strings.ToLowerSpec | utilities/fs_utility.js:75 | the lower-cased text has no upper-case letter, each upper-case letter becomes the same letter in lower case, and every other character is kept |
| Strings.ToLowerExample | utilities/fs_utility.js:75 | ".TTF" lower-cases to ".ttf" |
| Strings.ToLowerIdempotent | utilities/fs_utility.js:75 | lower-casing twice is lower-casing once |
| Strings.TrimAfterAppend | utilities/fs_utility.js:215 | trimming ignores a whitespace suffix appended to the text |
| JsValues.ContainsNull | utilities/fs_utility.js:102-104 | a `null` item contains only `null` |
| JsValues.ContainsStrings | utilities/fs_utility.js:106-107 | on a string item, `contains` is substring inclusion of the value |
| JsValues.ArrayContainsByIdentity | utilities/fs_utility.js:106-107 | an array item compares elements by identity: a structurally equal copy of an array element is not contained, while the same array is |
| JsValues.ContainsObjectKey | utilities/fs_utility.js:110-112 | an object item contains a value exactly when the value's string form is one of its own keys |
| JsValues.ContainsNothingElse | utilities/fs_utility.js:114 | `undefined`, booleans, numbers and functions contain nothing |
| JsValues.CountContainedPositive | utilities/fs_utility.js:127 | the filtered list is non-empty exactly when some value is contained |
| JsValues.ContainsAnyIff | utilities/fs_utility.js:125-128 | `containsAny` holds exactly when the values form an array with a contained element; an empty or non-array list gives false |
| JsValues.ContainsAnyWords | utilities/fs_utility.js:125-128 | against a list of strings, `containsAny` of a string means some word occurs in it |
| Paths.StatePathsDistinct | utilities/fs_utility.js:36-39 | the credential file, the raw catalog, its temporary file and the minimised catalog are pairwise different paths |
| Paths.TempPathDistinct | utilities/fs_utility.js:243 | a download's temporary file is never its final path |
| Paths.JoinInjective | utilities/fs_utility.js:187-188 | joining a directory and a single-segment name determines both: equal joins have equal directories and equal names |
| Paths.TrimTrailingSlashesSpec | utilities/fs_utility.js:67 | trailing slashes are dropped, and only they: the rest is a prefix of the path that does not end in a slash |
| Paths.LastSegmentSpec | utilities/fs_utility.js:67 | the last segment ends the path, holds no slash, and is preceded by a slash unless it is the whole path |
| Paths.BasenameSpec | utilities/fs_utility.js:67 | the base name has no slash, ends the path once trailing slashes are dropped, and is preceded there by a slash unless it is all of it, so it is the longest such ending |
| Paths.BasenameOfName | utilities/fs_utility.js:67 | a name without a slash is its own base name |
| Paths.DotSuffixSpec | utilities/fs_utility.js:75 | a base name has an extension exactly when a dot occurs after its first character, and the extension then runs from the last dot to the end |
| Paths.DotSuffixShape | utilities/fs_utility.js:75 | an extension is empty or a dot followed by no other dot, and ends the base name after its first character |
| Paths.ExtnameFromLastDot | utilities/fs_utility.js:75 | `path.extname` is non-empty exactly when the base name is not ".." and has a dot after its first character, and is then the base name from its last dot |
| Paths.ExtnameExample | utilities/fs_utility.js:75 | the extension of "Roboto.TTF" is ".TTF" |
| Paths.GetFileExtExample | utilities/fs_utility.js:75 | `getFileExt("Roboto.TTF")` is ".ttf" |
| Paths.ExtnameSpec | utilities/fs_utility.js:75 | the extension is empty, or a dot followed by no other dot or slash that ends the base name after its first character |
| Paths.GetFileExtStartsWithDot | utilities/fs_utility.js:75 | `getFileExt` is empty exactly when `path.extname` is, otherwise starts with the dot; it has the extension's length and no upper-case letter |
| Paths.NoDotNoExt | utilities/fs_utility.js:75 | a path without a dot has no extension |
| Catalog.MinimiseAll | utilities/fs_utility.js:300-305 | the minimised items keep the length and order, and each item keeps its family and version and nothing else |
| Catalog.MinimiseAllIdempotent | utilities/fs_utility.js:300-305 | minimising a minimised catalog changes nothing |
| Catalog.Matching | utilities/fs_utility.js:364 | the filter keeps only items of that exact family, and is empty exactly when no item has it |
| Catalog.SingleMatch | utilities/fs_utility.js:364-366 | exactly one match means a unique index holds the family, and the filter is then that item alone |
| Catalog.FontVersionSpec | utilities/fs_utility.js:362-370 | the version of the unique match; "" when no item or several items match |
| Catalog.RobotoLookup | utilities/fs_utility.js:364 | the family comparison is case-sensitive |
| Catalog.StoredKeyRoundTrip | utilities/fs_utility.js:214-219 | a key stored with an end-of-line reads back as the authenticated URL for exactly that key |
| Catalog.CatalogUrlChoice | utilities/fs_utility.js:214-221 | the public mirror exactly when the trimmed credential is blank; otherwise the endpoint followed by the trimmed credential |
| Catalog.CatalogUrlIgnoresEol | utilities/fs_utility.js:215 | whitespace after the credential does not change the URL |
| Catalog.NoKeyUsesMirror | utilities/fs_utility.js:221 | with no credential the URL is the public mirror |
| Catalog.EndpointNamesApiHost | utilities/fs_utility.js:254 | every authenticated URL contains the API host, so a rejection of it prints the key warning |
| Files.ReadText | utilities/fs_utility.js:171-180 | a missing file reads as the empty string |
| Files.CatalogItems | utilities/fs_utility.js:299-301 | the items parse exactly when the file holds a catalog document |
| Fetch.Follow | utilities/fs_utility.js:230-235 | the chain never ends on a 301 or 302 |
| Fetch.FollowEndsAtFirstNonRedirect | utilities/fs_utility.js:224-236 | the chain ends at the first exchange that is not a redirect, which answers the location the previous redirect named; nothing answers when every exchange redirects |
| Fetch.FollowRedirects | utilities/fs_utility.js:225-236 | the request loop stops at the first non-redirect, targets the last location, prints one line per redirect in order and ends as `Follow` does |
| Fetch.AfterDownloadIgnoresEmptyTemp | utilities/fs_utility.js:243-244 | creating the temporary file empty at the start does not change any outcome |
| Fetch.PromotionIsAtomic | utilities/fs_utility.js:250-266 | the final path changes only on a complete 200, and then it holds the body and the temporary file is gone |
| Fetch.DownloadFrame | utilities/fs_utility.js:241-273 | a download touches no file but the final path and its temporary file |
| Fetch.TempFileFate | utilities/fs_utility.js:250-266 | the temporary file is gone exactly after a success or a rejection; otherwise it is empty or incomplete |
| Archive.AllowedExtIsContainsAny | utilities/fs_utility.js:405 | the extension filter is `containsAny(getFileExt(name), exts)`, and an empty list allows nothing |
| Archive.ApplySpec | utilities/fs_utility.js:404-407 | after a sequence of writes each path holds the last content written to it, or keeps its old state |
| Archive.WritesOfSpec | utilities/fs_utility.js:404-409 | every write of a filtered pass over the entries writes a passing entry at its target, and every passing entry is written |
| Archive.WritesOfAll | utilities/fs_utility.js:399-401 | a filter that passes everything writes every entry once, in order |
| Archive.AppliedEntry | utilities/fs_utility.js:404-409 | after the writes, a passing entry's target exists and holds that entry unless a later passing entry has the same target |
| Archive.ExtractWritesSpec | utilities/fs_utility.js:404-409 | every write of an extraction puts a kept entry of the archive at that entry's target |
| Archive.ExtractWritesComplete | utilities/fs_utility.js:404-409 | every kept entry is written to its target |
| Archive.ExtractWritesKept | utilities/fs_utility.js:405-406 | a kept entry adds its own write at the end |
| Archive.ExtractWritesSkipped | utilities/fs_utility.js:405 | a skipped entry adds no write |
| Archive.ExtractAllWrites | utilities/fs_utility.js:399-401 | with an empty list every entry is written, in order, at its own relative path |
| Archive.ExtractionSpec | utilities/fs_utility.js:399-409 | extraction removes no file, and a new or changed file is the target of a kept entry and holds that entry |
| Archive.ExtractIntoStep | utilities/fs_utility.js:404-407 | one more entry writes itself to its target exactly when it is kept |
| Archive.ExtractionComplete | utilities/fs_utility.js:399-409 | every kept entry's target exists after extraction and holds that entry unless a later kept entry has the same target |
| Archive.ExtractFontsExample | utilities/fs_utility.js:404-409 | with the font list, the entries "a.ttf", "b.txt", "c.otf" (any one-character stems) extract to exactly "a.ttf" and "c.otf" under the directory |
| Archive.NameExt | utilities/fs_utility.js:75 | a one-character stem followed by a dot and three lower-case letters has that extension |
| Archive.AllowedExtractExt | utilities/fs_utility.js:499 | the install extraction keeps exactly the entries whose extension contains ttf, otf or txt |
| Archive.AllowedFontExt | utilities/fs_utility.js:413 | the install copy keeps exactly the names whose extension contains ttf or otf |
| Archive.ExtractedFontsAndTexts | utilities/fs_utility.js:499 | each new or changed file of the install extraction comes from an entry whose extension contains ttf, otf or txt, under its base name, and holds it; conversely every such entry is extracted, holding that entry when it is the last with its target |
| Archive.FilterSpec | utilities/fs_utility.js:186 | the filter keeps only elements that pass, and keeps every element that passes |
| Archive.FilterAll | utilities/fs_utility.js:186 | a filter that passes everything keeps the list unchanged |
| Archive.SelectedSpec | utilities/fs_utility.js:184-186 | the copy selection keeps exactly the listed names whose extension is allowed, and all names for an empty list |
| Archive.CopyAllSpec | utilities/fs_utility.js:187-196 | copying removes no file, copies every existing source, and changes only targets of the listed names |
| Archive.CopyAllKeepsSource | utilities/fs_utility.js:187-191 | copying never changes a file of the source directory |
| Archive.CopyAllContent | utilities/fs_utility.js:187-191 | every copied name holds the contents its source had before copying |
| Archive.CopySpec | utilities/fs_utility.js:183-196 | `copyFiles` removes no file, copies every kept existing source with its contents, and changes only targets of kept names |
| Archive.CopiedFontsOnly | utilities/fs_utility.js:413 | a font install changes only copies of listed names whose extension contains ttf or otf, and copies every such existing file with its contents |
| Platform.LinuxDistroSpec | utilities/fs_utility.js:421-464 | each distro family is chosen exactly when one of its words occurs in the lower-cased version and no word of an earlier family does; with no word the distro is unsupported |
| Platform.DebianBeforeArch | utilities/fs_utility.js:425-448 | a version naming both ubuntu and arch is Debian-like |
| Platform.LinuxDistroIgnoresCase | utilities/fs_utility.js:422 | the distro does not depend on the case of the version |
| Platform.Classify | utilities/fs_utility.js:502-510 | darwin, win32 and any unknown platform each map to their own branch, and linux uses the distro chain |
| Platform.InstallDir | utilities/fs_utility.js:421-462 | a target directory exists exactly for the copying strategies |
| Platform.InstallDirLocation | utilities/fs_utility.js:33-35 | every copying strategy except Fedora installs below the home directory |
| Platform.FedoraTargetIsRelative | utilities/fs_utility.js:460 | the Fedora target starts with "usr" and ends with the extracted directory's name |
| Search.Shown | utilities/fs_utility.js:343-349 | no more results are listed than were found nor than a non-negative limit allows; with a NaN limit all are listed; fewer than all are listed exactly when the count exceeds the limit, and then exactly the limit (none for a negative limit) |
| Search.ResultLinesSpec | utilities/fs_utility.js:337-352 | "No font found!" for no results; otherwise the count, then the first results numbered from 1 in order, up to the limit, then how many were left out when the limit is exceeded |
| Search.ShowResults | utilities/fs_utility.js:341-352 | the counting loop prints exactly the lines `ResultLinesSpec` describes |
| FsUtility.EscapeSpaces | utilities/fs_utility.js:290 | the escaping only grows the name, and every space in the result follows a backslash |
| FsUtility.UnescapeEscape | utilities/fs_utility.js:290 | the escaping loses nothing: reading backslash-space as a space restores the name |
| FsUtility.PowerShellLines | utilities/fs_utility.js:470-474 | the install script has three lines, the first changing to the fonts directory |
| FsUtility.FcCacheLine | utilities/fs_utility.js:429-439 | the fc-cache callback throws exactly when the child failed or wrote to stderr |
| FsUtility.SettleLinesSpec | utilities/fs_utility.js:250-265 | the key warning is printed exactly on a rejection of a URL naming the API host; the key-file hint exactly on a rejection, after the status; the saved path exactly on a complete 200; a transport error alone |
| FsUtility.DownloadLinesSpec | utilities/fs_utility.js:241-273 | `download` prints the URL first, then one line per redirect in order, then the lines `SettleLinesSpec` describes, with the same iff conditions over the whole output |
| FsUtility.ExtractedLog | utilities/fs_utility.js:407 | one "[Extracted]" line per extracted entry |
| FsUtility.Disk.constructor | utilities/fs_utility.js:24-30 | the install branch is the platform classification of the host |
| FsUtility.Disk.Mkfile | utilities/fs_utility.js:152-168 | the file is overwritten with the content plus an end-of-line, or left empty for empty content |
| FsUtility.Disk.ConfigApiKey | utilities/fs_utility.js:313-317 | only the credential file changes; for a key without surrounding whitespace the next catalog URL is the authenticated endpoint for that key |
| FsUtility.Disk.RemoveApiKey | utilities/fs_utility.js:319-323 | the credential file is gone, nothing else changes, a second removal is a no-op, and the catalog URL becomes the public mirror |
| FsUtility.Disk.Download | utilities/fs_utility.js:241-273 | the files end as `AfterDownload` of the followed chain says, the callback runs exactly on a complete 200, and the output is `DownloadLines` |
| FsUtility.Disk.Settle | utilities/fs_utility.js:245-268 | a rejection deletes the temporary file, a complete 200 promotes it and calls back, and the output is `SettleLines` |
| FsUtility.Disk.UpdateGoogleFontsMeta | utilities/fs_utility.js:296-311 | the continuation runs exactly when the catalog download succeeds with a catalog; the minimised file then holds `MinimiseAll` of its items, and otherwise keeps its previous state; the output is exactly `RefreshLines`: the download lines, then nothing after a failed download, the parse error for a body that is not a catalog, or the two minify lines |
| FsUtility.Disk.MinifyCatalog | utilities/fs_utility.js:298-310 | a catalog body writes its minimised form and calls back; any other body throws and writes nothing |
| FsUtility.Disk.EnsureDataExists | utilities/fs_utility.js:372-379 | with a minimised file the continuation runs at once and nothing changes; otherwise the output is the warning followed by `RefreshLines`, the continuation runs exactly after a refresh that yields a catalog, and when it does not run the files are those the failed download left |
| FsUtility.Disk.SearchFont | utilities/fs_utility.js:333-354 | with a cached file nothing changes and the output is the keyword line followed by the result lines, or the keyword line and the parse error when the file is not a catalog; with no cached file, a failed refresh ends after the warning and the refresh lines with the files the download left, and a successful one is followed by the keyword and result lines |
| FsUtility.Disk.SearchCached | utilities/fs_utility.js:334-352 | the keyword line comes first; a minimised file that is not a catalog then throws, otherwise the result lines follow |
| FsUtility.Disk.ExtractZipFile | utilities/fs_utility.js:391-410 | an unreadable archive throws before any write; otherwise the files end as `ExtractInto` says and each filtered entry is logged |
| FsUtility.Disk.ExtractEntries | utilities/fs_utility.js:404-409 | the loop over the entries writes exactly the filtered extraction and logs each extracted entry |
| FsUtility.Disk.CopyFiles | utilities/fs_utility.js:183-197 | the files end as `CopyInto` says, with at most one log line per name, each a copy into the target directory |
| FsUtility.Disk.InstallFonts | utilities/fs_utility.js:494-513 | extraction of fonts and texts, then the copy of the fonts to the strategy's directory; an unknown distro throws after extracting; `done` comes last except there and on Debian-like hosts |
| FsUtility.Disk.Dispatch | utilities/fs_utility.js:501-512 | per strategy: the copy and its directory, the install script on Windows, the warnings, and the fc-cache line after `done` on Debian-like hosts |
| FsUtility.Disk.WriteInstallScript | utilities/fs_utility.js:467-474 | install.ps1 in the fonts directory holds the three script lines joined by end-of-lines |
| FsUtility.Disk.DownloadFont | utilities/fs_utility.js:281-294 | with a cached catalog: an unknown family changes nothing and prints the not-found warning, then the search with the default limit of 10, and a known one starts by downloading its archive URL; a cached file that is not a catalog throws and nothing changes; with no cached file, a failed refresh ends after the warning and the refresh lines, and a successful one is followed by the same look-up over the refreshed catalog |
| FsUtility.Disk.LookUpFamily | utilities/fs_utility.js:282-293 | a minimised file that is not a catalog throws and nothing changes; an unknown family changes nothing and prints the warning, then the search with the default limit of 10; a known one starts by downloading its archive URL |
| FsUtility.Disk.FetchFamily | utilities/fs_utility.js:289-292 | the archive goes to `ArchivePath` in the downloads directory; a download that does not call back leaves the files `AfterDownload` says and prints only `DownloadLines`; one that does is followed by the OS line and the extraction into the escaped family's directory, and for an archive body the files end as the extraction and the copy say; a body that is not an archive throws |
| FsUtility.ArchiveNameSpec | utilities/fs_utility.js:290-291 | the archive name ends with "-", the version and ".zip", and what precedes that is the escaped family, which unescapes back to the family |
| ConfigCommand.Action | commands/config.js:17-25 | a key is stored and then selects the authenticated URL; without a key the credential file is removed and the URL is the public mirror; the update hint always comes last |

## Left out

- HTTPS, TLS and stream piping (`https.get`, `createWriteStream`, `pipe`,
  the `'finish'` event) are I/O. A request's answer is the next exchange of
  a finite sequence, and a chain that outlives it is `Unanswered`. An error
  on the response stream after the headers is not modelled.
- The internals of `adm-zip` are a foreign library. An archive is the list
  of its entry names, and extracting one writes a `Member` blob naming it.
- The ranking of `fuzzy-search` is a library whose algorithm is not part of
  this model. Its results are an input of `SearchFont` and `DownloadFont`.
- `exec('fc-cache')` and the PowerShell `spawn`, with their streamed output,
  are child processes. The fc-cache outcome is an input, and the PowerShell
  output is not modelled.
- `JSON.parse` and `JSON.stringify` are abstracted: a catalog document is
  its parsed items, and any other content makes the reader throw.
- `path.join` does not normalise here (it is `a + sep + b`), and basename and
  extension follow the POSIX rules on every platform.
- `toLowerCase` maps ASCII letters only.
- A `--max` value that is not a number is modelled as NaN. A fractional
  `--max` is not modelled: the limit is an integer.
- Directories are not modelled: `mkdir` (called by `mkfile`,
  `updateGoogleFontsMeta`, `downloadFont` and `extractZipFile`) has no effect in the model, and the filesystem
  errors that `mkdir` and `mkfile` report and swallow are not modelled.
- `copyFiles` recursion into sub-directories is left out: a listed name
  with no source file is skipped. The directory listing is an input.
- `utilities/console_utility.js`, `utilities/commander_utility.js`,
  `index.js` and the other command files are wiring and colouring, and are
  not part of this model.
- The extraction loop tests `AllowedExt`, which
  `Archive.AllowedExtIsContainsAny` proves equal to the source's
  `containsAny` test. The Linux install branch is computed once per host
  (`Disk.strategy`), because `os.platform()` and `os.version()` do not
  change while the tool runs.
- FsUtility.Disk.DownloadFont: for a known family states the output only
  up to the download line. The files and the rest of the output are stated
  by `FetchFamily`. After a successful refresh it does not restate the
  files, which `UpdateGoogleFontsMeta` states.
- FsUtility.Disk.LookUpFamily: for a known family states the output only
  up to the download line, as `DownloadFont` does.
- FsUtility.Disk.FetchFamily: states the files after the install only for
  the strategies that copy into a fonts directory, as `InstallFonts` does;
  `Dispatch` states the others.
- FsUtility.Disk.SearchFont: after a successful refresh does not restate
  the files, which `UpdateGoogleFontsMeta` states.
- FsUtility.Disk.EnsureDataExists: does not restate the files after a
  successful refresh beyond the minimised catalog. `UpdateGoogleFontsMeta`
  states them.
- FsUtility.Disk.InstallFonts: states the files for the copying strategies
  and the unknown distro. The Windows and unknown-OS effects are stated by
  `Dispatch`.
- FsUtility.Disk.CopyFiles: bounds its log and fixes the target of every
  line, but does not list which sources were copied. It also does not
  model the missing target directory: `copyFiles` never creates
  `toDirPath`, so `fs.copyFileSync` throws ENOENT when it does not exist
  (for example the relative Fedora target), while the model writes the
  copy anyway.
- FsUtility.Disk.Dispatch: copies into the strategy's directory without
  checking that it exists, for the same reason.
- FsUtility.Disk.Download: a response body cut off in the middle leaves
  a partial temporary file behind. The model marks that file `Incomplete`
  and does not model which bytes it holds.

## Behaviour that follows the code

- `copyFiles` applies the extension filter to every listed name,
  directories included. With the font extensions a sub-directory is
  therefore copied only when its name looks like a font file.
- The minimised catalog is written directly by `mkfile`, not through a
  temporary file.
- A family listed twice in the catalog has no version. `downloadFont` then
  reports it as not found.
- The extraction directory is named after the escaped family, with its
  backslash-space sequences.
- The comment at utilities/fs_utility.js:459 names `/usr/share/fonts`, but
  the target built at line 460 is relative.
