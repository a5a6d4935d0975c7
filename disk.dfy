/** The stateful operations of utilities/fs_utility.js over the files the
    tool reads and writes: `mkfile`, the credential file, `download`, the
    catalog refresh, the search and install pipeline. Each operation is a
    method of `Disk`, whose `files` is the state of the filesystem; the
    answers of the network and of the child processes are parameters, and
    callbacks are modelled by the operation returning whether it called
    its continuation. */
module FsUtility {
  import opened Strings
  import opened JsValues
  import opened Paths
  import opened Catalog
  import opened Files
  import opened Console
  import opened Fetch
  import opened Archive
  import opened Platform
  import opened Search

  /** `name.replaceAll(' ', '\\ ')`. */
  function EscapeSpaces(s: string): (r: string)
    ensures |r| >= |s|
    ensures ' ' !in s ==> r == s
    ensures forall i :: 0 <= i < |r| && r[i] == ' ' ==> 0 < i && r[i - 1] == '\\'
    decreases |s|
  {
    if s == [] then []
    else
      var rest := EscapeSpaces(s[1..]);
      var head := if s[0] == ' ' then "\\ " else [s[0]];
      var r := head + rest;
      assert forall i :: |head| <= i < |r| ==> r[i] == rest[i - |head|];
      r
  }

  /** Reading a backslash-space back as a space. */
  function UnescapeSpaces(s: string): string
    decreases |s|
  {
    if s == [] then []
    else if |s| >= 2 && s[0] == '\\' && s[1] == ' ' then " " + UnescapeSpaces(s[2..])
    else [s[0]] + UnescapeSpaces(s[1..])
  }

  /** The escaping loses nothing: every original character, backslashes
      included, is recovered. */
  lemma {:induction false} UnescapeEscape(s: string)
    ensures UnescapeSpaces(EscapeSpaces(s)) == s
    decreases |s|
  {
    if s != [] {
      var rest := EscapeSpaces(s[1..]);
      UnescapeEscape(s[1..]);
      if s[0] == ' ' {
        assert EscapeSpaces(s) == "\\ " + rest;
        assert ("\\ " + rest)[2..] == rest;
      } else {
        assert EscapeSpaces(s) == [s[0]] + rest;
        assert ([s[0]] + rest)[1..] == rest;
        assert |rest| > 0 ==> rest[0] != ' ';
      }
    }
  }

  /** The archive file name of `downloadFont`: the escaped family, a dash,
      the version and ".zip". */
  function ArchiveName(safeName: string, version: string): string
  {
    safeName + "-" + version + ".zip"
  }

  /** The archive a family's version is saved to: under the downloads
      directory, named after the escaped family. */
  function ArchivePath(h: Host, name: string, version: string): string
  {
    h.Join(h.DownloadsDir(), ArchiveName(EscapeSpaces(name), version))
  }

  /** The archive name of a family ends with "-<version>.zip", and what
      comes before it is the family with its spaces escaped, which
      unescapes back to the family. */
  lemma ArchiveNameSpec(name: string, version: string)
    ensures var a := ArchiveName(EscapeSpaces(name), version);
      var k := |a| - |version| - 5;
      && 0 <= k && a[k..] == "-" + version + ".zip"
      && a[..k] == EscapeSpaces(name) && UnescapeSpaces(a[..k]) == name
  {
    var a := ArchiveName(EscapeSpaces(name), version);
    var e := EscapeSpaces(name);
    assert a == e + ("-" + version + ".zip");
    assert a[..|e|] == e;
    UnescapeEscape(name);
  }

  /** The download URL of a family (the name is not URL-encoded). */
  function FontDownloadUrl(name: string): string
  {
    "https://fonts.google.com/download?family=" + name
  }

  /** The install script's handle on the Windows fonts folder (shell
      namespace 0x14). */
  const FontsFolderLine := "$fonts = (New-Object -ComObject Shell.Application).Namespace(0x14)"
  /** The install script's copy of every *.*tf file below the current
      directory into the fonts folder. */
  const CopyFontsLine := "Get-ChildItem -Recurse -include *.*tf | % { $fonts.CopyHere($_.fullname) }"

  /** The three lines of the Windows install script. */
  function PowerShellLines(dir: string): (r: seq<string>)
    ensures |r| == 3 && r[0] == "cd '" + dir + "'"
  {
    [ "cd '" + dir + "'", FontsFolderLine, CopyFontsLine ]
  }

  /** The text of install.ps1 as `mkfile` writes it: the script lines
      joined by the end-of-line marker, with one more at the end. */
  function InstallScript(dir: string, eol: string): string
  {
    JoinWith(PowerShellLines(dir), eol) + eol
  }

  /** What the `fc-cache` child process reports to its callback. */
  datatype ExecResult = ExecResult(failed: bool, stdout: string, stderr: string)

  /** The reason the fc-cache callback throws: its parameter `error`
      shadows the logging function, so `error(...)` calls a non-function. */
  const ErrorNotAFunction := "TypeError: error is not a function"
  /** The reason the unsupported-distro branch throws: `extractDirPath` is
      local to `installFonts`. */
  const ExtractDirUndefined := "ReferenceError: extractDirPath is not defined"
  /** The reason a catalog refresh throws on a body that is not a catalog. */
  const NotACatalog := "TypeError: the downloaded catalog has no items"
  /** The reason `new AdmZip(path)` throws. */
  const NotAnArchive := "Error: Invalid or unsupported zip format"

  /** What the fc-cache callback does with the child's outcome. */
  function FcCacheLine(fc: ExecResult): (e: Event)
    ensures e.Crash? <==> fc.failed || fc.stderr != ""
  {
    if fc.failed || fc.stderr != "" then Crash(ErrorNotAFunction) else FcCacheOutput(fc.stdout)
  }

  /** How a catalog refresh from `files` ends: the download of the URL the
      stored credential selects. */
  function CatalogFetch(files: FileMap, h: Host, xs: seq<Exchange>): Final
  {
    Follow(CatalogUrl(ReadText(files, h.ApiKeyPath())), xs)
  }

  /** Everything a catalog refresh from `files` prints: the lines of the
      catalog download, then, on a successful download, the two minify
      lines for a catalog body or the parse error for any other body. */
  function RefreshLines(files: FileMap, h: Host, xs: seq<Exchange>): seq<Event>
  {
    var f := CatalogFetch(files, h, xs);
    DownloadLines(CatalogUrl(ReadText(files, h.ApiKeyPath())), h.RawMetaPath(), h.ApiKeyPath(), xs)
      + if !Succeeded(f) then []
        else if f.body.CatalogDoc? then [MetadataMinified(h.RawMetaPath(), h.MinMetaPath()), MetadataUpdated]
        else [Crash(NotACatalog)]
  }

  /** The lines `download` prints once the chain has ended with `f`: the
      transport error; on a rejection the status, the API key warning when
      the URL names the API host, and the hint about the key file; the
      saved path on a complete 200; nothing otherwise. */
  function SettleLines(url: string, saving: string, keyPath: string, f: Final): seq<Event>
  {
    match f
    case Unanswered => []
    case Failed(m) => [NetworkError(m)]
    case Answered(_, status, message, _, complete) =>
      if status != 200 then
        [HttpError(status, message)] + (if Includes(url, ApiHost) then [InvalidApiKey] else []) + [ApiKeyHint(keyPath)]
      else if complete then [DownloadedTo(saving)]
      else []
  }

  /** Everything `download(url, saving)` prints against the exchanges `xs`,
      `keyPath` being the credential file. */
  function DownloadLines(url: string, saving: string, keyPath: string, xs: seq<Exchange>): seq<Event>
  {
    [Downloading(url)] + RedirectLines(xs[..FirstNonRedirect(xs)]) + SettleLines(url, saving, keyPath, Follow(url, xs))
  }

  /** The end of what `download` prints: the API key warning exactly on a
      rejection of a URL naming the API host, the hint about the key file
      exactly on a rejection, which starts with the status, the saved path
      exactly on a complete 200, and a transport error alone. */
  lemma SettleLinesSpec(url: string, saving: string, keyPath: string, f: Final)
    ensures var t := SettleLines(url, saving, keyPath, f);
      && (InvalidApiKey in t <==> Rejected(f) && Includes(url, ApiHost))
      && (ApiKeyHint(keyPath) in t <==> Rejected(f))
      && (DownloadedTo(saving) in t <==> Succeeded(f))
      && (Rejected(f) ==> t != [] && t[0] == HttpError(f.status, f.statusMessage))
      && (f.Failed? ==> t == [NetworkError(f.message)])
  {
  }

  /** What `download` prints: the URL first, then one line per redirect
      followed, then the end `SettleLinesSpec` describes. */
  lemma DownloadLinesSpec(url: string, saving: string, keyPath: string, xs: seq<Exchange>)
    ensures var log := DownloadLines(url, saving, keyPath, xs);
      var f := Follow(url, xs);
      var k := FirstNonRedirect(xs);
      && |log| > k && log[0] == Downloading(url)
      && (forall j :: 0 <= j < k ==> log[1 + j] == Redirecting(xs[j].status, xs[j].statusMessage, xs[j].location))
      && (Rejected(f) ==> log[1 + k] == HttpError(f.status, f.statusMessage))
      && (InvalidApiKey in log <==> Rejected(f) && Includes(url, ApiHost))
      && (ApiKeyHint(keyPath) in log <==> Rejected(f))
      && (DownloadedTo(saving) in log <==> Succeeded(f))
      && (f.Failed? ==> log[|log| - 1] == NetworkError(f.message))
  {
    var f := Follow(url, xs);
    var k := FirstNonRedirect(xs);
    var head := [Downloading(url)] + RedirectLines(xs[..k]);
    var tail := SettleLines(url, saving, keyPath, f);
    var log := DownloadLines(url, saving, keyPath, xs);
    assert log == head + tail && |head| == 1 + k;
    forall j | 0 <= j < k
      ensures log[1 + j] == Redirecting(xs[j].status, xs[j].statusMessage, xs[j].location)
    {
      assert log[1 + j] == head[1 + j];
    }
    SettleLinesSpec(url, saving, keyPath, f);
    assert forall e :: e in head ==> e.Downloading? || e.Redirecting?;
    NotInHead(head, tail, InvalidApiKey);
    NotInHead(head, tail, ApiKeyHint(keyPath));
    NotInHead(head, tail, DownloadedTo(saving));
  }

  /** The last line of a log with a non-empty rest is the rest's last. */
  lemma LastOfAppend(head: seq<Event>, rest: seq<Event>)
    requires rest != []
    ensures (head + rest)[|head + rest| - 1] == rest[|rest| - 1]
  {
  }

  /** A line the head of a log lacks is in the log exactly when it is in
      the rest. */
  lemma NotInHead(head: seq<Event>, tail: seq<Event>, e: Event)
    requires e !in head
    ensures e in head + tail <==> e in tail
  {
  }

  /** The "[Extracted]" lines of a filtered extraction: one per write, naming
      the archive entry it extracted. */
  function ExtractedLog(ws: seq<Write>): (log: seq<Event>)
    ensures |log| == |ws|
    decreases |ws|
  {
    if ws == [] then []
    else
      var w := ws[|ws| - 1];
      var init := ExtractedLog(ws[..|ws| - 1]);
      init + [if w.blob.Member? then Extracted(w.blob.entry) else Extracted("")]
  }

  /** Extracting one more entry adds its line. */
  lemma ExtractedLogStep(ws: seq<Write>, e: string, p: string)
    ensures ExtractedLog(ws + [Write(p, Member(e))]) == ExtractedLog(ws) + [Extracted(e)]
  {
    assert (ws + [Write(p, Member(e))])[..|ws|] == ws;
  }

  class Disk {
    /** The platform, version, home directory and line ending. */
    const host: Host
    /** The install branch `installFonts` takes on this host, from
        `os.platform()` and `os.version()`. */
    const strategy: Strategy
    var files: FileMap

    constructor (host: Host, files: FileMap)
      ensures this.host == host && this.files == files
      ensures strategy == Classify(host.platform, host.version)
    {
      this.host := host;
      this.strategy := Classify(host.platform, host.version);
      this.files := files;
    }

    /** `mkfile(path, content)`: (over)writes the file with the content and
        an end-of-line, or empty when the content is empty. */
    method Mkfile(path: string, content: string)
      modifies this
      ensures files == old(files)[path := Text(if content != "" then content + host.eol else "")]
    {
      var text := content;
      if content != "" {
        text := content + host.eol;
      }
      files := files[path := Text(text)];
    }

    /** `configApiKey(key)`: stores the key, so that the next catalog URL is
        the authenticated endpoint for it. */
    method ConfigApiKey(key: string) returns (log: seq<Event>)
      modifies this
      ensures files == old(files)[host.ApiKeyPath() := Text(if key != "" then key + host.eol else "")]
      ensures key != "" && Trimmed(key) && host.ValidEol() ==>
        CatalogUrl(ReadText(files, host.ApiKeyPath())) == ApiEndpoint + key
      ensures log == [ApiKeySaved(key, host.ApiKeyPath()), MirrorHint(host.ApiKeyPath())]
    {
      Mkfile(host.ApiKeyPath(), key);
      if key != "" && Trimmed(key) && host.ValidEol() {
        assert AllSpace(host.eol);
        StoredKeyRoundTrip(key, host.eol);
      }
      log := [ApiKeySaved(key, host.ApiKeyPath()), MirrorHint(host.ApiKeyPath())];
    }

    /** `removeApiKey()`: deletes the credential file when it exists, which
        makes the catalog URL the public mirror; a second removal changes
        nothing. */
    method RemoveApiKey()
      modifies this
      ensures files == old(files) - {host.ApiKeyPath()}
      ensures host.ApiKeyPath() !in old(files) ==> files == old(files)
      ensures CatalogUrl(ReadText(files, host.ApiKeyPath())) == MirrorUrl
    {
      var path := host.ApiKeyPath();
      if path in files {
        files := files - {path};
      } else {
        assert files == files - {path};
      }
      assert ReadText(files, path) == "";
      NoKeyUsesMirror();
    }

    /** `download(url, saving, callback)` against the exchanges `xs`:
        redirects are followed in order, the files end as `AfterDownload`
        says, the callback runs exactly on a complete 200, and the lines
        printed are `DownloadLines`. */
    method Download(url: string, saving: string, xs: seq<Exchange>) returns (called: bool, log: seq<Event>)
      modifies this
      ensures files == AfterDownload(old(files), saving, Follow(url, xs))
      ensures called <==> Succeeded(Follow(url, xs))
      ensures log == DownloadLines(url, saving, host.ApiKeyPath(), xs)
    {
      var tmp := TempPath(saving);
      files := files[tmp := Text("")];
      var k, target, lines := FollowRedirects(url, xs);
      var f := if k == |xs| then Unanswered else EndOf(target, xs[k]);
      assert f == Follow(url, xs);
      var tail;
      called, tail := Settle(url, saving, f);
      AfterDownloadIgnoresEmptyTemp(old(files), saving, f);
      log := [Downloading(url)] + lines + tail;
    }

    /** The end of `download` once the chain has ended with `f`, the
        temporary file having been created empty: deletes it on a
        rejection, promotes it on a complete 200, and calls back only then. */
    method Settle(url: string, saving: string, f: Final) returns (called: bool, log: seq<Event>)
      modifies this
      requires TempPath(saving) in files && files[TempPath(saving)] == Text("")
      ensures files == AfterDownload(old(files), saving, f)
      ensures called <==> Succeeded(f)
      ensures log == SettleLines(url, saving, host.ApiKeyPath(), f)
    {
      var tmp := TempPath(saving);
      called, log := false, [];
      match f
      case Unanswered =>
      case Failed(m) =>
        log := [NetworkError(m)];
      case Answered(_, status, message, body, complete) =>
        if status != 200 {
          log := [HttpError(status, message)];
          files := files - {tmp};
          if Includes(url, ApiHost) {
            log := log + [InvalidApiKey];
          }
          log := log + [ApiKeyHint(host.ApiKeyPath())];
        } else if complete {
          files := files[tmp := body];
          files := files[saving := files[tmp]];
          files := files - {tmp};
          log := [DownloadedTo(saving)];
          called := true;
        } else {
          files := files[tmp := Incomplete];
        }
    }

    /** `updateGoogleFontsMeta(callback)`: downloads the catalog from the URL
        the credential selects and, on success, writes the minimised
        catalog and calls back. A failed download leaves the minimised
        cache as it was; a body that is not a catalog throws in the
        download callback. */
    method UpdateGoogleFontsMeta(xs: seq<Exchange>) returns (called: bool, log: seq<Event>)
      modifies this
      ensures called <==> Succeeded(CatalogFetch(old(files), host, xs)) && CatalogFetch(old(files), host, xs).body.CatalogDoc?
      ensures !called ==> files == AfterDownload(old(files), host.RawMetaPath(), CatalogFetch(old(files), host, xs))
      ensures called ==>
        var f := CatalogFetch(old(files), host, xs);
        files == AfterDownload(old(files), host.RawMetaPath(), f)[host.MinMetaPath() := CatalogDoc(MinimiseAll(f.body.items))]
      ensures called ==> |log| >= 2 && log[|log| - 1] == MetadataUpdated
      ensures Succeeded(CatalogFetch(old(files), host, xs)) && !called ==> log != [] && log[|log| - 1] == Crash(NotACatalog)
      ensures !called ==>
        (host.MinMetaPath() in files <==> host.MinMetaPath() in old(files))
        && (host.MinMetaPath() in old(files) ==> files[host.MinMetaPath()] == old(files)[host.MinMetaPath()])
      ensures log == RefreshLines(old(files), host, xs)
    {
      var url := CatalogUrl(ReadText(files, host.ApiKeyPath()));
      ghost var f := Follow(url, xs);
      var ok;
      ok, log := Download(url, host.RawMetaPath(), xs);
      StatePathsDistinct(host);
      DownloadFrame(old(files), host.RawMetaPath(), f, host.MinMetaPath());
      called := false;
      if !ok {
        return;
      }
      PromotionIsAtomic(old(files), host.RawMetaPath(), f);
      var tail;
      called, tail := MinifyCatalog();
      log := log + tail;
    }

    /** The success callback of the refresh: parses the downloaded catalog,
        writes its minimised form and calls back; a body that is not a
        catalog throws and nothing is written. */
    method MinifyCatalog() returns (called: bool, log: seq<Event>)
      modifies this
      ensures var items := CatalogItems(old(files), host.RawMetaPath());
        && (called <==> items.Some?)
        && (called ==> files == old(files)[host.MinMetaPath() := CatalogDoc(MinimiseAll(items.value))])
        && (!called ==> files == old(files) && log == [Crash(NotACatalog)])
        && (called ==> log == [MetadataMinified(host.RawMetaPath(), host.MinMetaPath()), MetadataUpdated])
    {
      match CatalogItems(files, host.RawMetaPath())
      case None =>
        called, log := false, [Crash(NotACatalog)];
      case Some(items) =>
        log := [MetadataMinified(host.RawMetaPath(), host.MinMetaPath())];
        files := files[host.MinMetaPath() := CatalogDoc(MinimiseAll(items))];
        log := log + [MetadataUpdated];
        called := true;
    }

    /** `ensureDataExists(callback)`: calls back at once, changing nothing,
        when the minimised catalog exists; otherwise warns and calls back
        only after a successful refresh. */
    method EnsureDataExists(xs: seq<Exchange>) returns (ready: bool, log: seq<Event>)
      modifies this
      ensures ready ==> host.MinMetaPath() in files
      ensures host.MinMetaPath() in old(files) ==> ready && log == [] && files == old(files)
      ensures host.MinMetaPath() !in old(files) ==>
        var f := CatalogFetch(old(files), host, xs);
        && log != [] && log[0] == NoLocalData
        && (ready <==> Succeeded(f) && f.body.CatalogDoc?)
        && (ready ==> files[host.MinMetaPath()] == CatalogDoc(MinimiseAll(f.body.items)))
      ensures host.MinMetaPath() !in old(files) ==> log == [NoLocalData] + RefreshLines(old(files), host, xs)
      ensures !ready ==> files == AfterDownload(old(files), host.RawMetaPath(), CatalogFetch(old(files), host, xs))
    {
      if host.MinMetaPath() in files {
        return true, [];
      }
      var l;
      ready, l := UpdateGoogleFontsMeta(xs);
      log := [NoLocalData] + l;
    }

    /** `searchFont(name, limit)` given the fuzzy-search results `found`
        for `name` over the cached catalog: once the catalog is available,
        the keyword line and then the result lines; a cached file that is
        not a catalog throws right after the keyword line, when the search
        parses it. */
    method SearchFont(name: string, limit: Limit, found: seq<FontItem>, xs: seq<Exchange>) returns (log: seq<Event>)
      modifies this
      ensures host.MinMetaPath() in old(files) ==> files == old(files)
      ensures host.MinMetaPath() in old(files) && old(files)[host.MinMetaPath()].CatalogDoc? ==>
        log == [Searching(name)] + ResultLines(found, limit)
      ensures host.MinMetaPath() in old(files) && !old(files)[host.MinMetaPath()].CatalogDoc? ==>
        log == [Searching(name), Crash(NotACatalog)]
      ensures var f := CatalogFetch(old(files), host, xs);
        host.MinMetaPath() !in old(files) && !(Succeeded(f) && f.body.CatalogDoc?) ==>
          && files == AfterDownload(old(files), host.RawMetaPath(), f)
          && log == [NoLocalData] + RefreshLines(old(files), host, xs)
      ensures var f := CatalogFetch(old(files), host, xs);
        host.MinMetaPath() !in old(files) && Succeeded(f) && f.body.CatalogDoc? ==>
          log == [NoLocalData] + RefreshLines(old(files), host, xs) + ([Searching(name)] + ResultLines(found, limit))
    {
      var ready, pre := EnsureDataExists(xs);
      if !ready {
        return pre;
      }
      var rest := SearchCached(name, limit, found);
      log := pre + rest;
      if pre == [] {
        assert log == rest;
      }
    }

    /** The callback `searchFont` passes to `ensureDataExists`: the keyword
        line, then the search over the minimised catalog, which throws when
        the file is not a catalog, then the result lines. */
    method SearchCached(name: string, limit: Limit, found: seq<FontItem>) returns (log: seq<Event>)
      ensures CatalogItems(files, host.MinMetaPath()).None? ==> log == [Searching(name), Crash(NotACatalog)]
      ensures CatalogItems(files, host.MinMetaPath()).Some? ==> log == [Searching(name)] + ResultLines(found, limit)
    {
      if CatalogItems(files, host.MinMetaPath()).None? {
        return [Searching(name), Crash(NotACatalog)];
      }
      var lines := ShowResults(found, limit);
      log := [Searching(name)] + lines;
    }

    /** `extractZipFile(zip, dir, exts)`: an archive that cannot be opened
        throws before anything is written; otherwise every entry, or with a
        non-empty allow-list every entry whose extension is allowed, is
        written into `dir` as `ExtractInto` says, and each filtered entry
        is logged. */
    method ExtractZipFile(zip: string, dir: string, exts: seq<string>) returns (ok: bool, log: seq<Event>)
      modifies this
      ensures ok <==> zip in old(files) && old(files)[zip].ZipArchive?
      ensures !ok ==> files == old(files) && log == [Crash(NotAnArchive)]
      ensures ok ==>
        var entries := old(files)[zip].entries;
        var ws := ExtractWrites(host, dir, entries, exts);
        && files == ExtractInto(old(files), host, dir, entries, exts)
        && (|exts| == 0 ==> log == [])
        && (|exts| != 0 ==> log == ExtractedLog(ws))
    {
      if !(zip in files && files[zip].ZipArchive?) {
        return false, [Crash(NotAnArchive)];
      }
      ok, log := true, [];
      var entries := files[zip].entries;
      if |exts| == 0 {
        files := ExtractInto(files, host, dir, entries, exts);
      } else {
        log := ExtractEntries(entries, dir, exts);
      }
    }

    /** The `forEach` of `extractZipFile` over the archive's entries with a
        non-empty allow-list: each entry whose extension contains an allowed
        string is written under its base name into `dir` and logged. */
    method ExtractEntries(entries: seq<string>, dir: string, exts: seq<string>) returns (log: seq<Event>)
      requires |exts| > 0
      modifies this
      ensures files == ExtractInto(old(files), host, dir, entries, exts)
      ensures log == ExtractedLog(ExtractWrites(host, dir, entries, exts))
    {
      log := [];
      var i := 0;
      ghost var ws: seq<Write> := [];
      while i < |entries|
        invariant 0 <= i <= |entries|
        invariant ws == ExtractWrites(host, dir, entries[..i], exts)
        invariant files == Apply(old(files), ws)
        invariant log == ExtractedLog(ws)
      {
        var e := entries[i];
        // containsAny(getFileExt(e), exts), by AllowedExtIsContainsAny
        if AllowedExt(e, exts) {
          ExtractWritesKept(host, dir, entries, exts, i);
          var w := Write(host.Join(dir, Basename(e)), Member(e));
          ApplyStep(old(files), ws, w);
          files := files[w.path := w.blob];
          ExtractedLogStep(ws, e, w.path);
          log := log + [Extracted(e)];
          ws := ws + [w];
        } else {
          ExtractWritesSkipped(host, dir, entries, exts, i);
        }
        i := i + 1;
      }
      assert entries[..i] == entries;
    }

    /** `copyFiles(from, to, exts)` over the directory listing `names` of
        `from`: each kept name whose source is a file is copied, as
        `CopyInto` says, and logged. */
    method CopyFiles(from: string, to: string, exts: seq<string>, names: seq<string>) returns (log: seq<Event>)
      modifies this
      ensures files == CopyInto(old(files), host, from, to, names, exts)
      ensures |log| <= |names|
      ensures forall e :: e in log ==> e.Copied? && e.toDir == to
    {
      var selected := Selected(names, exts);
      log := [];
      var i := 0;
      while i < |selected|
        invariant 0 <= i <= |selected|
        invariant files == CopyAll(old(files), host, from, to, selected[..i])
        invariant |log| <= i
        invariant forall e :: e in log ==> e.Copied? && e.toDir == to
      {
        var n := selected[i];
        var src := host.Join(from, n);
        CopyAllStep(old(files), host, from, to, selected, i);
        if src in files {
          files := files[host.Join(to, n) := files[src]];
          log := log + [Copied(src, to)];
        }
        i := i + 1;
      }
      assert selected[..i] == selected;
    }

    /** `installFonts(safeName, zip)`: extracts the fonts and text files of
        the archive into the downloads directory, then installs them as
        `Dispatch` says. An archive that cannot be opened throws before any
        install. */
    method InstallFonts(safeName: string, zip: string, names: seq<string>, fc: ExecResult) returns (log: seq<Event>)
      modifies this
      ensures |log| >= 3 && log[0] == OsVersion(host.version)
      ensures log[1] == Extracting(zip, host.Join(host.DownloadsDir(), safeName))
      ensures !(zip in old(files) && old(files)[zip].ZipArchive?) ==>
        files == old(files) && log[|log| - 1] == Crash(NotAnArchive)
      ensures var dir := host.Join(host.DownloadsDir(), safeName);
        zip in old(files) && old(files)[zip].ZipArchive? && InstallDir(strategy, host, dir).Some? ==>
          files == CopyInto(ExtractInto(old(files), host, dir, old(files)[zip].entries, ExtractExts),
                            host, dir, InstallDir(strategy, host, dir).value, names, FontExts)
      ensures zip in old(files) && old(files)[zip].ZipArchive? && strategy == UnsupportedLinux ==>
        files == ExtractInto(old(files), host, host.Join(host.DownloadsDir(), safeName), old(files)[zip].entries, ExtractExts)
        && log[|log| - 1] == Crash(ExtractDirUndefined)
      ensures zip in old(files) && old(files)[zip].ZipArchive? && strategy != UnsupportedLinux && strategy != DebianLike ==>
        log[|log| - 1] == Done
    {
      var dir := host.Join(host.DownloadsDir(), safeName);
      var ok, extractLog := ExtractZipFile(zip, dir, ExtractExts);
      log := [OsVersion(host.version), Extracting(zip, dir)] + extractLog;
      if !ok {
        return;
      }
      var installLog := Dispatch(dir, names, fc);
      LastOfAppend(log, installLog);
      log := log + installLog;
    }

    /** The install branch of `installFonts` for the extracted directory
        `dir` whose listing is `names`: the copying strategies copy the
        fonts to their directory (Debian-like ones then run fc-cache, whose
        callback runs after `done` and throws on any error); an unknown
        Linux distro throws before `done`; Windows gets the install script;
        any other platform gets a warning. */
    method Dispatch(dir: string, names: seq<string>, fc: ExecResult) returns (log: seq<Event>)
      modifies this
      ensures InstallDir(strategy, host, dir).Some? ==>
        files == CopyInto(old(files), host, dir, InstallDir(strategy, host, dir).value, names, FontExts)
      ensures strategy == UnsupportedLinux ==>
        files == old(files) && log == [Installing, Crash(ExtractDirUndefined)]
      ensures strategy == Windows ==>
        files == old(files)[host.Join(dir, "install.ps1") := Text(InstallScript(dir, host.eol))]
      ensures strategy == Windows ==>
        log == [Installing, PowerShellNotice(host.Join(dir, "install.ps1"), dir), Done]
      ensures strategy == UnsupportedOs ==>
        files == old(files) && log == [Installing, UnsupportedPlatform(dir), Done]
      ensures strategy == DebianLike ==>
        |log| >= 4 && log[|log| - 3] == RunningFcCache && log[|log| - 2] == Done && log[|log| - 1] == FcCacheLine(fc)
      ensures strategy != UnsupportedLinux && strategy != DebianLike ==> |log| >= 2 && log[|log| - 1] == Done
      ensures log[0] == Installing
    {
      log := [Installing];
      match strategy {
        case UnsupportedLinux =>
          log := log + [Crash(ExtractDirUndefined)];
          return;
        case Windows =>
          var script := WriteInstallScript(dir);
          log := log + [PowerShellNotice(script, dir)];
        case UnsupportedOs =>
          log := log + [UnsupportedPlatform(dir)];
        case _ =>
          var copyLog := CopyFiles(dir, InstallDir(strategy, host, dir).value, FontExts, names);
          log := log + copyLog;
          if strategy == DebianLike {
            log := log + [RunningFcCache];
          }
      }
      log := log + [Done];
      if strategy == DebianLike {
        log := log + [FcCacheLine(fc)];
      }
    }

    /** The Windows branch of `installFonts`: writes install.ps1 into `dir`
        and returns its path. */
    method WriteInstallScript(dir: string) returns (script: string)
      modifies this
      ensures script == host.Join(dir, "install.ps1")
      ensures files == old(files)[script := Text(InstallScript(dir, host.eol))]
    {
      script := host.Join(dir, "install.ps1");
      var lines := PowerShellLines(dir);
      assert JoinWith(lines, host.eol) == lines[0] + host.eol + JoinWith(lines[1..], host.eol);
      Mkfile(script, JoinWith(lines, host.eol));
    }

    /** `downloadFont(name)`: once the catalog is available, looks the
        family up as `LookUpFamily` says. A missing catalog is refreshed
        first, and nothing more happens when the refresh fails. */
    method DownloadFont(name: string, metaXs: seq<Exchange>, found: seq<FontItem>, fontXs: seq<Exchange>,
                        names: seq<string>, fc: ExecResult) returns (log: seq<Event>)
      modifies this
      ensures host.MinMetaPath() in old(files) && old(files)[host.MinMetaPath()].CatalogDoc? ==>
        var version := FontVersion(old(files)[host.MinMetaPath()].items, name);
        && (version == "" ==> files == old(files) && log == [FontNotFound(name)] + ([Searching(name)] + ResultLines(found, Finite(10))))
        && (version != "" ==> log != [] && log[0] == Downloading(FontDownloadUrl(name)))
      ensures host.MinMetaPath() in old(files) && !old(files)[host.MinMetaPath()].CatalogDoc? ==>
        files == old(files) && log == [Crash(NotACatalog)]
      ensures var f := CatalogFetch(old(files), host, metaXs);
        host.MinMetaPath() !in old(files) && !(Succeeded(f) && f.body.CatalogDoc?) ==>
          && files == AfterDownload(old(files), host.RawMetaPath(), f)
          && log == [NoLocalData] + RefreshLines(old(files), host, metaXs)
      ensures var f := CatalogFetch(old(files), host, metaXs);
        var pre := [NoLocalData] + RefreshLines(old(files), host, metaXs);
        host.MinMetaPath() !in old(files) && Succeeded(f) && f.body.CatalogDoc? ==>
          var version := FontVersion(MinimiseAll(f.body.items), name);
          && (version == "" ==> log == pre + ([FontNotFound(name)] + ([Searching(name)] + ResultLines(found, Finite(10)))))
          && (version != "" ==> |log| > |pre| && log[..|pre|] == pre && log[|pre|] == Downloading(FontDownloadUrl(name)))
    {
      var ready, pre := EnsureDataExists(metaXs);
      if !ready {
        return pre;
      }
      var rest := LookUpFamily(name, metaXs, found, fontXs, names, fc);
      log := pre + rest;
      if pre == [] {
        assert log == rest;
      }
    }

    /** The callback `downloadFont` passes to `ensureDataExists`: reads the
        family's version from the minimised catalog; an unknown family
        warns and falls back to a search with the default limit, a known
        one is fetched as `FetchFamily` says. A minimised file that is not
        a catalog throws and nothing changes. */
    method LookUpFamily(name: string, metaXs: seq<Exchange>, found: seq<FontItem>, fontXs: seq<Exchange>,
                        names: seq<string>, fc: ExecResult) returns (log: seq<Event>)
      modifies this
      ensures CatalogItems(old(files), host.MinMetaPath()).None? ==> files == old(files) && log == [Crash(NotACatalog)]
      ensures CatalogItems(old(files), host.MinMetaPath()).Some? ==>
        var version := FontVersion(CatalogItems(old(files), host.MinMetaPath()).value, name);
        && (version == "" ==> files == old(files) && log == [FontNotFound(name)] + ([Searching(name)] + ResultLines(found, Finite(10))))
        && (version != "" ==> log != [] && log[0] == Downloading(FontDownloadUrl(name)))
    {
      var catalog := CatalogItems(files, host.MinMetaPath());
      if catalog.None? {
        return [Crash(NotACatalog)];
      }
      var version := FontVersion(catalog.value, name);
      if version == "" {
        var searchLog := SearchFont(name, Finite(10), found, metaXs);
        log := [FontNotFound(name)] + searchLog;
        return;
      }
      log := FetchFamily(name, version, fontXs, names, fc);
    }

    /** The known-family branch of `downloadFont`: the family's archive,
        named after the family with its spaces escaped and its version, is
        downloaded to the downloads directory and, exactly when the
        download calls back, extracted into the directory named after the
        escaped family and installed from there. */
    method FetchFamily(name: string, version: string, fontXs: seq<Exchange>, names: seq<string>, fc: ExecResult)
      returns (log: seq<Event>)
      modifies this
      ensures log != [] && log[0] == Downloading(FontDownloadUrl(name))
      ensures var f := Follow(FontDownloadUrl(name), fontXs);
        var zip := ArchivePath(host, name, version);
        !Succeeded(f) ==>
          && files == AfterDownload(old(files), zip, f)
          && log == DownloadLines(FontDownloadUrl(name), zip, host.ApiKeyPath(), fontXs)
      ensures var f := Follow(FontDownloadUrl(name), fontXs);
        var zip := ArchivePath(host, name, version);
        var lines := DownloadLines(FontDownloadUrl(name), zip, host.ApiKeyPath(), fontXs);
        Succeeded(f) ==>
          && |log| >= |lines| + 3 && log[..|lines|] == lines
          && log[|lines|] == OsVersion(host.version)
          && log[|lines| + 1] == Extracting(zip, host.Join(host.DownloadsDir(), EscapeSpaces(name)))
      ensures var f := Follow(FontDownloadUrl(name), fontXs);
        var zip := ArchivePath(host, name, version);
        var dir := host.Join(host.DownloadsDir(), EscapeSpaces(name));
        Succeeded(f) && f.body.ZipArchive? && InstallDir(strategy, host, dir).Some? ==>
          files == CopyInto(ExtractInto(AfterDownload(old(files), zip, f), host, dir, f.body.entries, ExtractExts),
                            host, dir, InstallDir(strategy, host, dir).value, names, FontExts)
      ensures var f := Follow(FontDownloadUrl(name), fontXs);
        Succeeded(f) && !f.body.ZipArchive? ==>
          files == AfterDownload(old(files), ArchivePath(host, name, version), f) && log[|log| - 1] == Crash(NotAnArchive)
    {
      var safeName := EscapeSpaces(name);
      var zip := ArchivePath(host, name, version);
      ghost var f := Follow(FontDownloadUrl(name), fontXs);
      DownloadLinesSpec(FontDownloadUrl(name), zip, host.ApiKeyPath(), fontXs);
      var called;
      called, log := Download(FontDownloadUrl(name), zip, fontXs);
      if called {
        PromotionIsAtomic(old(files), zip, f);
        assert files[zip] == f.body;
        var installLog := InstallFonts(safeName, zip, names, fc);
        log := log + installLog;
      }
    }
  }
}
