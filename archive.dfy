/** What `extractZipFile` and `copyFiles` (utilities/fs_utility.js) write:
    the extension filter they share and their effect on the files, as
    folds over the archive's entries and the directory listing in order. */
module Archive {
  import opened Strings
  import opened JsValues
  import opened Paths
  import opened Files

  /** `fontExts`. */
  const FontExts: seq<string> := ["ttf", "otf"]
  /** What the installer extracts: `fontExts.concat(['txt'])`. */
  const ExtractExts: seq<string> := FontExts + ["txt"]

  /** Some allowed string occurs in the lower-cased extension of `name`
      (the extension keeps its dot, so "ttf" matches ".ttf" and also
      ".ttfx"). */
  predicate AllowedExt(name: string, exts: seq<string>)
  {
    exists i :: 0 <= i < |exts| && Includes(GetFileExt(name), exts[i])
  }

  /** The filter of both operations: everything when the allow-list is
      empty, otherwise an allowed extension. */
  predicate Keep(name: string, exts: seq<string>)
  {
    |exts| == 0 || AllowedExt(name, exts)
  }

  /** The test the source writes, `containsAny(getFileExt(name), exts)`,
      holds exactly for an allowed extension; an empty allow-list allows
      nothing, which is why both operations test its length first. */
  lemma AllowedExtIsContainsAny(name: string, exts: seq<string>)
    ensures ContainsAny(Str(GetFileExt(name)), Words(exts)) <==> AllowedExt(name, exts)
    ensures |exts| == 0 ==> !ContainsAny(Str(GetFileExt(name)), Words(exts))
  {
    ContainsAnyWords(GetFileExt(name), exts);
  }

  /** Where an entry lands: at its own relative path when everything is
      extracted (`extractAllTo`), flattened to its base name when filtered
      (`extractEntryTo` without the entry path). */
  function EntryTarget(h: Host, dir: string, entry: string, exts: seq<string>): string
  {
    if |exts| == 0 then h.Join(dir, entry) else h.Join(dir, Basename(entry))
  }

  /** Writing `blob` at `path`. */
  datatype Write = Write(path: string, blob: Blob)

  /** The files after the writes `ws`, in order. */
  function Apply(files: FileMap, ws: seq<Write>): FileMap
    decreases |ws|
  {
    if ws == [] then files
    else
      var w := ws[|ws| - 1];
      Apply(files, ws[..|ws| - 1])[w.path := w.blob]
  }

  /** The index of the last write to `p`, or -1 when none writes it. */
  function LastWriteTo(ws: seq<Write>, p: string): (k: int)
    ensures -1 <= k < |ws|
    ensures k >= 0 ==> ws[k].path == p
    ensures forall j :: k < j < |ws| ==> ws[j].path != p
    decreases |ws|
  {
    if ws == [] then -1
    else if ws[|ws| - 1].path == p then |ws| - 1
    else
      var init := ws[..|ws| - 1];
      var k := LastWriteTo(init, p);
      assert forall j :: k < j < |init| ==> init[j] == ws[j];
      k
  }

  /** A path holds what the last write to it wrote; a path nobody writes
      keeps its state, present or not. */
  lemma {:induction false} ApplySpec(files: FileMap, ws: seq<Write>, p: string)
    ensures var r := Apply(files, ws);
      var k := LastWriteTo(ws, p);
      if k == -1 then (p in r <==> p in files) && (p in files ==> r[p] == files[p])
      else p in r && r[p] == ws[k].blob
    decreases |ws|
  {
    if ws != [] {
      ApplySpec(files, ws[..|ws| - 1], p);
    }
  }

  /** The writes of a pass over `entries` in order: one per entry that
      `keep` passes, writing that entry to `target(entry)`. */
  function WritesOf(entries: seq<string>, keep: string -> bool, target: string -> string): (ws: seq<Write>)
    ensures |ws| <= |entries|
    decreases |entries|
  {
    if entries == [] then []
    else
      var e := entries[|entries| - 1];
      WritesOf(entries[..|entries| - 1], keep, target) + if keep(e) then [Write(target(e), Member(e))] else []
  }

  /** Passing one more entry appends its write when `keep` passes it. */
  lemma WritesOfStep(entries: seq<string>, keep: string -> bool, target: string -> string, i: int)
    requires 0 <= i < |entries|
    ensures WritesOf(entries[..i + 1], keep, target) ==
      WritesOf(entries[..i], keep, target) + if keep(entries[i]) then [Write(target(entries[i]), Member(entries[i]))] else []
  {
    assert entries[..i + 1][..i] == entries[..i];
  }

  /** Each write is of an entry that passes to that entry's target, and
      every entry that passes is written. */
  lemma {:induction false} WritesOfSpec(entries: seq<string>, keep: string -> bool, target: string -> string)
    ensures forall k :: 0 <= k < |WritesOf(entries, keep, target)| ==>
      var w := WritesOf(entries, keep, target)[k];
      w.blob.Member? && w.blob.entry in entries && keep(w.blob.entry) && w.path == target(w.blob.entry)
    ensures forall i :: 0 <= i < |entries| && keep(entries[i]) ==>
      Write(target(entries[i]), Member(entries[i])) in WritesOf(entries, keep, target)
    decreases |entries|
  {
    if entries != [] {
      var n := |entries| - 1;
      var init := entries[..n];
      var e := entries[n];
      WritesOfSpec(init, keep, target);
      var ws := WritesOf(init, keep, target);
      var all := WritesOf(entries, keep, target);
      assert all == ws + if keep(e) then [Write(target(e), Member(e))] else [];
      forall k | 0 <= k < |ws| ensures ws[k].blob.Member? && ws[k].blob.entry in entries {
        assert ws[k].blob.entry in init;
      }
      forall i | 0 <= i < |entries| && keep(entries[i])
        ensures Write(target(entries[i]), Member(entries[i])) in all
      {
        if i < n {
          assert entries[i] == init[i];
          var k :| 0 <= k < |ws| && ws[k] == Write(target(init[i]), Member(init[i]));
          assert all[k] == ws[k];
        } else {
          assert all[|all| - 1] == Write(target(e), Member(e));
        }
      }
    }
  }

  /** When `keep` passes everything, the writes are the entries' in order. */
  lemma {:induction false} WritesOfAll(entries: seq<string>, keep: string -> bool, target: string -> string)
    ensures var ws := WritesOf(entries, keep, target);
      (forall i :: 0 <= i < |entries| ==> keep(entries[i])) ==>
        && |ws| == |entries|
        && forall i :: 0 <= i < |entries| ==> ws[i] == Write(target(entries[i]), Member(entries[i]))
    decreases |entries|
  {
    if entries != [] && forall i :: 0 <= i < |entries| ==> keep(entries[i]) {
      var n := |entries| - 1;
      var init := entries[..n];
      assert forall i :: 0 <= i < |init| ==> keep(init[i]);
      WritesOfAll(init, keep, target);
      var ws := WritesOf(entries, keep, target);
      forall i | 0 <= i < |entries|
        ensures ws[i] == Write(target(entries[i]), Member(entries[i]))
      {
        if i < n {
          assert entries[i] == init[i];
        }
      }
    }
  }

  /** No entry after the `i`th that passes has the same target. */
  predicate LastTo(entries: seq<string>, keep: string -> bool, target: string -> string, i: int)
    requires 0 <= i < |entries|
  {
    forall j :: i < j < |entries| && keep(entries[j]) ==> target(entries[j]) != target(entries[i])
  }

  /** One more entry adds its write when it passes. */
  lemma AppliedStep(files: FileMap, entries: seq<string>, keep: string -> bool, target: string -> string)
    requires entries != []
    ensures var n := |entries| - 1;
      var f := Apply(files, WritesOf(entries[..n], keep, target));
      Apply(files, WritesOf(entries, keep, target)) ==
        if keep(entries[n]) then f[target(entries[n]) := Member(entries[n])] else f
  {
    var n := |entries| - 1;
    var e := entries[n];
    var ws := WritesOf(entries[..n], keep, target);
    var w := Write(target(e), Member(e));
    if keep(e) {
      assert WritesOf(entries, keep, target) == ws + [w];
      ApplyStep(files, ws, w);
    } else {
      assert WritesOf(entries, keep, target) == ws + [];
      assert ws + [] == ws;
    }
  }

  /** An entry last with its target stays so without the final entry. */
  lemma LastToInit(entries: seq<string>, keep: string -> bool, target: string -> string, i: int)
    requires 0 <= i < |entries| - 1
    requires LastTo(entries, keep, target, i)
    ensures LastTo(entries[..|entries| - 1], keep, target, i)
  {
    var init := entries[..|entries| - 1];
    forall j | i < j < |init| && keep(init[j])
      ensures target(init[j]) != target(init[i])
    {
      assert init[j] == entries[j] && init[i] == entries[i];
    }
  }

  /** After the writes, an entry that passes has its target, which holds
      that entry when no later entry that passes has the same target. */
  lemma {:induction false} AppliedEntry(files: FileMap, entries: seq<string>, keep: string -> bool, target: string -> string, i: int)
    requires 0 <= i < |entries|
    ensures var r := Apply(files, WritesOf(entries, keep, target));
      keep(entries[i]) ==> target(entries[i]) in r && (LastTo(entries, keep, target, i) ==> r[target(entries[i])] == Member(entries[i]))
    decreases |entries|
  {
    var n := |entries| - 1;
    var init := entries[..n];
    AppliedStep(files, entries, keep, target);
    if i < n {
      if LastTo(entries, keep, target, i) {
        LastToInit(entries, keep, target, i);
      }
      assert entries[i] == init[i];
      AppliedEntry(files, init, keep, target, i);
    }
  }

  /** The filter of an extraction as a predicate on entries. */
  function Kept(exts: seq<string>): string -> bool
  {
    e => Keep(e, exts)
  }

  /** The targets of an extraction into `dir`. */
  function TargetIn(h: Host, dir: string, exts: seq<string>): string -> string
  {
    e => EntryTarget(h, dir, e, exts)
  }

  /** The writes of extracting `entries` into `dir`: one per kept entry, in
      archive order, of the entry to its target. */
  function ExtractWrites(h: Host, dir: string, entries: seq<string>, exts: seq<string>): seq<Write>
  {
    WritesOf(entries, Kept(exts), TargetIn(h, dir, exts))
  }

  /** Each write extracts a kept entry of the archive to its target. */
  lemma ExtractWritesSpec(h: Host, dir: string, entries: seq<string>, exts: seq<string>)
    ensures forall k :: 0 <= k < |ExtractWrites(h, dir, entries, exts)| ==>
      var w := ExtractWrites(h, dir, entries, exts)[k];
      w.blob.Member? && w.blob.entry in entries && Keep(w.blob.entry, exts)
      && w.path == EntryTarget(h, dir, w.blob.entry, exts)
  {
    WritesOfSpec(entries, Kept(exts), TargetIn(h, dir, exts));
  }

  /** Each kept entry of the archive is written to its target. */
  lemma ExtractWritesComplete(h: Host, dir: string, entries: seq<string>, exts: seq<string>)
    ensures forall i :: 0 <= i < |entries| && Keep(entries[i], exts) ==>
      Write(EntryTarget(h, dir, entries[i], exts), Member(entries[i])) in ExtractWrites(h, dir, entries, exts)
  {
    WritesOfSpec(entries, Kept(exts), TargetIn(h, dir, exts));
  }

  /** Filtered extraction of one more entry with an allowed extension
      appends its write under the entry's base name. */
  lemma ExtractWritesKept(h: Host, dir: string, entries: seq<string>, exts: seq<string>, i: int)
    requires 0 <= i < |entries| && AllowedExt(entries[i], exts)
    ensures ExtractWrites(h, dir, entries[..i + 1], exts) ==
      ExtractWrites(h, dir, entries[..i], exts) + [Write(h.Join(dir, Basename(entries[i])), Member(entries[i]))]
  {
    WritesOfStep(entries, Kept(exts), TargetIn(h, dir, exts), i);
  }

  /** Filtered extraction skips an entry whose extension is not allowed. */
  lemma ExtractWritesSkipped(h: Host, dir: string, entries: seq<string>, exts: seq<string>, i: int)
    requires 0 <= i < |entries| && |exts| > 0 && !AllowedExt(entries[i], exts)
    ensures ExtractWrites(h, dir, entries[..i + 1], exts) == ExtractWrites(h, dir, entries[..i], exts)
  {
    WritesOfStep(entries, Kept(exts), TargetIn(h, dir, exts), i);
    assert ExtractWrites(h, dir, entries[..i], exts) + [] == ExtractWrites(h, dir, entries[..i], exts);
  }

  /** Applying one more write updates its path. */
  lemma ApplyStep(files: FileMap, ws: seq<Write>, w: Write)
    ensures Apply(files, ws + [w]) == Apply(files, ws)[w.path := w.blob]
  {
    assert (ws + [w])[..|ws|] == ws;
  }

  /** With an empty allow-list every entry is written, in archive order,
      at its own relative path under `dir`. */
  lemma ExtractAllWrites(h: Host, dir: string, entries: seq<string>, exts: seq<string>)
    ensures var ws := ExtractWrites(h, dir, entries, exts);
      |exts| == 0 ==>
        && |ws| == |entries|
        && forall i :: 0 <= i < |entries| ==> ws[i] == Write(h.Join(dir, entries[i]), Member(entries[i]))
  {
    WritesOfAll(entries, Kept(exts), TargetIn(h, dir, exts));
  }

  /** The files after extracting `entries` in order into `dir`; a later
      entry overwrites an earlier one with the same target. */
  function ExtractInto(files: FileMap, h: Host, dir: string, entries: seq<string>, exts: seq<string>): FileMap
  {
    Apply(files, ExtractWrites(h, dir, entries, exts))
  }

  /** Extraction changes only the targets of kept entries, each holding the
      last entry written to it; every other path keeps its state. */
  lemma ExtractionSpec(files: FileMap, h: Host, dir: string, entries: seq<string>, exts: seq<string>, p: string)
    ensures var r := ExtractInto(files, h, dir, entries, exts);
      (p in r && (p !in files || r[p] != files[p])) ==>
        exists e :: (e in entries && Keep(e, exts) && p == EntryTarget(h, dir, e, exts) && r[p] == Member(e))
    ensures var r := ExtractInto(files, h, dir, entries, exts);
      p in files ==> p in r
  {
    var ws := ExtractWrites(h, dir, entries, exts);
    ExtractWritesSpec(h, dir, entries, exts);
    ApplySpec(files, ws, p);
    var k := LastWriteTo(ws, p);
    if k >= 0 {
      assert ws[k].blob.entry in entries;
    }
  }

  /** Extracting one more entry writes it to its target when it is kept. */
  lemma ExtractIntoStep(files: FileMap, h: Host, dir: string, entries: seq<string>, exts: seq<string>)
    requires entries != []
    ensures var n := |entries| - 1;
      var f := ExtractInto(files, h, dir, entries[..n], exts);
      ExtractInto(files, h, dir, entries, exts) ==
        if Keep(entries[n], exts) then f[EntryTarget(h, dir, entries[n], exts) := Member(entries[n])] else f
  {
    AppliedStep(files, entries, Kept(exts), TargetIn(h, dir, exts));
  }

  /** No kept entry after the `i`th has the same target. */
  predicate LastWithTarget(h: Host, dir: string, entries: seq<string>, exts: seq<string>, i: int)
    requires 0 <= i < |entries|
  {
    LastTo(entries, Kept(exts), TargetIn(h, dir, exts), i)
  }

  /** Every kept entry's target exists after extraction, and it holds that
      entry when no later kept entry has the same target. */
  lemma ExtractionComplete(files: FileMap, h: Host, dir: string, entries: seq<string>, exts: seq<string>)
    ensures var r := ExtractInto(files, h, dir, entries, exts);
      forall i :: 0 <= i < |entries| && Keep(entries[i], exts) ==> EntryTarget(h, dir, entries[i], exts) in r
    ensures var r := ExtractInto(files, h, dir, entries, exts);
      forall i :: 0 <= i < |entries| && Keep(entries[i], exts) && LastWithTarget(h, dir, entries, exts, i) ==>
        r[EntryTarget(h, dir, entries[i], exts)] == Member(entries[i])
  {
    forall i | 0 <= i < |entries|
      ensures var r := ExtractInto(files, h, dir, entries, exts);
        var t := EntryTarget(h, dir, entries[i], exts);
        Keep(entries[i], exts) ==> t in r && (LastWithTarget(h, dir, entries, exts, i) ==> r[t] == Member(entries[i]))
    {
      AppliedEntry(files, entries, Kept(exts), TargetIn(h, dir, exts), i);
    }
  }

  /** A one-character stem with the extension ".ttf" or ".otf" passes the
      font filter. */
  lemma FontNameKept(stem: string, ext: string)
    requires |stem| == 1 && stem[0] != '.' && stem[0] != '/'
    requires ext == ".ttf" || ext == ".otf"
    ensures Kept(FontExts)(stem + ext)
  {
    NameExt(stem, ext);
    FontExtIncluded(ext);
  }

  /** ".ttf" contains "ttf" and ".otf" contains "otf". */
  lemma FontExtIncluded(ext: string)
    requires ext == ".ttf" || ext == ".otf"
    ensures exists k :: 0 <= k < |FontExts| && Includes(ext, FontExts[k])
  {
    var k := if ext == ".ttf" then 0 else 1;
    assert StartsWith(ext[1..], FontExts[k]);
    assert Includes(ext, FontExts[k]);
  }

  /** ".txt" contains neither "ttf" nor "otf". */
  lemma TxtIsNoFontExt()
    ensures forall k :: 0 <= k < |FontExts| ==> !Includes(".txt", FontExts[k])
  {
    IncludesIff(".txt", "ttf");
    IncludesIff(".txt", "otf");
    assert !OccursAt(".txt", "otf", 0) && !OccursAt(".txt", "otf", 1);
    assert !OccursAt(".txt", "ttf", 0) && !OccursAt(".txt", "ttf", 1);
  }

  /** A one-character stem with the extension ".txt" does not pass the
      font filter. */
  lemma TextNameSkipped(stem: string)
    requires |stem| == 1 && stem[0] != '.' && stem[0] != '/'
    ensures !Kept(FontExts)(stem + ".txt")
  {
    NameExt(stem, ".txt");
    TxtIsNoFontExt();
  }

  /** A name without '/' is extracted under its own name. */
  lemma FlatTarget(h: Host, dir: string, exts: seq<string>, n: string)
    requires |exts| > 0 && '/' !in n
    ensures TargetIn(h, dir, exts)(n) == h.Join(dir, n)
  {
    BasenameOfName(n);
  }

  /** Three entries of which the first and the third pass: two writes. */
  lemma WritesOfThree(entries: seq<string>, keep: string -> bool, target: string -> string)
    requires |entries| == 3 && keep(entries[0]) && !keep(entries[1]) && keep(entries[2])
    ensures WritesOf(entries, keep, target) ==
      [Write(target(entries[0]), Member(entries[0])), Write(target(entries[2]), Member(entries[2]))]
  {
    WritesOfStep(entries, keep, target, 0);
    WritesOfStep(entries, keep, target, 1);
    WritesOfStep(entries, keep, target, 2);
    assert entries[..0] == [] && entries[..3] == entries;
  }

  /** Filtering by the font extensions, the entries "a.ttf", "b.txt",
      "c.otf" (for any one-character stems in place of "a", "b" and "c")
      extract to exactly the first and the third, under their names. */
  lemma ExtractFontsExample(files: FileMap, h: Host, dir: string, a: string, b: string, c: string)
    requires |a| == 1 && a[0] != '.' && a[0] != '/'
    requires |b| == 1 && b[0] != '.' && b[0] != '/'
    requires |c| == 1 && c[0] != '.' && c[0] != '/'
    ensures ExtractInto(files, h, dir, [a + ".ttf", b + ".txt", c + ".otf"], FontExts) ==
      files[h.Join(dir, a + ".ttf") := Member(a + ".ttf")][h.Join(dir, c + ".otf") := Member(c + ".otf")]
  {
    var entries := [a + ".ttf", b + ".txt", c + ".otf"];
    FontNameKept(a, ".ttf");
    TextNameSkipped(b);
    FontNameKept(c, ".otf");
    WritesOfThree(entries, Kept(FontExts), TargetIn(h, dir, FontExts));
    FlatTarget(h, dir, FontExts, a + ".ttf");
    FlatTarget(h, dir, FontExts, c + ".otf");
    var w0 := Write(h.Join(dir, a + ".ttf"), Member(a + ".ttf"));
    var w2 := Write(h.Join(dir, c + ".otf"), Member(c + ".otf"));
    assert ExtractWrites(h, dir, entries, FontExts) == [w0] + [w2];
    ApplyStep(files, [w0], w2);
    ApplyStep(files, [], w0);
    assert [w0] == [] + [w0];
  }

  /** A one-character stem followed by '.' and three lower-case letters:
      its file extension is that '.' and those letters. */
  lemma NameExt(stem: string, ext: string)
    requires |stem| == 1 && stem[0] != '.' && stem[0] != '/'
    requires |ext| == 4 && ext[0] == '.' && forall k :: 1 <= k < 4 ==> 'a' <= ext[k] <= 'z'
    ensures GetFileExt(stem + ext) == ext
  {
    var p := stem + ext;
    assert '/' !in p by {
      assert forall k :: 0 <= k < |p| ==> p[k] == stem[0] || p[k] == '.' || 'a' <= p[k] <= 'z';
    }
    BasenameOfName(p);
    ExtnameFromLastDot(p);
    assert p[1] == '.' && '.' !in p[2..];
    assert Extname(p) == p[1..] == ext;
    var r := ToLower(ext);
    assert r == ext by {
      assert forall k :: 0 <= k < |r| ==> r[k] == ext[k];
    }
  }

  /** An extension the installer extracts: it contains "ttf", "otf" or
      "txt". */
  predicate FontOrTextExt(x: string)
  {
    Includes(x, "ttf") || Includes(x, "otf") || Includes(x, "txt")
  }

  /** An extension the installer copies: it contains "ttf" or "otf". */
  predicate FontExt(x: string)
  {
    Includes(x, "ttf") || Includes(x, "otf")
  }

  /** The extraction list keeps exactly the entries whose extension contains
      "ttf", "otf" or "txt". */
  lemma AllowedExtractExt(e: string)
    ensures Keep(e, ExtractExts) <==> FontOrTextExt(GetFileExt(e))
  {
    var x := GetFileExt(e);
    if Keep(e, ExtractExts) {
      var k :| 0 <= k < |ExtractExts| && Includes(x, ExtractExts[k]);
      assert ExtractExts[k] == "ttf" || ExtractExts[k] == "otf" || ExtractExts[k] == "txt";
    }
    if Includes(x, "ttf") {
      assert Includes(x, ExtractExts[0]);
    } else if Includes(x, "otf") {
      assert Includes(x, ExtractExts[1]);
    } else if Includes(x, "txt") {
      assert Includes(x, ExtractExts[2]);
    }
  }

  /** The font list keeps exactly the names whose extension contains "ttf"
      or "otf". */
  lemma AllowedFontExt(n: string)
    ensures Keep(n, FontExts) <==> FontExt(GetFileExt(n))
  {
    var x := GetFileExt(n);
    if Keep(n, FontExts) {
      var k :| 0 <= k < |FontExts| && Includes(x, FontExts[k]);
      assert FontExts[k] == "ttf" || FontExts[k] == "otf";
    }
    if Includes(x, "ttf") {
      assert Includes(x, FontExts[0]);
    } else if Includes(x, "otf") {
      assert Includes(x, FontExts[1]);
    }
  }

  /** The installer's extraction writes only entries whose extension
      contains "ttf", "otf" or "txt", flattened into `dir`, and writes every
      such entry, each holding the last of them with its target. */
  lemma ExtractedFontsAndTexts(files: FileMap, h: Host, dir: string, entries: seq<string>, p: string)
    ensures var r := ExtractInto(files, h, dir, entries, ExtractExts);
      (p in r && (p !in files || r[p] != files[p])) ==>
        exists e :: (e in entries && FontOrTextExt(GetFileExt(e)) && p == h.Join(dir, Basename(e)) && r[p] == Member(e))
    ensures var r := ExtractInto(files, h, dir, entries, ExtractExts);
      forall i :: 0 <= i < |entries| && FontOrTextExt(GetFileExt(entries[i])) ==> h.Join(dir, Basename(entries[i])) in r
    ensures var r := ExtractInto(files, h, dir, entries, ExtractExts);
      forall i :: 0 <= i < |entries| && FontOrTextExt(GetFileExt(entries[i])) && LastWithTarget(h, dir, entries, ExtractExts, i) ==>
        r[h.Join(dir, Basename(entries[i]))] == Member(entries[i])
  {
    var r := ExtractInto(files, h, dir, entries, ExtractExts);
    ExtractionSpec(files, h, dir, entries, ExtractExts, p);
    ExtractionComplete(files, h, dir, entries, ExtractExts);
    if p in r && (p !in files || r[p] != files[p]) {
      var e :| e in entries && Keep(e, ExtractExts) && p == EntryTarget(h, dir, e, ExtractExts) && r[p] == Member(e);
      AllowedExtractExt(e);
    }
    forall i | 0 <= i < |entries| && FontOrTextExt(GetFileExt(entries[i]))
      ensures Keep(entries[i], ExtractExts)
    {
      AllowedExtractExt(entries[i]);
    }
  }

  /** `xs.filter(keep)`: the elements that pass, in order. */
  function Filter<T>(xs: seq<T>, keep: T -> bool): (r: seq<T>)
    ensures |r| <= |xs|
    decreases |xs|
  {
    if xs == [] then []
    else Filter(xs[..|xs| - 1], keep) + if keep(xs[|xs| - 1]) then [xs[|xs| - 1]] else []
  }

  /** The filter keeps exactly the elements that pass it. */
  lemma {:induction false} FilterSpec<T>(xs: seq<T>, keep: T -> bool)
    ensures forall k :: 0 <= k < |Filter(xs, keep)| ==> Filter(xs, keep)[k] in xs && keep(Filter(xs, keep)[k])
    ensures forall i :: 0 <= i < |xs| && keep(xs[i]) ==> xs[i] in Filter(xs, keep)
    decreases |xs|
  {
    if xs != [] {
      var init := xs[..|xs| - 1];
      var x := xs[|xs| - 1];
      FilterSpec(init, keep);
      var s := Filter(init, keep);
      var r := Filter(xs, keep);
      assert r == s + if keep(x) then [x] else [];
      forall k | 0 <= k < |r| ensures r[k] in xs && keep(r[k]) {
        if k < |s| {
          assert r[k] == s[k];
          assert s[k] in init;
        }
      }
      forall i | 0 <= i < |xs| && keep(xs[i]) ensures xs[i] in r {
        if i < |init| {
          assert xs[i] == init[i] && init[i] in s;
        } else {
          assert r[|r| - 1] == x;
        }
      }
    }
  }

  /** A filter that passes everything keeps everything. */
  lemma {:induction false} FilterAll<T>(xs: seq<T>, keep: T -> bool)
    requires forall x :: keep(x)
    ensures Filter(xs, keep) == xs
    decreases |xs|
  {
    if xs != [] {
      FilterAll(xs[..|xs| - 1], keep);
      assert xs == xs[..|xs| - 1] + [xs[|xs| - 1]];
    }
  }

  /** The `filter` of `copyFiles` over the listing: the names with an
      allowed extension, or all of them when the allow-list is empty, in
      listing order. */
  function Selected(names: seq<string>, exts: seq<string>): seq<string>
  {
    Filter(names, n => Keep(n, exts))
  }

  /** The filter of `copyFiles` keeps exactly the listed names that pass
      it, and every name when the allow-list is empty. */
  lemma SelectedSpec(names: seq<string>, exts: seq<string>)
    ensures var r := Selected(names, exts);
      && |r| <= |names|
      && (forall k :: 0 <= k < |r| ==> r[k] in names && Keep(r[k], exts))
      && (forall i :: 0 <= i < |names| && Keep(names[i], exts) ==> names[i] in r)
      && (|exts| == 0 ==> r == names)
  {
    FilterSpec(names, n => Keep(n, exts));
    if |exts| == 0 {
      var keep: string -> bool := n => Keep(n, exts);
      assert forall n :: keep(n);
      FilterAll(names, keep);
    }
  }

  /** The `forEach` of `copyFiles` over the selected names, in order: a name
      whose source is a file is copied to `to` under the same name, reading
      the source as it is at that moment. */
  function CopyAll(files: FileMap, h: Host, from: string, to: string, names: seq<string>): FileMap
    decreases |names|
  {
    if names == [] then files
    else
      var f := CopyAll(files, h, from, to, names[..|names| - 1]);
      var n := names[|names| - 1];
      var src := h.Join(from, n);
      if src in f then f[h.Join(to, n) := f[src]] else f
  }

  /** Copying one more name extends the fold by that name's copy. */
  lemma CopyAllStep(files: FileMap, h: Host, from: string, to: string, names: seq<string>, i: int)
    requires 0 <= i < |names|
    ensures var f := CopyAll(files, h, from, to, names[..i]);
      var src := h.Join(from, names[i]);
      CopyAll(files, h, from, to, names[..i + 1]) ==
        if src in f then f[h.Join(to, names[i]) := f[src]] else f
  {
    assert names[..i + 1][..i] == names[..i];
  }

  /** Copying only adds or overwrites files: nothing is removed, every name
      whose source is a file has its copy in `to`, and every path that
      changed is the copy of one of the names. */
  lemma {:induction false} CopyAllSpec(files: FileMap, h: Host, from: string, to: string, names: seq<string>)
    ensures var r := CopyAll(files, h, from, to, names);
      && files.Keys <= r.Keys
      && (forall i :: 0 <= i < |names| && h.Join(from, names[i]) in files ==> h.Join(to, names[i]) in r)
      && (forall p :: p in r && (p !in files || r[p] != files[p])
            ==> exists i :: 0 <= i < |names| && p == h.Join(to, names[i]))
    decreases |names|
  {
    if names != [] {
      var k := |names| - 1;
      var init := names[..k];
      CopyAllSpec(files, h, from, to, init);
      var f := CopyAll(files, h, from, to, init);
      forall i | 0 <= i < k ensures names[i] == init[i] { }
      var r := CopyAll(files, h, from, to, names);
      forall p | p in r && (p !in files || r[p] != files[p])
        ensures exists i :: 0 <= i < |names| && p == h.Join(to, names[i])
      {
        if p != h.Join(to, names[k]) || h.Join(from, names[k]) !in f {
          assert p in f && (p !in files || f[p] != files[p]);
          var i :| 0 <= i < |init| && p == h.Join(to, init[i]);
          assert names[i] == init[i];
        }
      }
    }
  }

  /** Copying never changes a file of `from`: a copy lands on a source
      path only when `to` is `from`, and then it copies that very file onto
      itself. */
  lemma {:induction false} CopyAllKeepsSource(files: FileMap, h: Host, from: string, to: string, names: seq<string>, m: string)
    requires forall i :: 0 <= i < |names| ==> h.IsName(names[i])
    requires h.IsName(m) && h.Join(from, m) in files
    ensures var r := CopyAll(files, h, from, to, names);
      h.Join(from, m) in r && r[h.Join(from, m)] == files[h.Join(from, m)]
    decreases |names|
  {
    if names != [] {
      var k := |names| - 1;
      var n := names[k];
      assert h.IsName(n);
      CopyAllKeepsSource(files, h, from, to, names[..k], m);
      JoinInjective(h, to, from, n, m);
    }
  }

  /** Every copied name holds the contents its source had before the copy,
      whatever the order of the names (names are single path segments, as a
      directory listing gives them). */
  lemma {:induction false} CopyAllContent(files: FileMap, h: Host, from: string, to: string, names: seq<string>)
    requires forall i :: 0 <= i < |names| ==> h.IsName(names[i])
    ensures var r := CopyAll(files, h, from, to, names);
      forall i :: 0 <= i < |names| && h.Join(from, names[i]) in files ==>
        h.Join(to, names[i]) in r && r[h.Join(to, names[i])] == files[h.Join(from, names[i])]
    decreases |names|
  {
    if names != [] {
      var k := |names| - 1;
      var init := names[..k];
      var n := names[k];
      assert forall i :: 0 <= i < k ==> init[i] == names[i];
      CopyAllContent(files, h, from, to, init);
      var f := CopyAll(files, h, from, to, init);
      var r := CopyAll(files, h, from, to, names);
      if h.Join(from, n) in files {
        CopyAllKeepsSource(files, h, from, to, init, n);
      }
      forall i | 0 <= i < |names| && h.Join(from, names[i]) in files
        ensures h.Join(to, names[i]) in r && r[h.Join(to, names[i])] == files[h.Join(from, names[i])]
      {
        JoinInjective(h, to, to, names[i], n);
      }
    }
  }

  /** The files after `copyFiles(from, to, exts)` over the directory
      listing `names` of `from`. */
  function CopyInto(files: FileMap, h: Host, from: string, to: string, names: seq<string>, exts: seq<string>): FileMap
  {
    CopyAll(files, h, from, to, Selected(names, exts))
  }

  /** `copyFiles` copies every listed file whose extension is allowed,
      each copy holding its source's contents, and changes nothing else:
      each changed path is the copy in `to` of a listed name that passes
      the filter. */
  lemma CopySpec(files: FileMap, h: Host, from: string, to: string, names: seq<string>, exts: seq<string>)
    ensures var r := CopyInto(files, h, from, to, names, exts);
      files.Keys <= r.Keys
    ensures var r := CopyInto(files, h, from, to, names, exts);
      forall i :: 0 <= i < |names| && Keep(names[i], exts) && h.Join(from, names[i]) in files
        ==> h.Join(to, names[i]) in r
    ensures var r := CopyInto(files, h, from, to, names, exts);
      (forall i :: 0 <= i < |names| ==> h.IsName(names[i])) ==>
        forall i :: 0 <= i < |names| && Keep(names[i], exts) && h.Join(from, names[i]) in files
          ==> h.Join(to, names[i]) in r && r[h.Join(to, names[i])] == files[h.Join(from, names[i])]
    ensures var r := CopyInto(files, h, from, to, names, exts);
      forall p :: p in r && (p !in files || r[p] != files[p])
        ==> exists n :: n in names && Keep(n, exts) && p == h.Join(to, n)
  {
    var sel := Selected(names, exts);
    var r := CopyInto(files, h, from, to, names, exts);
    SelectedSpec(names, exts);
    CopyAllSpec(files, h, from, to, sel);
    forall i | 0 <= i < |names| && Keep(names[i], exts) && h.Join(from, names[i]) in files
      ensures h.Join(to, names[i]) in r
    {
      var k :| 0 <= k < |sel| && sel[k] == names[i];
    }
    if forall i :: 0 <= i < |names| ==> h.IsName(names[i]) {
      forall k | 0 <= k < |sel| ensures h.IsName(sel[k]) {
        var i :| 0 <= i < |names| && names[i] == sel[k];
      }
      CopyAllContent(files, h, from, to, sel);
      forall i | 0 <= i < |names| && Keep(names[i], exts) && h.Join(from, names[i]) in files
        ensures r[h.Join(to, names[i])] == files[h.Join(from, names[i])]
      {
        var k :| 0 <= k < |sel| && sel[k] == names[i];
      }
    }
    forall p | p in r && (p !in files || r[p] != files[p])
      ensures exists n :: n in names && Keep(n, exts) && p == h.Join(to, n)
    {
      var k :| 0 <= k < |sel| && p == h.Join(to, sel[k]);
      assert sel[k] in names && Keep(sel[k], exts);
    }
  }

  /** The installer copies exactly the listed files with "ttf" or "otf" in
      their extension, with their contents, and changes nothing else. */
  lemma CopiedFontsOnly(files: FileMap, h: Host, from: string, to: string, names: seq<string>, p: string)
    ensures var r := CopyInto(files, h, from, to, names, FontExts);
      (p in r && (p !in files || r[p] != files[p])) ==>
        exists n :: (n in names && FontExt(GetFileExt(n)) && p == h.Join(to, n))
    ensures var r := CopyInto(files, h, from, to, names, FontExts);
      forall i :: 0 <= i < |names| && FontExt(GetFileExt(names[i])) && h.Join(from, names[i]) in files
        ==> h.Join(to, names[i]) in r
    ensures var r := CopyInto(files, h, from, to, names, FontExts);
      (forall i :: 0 <= i < |names| ==> h.IsName(names[i])) ==>
        forall i :: 0 <= i < |names| && FontExt(GetFileExt(names[i])) && h.Join(from, names[i]) in files
          ==> h.Join(to, names[i]) in r && r[h.Join(to, names[i])] == files[h.Join(from, names[i])]
  {
    var r := CopyInto(files, h, from, to, names, FontExts);
    CopySpec(files, h, from, to, names, FontExts);
    if p in r && (p !in files || r[p] != files[p]) {
      var n :| n in names && Keep(n, FontExts) && p == h.Join(to, n);
      AllowedFontExt(n);
    }
    forall i | 0 <= i < |names| && FontExt(GetFileExt(names[i]))
      ensures Keep(names[i], FontExts)
    {
      AllowedFontExt(names[i]);
    }
  }
}
