/** The host the tool runs on and the fixed paths it derives from it
    (utilities/fs_utility.js, module scope), with `path.basename`,
    `path.extname` and `getFileExt` following Node's POSIX rules. */
module Paths {
  import opened Strings

  /** What `os.platform()`, `os.version()`, `os.homedir()` and `os.EOL`
      report. */
  datatype Host = Host(platform: string, version: string, home: string, eol: string)
  {
    predicate IsWindows() { platform == "win32" }
    predicate IsMacOs() { platform == "darwin" }
    predicate IsLinux() { platform == "linux" }

    /** `os.EOL` is "\r\n" on Windows and "\n" elsewhere. */
    predicate ValidEol() { eol == "\n" || eol == "\r\n" }

    /** `path.sep`. */
    function Sep(): string { if IsWindows() then "\\" else "/" }

    /** `path.join(a, b)` for a relative `b` and an `a` without a trailing
        separator. */
    function Join(a: string, b: string): string { a + Sep() + b }

    /** A single path segment, such as an entry of `fs.readdirSync`: no
        separator in it. */
    predicate IsName(n: string) { Sep()[0] !in n }

    function DownloadsDir(): string { Join(home, "Downloads") }
    function UserFontsDirMacOs(): string { Join(Join(home, "Library"), "Fonts") }
    function UserFontsDirLinux(): string { Join(Join(Join(home, ".local"), "share"), "fonts") }
    function LegacyFontsDir(): string { Join(home, ".fonts") }

    function GgfontsDir(): string
    {
      if IsWindows() then Join(Join(Join(home, "AppData"), "Local"), "ggfonts")
      else Join(home, ".ggfonts")
    }

    function ApiKeyPath(): string { Join(GgfontsDir(), "API_KEY") }
    function RawMetaPath(): string { Join(GgfontsDir(), "google-fonts.json") }
    function MinMetaPath(): string { Join(GgfontsDir(), "google-fonts.min.json") }
  }

  /** The temporary sibling a download is written to first. */
  function TempPath(path: string): string
  {
    path + ".tmp"
  }

  /** The credential file, the raw catalog, its temporary sibling and the
      minimised catalog are four different files. */
  lemma StatePathsDistinct(h: Host)
    ensures h.ApiKeyPath() != h.RawMetaPath() && h.ApiKeyPath() != TempPath(h.RawMetaPath())
    ensures h.ApiKeyPath() != h.MinMetaPath()
    ensures h.RawMetaPath() != TempPath(h.RawMetaPath()) && h.RawMetaPath() != h.MinMetaPath()
    ensures TempPath(h.RawMetaPath()) != h.MinMetaPath()
  {
    var n := |h.GgfontsDir() + h.Sep()|;
    assert h.MinMetaPath()[n + 13] == 'm';
    assert TempPath(h.RawMetaPath())[n + 13] == 'j';
  }

  /** A download's temporary file is never the file it promotes to. */
  lemma TempPathDistinct(path: string)
    ensures TempPath(path) != path
  {
  }

  /** Joining a directory with a single segment is one-to-one: the
      separator before the segment is the last one in the result. */
  lemma JoinInjective(h: Host, a: string, b: string, m: string, n: string)
    requires h.IsName(m) && h.IsName(n)
    ensures h.Join(a, m) == h.Join(b, n) <==> a == b && m == n
  {
    if |a| < |b| {
      JoinShorterDiffers(h, a, b, m, n);
    } else if |b| < |a| {
      JoinShorterDiffers(h, b, a, n, m);
    } else if h.Join(a, m) == h.Join(b, n) {
      var s := h.Join(a, m);
      assert a == s[..|a|] && b == s[..|b|];
      assert m == s[|a| + 1..] && n == s[|b| + 1..];
    }
  }

  /** Under a shorter directory the result has a segment character where
      under the longer one it has the separator. */
  lemma JoinShorterDiffers(h: Host, a: string, b: string, m: string, n: string)
    requires h.IsName(m) && |a| < |b|
    ensures h.Join(a, m) != h.Join(b, n)
  {
    if |b| < |h.Join(a, m)| {
      var k := |b| - |a| - 1;
      assert h.Join(b, n)[|b|] == h.Sep()[0];
      assert h.Join(a, m)[|b|] == m[k] && m[k] in m;
    }
  }

  /** `p` without its trailing slashes. */
  function TrimTrailingSlashes(p: string): string
    decreases |p|
  {
    if |p| > 0 && p[|p| - 1] == '/' then TrimTrailingSlashes(p[..|p| - 1]) else p
  }

  /** Trimming keeps a prefix that does not end in '/' and drops only
      slashes. */
  lemma {:induction false} TrimTrailingSlashesSpec(p: string)
    ensures var r := TrimTrailingSlashes(p);
      && |r| <= |p| && r == p[..|r|]
      && (|r| == 0 || r[|r| - 1] != '/')
      && forall k :: |r| <= k < |p| ==> p[k] == '/'
    decreases |p|
  {
    if |p| > 0 && p[|p| - 1] == '/' {
      TrimTrailingSlashesSpec(p[..|p| - 1]);
    }
  }

  /** The part of `p` after its last '/'. */
  function LastSegment(p: string): string
    decreases |p|
  {
    if |p| == 0 || p[|p| - 1] == '/' then "" else LastSegment(p[..|p| - 1]) + [p[|p| - 1]]
  }

  /** The last segment ends `p`, contains no '/', and is preceded by a '/'
      unless it is all of `p`. */
  lemma {:induction false} LastSegmentSpec(p: string)
    ensures var r := LastSegment(p);
      && |r| <= |p| && r == p[|p| - |r|..]
      && '/' !in r
      && (|r| == |p| || p[|p| - |r| - 1] == '/')
    decreases |p|
  {
    if |p| > 0 && p[|p| - 1] != '/' {
      var n := |p| - 1;
      var init := p[..n];
      LastSegmentSpec(init);
      var r0 := LastSegment(init);
      assert p[|p| - |r0| - 1..] == r0 + [p[n]];
      if |r0| < |init| {
        assert p[|p| - |r0| - 2] == init[|init| - |r0| - 1];
      }
    }
  }

  /** `path.basename(p)`: the last segment, trailing slashes ignored. */
  function Basename(p: string): string
  {
    LastSegment(TrimTrailingSlashes(p))
  }

  /** The base name is the last segment of the path once its trailing
      slashes are dropped: it contains no '/', it ends that trimmed path,
      and it is preceded by a '/' unless it is the whole trimmed path. */
  lemma BasenameSpec(p: string)
    ensures '/' !in Basename(p)
    ensures |Basename(p)| <= |TrimTrailingSlashes(p)|
    ensures var t := TrimTrailingSlashes(p); Basename(p) == t[|t| - |Basename(p)|..]
    ensures var t := TrimTrailingSlashes(p);
      |Basename(p)| == |t| || t[|t| - |Basename(p)| - 1] == '/'
  {
    LastSegmentSpec(TrimTrailingSlashes(p));
  }

  /** A name without '/' is its own base name. */
  lemma BasenameOfName(n: string)
    requires '/' !in n
    ensures Basename(n) == n
  {
    if |n| > 0 {
      assert n[|n| - 1] in n;
    }
    assert TrimTrailingSlashes(n) == n;
    LastSegmentSpec(n);
  }

  /** From the last '.' of `b` to its end, or "" when `b` has no '.' after
      its first character. */
  function DotSuffix(b: string): string
    decreases |b|
  {
    if |b| <= 1 then ""
    else if b[|b| - 1] == '.' then "."
    else
      var r := DotSuffix(b[..|b| - 1]);
      if r == "" then "" else r + [b[|b| - 1]]
  }

  /** The suffix is not empty exactly when a '.' follows the first
      character, and then it starts at the last '.'. */
  lemma {:induction false} DotSuffixSpec(b: string)
    ensures DotSuffix(b) != "" <==> exists d :: 0 < d < |b| && b[d] == '.'
    ensures forall d :: 0 < d < |b| && b[d] == '.' && '.' !in b[d + 1..] ==> DotSuffix(b) == b[d..]
    decreases |b|
  {
    if |b| > 1 {
      var n := |b| - 1;
      var init := b[..n];
      DotSuffixSpec(init);
      if b[n] == '.' {
        forall d | 0 < d < |b| && b[d] == '.' && '.' !in b[d + 1..]
          ensures DotSuffix(b) == b[d..]
        {
        }
      } else {
        forall d | 0 < d < |b| && b[d] == '.'
          ensures d < n && init[d] == '.'
        {
        }
        forall d | 0 < d < |b| && b[d] == '.' && '.' !in b[d + 1..]
          ensures DotSuffix(b) == b[d..]
        {
          assert init[d + 1..] == b[d + 1..n];
          assert '.' !in init[d + 1..];
          assert b[d..] == init[d..] + [b[n]];
        }
      }
    }
  }

  /** A non-empty suffix is a '.' with no other '.' after it, cut from
      `b` after its first character. */
  lemma {:induction false} DotSuffixShape(b: string)
    ensures var r := DotSuffix(b);
      r == "" || (r[0] == '.' && '.' !in r[1..] && exists k :: 0 < k < |b| && b[k..] == r)
    decreases |b|
  {
    if |b| > 1 {
      var n := |b| - 1;
      if b[n] == '.' {
        assert b[n..] == DotSuffix(b);
      } else {
        var init := b[..n];
        DotSuffixShape(init);
        var r := DotSuffix(init);
        if r != "" {
          var c := b[n];
          var k :| 0 < k < |init| && init[k..] == r;
          assert DotSuffix(b) == r + [c];
          assert b[k..] == r + [c];
          assert (r + [c])[1..] == r[1..] + [c];
          assert '.' !in r[1..] + [c];
        }
      }
    }
  }

  /** `path.extname(p)`: from the last '.' of the base name to its end; the
      empty string when there is no '.', when the only leading part is the
      '.' itself (".bashrc"), or for "..". */
  function Extname(p: string): string
  {
    var base := Basename(p);
    if base == ".." then "" else DotSuffix(base)
  }

  /** The extension is not empty exactly when the base name, other than
      "..", has a '.' after its first character; it then runs from the
      last '.' of the base name to its end. */
  lemma ExtnameFromLastDot(p: string)
    ensures var b := Basename(p);
      Extname(p) != "" <==> b != ".." && exists d :: 0 < d < |b| && b[d] == '.'
    ensures var b := Basename(p);
      forall d :: 0 < d < |b| && b[d] == '.' && '.' !in b[d + 1..] && b != ".." ==> Extname(p) == b[d..]
  {
    DotSuffixSpec(Basename(p));
  }

  /** An extension is empty or a '.' followed by no other '.' and no '/',
      and it is a proper suffix of the base name. */
  lemma ExtnameSpec(p: string)
    ensures var r := Extname(p);
      r == "" || (r[0] == '.' && '.' !in r[1..] && '/' !in r)
    ensures var r := Extname(p);
      r != "" ==> exists k :: 0 < k < |Basename(p)| && Basename(p)[k..] == r
  {
    var b := Basename(p);
    assert '/' !in b by {
      LastSegmentSpec(TrimTrailingSlashes(p));
    }
    DotSuffixShape(b);
    var r := Extname(p);
    if r != "" {
      assert r == DotSuffix(b);
      var k :| 0 < k < |b| && b[k..] == r;
      forall i | 0 <= i < |r| ensures r[i] != '/' {
        assert r[i] == b[k + i];
      }
    }
  }

  /** `getFileExt(p)`: the extension, lower-cased. */
  function GetFileExt(p: string): string
  {
    ToLower(Extname(p))
  }

  /** A file extension is empty exactly when the extension is, starts with
      '.' otherwise, has the extension's length, and has no upper-case
      letter. */
  lemma GetFileExtStartsWithDot(p: string)
    ensures GetFileExt(p) == "" <==> Extname(p) == ""
    ensures GetFileExt(p) == "" || GetFileExt(p)[0] == '.'
    ensures |GetFileExt(p)| == |Extname(p)|
    ensures forall i :: 0 <= i < |GetFileExt(p)| ==> !('A' <= GetFileExt(p)[i] <= 'Z')
  {
    ExtnameSpec(p);
    ToLowerSpec(Extname(p));
  }

  /** The extension of "Roboto.TTF" is ".TTF". */
  lemma ExtnameExample()
    ensures Extname("Roboto.TTF") == ".TTF"
  {
    var p := "Roboto.TTF";
    BasenameOfName(p);
    ExtnameFromLastDot(p);
    assert p[6] == '.' && '.' !in p[7..];
  }

  /** An upper-case extension is read in lower case: "Roboto.TTF" has the
      file extension ".ttf". */
  lemma GetFileExtExample()
    ensures GetFileExt("Roboto.TTF") == ".ttf"
  {
    ExtnameExample();
    ToLowerExample();
  }

  /** A name without a '.' has no extension. */
  lemma NoDotNoExt(p: string)
    requires '.' !in p
    ensures GetFileExt(p) == ""
  {
    BasenameSpec(p);
    TrimTrailingSlashesSpec(p);
    var t := TrimTrailingSlashes(p);
    var b := Basename(p);
    forall i | 0 <= i < |b|
      ensures b[i] != '.'
    {
      assert b[i] == t[|t| - |b| + i] == p[|t| - |b| + i];
    }
    DotSuffixSpec(b);
  }
}
