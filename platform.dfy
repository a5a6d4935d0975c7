/** How `installFonts` and `installFontsOnLinux` (utilities/fs_utility.js)
    choose where the extracted fonts go: by `os.platform()`, and on Linux by
    a first-match chain of substring tests on the lower-cased
    `os.version()`. */
module Platform {
  import opened Strings
  import opened JsValues
  import opened Paths

  /** The install branch taken. */
  datatype Strategy =
    | MacOs             // copy to ~/Library/Fonts
    | DebianLike        // copy to ~/.local/share/fonts, then run fc-cache
    | ArchLike          // copy to ~/.local/share/fonts
    | CentOsAlpine      // copy to ~/.fonts
    | Fedora            // copy to usr/share/fonts/<family directory>
    | UnsupportedLinux  // the warning for an unknown distro
    | Windows           // write and run install.ps1
    | UnsupportedOs     // the warning for an unknown platform

  const DebianWords: seq<string> := ["ubuntu", "mint", "pop!", " mx ", "debian"]
  const ArchWords: seq<string> := ["manjaro", "endeavouros", "arch"]
  const CentOsAlpineWords: seq<string> := ["centos", "alpine"]

  /** Some word of `ws` occurs in `s`. */
  predicate MentionsAny(s: string, ws: seq<string>)
  {
    exists i :: 0 <= i < |ws| && Includes(s, ws[i])
  }

  /** The chain of `installFontsOnLinux`, over `os.version()`. */
  function LinuxDistro(version: string): Strategy
  {
    var uname := ToLower(version);
    if ContainsAny(Str(uname), Words(DebianWords)) then DebianLike
    else if ContainsAny(Str(uname), Words(ArchWords)) then ArchLike
    else if ContainsAny(Str(uname), Words(CentOsAlpineWords)) then CentOsAlpine
    else if Contains(Str(uname), Str("fedora")) then Fedora
    else UnsupportedLinux
  }

  /** Each distro family is chosen exactly when one of its words occurs in
      the lower-cased version and no word of an earlier family does; with
      no word at all the distro is unsupported. */
  lemma LinuxDistroSpec(version: string)
    ensures var u := ToLower(version);
      && (LinuxDistro(version) == DebianLike <==> MentionsAny(u, DebianWords))
      && (LinuxDistro(version) == ArchLike <==>
            !MentionsAny(u, DebianWords) && MentionsAny(u, ArchWords))
      && (LinuxDistro(version) == CentOsAlpine <==>
            !MentionsAny(u, DebianWords) && !MentionsAny(u, ArchWords) && MentionsAny(u, CentOsAlpineWords))
      && (LinuxDistro(version) == Fedora <==>
            !MentionsAny(u, DebianWords) && !MentionsAny(u, ArchWords) && !MentionsAny(u, CentOsAlpineWords)
            && Includes(u, "fedora"))
      && (LinuxDistro(version) == UnsupportedLinux <==>
            !MentionsAny(u, DebianWords) && !MentionsAny(u, ArchWords) && !MentionsAny(u, CentOsAlpineWords)
            && !Includes(u, "fedora"))
  {
    var u := ToLower(version);
    ContainsAnyWords(u, DebianWords);
    ContainsAnyWords(u, ArchWords);
    ContainsAnyWords(u, CentOsAlpineWords);
    ContainsStrings(u, "fedora");
  }

  /** First match wins: a version naming both an Arch-like and a
      Debian-like distro is treated as Debian-like. */
  lemma DebianBeforeArch(version: string)
    requires Includes(ToLower(version), "ubuntu") && Includes(ToLower(version), "arch")
    ensures LinuxDistro(version) == DebianLike
  {
    LinuxDistroSpec(version);
    assert Includes(ToLower(version), DebianWords[0]);
  }

  /** The distro test ignores the case of the version string. */
  lemma LinuxDistroIgnoresCase(version: string)
    ensures LinuxDistro(ToLower(version)) == LinuxDistro(version)
  {
    ToLowerIdempotent(version);
  }

  /** The dispatch of `installFonts` on `os.platform()`. */
  function Classify(platform: string, version: string): (s: Strategy)
    ensures s == MacOs <==> platform == "darwin"
    ensures s == Windows <==> platform == "win32"
    ensures s == UnsupportedOs <==> platform != "darwin" && platform != "linux" && platform != "win32"
    ensures platform == "linux" ==> s == LinuxDistro(version)
  {
    if platform == "darwin" then MacOs
    else if platform == "linux" then LinuxDistro(version)
    else if platform == "win32" then Windows
    else UnsupportedOs
  }

  /** The directory the fonts in `extractDir` are copied to, for the
      strategies that copy. The Fedora target is `path.join('usr', 'share',
      'fonts', basename)`: relative to the working directory. */
  function InstallDir(s: Strategy, h: Host, extractDir: string): (r: Option<string>)
    ensures r.Some? <==> s in {MacOs, DebianLike, ArchLike, CentOsAlpine, Fedora}
  {
    match s
    case MacOs => Some(h.UserFontsDirMacOs())
    case DebianLike => Some(h.UserFontsDirLinux())
    case ArchLike => Some(h.UserFontsDirLinux())
    case CentOsAlpine => Some(h.LegacyFontsDir())
    case Fedora => Some(h.Join(h.Join(h.Join("usr", "share"), "fonts"), Basename(extractDir)))
    case _ => None
  }

  /** Every copying strategy but Fedora installs under the home directory;
      the Fedora target starts with "usr", not "/", and ends with the name
      of the extracted directory. */
  lemma InstallDirLocation(s: Strategy, h: Host, extractDir: string)
    requires s in {MacOs, DebianLike, ArchLike, CentOsAlpine}
    ensures StartsWith(InstallDir(s, h, extractDir).value, h.home + h.Sep())
  {
    var t := InstallDir(s, h, extractDir).value;
    var n := |h.home + h.Sep()|;
    assert t[..n] == h.home + h.Sep();
  }

  /** The Fedora target is relative and names the extracted directory. */
  lemma FedoraTargetIsRelative(h: Host, extractDir: string)
    ensures var t := InstallDir(Fedora, h, extractDir).value;
      t[..3] == "usr" && t[|t| - |Basename(extractDir)|..] == Basename(extractDir)
  {
  }
}
