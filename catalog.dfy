/** The font catalog: the upstream items, their minimisation to
    `{family, version}` (`updateGoogleFontsMeta`), the exact lookup
    (`getFontVersion`) and the choice of the catalog URL from the stored
    credential (`googleFontsMetaUrl`), all in utilities/fs_utility.js. */
module Catalog {
  import opened Strings

  /** One element of the catalog's `items`: its family and version and any
      other fields the upstream payload carries. */
  datatype FontItem = FontItem(family: string, version: string, extra: map<string, string>)

  /** `{family: item.family, version: item.version}`. */
  function Minimise(item: FontItem): (r: FontItem)
    ensures r.extra == map[]
  {
    FontItem(item.family, item.version, map[])
  }

  /** `items.map(...)` of the minimisation: same length, same order, each
      element reduced to its family and version. */
  function MinimiseAll(items: seq<FontItem>): (r: seq<FontItem>)
    ensures |r| == |items|
    ensures forall i :: 0 <= i < |items| ==>
      r[i].family == items[i].family && r[i].version == items[i].version && r[i].extra == map[]
    decreases |items|
  {
    if items == [] then [] else [Minimise(items[0])] + MinimiseAll(items[1..])
  }

  /** Minimising the minimised catalog changes nothing: every item already
      holds only its family and version. */
  lemma MinimiseAllIdempotent(items: seq<FontItem>)
    ensures MinimiseAll(MinimiseAll(items)) == MinimiseAll(items)
  {
  }

  /** `items.filter(item => item.family === name)`. */
  function Matching(items: seq<FontItem>, name: string): (r: seq<FontItem>)
    ensures |r| <= |items|
    ensures forall k :: 0 <= k < |r| ==> r[k].family == name
    ensures r == [] <==> forall j :: 0 <= j < |items| ==> items[j].family != name
    decreases |items|
  {
    if items == [] then []
    else (if items[0].family == name then [items[0]] else []) + Matching(items[1..], name)
  }

  /** Item `i` is the only one whose family is exactly `name`. */
  predicate UniqueMatch(items: seq<FontItem>, name: string, i: int)
  {
    0 <= i < |items| && items[i].family == name
    && forall j :: 0 <= j < |items| && items[j].family == name ==> j == i
  }

  /** `getFontVersion` on the parsed cache: the version of the single item
      whose family equals `name`, or "" when none or several do. */
  function FontVersion(items: seq<FontItem>, name: string): string
  {
    var m := Matching(items, name);
    if |m| == 1 then m[0].version else ""
  }

  /** The filter keeps exactly one item iff exactly one family matches, and
      then it keeps that item. */
  lemma {:induction false} SingleMatch(items: seq<FontItem>, name: string)
    ensures |Matching(items, name)| == 1 <==> exists i :: UniqueMatch(items, name, i)
    ensures forall i :: UniqueMatch(items, name, i) ==> Matching(items, name) == [items[i]]
    decreases |items|
  {
    if items != [] {
      var rest := items[1..];
      SingleMatch(rest, name);
      if items[0].family == name {
        forall i | UniqueMatch(items, name, i)
          ensures i == 0 && Matching(items, name) == [items[i]]
        {
          assert items[0].family == name;
          forall j | 0 <= j < |rest| ensures rest[j].family != name {
            assert items[j + 1] == rest[j];
          }
        }
        if Matching(rest, name) == [] {
          assert UniqueMatch(items, name, 0);
        }
      } else {
        forall i | UniqueMatch(items, name, i)
          ensures UniqueMatch(rest, name, i - 1)
        {
          forall j | 0 <= j < |rest| && rest[j].family == name ensures j == i - 1 {
            assert items[j + 1] == rest[j];
          }
        }
        forall i | UniqueMatch(rest, name, i)
          ensures UniqueMatch(items, name, i + 1)
        {
          forall j | 0 <= j < |items| && items[j].family == name ensures j == i + 1 {
            assert rest[j - 1] == items[j];
          }
        }
        if exists i :: UniqueMatch(items, name, i) {
          var i :| UniqueMatch(items, name, i);
          assert UniqueMatch(rest, name, i - 1);
        }
        if exists i :: UniqueMatch(rest, name, i) {
          var i :| UniqueMatch(rest, name, i);
          assert UniqueMatch(items, name, i + 1);
        }
      }
    }
  }

  /** The lookup returns the version of the only item whose family equals
      `name` case-sensitively; with no such item, or more than one, it
      returns "". */
  lemma FontVersionSpec(items: seq<FontItem>, name: string)
    ensures forall i :: UniqueMatch(items, name, i) ==> FontVersion(items, name) == items[i].version
    ensures (forall i :: !UniqueMatch(items, name, i)) ==> FontVersion(items, name) == ""
  {
    SingleMatch(items, name);
  }

  /** A catalog holding "Roboto" at "v30" finds it under its exact name and
      not under "roboto". */
  lemma RobotoLookup()
    ensures FontVersion([FontItem("Roboto", "v30", map[])], "Roboto") == "v30"
    ensures FontVersion([FontItem("Roboto", "v30", map[])], "roboto") == ""
  {
    assert UniqueMatch([FontItem("Roboto", "v30", map[])], "Roboto", 0);
    FontVersionSpec([FontItem("Roboto", "v30", map[])], "Roboto");
    FontVersionSpec([FontItem("Roboto", "v30", map[])], "roboto");
  }

  const Https := "https://"
  const ApiHost := "www.googleapis.com"
  const MirrorHost := "raw.githubusercontent.com"
  /** The Google Fonts developer API, keyed by the `key` query parameter. */
  const ApiEndpoint := Https + ApiHost + "/webfonts/v1/webfonts?key="
  /** The pre-published snapshot of the catalog. */
  const MirrorUrl := Https + MirrorHost + "/antruongnguyen/ggfonts/main/google-fonts.json"

  /** `googleFontsMetaUrl` given the text read from the credential file
      ("" when the file is missing). */
  function CatalogUrl(keyFileText: string): string
  {
    var key := Trim(keyFileText);
    if key != "" then ApiEndpoint + key else MirrorUrl
  }

  /** The credential as `mkfile` stores it (the key and an end-of-line)
      reads back as the key itself, when the key has no whitespace at its
      ends. */
  lemma StoredKeyRoundTrip(key: string, eol: string)
    requires key != "" && Trimmed(key) && AllSpace(eol)
    ensures CatalogUrl(key + eol) == ApiEndpoint + key
  {
    TrimAfterAppend(key, eol);
    TrimmedIsFixed(key);
  }

  /** Whitespace after the stored text does not change the catalog URL. */
  lemma CatalogUrlIgnoresEol(keyFileText: string, eol: string)
    requires AllSpace(eol)
    ensures CatalogUrl(keyFileText + eol) == CatalogUrl(keyFileText)
  {
    TrimAfterAppend(keyFileText, eol);
  }

  /** The catalog URL is the authenticated endpoint exactly when the stored
      text trims to a non-empty key, and that key is what follows `key=`. */
  lemma CatalogUrlChoice(keyFileText: string)
    ensures Trim(keyFileText) == "" <==> CatalogUrl(keyFileText) == MirrorUrl
    ensures Trim(keyFileText) != "" ==>
      var r := CatalogUrl(keyFileText);
      StartsWith(r, ApiEndpoint) && r[|ApiEndpoint|..] == Trim(keyFileText)
  {
    var t := Trim(keyFileText);
    if t != "" {
      var r := ApiEndpoint + t;
      assert CatalogUrl(keyFileText) == r;
      assert r[..|ApiEndpoint|] == ApiEndpoint && r[|ApiEndpoint|..] == t;
      assert |Https| == 8 && r[8] == ApiHost[0] == 'w';
      assert MirrorUrl[8] == MirrorHost[0] == 'r';
    }
  }

  /** A missing credential file selects the public mirror. */
  lemma NoKeyUsesMirror()
    ensures CatalogUrl("") == MirrorUrl
  {
  }

  /** The authenticated endpoint contains the API host, which the download
      error path looks for. */
  lemma EndpointNamesApiHost(key: string)
    ensures Includes(ApiEndpoint + key, ApiHost)
  {
    assert |Https| == 8 && |ApiHost| == 18;
    assert ApiEndpoint + key == Https + (ApiHost + ("/webfonts/v1/webfonts?key=" + key));
    assert OccursAt(ApiEndpoint + key, ApiHost, 8);
    IncludesIff(ApiEndpoint + key, ApiHost);
  }
}
