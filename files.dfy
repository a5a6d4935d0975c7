/** The filesystem as the tool sees it: a map from path to content.
    Directories are implied by the paths and are not modelled. */
module Files {
  import opened Strings
  import opened Catalog

  /** The content of one file. Text is what `mkfile` writes; a parsed JSON
      catalog stands for the catalog files (what `JSON.parse` of their text
      yields); a ZIP archive is the list of its entry names; a file
      extracted from an archive is known by its entry name; an interrupted
      download leaves an incomplete body. */
  datatype Blob =
    | Text(text: string)
    | CatalogDoc(items: seq<FontItem>)
    | ZipArchive(entries: seq<string>)
    | Member(entry: string)
    | Incomplete

  type FileMap = map<string, Blob>

  /** `readfile(path)`: the text of the file, or "" when it cannot be read.
      Only text is ever stored at the paths the tool reads this way. */
  function ReadText(files: FileMap, path: string): (r: string)
    ensures path !in files ==> r == ""
  {
    if path in files && files[path].Text? then files[path].text else ""
  }

  /** `JSON.parse(readfile(path))` followed by `.items`: the items of a
      catalog document, or None where the source throws (a missing file
      reads as "" and `JSON.parse('')` throws; other content has no
      `items` array). */
  function CatalogItems(files: FileMap, path: string): (r: Option<seq<FontItem>>)
    ensures r.Some? <==> path in files && files[path].CatalogDoc?
  {
    if path in files && files[path].CatalogDoc? then Some(files[path].items) else None
  }
}
