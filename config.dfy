/** The `config` command (commands/config.js): stores the API key given
    with `--key`, or removes the stored one when no key is given, and
    always reminds the user to refresh the catalog. */
module ConfigCommand {
  import opened Strings
  import opened Paths
  import opened Catalog
  import opened Files
  import opened Console
  import opened FsUtility

  /** `options.key` is truthy: given and not empty. */
  predicate KeyGiven(key: Option<string>)
  {
    key.Some? && key.value != ""
  }

  /** `_action(options)`, `key` being the `--key` option (None when the
      flag is absent). Only the credential file changes: it holds the key
      and an end-of-line afterwards, or is gone; the catalog URL then names
      the key or is the public mirror; the update hint comes last. */
  method Action(disk: Disk, key: Option<string>) returns (log: seq<Event>)
    modifies disk
    ensures KeyGiven(key) ==>
      disk.files == old(disk.files)[disk.host.ApiKeyPath() := Text(key.value + disk.host.eol)]
    ensures KeyGiven(key) && Trimmed(key.value) && disk.host.ValidEol() ==>
      CatalogUrl(ReadText(disk.files, disk.host.ApiKeyPath())) == ApiEndpoint + key.value
    ensures KeyGiven(key) ==>
      log == [ApiKeySaved(key.value, disk.host.ApiKeyPath()), MirrorHint(disk.host.ApiKeyPath()), UpdateHint]
    ensures !KeyGiven(key) ==>
      disk.files == old(disk.files) - {disk.host.ApiKeyPath()}
      && CatalogUrl(ReadText(disk.files, disk.host.ApiKeyPath())) == MirrorUrl
      && log == [NoApiKey, UpdateHint]
    ensures !KeyGiven(key) && disk.host.ApiKeyPath() !in old(disk.files) ==> disk.files == old(disk.files)
  {
    if KeyGiven(key) {
      log := disk.ConfigApiKey(key.value);
    } else {
      log := [NoApiKey];
      disk.RemoveApiKey();
    }
    log := log + [UpdateHint];
  }
}
