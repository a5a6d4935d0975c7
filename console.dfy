/** What the tool writes to the console, one value per `info`, `warn`,
    `error` or `done` call of utilities/fs_utility.js and commands/config.js
    (colours and exact wording left out), and the uncaught exceptions that
    end the process. */
module Console {

  datatype Event =
    // download
    | Downloading(url: string)
    | Redirecting(status: int, statusMessage: string, location: string)
    | HttpError(status: int, statusMessage: string)
    | InvalidApiKey
    | ApiKeyHint(keyPath: string)
    | DownloadedTo(path: string)
    | NetworkError(message: string)
    // metadata
    | MetadataMinified(rawPath: string, minPath: string)
    | MetadataUpdated
    | NoLocalData
    // credential
    | ApiKeySaved(key: string, keyPath: string)
    | MirrorHint(keyPath: string)
    | NoApiKey
    | UpdateHint
    // search
    | Searching(keyword: string)
    | NoFontFound
    | FoundFonts(count: int)
    | Listed(rank: int, family: string)
    | MoreResults(count: int)
    | FontNotFound(name: string)
    // installation
    | OsVersion(version: string)
    | Extracting(zipPath: string, dir: string)
    | Extracted(entry: string)
    | Installing
    | Copied(fromPath: string, toDir: string)
    | RunningFcCache
    | FcCacheOutput(stdout: string)
    | PowerShellNotice(scriptPath: string, dir: string)
    | UnsupportedPlatform(dir: string)
    | Done
    // an exception nobody catches: the process stops here
    | Crash(reason: string)
}
