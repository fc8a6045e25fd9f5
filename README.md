# Spotify playlist downloader: the sequential core

The downloader reads a Spotify playlist, or a single song name, from the
command line. It searches each song on a primary MP3 site and falls back to a
YouTube-to-MP3 converter when the primary site has nothing. It waits until
every download has finished and then strips the site's marker from the names
of the downloaded files. Most of the program drives a browser. This project
models the part that is plain string, list and bookkeeping logic, in Dafny,
and proves what that logic guarantees.

- `Wrappers` (`wrappers.dfy`): `Option`, which stands in for C#'s `null`, and
  the predicate "no element repeats".
- `Text` (`text.dfy`): the .NET string operations the code relies on. These
  are `Contains`, `Split` (which keeps empty pieces), `string.Join`,
  `Replace`, `Trim` (over the white-space characters of `Char.IsWhiteSpace`),
  `ToLowerInvariant` and `EndsWith`. `Split` and `Replace` are defined through a
  search for the first occurrence of the separator, a helper of the model.
- `SongSearch` (`song_search.dfy`): from `Logic/MusicDownloader.cs`.
  - `"<artist> - <title>"` names, and `RefineSongsNames`, modelled in place on
    an array.
  - The miss test on the primary site's results.
  - Collapsing the result rows into a dictionary with a loop, and choosing the
    URL to open.
  - The YouTube video id and the converter URL.
- `Bookkeeping` (`bookkeeping.dfy`): the `processed` list, the
  `FromYoutubeDownloads` list, the `youtubeWritten` flag and the download
  counter, as a `PlaylistRun` class whose methods are the updates the downloader
  makes, plus the wait loop's condition.
- `CommandLine` (`command_line.dfy`): `ParseMode`, `GetBaseFolderName` and
  `GetParams` from `Program.cs`. The file system, `Path.Combine`, the desktop
  folder, the session id and the reachability of the playlist link are
  parameters. `GetParams` chooses the output folder as the code is written.
  `GetParamsCorrected` is the same parse with the corrected rule (see
  Findings).
- `ListExtensions` (`list_extensions.dfy`): `SplitList` and `ToConcurrentBag`
  from `Infrastructure/Extensions.cs`, as loops.
- `FileCleanup` (`file_cleanup.dfy`): `RenameFilesRemovingString` from
  `Infrastructure/IOHandler.cs`. It runs over a `Folder` object that holds the
  download folder as a map from full paths to contents; `File.Move`,
  `File.Exists` and `File.Delete` act on that map.

## Model

| member | source | states |
|---|---|---|
| SongSearch.SongDisplayNameParts | Logic/MusicDownloader.cs:235 | The name is the trimmed text before the first comma of the artists (all of it when there is no comma), then `" - "`, then the trimmed title. |
| SongSearch.RefineSongsNames | Logic/MusicDownloader.cs:243-253 | The array keeps its length. Each position holds the refined form of the name it held before. |
| SongSearch.RefinedNameUnchangedIff | Logic/MusicDownloader.cs:247-248 | A name stays as it is if and only if it holds at most one `'-'`, which is when its split has at most two parts. |
| SongSearch.RefinedNameCut | Logic/MusicDownloader.cs:247-250 | A name with two or more `'-'` splits into more than two parts. It becomes part 0, `" - "`, part 1; neither part holds a `'-'`, so the result holds exactly one. |
| SongSearch.RefinedNameIdempotent | Logic/MusicDownloader.cs:243-253 | Refining a refined name changes nothing. |
| SongSearch.RefinedNameExample | Logic/MusicDownloader.cs:247-250 | The split is on a single `'-'` and keeps the spaces: `"A - B - Remix"` becomes `"A  -  B "`. |
| SongSearch.PrimaryMissCases | Logic/MusicDownloader.cs:125 | A result list whose length is not 1 is never a miss. A single row holding the sentence in lower case or in the site's capitalisation is a miss. |
| SongSearch.PrimarySearchOutcome | Logic/MusicDownloader.cs:124-152 | The song goes to the fallback if and only if the search missed. Otherwise the URL opened is the first row's link, and there is no URL when there are no rows (what the browser then does is left out). |
| SongSearch.CollapseResults | Logic/MusicDownloader.cs:142-150 | The inserted keys are those of the first 10 rows without repeats, in first-seen order. The dictionary's keys are exactly those, every value is the first row's link, and there are at most 10 entries. |
| SongSearch.FirstOccurrences | Logic/MusicDownloader.cs:143-150 | The collapsed keys hold no repeat, hold exactly the keys that occur, and are no more than the rows. |
| SongSearch.FirstOccurrencesHead | Logic/MusicDownloader.cs:146-149 | The first key added is the first row's key. So the dictionary's first value comes from the first insertion. |
| SongSearch.ConsideredKeys | Logic/MusicDownloader.cs:143-145 | Only the first `min(10, count)` rows are looked at, in order, each keyed by its `#navi` texts joined with `" - "`. |
| SongSearch.VideoIdSpec | Logic/MusicDownloader.cs:185-186 | The id never holds `"v="`. With no `"v="` it is the trimmed link. Otherwise it is the trimmed text after a `"v="` that is followed by no other. |
| SongSearch.ConverterUrl | Logic/MusicDownloader.cs:188 | The URL is the converter prefix followed by the id; a null id adds nothing. |
| Bookkeeping.PlaylistRun.constructor | Logic/MusicDownloader.cs:44-60 | In parallel mode `processed` starts as a copy of all the names; in serial mode it starts empty. The counter is 0, no fallback list exists yet, and the notice is not yet written. |
| Bookkeeping.PlaylistRun.PrimaryMiss | Logic/MusicDownloader.cs:132-139 | A miss removes one occurrence of the song from `processed`, only in parallel mode, and is recorded as handled and as a miss owed a fallback download. Nothing else changes. |
| Bookkeeping.PlaylistRun.PrimarySuccess | Logic/MusicDownloader.cs:154-165 | A hit removes one occurrence in parallel mode and adds one to the counter. The "waiting for downloads" line is printed exactly when `processed` is then empty, which in serial mode is always. |
| Bookkeeping.PlaylistRun.YoutubeStarted | Logic/MusicDownloader.cs:170-175 | Only a recorded miss can start a fallback download, once per miss, so starts never outnumber misses. The fallback list is created on first use and the song is appended. |
| Bookkeeping.PlaylistRun.YoutubeFinished | Logic/MusicDownloader.cs:191-199 | The counter goes up by one and the first occurrence of the song leaves the fallback list. Throughout, the list holds exactly the started downloads less the finished ones. |
| Bookkeeping.PlaylistRun.WaitTick | Logic/MusicDownloader.cs:83-91 | The fallback notice comes out when `processed` is empty, the fallback list is non-empty and the notice was not yet written; it comes out at most once and lists the pending songs. |
| Bookkeeping.FallbacksDoneEmpty | Logic/MusicDownloader.cs:170-199 | Once every miss has had its fallback download started and finished, the fallback list is empty. |
| Bookkeeping.WaitCoversUnhandled | Logic/MusicDownloader.cs:78 | In parallel mode the wait goes on while some queued song has been handled fewer times than it occurs. |
| Bookkeeping.SerialMissNotAwaited | Logic/MusicDownloader.cs:77-92 | In serial mode, right after a miss, the miss is recorded but its fallback download has not started yet, and the wait loop's condition is already false on an empty folder. So the wait does not cover the fallback task. |
| Bookkeeping.WaitEndsWhenAllDone | Logic/MusicDownloader.cs:78-80 | Once every queued song was handled once, every fallback download that started has finished, and no file ends in `crdownload`, the wait ends. |
| Bookkeeping.RemoveAllEmptyIff | Logic/MusicDownloader.cs:134-157 | `processed`, after every handled name removed one occurrence, is empty if and only if each name was handled at least as often as it was queued. |
| Bookkeeping.HandlingEachOnceEmpties | Logic/MusicDownloader.cs:57-60 | Handling each queued name once, in any order and with duplicates, empties `processed`. |
| Bookkeeping.RemoveFirstSpec | Logic/MusicDownloader.cs:136 | `List.Remove` takes away one occurrence when there is one, and changes nothing otherwise. |
| Bookkeeping.RemoveFirstAt | Logic/MusicDownloader.cs:136 | The occurrence removed is the first one, and the others keep their order. |
| CommandLine.ParseMode | Program.cs:18-29 | `OneByOne` if and only if the input equals `"OneByOne"` ignoring ASCII case, `SpotifyPlaylist` likewise, and null for anything else. |
| CommandLine.SegmentsSpec | Program.cs:47 | Joining the segments with `"--"` gives back the concatenated arguments, and no segment holds `"--"`. |
| CommandLine.FirstContainingSpec | Program.cs:49 | The segment found is the first one that contains the key; null exactly when none does. |
| CommandLine.ValueOfSpec | Program.cs:49 | A value holds no `'='`. It is the trimmed segment when the segment has no `'='`, and otherwise the trimmed text after the last `'='`. |
| CommandLine.KeyWithValue | Program.cs:58 | A first matching segment `key=v`, with no `'='` in `v`, gives `v` trimmed. |
| CommandLine.PlaylistLinkKeepsUrl | Program.cs:66 | After `"PlaylistLink="` the link is kept whole, `'='` included, and only trimmed. |
| CommandLine.BareRunInParallel | Program.cs:97 | A bare `--RunInParallel` turns parallel mode on. |
| CommandLine.RunInParallelWithValue | Program.cs:97 | Any non-blank value turns it on, `false` included. |
| CommandLine.BaseFolderName | Program.cs:109-112 | The folder name is `SongDownloader_Session_` followed by the session id. |
| CommandLine.BaseFolderNameInjective | Program.cs:109-112 | Different session ids give different folder names. |
| CommandLine.OutputDirectory | Program.cs:57-64 | The download folder is inside the given folder when one was given and exists, and is the default path otherwise (corrected; see Findings). |
| CommandLine.OutputFolderInverted | Program.cs:60 | As written, an existing folder is ignored and a missing one is used. This is the opposite of the corrected rule. |
| CommandLine.GetParams | Program.cs:40-107 | No arguments give the wizard, and only those do. A parsed result names a song only in `OneByOne` mode, and has a link exactly in `SpotifyPlaylist` mode, a link that was reachable. Each parsed field is what its helper computes from the segments: the mode `ParseMode` gives for the `Mode` value, the output folder by the rule of Program.cs:60 as written, the `RunInParallel` flag, the `SongName` value in `OneByOne` mode and the `PlaylistLink` value in playlist mode. |
| CommandLine.GetParamsCorrectedOutput | Program.cs:57-64 | With the output rule corrected, the parse succeeds or fails exactly as before, and only the output folder changes. When the given folder exists, the corrected parse uses it, while the parse as written uses the desktop default. |
| CommandLine.GetParamsByMode | Program.cs:49-94 | Parsing fails with a missing mode exactly when no segment mentions `Mode`, and with an unparsable mode exactly when its value is not a mode name. A parsed mode is the mode the value names. Parsing fails with an unreachable link exactly in playlist mode when the link is absent or not reachable. Parsing succeeds exactly when the mode parses and, in playlist mode, the link is present and reachable. |
| ListExtensions.SplitList | Infrastructure/Extensions.cs:13-24 | The chunks concatenate back to the list. Each chunk has 1 to `size` elements, and every chunk but the last has exactly `size`. There are `ceil(n / size)` chunks, and none for an empty list. |
| ListExtensions.ToConcurrentBag | Infrastructure/Extensions.cs:26-32 | The bag holds exactly the list's elements, duplicates included. |
| ListExtensions.FlattenAppend | Infrastructure/Extensions.cs:18-21 | Concatenating the chunks is compatible with appending chunks. |
| FileCleanup.NewNameSpec | Infrastructure/IOHandler.cs:26 | The new name is the pieces between occurrences of the string, glued together and trimmed. It has no white space at its ends and is no longer than the old path. When the string does not occur it is the trimmed old path. |
| FileCleanup.MoveFile | Infrastructure/IOHandler.cs:26 | A move fails exactly when the destination is empty, the source is missing, or another file already has the destination path. Moving a file onto its own path changes nothing. Otherwise the contents move to the new path, the file count is kept, and every other file stays with its contents. |
| FileCleanup.MoveOntoItself | Infrastructure/IOHandler.cs:26 | Moving a file onto its own path succeeds and leaves every file as it was. |
| FileCleanup.Folder.GetFiles | Infrastructure/IOHandler.cs:23 | The listing holds every path of the folder exactly once. |
| FileCleanup.RenameFilesRemovingString | Infrastructure/IOHandler.cs:21-33 | The listing is taken once, holds every file once, and each file is treated once in listing order. The folder and the error afterwards are those of the rename loop over that fixed listing. |
| FileCleanup.RenameOneRemovesOld | Infrastructure/IOHandler.cs:26-31 | After a successful move-and-delete the old path is gone, even when the name did not change. |
| FileCleanup.RenameOneKeys | Infrastructure/IOHandler.cs:26-31 | One successful turn removes the path and adds the new name when it differs. |
| FileCleanup.RenameAllFindsSources | Infrastructure/IOHandler.cs:23-31 | Over the folder's own listing the loop never finds a source missing. |
| FileCleanup.RenameAllResult | Infrastructure/IOHandler.cs:23-31 | After a successful run the folder holds the files not listed plus the changed new names, and nothing else. A file not listed keeps its contents, and each changed new name holds the contents of the file it was renamed from. |
| FileCleanup.RenameOneContents | Infrastructure/IOHandler.cs:26-31 | After one successful turn the new name holds the old file's contents, and every other file keeps its own. |
| FileCleanup.UnchangedNameIsDeleted | Infrastructure/IOHandler.cs:26-31 | As written, a file whose name contains nothing to remove disappears (see Findings). |
| FileCleanup.RenameAllKeepingLosesNothing | Infrastructure/IOHandler.cs:26-31 | With the corrected turn, a successful run keeps the number of files. |
| FileCleanup.UnchangedNameIsKept | Infrastructure/IOHandler.cs:26-31 | With the corrected turn, a file whose name does not change stays where it is. |
| Text.SplitJoin | Program.cs:47 | Joining the split pieces with the separator gives back the string. |
| Text.SplitPiecesFree | Program.cs:47 | No piece of a split holds the separator. |
| Text.ReplaceIsJoinOfSplit | Infrastructure/IOHandler.cs:26 | `Replace` is joining the split pieces with the replacement. |
| Text.TrimSlice | Infrastructure/IOHandler.cs:26 | What `Trim` keeps is a slice of the string with only white space around it. |
| Text.TrimmedLastPieceSpec | Program.cs:49 | `Split(sep).Last().Trim()` holds no `sep`. It is the trimmed string when `sep` does not occur, and otherwise the trimmed text after a `sep` that is followed by no other. |

## Left out

- Browser automation (navigation, waits, finding elements, clicks). It belongs to Selenium. The texts and links it scrapes are inputs of the model, which takes the first row's `href` as given: a missing element throwing, or a null link, is not modelled.
- Concurrency. The parallel workers, the racy `IsEmpty`/`TryTake` on the bag, the unsynchronised `List` updates and `Count++`, and the busy-wait for the main driver are not modelled. The model treats each update as one atomic step, in any sequential order. That order includes a race in the source, which `Bookkeeping.SerialMissNotAwaited` shows. In serial mode, a miss starts the fallback task (Logic/MusicDownloader.cs:132) and returns. The wait can then end before the task reaches Logic/MusicDownloader.cs:172-175, and the browser is closed under it.
- Bookkeeping.PlaylistRun.YoutubeFinished: requires that the song's fallback download was started. A fallback task that faults before line 199 never removes its entry, and the model has no such step.
- Bookkeeping.PlaylistRun: `count` is an unbounded integer; the 32-bit wrap-around of `Count` is not modelled.
- `Thread.Sleep` polling, the directory listing inside the wait loop, and the console output. The wait-loop condition and the one-shot notice are modelled; the listing is a parameter of `StillWaiting`.
- `Dispose`, killing the `chromedriver` processes: OS process calls.
- `GetYoutubeQueryString`, a wrapper over `HttpUtility.UrlEncode`, and the YouTube search URL built from it.
- `GetChildProcesses`: a WMI query.
- `SetDirectoryPermission`, `CreateDirectory` and `DownloadFileOnSpecificDirectory` in `Infrastructure/IOHandler.cs`: shell, ACL and HTTP side effects.
- The `HttpClient` check of the playlist link and the session id taken from the clock. Both are parameters of `CommandLine.GetParams`.
- `Logic/WizardModeRunner.cs` (the interactive menu) and `Infrastructure/ChromeDriverHandler.cs` (a builder over an unseen library) are not part of this model.
- `FromYoutubeDownloads` is a property of the downloader and would carry over to a later playlist; the model starts each playlist with a fresh `PlaylistRun`.
- Text.ToLower: only ASCII letters are lowered. `ToLowerInvariant` also lowers other letters, which matters only for non-ASCII mode names.
- Text.EndsWith: an ordinal comparison. `String.EndsWith(string)` (Logic/MusicDownloader.cs:79) compares by the current culture, which can ignore some characters, such as zero-width ones. The two agree on ASCII file names. `Contains(string)` is ordinal in the source as in the model.
- ListExtensions.SplitList: requires a positive size for a non-empty list. With size 0 the source loops forever, and with a negative size `GetRange` throws.
- FileCleanup.MoveFile: a destination whose directory does not exist, and other file-system errors (permissions, a file in use), are not modelled. Moving a file onto its own path is assumed to succeed and change nothing, which is how .NET's `File.Move` behaves on Windows; the source does not show it. Paths are compared case-sensitively, while Windows compares them without case.
- The documentation comment of `GetParams` shows `--Output:Folder`. With a `':'` the value read is the whole trimmed segment `Output:Folder`, which the model computes as the code does.
- The serial mode prints "waiting for downloads to finish" after every song found on the primary site, because `processed` is always empty there; a miss returns (Logic/MusicDownloader.cs:139) before that line. `PrimarySuccess` states this; the printing itself is not modelled.

## Findings

| source | as written | input that shows it | evidently intended | confidence | as-written member | corrected member |
|---|---|---|---|---|---|---|
| Program.cs:60 | The folder is used when it is given and `Directory.Exists` is false. | `--Output=/home/me/Music` naming an existing folder: the files go to the desktop default. | The folder is used when it is given and exists, which is what the warning at Program.cs:63 describes. | medium, not executed | CommandLine.OutputFolderInverted | CommandLine.GetParamsCorrectedOutput |
| Infrastructure/IOHandler.cs:26-31 | Each file is moved to its new name and then deleted if its old path still exists. | A downloaded file `/d/song.mp3` whose name lacks the marker: `File.Move` onto itself succeeds, the old path still exists, and the file is deleted. | A file whose name does not change is left in place. | medium, assuming `File.Move` onto the same path succeeds as on Windows; not executed | FileCleanup.UnchangedNameIsDeleted | FileCleanup.RenameAllKeepingLosesNothing |
