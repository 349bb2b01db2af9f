# Riven downloader core, modelled in Dafny

Riven's downloader takes a media item: a movie, a show, a season or an episode, together with the candidate streams (torrent info-hashes) its scrapers found. It asks a debrid service which of those torrents are already cached and contain the files the item still needs. It adds the best cached torrent to the account and writes the matched files back onto the item tree. A download that fails is rolled back and its stream blacklisted. When nothing is cached, every stream of the item is blacklisted.

This project models that core:

- `Downloaders`: the service choice, `run`, the download, the rollback, and `update_item_attributes` writing files onto the item tree.
- `Probe`: `get_cached_streams`. The hashes are probed in batches of five. The per-hash answers are folded in the order the workers finish. Either the first or the highest-priority cached stream is returned, or all cached streams sorted by candidate position.
- `Shared`: the video-extension setting, the needed-media descriptor, and the file finder. The file finder matches a container's files against the (season, episode) slots the item needs, or picks a movie's biggest file.
- `RealDebrid` and `AllDebrid`: each backend's `get_cached_containers`, which picks a cached container per hash from an instant-availability answer. Also each backend's `download_cached` and `get_torrent_names`.
- Supporting modules:
  - `Common` holds the Option, Result and Error types.
  - `Dicts` is an insertion-ordered dictionary.
  - `Sorting` is a stable sort by an integer key.
  - `Text` holds `endswith`, substring, ASCII `lower` and `rsplit(".", 1)[-1]`.
  - `Files` and `Media` hold the data shapes.

Exceptions become `Err` values of `Result`, and the error value names the exception.

The shared `break_pointer` list is a `BreakPointer` object. It has a mutable `found` and a constant `breakOnFirst`.

A media item is a class. Its tree (seasons, episodes, parent, streams) is constant. The fields the downloader assigns are variables: `folder`, `alternative_folder`, `file`, `active_stream`, and the blacklist.

Remote calls are inputs, not modelled behaviour:
- the availability answers;
- the id `add_torrent` returns;
- the torrent info;
- whether the delete raises.

The thread pool is modelled only through the order in which batch results arrive, which is also an input.

Where the code does something a reader of it might not expect, the model follows the code:
- An exception raised inside a probe worker is not isolated. It propagates out of `get_cached_streams` and out of `run`, because only `CancelledError` is caught.
- After a failed download, the stream is blacklisted only when the rollback gets that far. When `download_cached` itself failed, the hash was never appended to `existing_hashes`, so `existing_hashes.remove` raises first. The stream is then left off the blacklist.

## Model

| member | source | states |
|---|---|---|
| Shared.KeepAllowed | src/program/downloaders/shared.py:13 | an extension is kept exactly when it is configured and allowed; nothing is added |
| Shared.KeepAllowedInOrder | src/program/downloaders/shared.py:13 | the kept list is the configured list with the disallowed extensions dropped: the allowed ones in their configured order, repeats included |
| Shared.VideoExtensions | src/program/downloaders/shared.py:12-16 | the setting is never empty and only holds allowed extensions: the allowed configured ones when there are any, otherwise the default list |
| Shared.AcceptableNumbers | src/program/downloaders/shared.py:82-84 | a number is listed exactly when some episode in one of the six acceptable states carries it |
| Shared.AcceptableNumbersInOrder | src/program/downloaders/shared.py:82-84 | the list holds the numbers of the acceptable episodes in episode order, repeats included, so its length is the number of acceptable episodes |
| Shared.GetNeededMedia | src/program/downloaders/shared.py:77-87 | None exactly for a movie; an episode needs {parent season: [its number]}; a season needs {its number: its acceptable episodes} |
| Shared.ShowNeeds | src/program/downloaders/shared.py:82 | a show needs season n exactly when an acceptable season carries n, with the acceptable episodes of the last such season; no season key occurs twice |
| Shared.BreakPointer.constructor | src/program/downloaders/__init__.py:65 | the shared flag starts lowered with the caller's `break_on_first` |
| Shared.FirstClaimAt | src/program/downloaders/shared.py:58-68 | the position of the first file, in container order, whose truthy parse can fill the slot; no earlier file can |
| Shared.Nest | src/program/downloaders/shared.py:65-67 | the nested season -> episode -> file dict fills exactly the given slots with the given files and has no empty season row |
| Shared.Biggest | src/program/downloaders/shared.py:73 | `max` by size: no file is bigger, and no earlier file is as big |
| Shared.MatchFiles | src/program/downloaders/shared.py:52-75 | raises exactly for a falsy needed media with no files; a truthy one gives the show match; otherwise a movie match is the biggest file under {1: {1: ...}} and needs a movie parse |
| Shared.GetCachedContainer | src/program/downloaders/shared.py:31-36 | too few files for the needed episodes gives `{}`; with enough files (or falsy needed media) a non-empty match from `cache_matches` gives exactly {all_files: the container, matched_files: that match}, and every result is of that form; it raises exactly on an empty container with falsy needed media |
| Shared.CacheMatches | src/program/downloaders/shared.py:52-75 | the file scan returns exactly the match `MatchFiles` defines, including the stop-flag break and the error |
| Shared.Claim | src/program/downloaders/shared.py:63-68 | after one file, each still-needed slot it can fill is claimed by it and removed from the needed set, and claims keep being the first claimant |
| Shared.ShowMatchExact | src/program/downloaders/shared.py:53-71 | without the stop flag, a show match exists iff every needed slot has a file that can fill it; it then covers exactly the needed slots, each with its first claimant |
| Shared.FalsyParseIgnored | src/program/downloaders/shared.py:61-62 | a file whose parse fails, has season 0 or lists no episodes can be removed without changing the show match |
| Probe.ChunksFlatten | src/program/downloaders/__init__.py:63 | the batches together are the candidate hashes in order |
| Probe.ChunksCount | src/program/downloaders/__init__.py:63 | there are ceil(n/5) batches |
| Probe.ChunksSlices | src/program/downloaders/__init__.py:63 | batch k is `hashes[5k:5k+5]`, between one and five hashes long |
| Probe.BatchAnswersWellFormed | src/program/downloaders/__init__.py:63-84 | answers given one per batch of the candidates, in any finishing order, each with distinct hashes of its own batch, are well formed: none raised, no more answers than candidates, every answer about a candidate |
| Probe.StepOn | src/program/downloaders/__init__.py:85-99 | one answer: a cached one is appended, ends speed mode, and under `break_on_first` ends quality mode alone when it is the priority hash; an uncached priority hash moves the pointer; reading past the end raises |
| Probe.IndexIn | src/program/downloaders/__init__.py:101 | `hashes.index`: the first position holding the hash |
| Probe.Finish | src/program/downloaders/__init__.py:101-102 | the closing sort keeps every result (a permutation) and orders them by first candidate position; a non-candidate hash raises |
| Probe.GetCachedStreams | src/program/downloaders/__init__.py:62-102 | the loop over batch outcomes returns exactly `Probe`, the fold of the answers in arrival order |
| Probe.ScanNeverCrashes | src/program/downloaders/__init__.py:93-99 | with no more answers left than candidates after the pointer, the pointer never runs past the end; without `break_on_first` nothing returns early; results collect exactly the cached answers |
| Probe.WellFormedNeverRaises | src/program/downloaders/__init__.py:93-101 | when no worker raised and every answer is about a candidate and there are no more answers than candidates, the probe returns a list |
| Probe.ProbeReturnsHits | src/program/downloaders/__init__.py:85-89 | every returned stream is a cached answer; on well-formed answers it names a candidate and has a non-empty match |
| Probe.AllHitsSorted | src/program/downloaders/__init__.py:85-102 | with no early return, the probe returns exactly the cached answers, stably sorted by candidate position, and `[]` when none is cached |
| Probe.SpeedModeReturnsFirstHit | src/program/downloaders/__init__.py:88-92 | in speed mode with `break_on_first`, the first cached answer to arrive is returned alone |
| Probe.QualityModePicksPriority | src/program/downloaders/__init__.py:93-96 | in quality mode an early return is one cached answer for the candidate at some position p, and every candidate before p was reported uncached before it arrived |
| Probe.RaisedPropagates | src/program/downloaders/__init__.py:80-84 | a worker exception arriving before any early return is raised by the probe |
| RealDebrid.AllFilesValid | src/program/downloaders/realdebrid.py:85-92 | every file name ends in "." and a video extension, case-sensitively, and has no "sample" in any case; a container without files passes, and with no extension every file fails |
| RealDebrid.WorkerAnswersBatch | src/program/downloaders/realdebrid.py:69-104 | a worker's dict for its batch holds each hash at most once and only hashes of the batch |
| RealDebrid.Normalise | src/program/downloaders/realdebrid.py:185-193 | a dict answer is kept; a list answer or a failed call becomes the empty dict |
| RealDebrid.ContainersOf | src/program/downloaders/realdebrid.py:77-83 | a list is used as is, a dict gives its "rd" list (empty when absent), a missing hash or any other value gives none |
| RealDebrid.SortedContainersOrder | src/program/downloaders/realdebrid.py:94 | the containers are tried largest file count first, and none is lost or added |
| RealDebrid.SortedContainersStable | src/program/downloaders/realdebrid.py:94 | containers of equal size keep their answer order |
| RealDebrid.GetTorrentNames | src/program/downloaders/realdebrid.py:106-108 | the pair (filename, original_filename); a missing key raises |
| RealDebrid.ScanKeysPrefix | src/program/downloaders/realdebrid.py:73-76 | the result has entries for exactly the hashes up to and including the one where the scan broke (that one with `{}`); only `break_on_first` with the flag raised breaks early |
| RealDebrid.UnavailableAllUncached | src/program/downloaders/realdebrid.py:185-193 | a list answer or a failed call leaves every entry `{}` and the flag untouched, and every hash gets an entry unless the flag already stops the scan |
| RealDebrid.CachedEntryOffered | src/program/downloaders/realdebrid.py:95-100 | a cached entry is the file finder's match of one of the containers offered for that hash, and that container passed `all_files_valid` |
| RealDebrid.LastEligibleWins | src/program/downloaders/realdebrid.py:95-100 | without `break_on_first`, the entry is the file finder's answer for the last eligible container; with none eligible it stays `{}` |
| RealDebrid.FirstMatchStops | src/program/downloaders/realdebrid.py:95-103 | with `break_on_first`, the first eligible container that matches ends the loop with its match and raises the flag; later containers are not looked at |
| RealDebrid.RealDebridDownloader.constructor | src/program/downloaders/realdebrid.py:16-23 | the backend keeps its validation outcome and the hashes already on the account |
| RealDebrid.RealDebridDownloader.DownloadCached | src/program/downloaders/realdebrid.py:61-67 | a truthy id appends the hash to `existing_hashes` and is returned; otherwise it raises and nothing changes |
| RealDebrid.RealDebridDownloader.GetCachedContainers | src/program/downloaders/realdebrid.py:69-104 | the result and the final flag are exactly `CachedContainers`, on which ScanKeysPrefix, CachedEntryOffered and UnavailableAllUncached are proved |
| RealDebrid.RealDebridDownloader.Step | src/program/downloaders/realdebrid.py:73-103 | one turn of the hash loop either ends the scan with its final value or leaves the rest of the scan unchanged |
| RealDebrid.RealDebridDownloader.TryEach | src/program/downloaders/realdebrid.py:95-103 | the container loop yields exactly `TryContainers`' entry and flag, on which LastEligibleWins and FirstMatchStops are proved |
| AllDebrid.WalkAllDebridFiles | src/program/downloaders/alldebrid.py:134-145 | the generator yields `Walked`: (name or "UNKNOWN", size) for each top-level entry with an integer size, in order |
| AllDebrid.NestedEntriesIgnored | src/program/downloaders/alldebrid.py:144-145 | the directory walk is discarded: listings that agree on top-level names and sizes yield the same pairs |
| AllDebrid.DirectoriesYieldNothing | src/program/downloaders/alldebrid.py:138-145 | a listing of directories only yields nothing |
| AllDebrid.ToContainer | src/program/downloaders/alldebrid.py:108-111 | position i of the container holds the i-th walked file |
| AllDebrid.UpperCaseExtension | src/program/downloaders/alldebrid.py:99-104 | AllDebrid lower-cases names before the extension test and Real-Debrid does not: "Movie.MKV" passes here and fails there |
| AllDebrid.AllFilesValid | src/program/downloaders/alldebrid.py:99-104 | every walked name, lower-cased, has no "sample" and its text after the last dot is a video extension; a listing that yields no file passes, and with no extension every yielded file fails |
| AllDebrid.ValidityAgrees | src/program/downloaders/alldebrid.py:99-104 | for lower-case names that carry a dot and extensions without one, AllDebrid's test and Real-Debrid's (realdebrid.py:85-92) accept exactly the same files |
| AllDebrid.DotlessName | src/program/downloaders/alldebrid.py:102 | `rsplit(".", 1)[-1]` of a name without a dot is the whole name: a file called "mkv" passes here and fails Real-Debrid's `endswith(".mkv")` |
| AllDebrid.WorkerAnswersBatch | src/program/downloaders/alldebrid.py:74-120 | a worker's dict for its batch holds each hash at most once and only hashes of the batch |
| AllDebrid.MagnetIndexHas | src/program/downloaders/alldebrid.py:87 | a hash is in the magnet index exactly when some magnet of the answer carries it |
| AllDebrid.MagnetIndexLastWins | src/program/downloaders/alldebrid.py:87 | for a hash, the index holds the last magnet carrying it |
| AllDebrid.ScanKeysBeforeStop | src/program/downloaders/alldebrid.py:89-92 | the result has entries for exactly the hashes before the one where the raised flag broke the loop; only `break_on_first` with the flag raised breaks |
| AllDebrid.EntriesFitListing | src/program/downloaders/alldebrid.py:86-118 | a failed availability call raises; an entry is `{}` when the magnet lists no files, and a match only of the walked container of a listing that passed `all_files_valid` |
| AllDebrid.GetTorrentNames | src/program/downloaders/alldebrid.py:122-124 | both names are the status "filename"; a missing key raises |
| AllDebrid.AllDebridDownloader.constructor | src/program/downloaders/alldebrid.py:21-28 | the backend keeps its validation outcome and the hashes already on the account |
| AllDebrid.AllDebridDownloader.DownloadCached | src/program/downloaders/alldebrid.py:67-72 | a truthy id appends the hash to `existing_hashes` and is returned; otherwise it raises and nothing changes |
| AllDebrid.AllDebridDownloader.GetCachedContainers | src/program/downloaders/alldebrid.py:74-120 | the result and the final flag are exactly `CachedContainers`, on which ScanKeysBeforeStop and EntriesFitListing are proved |
| AllDebrid.AllDebridDownloader.Step | src/program/downloaders/alldebrid.py:89-118 | one turn of the hash loop either ends the scan with its final value or leaves the rest of the scan unchanged |
| AllDebrid.AllDebridDownloader.Visit | src/program/downloaders/alldebrid.py:92-117 | the hash gets `{}` and then its file finder answer, and a match raises the flag; an exception leaves the flag as it was |
| AllDebrid.AllDebridDownloader.EntryFor | src/program/downloaders/alldebrid.py:93-114 | a hash without files, or with a file that fails `all_files_valid`, gets `{}`; otherwise the file finder's answer for the walked container |
| Downloaders.ChooseService | src/program/downloaders/__init__.py:18-22 | a service exists iff a backend initialized; it is an initialized one, and AllDebrid only when Real-Debrid did not initialize |
| Downloaders.Downloader.constructor | src/program/downloaders/__init__.py:14-30 | the downloader holds the chosen service and is initialized iff some backend is |
| Downloaders.CandidateHashes | src/program/downloaders/__init__.py:35 | a hash is probed exactly when some stream of the item carries it and it is not on the account yet |
| Downloaders.CandidateHashesInOrder | src/program/downloaders/__init__.py:35 | the candidates are the hashes of the streams not on the account, in the streams' ranked order (the probe's priority order), repeats included |
| Downloaders.FirstWithHash | src/program/downloaders/__init__.py:55 | the first stream carrying the hash, or None exactly when no stream carries it |
| Downloaders.RemoveFirst | src/program/downloaders/__init__.py:53 | `list.remove`: the first occurrence goes, and the rest keeps its order |
| Downloaders.RemoveAppended | src/program/downloaders/__init__.py:53 | removing a hash that `download_cached` appended restores `existing_hashes` |
| Downloaders.Lookup | src/program/downloaders/__init__.py:123 | a file is found exactly for a slot of the match, and it is the file in that slot |
| Downloaders.WriteEpisodes | src/program/downloaders/__init__.py:130-136 | each episode with a matched slot gets that file, the item's folders and the active stream naming only that file; every other episode is untouched |
| Downloaders.MapShow | src/program/downloaders/__init__.py:120-128 | the same for every episode of every season of a show, each looked up under its own season's number |
| Downloaders.LeafFile | src/program/downloaders/__init__.py:118-119 | a movie or episode takes the file name of some match; an empty match raises and leaves the file as it was |
| Downloaders.UpdateItemAttributes | src/program/downloaders/__init__.py:110-136 | the folders are set first; an item without streams raises a missing stream, then an empty active stream a missing key, then no stream with the active hash a missing stream, each before anything else changes; otherwise the active stream takes that stream's raw title as its name, and a success writes the files as the item kind demands (`FilesWritten`); every raise, including a movie or episode without a matched file, leaves the file and every episode as they were, with the folders already set |
| Downloaders.Download | src/program/downloaders/__init__.py:104-108 | the hash is appended exactly when the torrent was added; a failed add or a missing name key leaves the item untouched; otherwise the item gets the names as its folders and its active stream the raw title of the first stream with its hash; a success means the torrent was added, the names were read and the matched files were written (`FilesWritten`); any failure leaves the file and every episode as they were |
| Downloaders.DeleteAndResetActiveStream | src/program/downloaders/__init__.py:51-60 | the active stream always ends empty; a known hash leaves `existing_hashes`; the stream is blacklisted exactly when the removal and the delete both succeed |
| Downloaders.BlacklistAll | src/program/downloaders/__init__.py:46-47 | every stream of the item is added to its blacklist |
| Downloaders.RollBack | src/program/downloaders/__init__.py:42-44 | an active stream with a hash is reset; when that hash was not on the account before the download, `existing_hashes` is restored and the stream is blacklisted exactly when the torrent had been added and the delete succeeds; a stream without a hash stays active; the file, the folders and the episodes are not touched |
| Downloaders.TakeFirst | src/program/downloaders/__init__.py:37-44 | a successful download leaves the hit active, named after the first stream with its hash, its hash on the account, the item's folders set to the torrent's names and the hit's matched files written onto the item (`FilesWritten`); a failure with a hash resets the active stream and blacklists only when the rollback completes; any failure leaves the file and every episode as they were, and the folders at the torrent's names once these were read, else as they were |
| Downloaders.Downloader.Run | src/program/downloaders/__init__.py:32-49 | without a service, an item without streams ends with nothing cached and any other item fails, both leaving the item as it was; a probe exception leaves everything as it was; no cached stream blacklists all streams and changes nothing else of the item; otherwise the first hit is downloaded (active, named after its stream, its hash on the account, the folders set to the torrent's names) or rolled back as TakeFirst states, a failure leaving the file and every episode as they were and the folders at the torrent's names once these were read, else as they were |

## Left out

- The thread pool: the batch outcomes are inputs, in the order they arrive. Probe.BatchAnswersWellFormed and the backends' WorkerAnswersBatch lemmas show that answers which the workers compute one per batch are well formed. The model does not run the workers itself. Cancelling the remaining futures on an early return changes nothing that `get_cached_streams` returns. A cancelled future only raises `CancelledError` after `cancel_all`, and `cancel_all` is only called just before returning.
- Downloaders.Downloader.Run: the probe's per-batch answers are an input. They are not tied to what the backend's `GetCachedContainers` would compute for the item's `get_needed_media` descriptor. Each backend scan is proved on its own.
- Downloaders.Downloader.Run: on a download, the files written onto the item are stated by TakeFirst, which Run calls on the first hit. Run's own contract gives the hit, its name and its hash, but does not repeat `FilesWritten`.
- Shared.CacheMatches: modelling assumption: one worker's scan reads the shared `break_pointer` without seeing a sibling worker raise it mid-scan. In the code the flag is shared by all worker threads. It is read at shared.py:59, realdebrid.py:75 and 96, and alldebrid.py:90, so a sibling's match can stop a worker at any of those reads. The same assumption holds for RealDebrid.RealDebridDownloader.GetCachedContainers and AllDebrid.AllDebridDownloader.GetCachedContainers. One consequence is not modelled: in quality mode, a match in one batch stops the other workers, so a cached hash of higher priority in another batch may never be scanned.
- Text.Lower: ASCII only. Python's `str.lower` also lower-cases non-ASCII letters, so for such names `"sample" not in name.lower()` and AllDebrid's extension test can differ from the model.
- HTTP: the availability answers, the id `add_torrent` returns, the torrent info or status, and whether `delete_torrent_with_infohash` raises are all parameters. The request helpers, the rate limiters, `get_torrents`, `torrent_info`, `get_status`, `delete` and `select_files` are not modelled.
- `validate`, `premium_days_left`, the settings manager and logging: a backend's validation outcome is a constructor parameter.
- The RTN title parser: it is two function fields of `TitleParser`. It either fails, or gives a season and a list of episodes; for a movie check it gives true or false.
- `program/media/item.py` is not part of this model. `blacklist_stream` is modelled as adding the stream to a set. Item trees are constant.
- Downloaders.UpdateItemAttributes: requires a well-formed item tree: an episode has a parent, and no episode object occurs twice in a tree. The Python objects share no episodes, and the model states it so that writes to one episode cannot alias another.
- Downloaders.LeafFile: Python takes the first file of the first season of the match in dict insertion order. The model only says some file of the match is chosen, because a Dafny `map` has no order.
- AllDebrid.WalkAllDebridFiles: `int(f.get("s", ""))` on a value that is neither a string nor a number raises `TypeError`, not `ValueError`. The model covers only the `ValueError` case, where a size that does not parse marks a directory.
- Real-Debrid keeps the container's own file ids only to send them back to `select_files`. The model keeps the files as a sequence.
