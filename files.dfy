/**
 * The shapes of the dictionaries that flow between the downloader, the backends and the
 * file finder.
 */
module Files {
  import opened Common

  /** One file of a cached torrent: `{"filename": ..., "filesize": ...}`. */
  datatype DebridFile = DebridFile(filename: string, filesize: int)

  /**
   * The files of one cached variant of a torrent, in the order the backend lists them.
   * AllDebrid keys them 0..n-1, which are exactly the positions of this sequence; the
   * RealDebrid file ids are not kept (they are only sent back to the remote file selection).
   */
  type Container = seq<DebridFile>

  /** `matched_files`: season number -> episode number -> the file that fills that slot. */
  type MatchedFiles = map<int, map<int, DebridFile>>

  /** What the file finder returns on a match: `{"all_files": ..., "matched_files": ...}`. */
  datatype CachedContainer = CachedContainer(allFiles: Container, matchedFiles: MatchedFiles)

  /** A probe hit: `{"infohash": ..., "all_files": ..., "matched_files": ...}`. */
  datatype CachedStream = CachedStream(infohash: string, allFiles: Container, matchedFiles: MatchedFiles)

  /** The (season, episode) slots a match fills. */
  function Slots(m: MatchedFiles): set<(int, int)> {
    set s, e | s in m && e in m[s] :: (s, e)
  }

  /** `container.get("matched_files", False)` is truthy: the hash is cached. */
  predicate IsCached(c: Option<CachedContainer>) {
    c.Some? && c.value.matchedFiles != map[]
  }

  function ToStream(infohash: string, c: CachedContainer): CachedStream {
    CachedStream(infohash, c.allFiles, c.matchedFiles)
  }
}
