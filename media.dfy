/**
 * The parts of a media item that the downloader reads and writes. The item classes
 * themselves (program/media/item.py) are not part of this model: their tree fields are
 * constants here, and the fields the downloader assigns are variables.
 */
module Media {
  import opened Common
  import opened Files

  datatype Kind = Movie | Show | Season | Episode

  /** The item states; only the six the downloader accepts are told apart. */
  datatype State = Indexed | Scraped | Unknown | Failed | PartiallyCompleted | Ongoing | OtherState

  /** A candidate release. */
  datatype Stream = Stream(infohash: string, rawTitle: string)

  /**
   * `item.active_stream`: the empty dict, or a probe hit together with the display name
   * the file mapper adds and, on an episode, the one file it was given.
   */
  datatype ActiveStream =
    | NoActiveStream
    | Active(stream: CachedStream, name: Option<string>, files: Option<seq<string>>)

  class MediaItem {
    const kind: Kind
    const number: int
    const state: State
    const parent: MediaItem?
    const seasons: seq<MediaItem>
    const episodes: seq<MediaItem>
    const streams: seq<Stream>

    var blacklisted: set<Stream>
    var activeStream: ActiveStream
    var folder: Option<string>
    var alternativeFolder: Option<string>
    var file: Option<string>

    constructor (kind: Kind, number: int, state: State, parent: MediaItem?,
                 seasons: seq<MediaItem>, episodes: seq<MediaItem>, streams: seq<Stream>)
      ensures this.kind == kind && this.number == number && this.state == state
      ensures this.parent == parent && this.seasons == seasons && this.episodes == episodes
      ensures this.streams == streams
      ensures blacklisted == {} && activeStream == NoActiveStream
      ensures folder == None && alternativeFolder == None && file == None
    {
      this.kind, this.number, this.state, this.parent := kind, number, state, parent;
      this.seasons, this.episodes, this.streams := seasons, episodes, streams;
      blacklisted, activeStream := {}, NoActiveStream;
      folder, alternativeFolder, file := None, None, None;
    }

    /** The episodes the file mapper may write: those of every season of a show, or of a season. */
    function Targets(): set<MediaItem> {
      match kind
      case Show => set i, j | 0 <= i < |seasons| && 0 <= j < |seasons[i].episodes| :: seasons[i].episodes[j]
      case Season => set j | 0 <= j < |episodes| :: episodes[j]
      case _ => {}
    }

    /**
     * The shape every item tree has: an episode knows its season, and no episode object
     * occurs twice in a tree or is the item itself.
     */
    predicate WellFormed() {
      && (kind == Episode ==> parent != null)
      && (kind == Show ==>
            && (forall i, j, i', j' |
                  && 0 <= i < |seasons| && 0 <= j < |seasons[i].episodes|
                  && 0 <= i' < |seasons| && 0 <= j' < |seasons[i'].episodes|
                  && (i != i' || j != j')
                  :: seasons[i].episodes[j] != seasons[i'].episodes[j'])
            && this !in Targets())
      && (kind == Season ==>
            && (forall j, j' :: 0 <= j < j' < |episodes| ==> episodes[j] != episodes[j'])
            && this !in episodes)
    }

    /** `item.blacklist_stream(stream)`: the stream is excluded for this item from now on. */
    method BlacklistStream(s: Stream)
      modifies this`blacklisted
      ensures blacklisted == old(blacklisted) + {s}
    {
      blacklisted := blacklisted + {s};
    }
  }
}
