/** Failure-compatible wrappers shared by every module of the downloader model. */
module Common {

  /** A value that may be absent: Python's `None` versus a present value. */
  datatype Option<+T> = None | Some(value: T) {
    function GetOr(default: T): T {
      match this
      case Some(v) => v
      case None => default
    }
  }

  /** The exceptions that escape the modelled code, one per raising site. */
  datatype Error =
    | NoFiles            // `max()` over an empty container (movie branch of cache_matches)
    | PointerPastEnd     // `hashes[priority_index]` with the pointer past the last hash
    | NotACandidate      // `hashes.index(...)` of a hash that is not a candidate
    | WorkerRaised       // a probe worker raised; `future.result()` re-raises it
    | AvailabilityFailed // AllDebrid availability call failed and returned `[e]`
    | TorrentNotAdded    // `download_cached` found no torrent id
    | MissingKey         // a dict read with `[]` lacks the key (torrent info, an empty active stream)
    | NoMatchingStream   // no stream of the item carries the active infohash
    | NoMatchedFile      // the matched files hold no file for a leaf item
    | HashNotKnown       // `existing_hashes.remove` of an absent hash
    | DeleteFailed       // the backend-side delete raised
    | NoService          // no backend was initialized, so `self.service` is None

  /** A result or the exception that interrupted the computation. */
  datatype Result<+T> = Ok(value: T) | Err(error: Error)
}
