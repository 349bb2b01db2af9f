/**
 * The downloader service: it picks a debrid backend, probes an item's candidate streams for
 * a cached torrent, adds the chosen one to the account and writes the matched files back onto
 * the item tree; a failed download is rolled back and its stream blacklisted.
 */
module Downloaders {
  import opened Common
  import opened Files
  import opened Media
  import Probe
  import RealDebrid
  import AllDebrid
  import Lists

  /** The backend the downloader uses. */
  datatype Service =
    | RealDebridService(rd: RealDebrid.RealDebridDownloader)
    | AllDebridService(ad: AllDebrid.AllDebridDownloader)
  {
    /** The backend object whose `existing_hashes` the downloader reads and shrinks. */
    function Obj(): object {
      if RealDebridService? then rd else ad
    }

    predicate Initialized() {
      if RealDebridService? then rd.initialized else ad.initialized
    }

    function ExistingHashes(): seq<string>
      reads Obj()
    {
      if RealDebridService? then rd.existingHashes else ad.existingHashes
    }
  }

  /**
   * The service chosen at start-up: the first initialized backend, RealDebrid before
   * AllDebrid, or none.
   */
  function ChooseService(rd: RealDebrid.RealDebridDownloader, ad: AllDebrid.AllDebridDownloader): (s: Option<Service>)
    ensures s.Some? <==> rd.initialized || ad.initialized
    ensures s.Some? ==> s.value.Initialized()
    ensures s.Some? ==> (s.value.RealDebridService? && s.value.rd == rd) || (s.value.AllDebridService? && s.value.ad == ad)
    ensures s.Some? && s.value.AllDebridService? ==> !rd.initialized
  {
    if rd.initialized then Some(RealDebridService(rd))
    else if ad.initialized then Some(AllDebridService(ad))
    else None
  }

  /** What the remote calls of one `run` answer; the backend that is not in use ignores its part. */
  datatype Replies = Replies(
    rdAdded: Option<string>,  // the id RealDebrid's `add_torrent` returned
    adAdded: Option<int>,     // the id AllDebrid's `add_torrent` returned
    info: map<string, string>, // the torrent info / status dict of the added torrent
    deleteRaises: bool)       // whether `delete_torrent_with_infohash` raises

  /** `add_torrent` returned a truthy id. */
  predicate Added(service: Service, replies: Replies) {
    if service.RealDebridService? then replies.rdAdded.Some? && replies.rdAdded.value != ""
    else replies.adAdded.Some? && replies.adAdded.value != 0
  }

  /** The backend's `get_torrent_names` over the info dict. */
  function Names(service: Service, info: map<string, string>): Result<(string, string)> {
    if service.RealDebridService? then RealDebrid.GetTorrentNames(info) else AllDebrid.GetTorrentNames(info)
  }

  /** How a `run` ended, as its log lines tell. */
  datatype RunOutcome = Downloaded | DownloadFailed(error: Error) | NothingCached

  // ---------------------------------------------------------------------------
  // Helpers over the item's streams

  /** `[stream.infohash for stream in streams if stream.infohash not in existing]` */
  function CandidateHashes(streams: seq<Stream>, existing: seq<string>): (hs: seq<string>)
    ensures |hs| <= |streams|
    ensures forall h :: h in hs <==> h !in existing && exists k :: 0 <= k < |streams| && streams[k].infohash == h
  {
    if streams == [] then []
    else
      var rest := CandidateHashes(streams[1..], existing);
      assert forall k :: 1 <= k < |streams| ==> streams[k] == streams[1..][k - 1];
      (if streams[0].infohash in existing then [] else [streams[0].infohash]) + rest
  }

  function NotExisting(existing: seq<string>): Stream -> bool {
    (st: Stream) => st.infohash !in existing
  }

  function HashOf(st: Stream): string {
    st.infohash
  }

  /**
   * The candidates are the hashes of the streams not already in the account, in the
   * streams' ranked order and with their repeats.
   */
  lemma {:induction false} CandidateHashesInOrder(streams: seq<Stream>, existing: seq<string>) returns (idx: seq<nat>)
    ensures Lists.KeptInOrder(streams, NotExisting(existing), HashOf, CandidateHashes(streams, existing), idx)
    decreases |streams|
  {
    if streams == [] {
      idx := [];
    } else {
      var rest := CandidateHashesInOrder(streams[1..], existing);
      idx := Lists.KeptCons(streams, NotExisting(existing), HashOf, CandidateHashes(streams[1..], existing), rest);
    }
  }

  /** `next((s for s in streams if s.infohash == h), None)` */
  function FirstWithHash(streams: seq<Stream>, h: string): (r: Option<Stream>)
    ensures r.None? <==> forall k :: 0 <= k < |streams| ==> streams[k].infohash != h
    ensures r.Some? ==> exists k :: 0 <= k < |streams| && streams[k] == r.value && r.value.infohash == h &&
                                    forall j :: 0 <= j < k ==> streams[j].infohash != h
  {
    if streams == [] then None
    else if streams[0].infohash == h then Some(streams[0])
    else
      var r := FirstWithHash(streams[1..], h);
      assert forall k :: 1 <= k < |streams| ==> streams[k] == streams[1..][k - 1];
      if r.Some? then
        assert exists k :: 1 <= k < |streams| && streams[k] == r.value && r.value.infohash == h &&
                           forall j :: 0 <= j < k ==> streams[j].infohash != h by {
          var k :| 0 <= k < |streams[1..]| && streams[1..][k] == r.value && r.value.infohash == h &&
                   forall j :: 0 <= j < k ==> streams[1..][j].infohash != h;
          assert streams[k + 1] == r.value;
        }
        r
      else r
  }

  function AsSet(s: Option<Stream>): set<Stream> {
    if s.Some? then {s.value} else {}
  }

  /** `xs.remove(x)`: the list without the first occurrence of `x`. */
  function RemoveFirst(xs: seq<string>, x: string): (r: seq<string>)
    requires x in xs
    ensures multiset(r) == multiset(xs) - multiset{x}
    ensures var i := Probe.IndexIn(xs, x); r[..i] == xs[..i] && r[i..] == xs[i + 1..]
  {
    var i := Probe.IndexIn(xs, x);
    assert xs == xs[..i] + [x] + xs[i + 1..];
    xs[..i] + xs[i + 1..]
  }

  /** Removing a hash that was appended to a list without it gives back the list. */
  lemma RemoveAppended(xs: seq<string>, x: string)
    requires x !in xs
    ensures RemoveFirst(xs + [x], x) == xs
  {
    var i := Probe.IndexIn(xs + [x], x);
    assert i == |xs|;
  }

  // ---------------------------------------------------------------------------
  // Writing the matched files onto the item tree

  /** `matches_dict.get(season, {}).get(episode, {})`, None for the falsy `{}`. */
  function Lookup(m: MatchedFiles, season: int, episode: int): (r: Option<DebridFile>)
    ensures r.Some? <==> (season, episode) in Slots(m)
    ensures r.Some? ==> r.value == m[season][episode]
  {
    if season in m && episode in m[season] then
      var s, e := season, episode;
      assert (s, e) in Slots(m);
      Some(m[season][episode])
    else None
  }

  /**
   * `{**item.active_stream, "files": [file]}`. The file mapper runs only after the active
   * stream has been named, so the branch for an empty active stream is never taken.
   */
  function EpisodeStream(a: ActiveStream, file: string): ActiveStream {
    if a.Active? then a.(files := Some([file])) else a
  }

  /**
   * One episode after the file mapper: with a matched file in its slot, it takes that file,
   * the item's folders and a copy of the item's active stream naming only that file;
   * otherwise it is untouched.
   */
  twostate predicate EpisodeMapped(ep: MediaItem, season: int, m: MatchedFiles, names: (string, string), act: ActiveStream)
    reads ep
  {
    match Lookup(m, season, ep.number)
    case Some(f) =>
      && ep.file == Some(f.filename)
      && ep.folder == Some(names.0)
      && ep.alternativeFolder == Some(names.1)
      && ep.activeStream == EpisodeStream(act, f.filename)
      && ep.blacklisted == old(ep.blacklisted)
    case None =>
      // every field the downloader may assign keeps its value
      && ep.file == old(ep.file)
      && ep.folder == old(ep.folder)
      && ep.alternativeFolder == old(ep.alternativeFolder)
      && ep.activeStream == old(ep.activeStream)
      && ep.blacklisted == old(ep.blacklisted)
  }

  /**
   * What the file mapper wrote for the match `m`: a movie or an episode holds the file of
   * some match; every episode of a show or a season is mapped against the item's new
   * active stream.
   */
  twostate predicate FilesWritten(item: MediaItem, m: MatchedFiles, names: (string, string))
    reads item, item.Targets()
  {
    match item.kind
    case Movie => exists s, e :: s in m && e in m[s] && item.file == Some(m[s][e].filename)
    case Episode => exists s, e :: s in m && e in m[s] && item.file == Some(m[s][e].filename)
    case Show =>
      forall i, j | 0 <= i < |item.seasons| && 0 <= j < |item.seasons[i].episodes| ::
        EpisodeMapped(item.seasons[i].episodes[j], item.seasons[i].number, m, names, item.activeStream)
    case Season =>
      forall j | 0 <= j < |item.episodes| :: EpisodeMapped(item.episodes[j], item.number, m, names, item.activeStream)
  }

  /** The episode loop of `update_item_attributes` over the episodes of season `season`. */
  method WriteEpisodes(eps: seq<MediaItem>, season: int, m: MatchedFiles, names: (string, string), act: ActiveStream)
    requires forall j, j' :: 0 <= j < j' < |eps| ==> eps[j] != eps[j']
    modifies eps
    ensures forall j :: 0 <= j < |eps| ==> EpisodeMapped(eps[j], season, m, names, act)
  {
    for j := 0 to |eps|
      invariant forall j' :: 0 <= j' < j ==> EpisodeMapped(eps[j'], season, m, names, act)
      invariant forall j' :: j <= j' < |eps| ==> unchanged(eps[j'])
    {
      var ep := eps[j];
      var file := Lookup(m, season, ep.number);
      if file.Some? {
        ep.file := Some(file.value.filename);
        ep.folder := Some(names.0);
        ep.alternativeFolder := Some(names.1);
        ep.activeStream := EpisodeStream(act, file.value.filename);
      }
    }
  }

  /** The show branch: every episode of every season of the show. */
  method MapShow(item: MediaItem, m: MatchedFiles, names: (string, string))
    requires item.kind == Show && item.WellFormed()
    modifies item.Targets()
    ensures forall i, j | 0 <= i < |item.seasons| && 0 <= j < |item.seasons[i].episodes| ::
              EpisodeMapped(item.seasons[i].episodes[j], item.seasons[i].number, m, names, item.activeStream)
  {
    var act := item.activeStream;
    for i := 0 to |item.seasons|
      invariant item.activeStream == act
      invariant forall i', j' | 0 <= i' < i && 0 <= j' < |item.seasons[i'].episodes| ::
                  EpisodeMapped(item.seasons[i'].episodes[j'], item.seasons[i'].number, m, names, act)
      invariant forall i', j' | i <= i' < |item.seasons| && 0 <= j' < |item.seasons[i'].episodes| ::
                  unchanged(item.seasons[i'].episodes[j'])
    {
      var eps := item.seasons[i].episodes;
      assert forall j :: 0 <= j < |eps| ==> eps[j] in item.Targets();
      WriteEpisodes(eps, item.seasons[i].number, m, names, act);
    }
  }

  /**
   * The movie/episode branch: the file of some match becomes the item's file; no match
   * raises.
   */
  method LeafFile(item: MediaItem, m: MatchedFiles) returns (r: Result<()>)
    modifies item`file
    ensures r.Ok? || r == Err(NoMatchedFile)
    ensures m == map[] ==> r.Err?
    ensures m != map[] && (forall s :: s in m ==> m[s] != map[]) ==> r.Ok?
    ensures r.Ok? ==> exists s, e :: s in m && e in m[s] && item.file == Some(m[s][e].filename)
    ensures r.Err? ==> item.file == old(item.file)
  {
    if m == map[] {
      return Err(NoMatchedFile);
    }
    if forall k :: k !in m {
      assert false;
    }
    var s :| s in m;
    var row := m[s];
    if row == map[] {
      return Err(NoMatchedFile);
    }
    if forall k :: k !in row {
      assert false;
    }
    var e :| e in row;
    item.file := Some(row[e].filename);
    r := Ok(());
  }

  /**
   * `update_item_attributes`: the folders are set first; then the stream with the active
   * hash gives the active stream its name (an item without streams, an empty active stream
   * or no stream with that hash raises, in this order);
   * then the matched files are written: a movie or an episode takes the file of a match, a
   * show or a season hands each episode with a matched slot its file.
   */
  method UpdateItemAttributes(item: MediaItem, names: (string, string)) returns (r: Result<()>)
    requires item.WellFormed()
    modifies item, item.Targets()
    ensures item.folder == Some(names.0) && item.alternativeFolder == Some(names.1)
    ensures item.blacklisted == old(item.blacklisted)
    ensures r.Ok? || r.error == MissingKey || r.error == NoMatchingStream || r.error == NoMatchedFile
    ensures r.Err? ==> item.file == old(item.file) && unchanged(item.Targets())
    ensures item.streams == [] ==>
              r == Err(NoMatchingStream) && item.activeStream == old(item.activeStream)
              && item.file == old(item.file) && unchanged(item.Targets())
    ensures old(item.activeStream).NoActiveStream? && item.streams != [] ==>
              r == Err(MissingKey) && item.activeStream == NoActiveStream && item.file == old(item.file)
              && unchanged(item.Targets())
    ensures old(item.activeStream).Active? ==>
              var st := FirstWithHash(item.streams, old(item.activeStream).stream.infohash);
              && (st.None? ==>
                    r == Err(NoMatchingStream) && item.activeStream == old(item.activeStream)
                    && item.file == old(item.file) && unchanged(item.Targets()))
              && (st.Some? ==> item.activeStream == old(item.activeStream).(name := Some(st.value.rawTitle)))
    ensures old(item.activeStream).Active? && (item.kind == Movie || item.kind == Episode) ==>
              var m := old(item.activeStream).stream.matchedFiles;
              && (m == map[] ==> r.Err?)
              && (r.Ok? ==> exists s, e :: s in m && e in m[s] && item.file == Some(m[s][e].filename))
    ensures old(item.activeStream).Active? && (item.kind == Show || item.kind == Season) ==>
              item.file == old(item.file)
    ensures old(item.activeStream).Active? && item.kind == Show && r.Ok? ==>
              forall i, j | 0 <= i < |item.seasons| && 0 <= j < |item.seasons[i].episodes| ::
                EpisodeMapped(item.seasons[i].episodes[j], item.seasons[i].number,
                              old(item.activeStream).stream.matchedFiles, names, item.activeStream)
    ensures old(item.activeStream).Active? && item.kind == Season && r.Ok? ==>
              forall j | 0 <= j < |item.episodes| ::
                EpisodeMapped(item.episodes[j], item.number, old(item.activeStream).stream.matchedFiles, names, item.activeStream)
    ensures r.Ok? ==>
              old(item.activeStream).Active? && FirstWithHash(item.streams, old(item.activeStream).stream.infohash).Some?
    ensures r.Ok? ==> FilesWritten(item, old(item.activeStream).stream.matchedFiles, names)
    ensures old(item.activeStream).Active? && FirstWithHash(item.streams, old(item.activeStream).stream.infohash).Some? ==>
              var m := old(item.activeStream).stream.matchedFiles;
              && (item.kind == Show || item.kind == Season ==> r.Ok?)
              && (m != map[] && (forall s :: s in m ==> m[s] != map[]) ==> r.Ok?)
  {
    item.folder := Some(names.0);
    item.alternativeFolder := Some(names.1);
    if item.streams == [] {
      // `next` finds no stream before it reads the active hash
      return Err(NoMatchingStream);
    }
    if item.activeStream.NoActiveStream? {
      return Err(MissingKey);
    }
    var active := item.activeStream;
    var m := active.stream.matchedFiles;
    var stream := FirstWithHash(item.streams, active.stream.infohash);
    if stream.None? {
      return Err(NoMatchingStream);
    }
    item.activeStream := active.(name := Some(stream.value.rawTitle));
    r := Ok(());
    match item.kind {
      case Movie => r := LeafFile(item, m);
      case Episode => r := LeafFile(item, m);
      case Show => MapShow(item, m, names);
      case Season =>
        assert forall j :: 0 <= j < |item.episodes| ==> item.episodes[j] in item.Targets();
        WriteEpisodes(item.episodes, item.number, m, names, item.activeStream);
    }
  }

  // ---------------------------------------------------------------------------
  // Downloading and rolling back

  /** Replace the backend's `existing_hashes`. */
  method SetExistingHashes(service: Service, hashes: seq<string>)
    modifies service.Obj()
    ensures service.ExistingHashes() == hashes
  {
    if service.RealDebridService? {
      service.rd.existingHashes := hashes;
    } else {
      service.ad.existingHashes := hashes;
    }
  }

  /**
   * `download`: the backend's `download_cached`, then `get_torrent_names` over the added
   * torrent's info, then `update_item_attributes`; the first exception ends it.
   */
  method Download(item: MediaItem, service: Service, active: CachedStream, replies: Replies) returns (r: Result<()>)
    requires item.WellFormed()
    modifies item, item.Targets(), service.Obj()
    ensures Added(service, replies) ==> service.ExistingHashes() == old(service.ExistingHashes()) + [active.infohash]
    ensures !Added(service, replies) ==> service.ExistingHashes() == old(service.ExistingHashes())
    ensures r == Err(TorrentNotAdded) <==> !Added(service, replies)
    ensures !Added(service, replies) || Names(service, replies.info).Err? ==> unchanged(item) && unchanged(item.Targets())
    ensures Added(service, replies) && Names(service, replies.info).Err? ==> r == Err(MissingKey)
    ensures Added(service, replies) && Names(service, replies.info).Ok? ==>
              var names := Names(service, replies.info).value;
              item.folder == Some(names.0) && item.alternativeFolder == Some(names.1)
    ensures item.blacklisted == old(item.blacklisted)
    ensures r.Err? ==> item.file == old(item.file) && unchanged(item.Targets())
    ensures old(item.activeStream).Active? ==>
              item.activeStream.Active? && item.activeStream.stream == old(item.activeStream).stream
    ensures Added(service, replies) && Names(service, replies.info).Ok? && old(item.activeStream).Active? ==>
              var st := FirstWithHash(item.streams, old(item.activeStream).stream.infohash);
              st.Some? ==> item.activeStream == old(item.activeStream).(name := Some(st.value.rawTitle))
    ensures r.Ok? ==>
              && Added(service, replies) && Names(service, replies.info).Ok? && old(item.activeStream).Active?
              && FirstWithHash(item.streams, old(item.activeStream).stream.infohash).Some?
              && FilesWritten(item, old(item.activeStream).stream.matchedFiles, Names(service, replies.info).value)
  {
    if service.RealDebridService? {
      var id := service.rd.DownloadCached(active.infohash, replies.rdAdded);
      if id.Err? {
        return Err(id.error);
      }
    } else {
      var id := service.ad.DownloadCached(active.infohash, replies.adAdded);
      if id.Err? {
        return Err(id.error);
      }
    }
    var names := Names(service, replies.info);
    if names.Err? {
      return Err(names.error);
    }
    r := UpdateItemAttributes(item, names.value);
  }

  /**
   * `_delete_and_reset_active_stream`: drop the active hash from `existing_hashes`, delete
   * the torrent on the backend and blacklist the first stream with that hash; the first step
   * that raises skips the rest (the returned cleanup outcome says which); the active stream
   * is reset to `{}` in every case.
   */
  method DeleteAndResetActiveStream(item: MediaItem, service: Service, deleteRaises: bool) returns (cleanup: Result<()>)
    modifies item`activeStream, item`blacklisted, service.Obj()
    ensures item.activeStream == NoActiveStream
    ensures var a := old(item.activeStream);
            cleanup.Ok? <==> a.Active? && a.stream.infohash in old(service.ExistingHashes()) && !deleteRaises
    ensures var a := old(item.activeStream);
            a.Active? && a.stream.infohash in old(service.ExistingHashes()) ==>
              service.ExistingHashes() == RemoveFirst(old(service.ExistingHashes()), a.stream.infohash)
    ensures var a := old(item.activeStream);
            !(a.Active? && a.stream.infohash in old(service.ExistingHashes())) ==>
              service.ExistingHashes() == old(service.ExistingHashes())
    ensures cleanup.Ok? ==>
              item.blacklisted == old(item.blacklisted) + AsSet(FirstWithHash(item.streams, old(item.activeStream).stream.infohash))
    ensures cleanup.Err? ==> item.blacklisted == old(item.blacklisted)
  {
    var existing := service.ExistingHashes();
    if item.activeStream.NoActiveStream? {
      cleanup := Err(MissingKey);
    } else if item.activeStream.stream.infohash !in existing {
      cleanup := Err(HashNotKnown);
    } else {
      var h := item.activeStream.stream.infohash;
      SetExistingHashes(service, RemoveFirst(existing, h));
      if deleteRaises {
        cleanup := Err(DeleteFailed);
      } else {
        var stream := FirstWithHash(item.streams, h);
        if stream.Some? {
          item.BlacklistStream(stream.value);
        }
        cleanup := Ok(());
      }
    }
    item.activeStream := NoActiveStream;
  }

  /** The loop of `run` that blacklists every stream of an item with nothing cached. */
  method BlacklistAll(item: MediaItem)
    modifies item`blacklisted
    ensures item.blacklisted == old(item.blacklisted) + set k | 0 <= k < |item.streams| :: item.streams[k]
  {
    for k := 0 to |item.streams|
      invariant item.blacklisted == old(item.blacklisted) + set k' | 0 <= k' < k :: item.streams[k']
    {
      assert (set k' | 0 <= k' < k + 1 :: item.streams[k']) == (set k' | 0 <= k' < k :: item.streams[k']) + {item.streams[k]};
      item.BlacklistStream(item.streams[k]);
    }
  }

  /**
   * The `except` branch of `run`: an active stream with a hash is rolled back. `before` is
   * the backend's `existing_hashes` before the download, which appended the hash exactly when
   * the torrent was added; the file, the folders and the episodes are not touched.
   */
  method RollBack(item: MediaItem, service: Service, replies: Replies, ghost before: seq<string>)
    requires item.activeStream.Active?
    requires Added(service, replies) ==> service.ExistingHashes() == before + [item.activeStream.stream.infohash]
    requires !Added(service, replies) ==> service.ExistingHashes() == before
    modifies item`activeStream, item`blacklisted, service.Obj()
    ensures old(item.activeStream.stream.infohash) != "" ==> item.activeStream == NoActiveStream
    ensures old(item.activeStream.stream.infohash) == "" ==>
              item.activeStream == old(item.activeStream) && item.blacklisted == old(item.blacklisted)
    ensures var h := old(item.activeStream.stream.infohash);
            h != "" && h !in before ==>
              && service.ExistingHashes() == before
              && (!Added(service, replies) || replies.deleteRaises ==> item.blacklisted == old(item.blacklisted))
              && (Added(service, replies) && !replies.deleteRaises ==>
                    item.blacklisted == old(item.blacklisted) + AsSet(FirstWithHash(item.streams, h)))
  {
    var h := item.activeStream.stream.infohash;
    if h != "" {
      if Added(service, replies) && h !in before {
        RemoveAppended(before, h);
      }
      var _ := DeleteAndResetActiveStream(item, service, replies.deleteRaises);
    }
  }

  /**
   * The cached branch of `run`: the first hit becomes the active stream and is downloaded;
   * when that raises and the hit has a hash, the download is rolled back.
   */
  method TakeFirst(item: MediaItem, service: Service, first: CachedStream, replies: Replies) returns (outcome: RunOutcome)
    requires item.WellFormed()
    modifies item, item.Targets(), service.Obj()
    ensures outcome != NothingCached
    ensures outcome == Downloaded ==>
              && item.activeStream.Active? && item.activeStream.stream == first
              && service.ExistingHashes() == old(service.ExistingHashes()) + [first.infohash]
              && item.blacklisted == old(item.blacklisted)
    ensures outcome == Downloaded ==>
              && FirstWithHash(item.streams, first.infohash).Some? && Names(service, replies.info).Ok?
              && item.activeStream == Active(first, Some(FirstWithHash(item.streams, first.infohash).value.rawTitle), None)
              && FilesWritten(item, first.matchedFiles, Names(service, replies.info).value)
    ensures outcome == Downloaded ==>
              && item.folder == Some(Names(service, replies.info).value.0)
              && item.alternativeFolder == Some(Names(service, replies.info).value.1)
    ensures outcome.DownloadFailed? ==> item.file == old(item.file) && unchanged(item.Targets())
    ensures outcome.DownloadFailed? && Added(service, replies) && Names(service, replies.info).Ok? ==>
              && item.folder == Some(Names(service, replies.info).value.0)
              && item.alternativeFolder == Some(Names(service, replies.info).value.1)
    ensures outcome.DownloadFailed? && !(Added(service, replies) && Names(service, replies.info).Ok?) ==>
              item.folder == old(item.folder) && item.alternativeFolder == old(item.alternativeFolder)
    ensures outcome.DownloadFailed? && first.infohash != "" ==> item.activeStream == NoActiveStream
    ensures outcome.DownloadFailed? && first.infohash == "" ==>
              item.activeStream.Active? && item.activeStream.stream == first && item.blacklisted == old(item.blacklisted)
    ensures outcome.DownloadFailed? && first.infohash != "" && first.infohash !in old(service.ExistingHashes()) ==>
              && service.ExistingHashes() == old(service.ExistingHashes())
              && (outcome.error == TorrentNotAdded || replies.deleteRaises ==> item.blacklisted == old(item.blacklisted))
              && (outcome.error != TorrentNotAdded && !replies.deleteRaises ==>
                    item.blacklisted == old(item.blacklisted) + AsSet(FirstWithHash(item.streams, first.infohash)))
  {
    item.activeStream := Active(first, None, None);
    var d := Download(item, service, first, replies);
    if d.Err? {
      RollBack(item, service, replies, old(service.ExistingHashes()));
      outcome := DownloadFailed(d.error);
    } else {
      outcome := Downloaded;
    }
  }

  // ---------------------------------------------------------------------------
  // The downloader

  class Downloader {
    /** `prefer_speed_over_quality` from the settings. */
    const speedMode: bool
    const service: Option<Service>
    /** `validate`: a service was found. */
    const initialized: bool

    constructor (speedMode: bool, rd: RealDebrid.RealDebridDownloader, ad: AllDebrid.AllDebridDownloader)
      ensures this.speedMode == speedMode && service == ChooseService(rd, ad)
      ensures initialized <==> rd.initialized || ad.initialized
    {
      this.speedMode := speedMode;
      service := ChooseService(rd, ad);
      initialized := ChooseService(rd, ad).Some?;
    }

    /** The backend object `run` may change. */
    function Footprint(): set<object> {
      if service.Some? then {service.value.Obj()} else {}
    }

    /**
     * `run` over the per-batch answers of the probe in arrival order (`arrivals`) and the
     * replies of the remote calls: probe the item's hashes not yet on the account; download
     * the first hit, rolling back a failed download when the hit has a hash; with nothing
     * cached, blacklist every stream. Only an exception of the probe leaves `run`.
     */
    method Run(item: MediaItem, arrivals: seq<Probe.BatchOutcome>, replies: Replies) returns (r: Result<RunOutcome>)
      requires item.WellFormed()
      modifies item, item.Targets(), Footprint()
      ensures service.None? ==> unchanged(item)
      ensures service.None? ==> (r == Ok(NothingCached) <==> item.streams == [])
      ensures service.None? && item.streams != [] ==> r == Err(NoService)
      ensures service.Some? ==>
                var hashes := CandidateHashes(item.streams, old(service.value.ExistingHashes()));
                var p := Probe.Probe(hashes, Probe.Mode(speedMode, true), arrivals);
                && (p.Err? ==> r == Err(p.error) && unchanged(item) && unchanged(Footprint()))
                && (p == Ok([]) ==>
                      && r == Ok(NothingCached)
                      && item.blacklisted == old(item.blacklisted) + (set k | 0 <= k < |item.streams| :: item.streams[k])
                      && item.activeStream == old(item.activeStream)
                      && item.file == old(item.file)
                      && item.folder == old(item.folder)
                      && item.alternativeFolder == old(item.alternativeFolder)
                      && unchanged(item.Targets())
                      && unchanged(Footprint()))
                && (p.Ok? && p.value != [] ==> r.Ok? && r.value != NothingCached)
                && (r.Ok? && r.value != NothingCached ==> p.Ok? && p.value != [])
      ensures service.Some? && r == Ok(Downloaded) ==>
                var hashes := CandidateHashes(item.streams, old(service.value.ExistingHashes()));
                var p := Probe.Probe(hashes, Probe.Mode(speedMode, true), arrivals);
                && p.Ok? && p.value != []
                && item.activeStream.Active? && item.activeStream.stream == p.value[0]
                && service.value.ExistingHashes() == old(service.value.ExistingHashes()) + [p.value[0].infohash]
                && item.blacklisted == old(item.blacklisted)
                && FirstWithHash(item.streams, p.value[0].infohash).Some?
                && item.activeStream.name == Some(FirstWithHash(item.streams, p.value[0].infohash).value.rawTitle)
                && Names(service.value, replies.info).Ok?
                && item.folder == Some(Names(service.value, replies.info).value.0)
                && item.alternativeFolder == Some(Names(service.value, replies.info).value.1)
      ensures service.Some? && r.Ok? && r.value.DownloadFailed? ==>
                var hashes := CandidateHashes(item.streams, old(service.value.ExistingHashes()));
                var p := Probe.Probe(hashes, Probe.Mode(speedMode, true), arrivals);
                && p.Ok? && p.value != []
                && item.file == old(item.file) && unchanged(item.Targets())
                && (Added(service.value, replies) && Names(service.value, replies.info).Ok? ==>
                      && item.folder == Some(Names(service.value, replies.info).value.0)
                      && item.alternativeFolder == Some(Names(service.value, replies.info).value.1))
                && (!(Added(service.value, replies) && Names(service.value, replies.info).Ok?) ==>
                      item.folder == old(item.folder) && item.alternativeFolder == old(item.alternativeFolder))
                && (p.value[0].infohash != "" ==> item.activeStream == NoActiveStream)
                && (p.value[0].infohash == "" ==>
                      item.activeStream.Active? && item.activeStream.stream == p.value[0]
                      && item.blacklisted == old(item.blacklisted))
      ensures service.Some? && r.Ok? && r.value.DownloadFailed? ==>
                var hashes := CandidateHashes(item.streams, old(service.value.ExistingHashes()));
                var p := Probe.Probe(hashes, Probe.Mode(speedMode, true), arrivals);
                p.Ok? && p.value != [] && p.value[0].infohash != "" && Probe.WellFormed(hashes, arrivals) ==>
                  var h := p.value[0].infohash;
                  && service.value.ExistingHashes() == old(service.value.ExistingHashes())
                  && FirstWithHash(item.streams, h).Some?
                  && (r.value.error == TorrentNotAdded || replies.deleteRaises ==> item.blacklisted == old(item.blacklisted))
                  && (r.value.error != TorrentNotAdded && !replies.deleteRaises ==>
                        item.blacklisted == old(item.blacklisted) + AsSet(FirstWithHash(item.streams, h)))
    {
      if service.None? {
        if item.streams == [] {
          // no hash is read, so the missing service is never touched
          return Ok(NothingCached);
        }
        return Err(NoService);
      }
      var svc := service.value;
      var hashes := CandidateHashes(item.streams, svc.ExistingHashes());
      var cached := Probe.GetCachedStreams(hashes, Probe.Mode(speedMode, true), arrivals);
      if cached.Err? {
        return Err(cached.error);
      }
      if |cached.value| > 0 {
        if Probe.WellFormed(hashes, arrivals) {
          Probe.ProbeReturnsHits(hashes, Probe.Mode(speedMode, true), arrivals);
          assert cached.value[0].infohash in hashes;
        }
        var outcome := TakeFirst(item, svc, cached.value[0], replies);
        r := Ok(outcome);
      } else {
        BlacklistAll(item);
        r := Ok(NothingCached);
      }
    }
  }
}
