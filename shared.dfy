/**
 * src/program/downloaders/shared.py: the video-extension setting, the needed-media
 * descriptor derived from an item, and the file finder that matches a container's files
 * against that descriptor.
 */
module Shared {
  import opened Common
  import opened Dicts
  import opened Files
  import opened Media
  import Lists

  // ---------------------------------------------------------------------------
  // Video extensions

  const DEFAULT_VIDEO_EXTENSIONS: seq<string> := ["mp4", "mkv", "avi"]
  const ALLOWED_VIDEO_EXTENSIONS: seq<string> :=
    ["mp4", "mkv", "avi", "mov", "wmv", "flv", "m4v", "webm", "mpg", "mpeg", "m2ts", "ts"]

  /** The configured extensions that are allowed, in their configured order. */
  function KeepAllowed(exts: seq<string>): (r: seq<string>)
    ensures forall x :: x in r <==> x in exts && x in ALLOWED_VIDEO_EXTENSIONS
    ensures |r| <= |exts|
  {
    if exts == [] then []
    else (if exts[0] in ALLOWED_VIDEO_EXTENSIONS then [exts[0]] else []) + KeepAllowed(exts[1..])
  }

  predicate IsAllowed(x: string) {
    x in ALLOWED_VIDEO_EXTENSIONS
  }

  function Itself(x: string): string {
    x
  }

  /**
   * The kept extensions are the allowed ones of the configured list, in their configured
   * order and with their repeats.
   */
  lemma {:induction false} KeepAllowedInOrder(exts: seq<string>) returns (idx: seq<nat>)
    ensures Lists.KeptInOrder(exts, IsAllowed, Itself, KeepAllowed(exts), idx)
    decreases |exts|
  {
    if exts == [] {
      idx := [];
    } else {
      var rest := KeepAllowedInOrder(exts[1..]);
      idx := Lists.KeptCons(exts, IsAllowed, Itself, KeepAllowed(exts[1..]), rest);
    }
  }

  /**
   * `VIDEO_EXTENSIONS`: the configured list (the default when none is configured) reduced
   * to allowed extensions, falling back to the default when nothing allowed is left.
   */
  function VideoExtensions(configured: seq<string>): (r: seq<string>)
    ensures r != []
    ensures forall x :: x in r ==> x in ALLOWED_VIDEO_EXTENSIONS
    ensures KeepAllowed(configured) != [] ==> r == KeepAllowed(configured)
    ensures KeepAllowed(configured) == [] ==> r == DEFAULT_VIDEO_EXTENSIONS
  {
    var chosen := if configured == [] then DEFAULT_VIDEO_EXTENSIONS else configured;
    var kept := KeepAllowed(chosen);
    if kept == [] then DEFAULT_VIDEO_EXTENSIONS else kept
  }

  // ---------------------------------------------------------------------------
  // Needed media

  /** The states in which an episode or season still needs a file. */
  predicate Acceptable(s: State) {
    s.Indexed? || s.Scraped? || s.Unknown? || s.Failed? || s.PartiallyCompleted? || s.Ongoing?
  }

  /** `[episode.number for episode in episodes if episode.state in acceptable_states]` */
  function AcceptableNumbers(episodes: seq<MediaItem>): (r: seq<int>)
    ensures forall n :: n in r <==> exists e :: e in episodes && Acceptable(e.state) && e.number == n
  {
    if episodes == [] then []
    else
      var init := episodes[..|episodes| - 1];
      var last := episodes[|episodes| - 1];
      assert episodes == init + [last];
      AcceptableNumbers(init) + (if Acceptable(last.state) then [last.number] else [])
  }

  predicate IsAcceptable(e: MediaItem) {
    Acceptable(e.state)
  }

  function NumberOf(e: MediaItem): int {
    e.number
  }

  /**
   * The needed episode numbers are those of the acceptable episodes, in episode order and
   * with their repeats, so their count is the number of acceptable episodes.
   */
  lemma {:induction false} AcceptableNumbersInOrder(episodes: seq<MediaItem>) returns (idx: seq<nat>)
    ensures Lists.KeptInOrder(episodes, IsAcceptable, NumberOf, AcceptableNumbers(episodes), idx)
    decreases |episodes|
  {
    if episodes == [] {
      idx := [];
    } else {
      var init := episodes[..|episodes| - 1];
      var last := episodes[|episodes| - 1];
      assert episodes == init + [last];
      var front := AcceptableNumbersInOrder(init);
      idx := Lists.KeptSnoc(init, last, IsAcceptable, NumberOf, AcceptableNumbers(init), front);
    }
  }

  /** The show comprehension `{season.number: ... for season in seasons if ...}`, entry by entry. */
  function SeasonNeeds(seasons: seq<MediaItem>): Dict<int, seq<int>> {
    if seasons == [] then Dict([])
    else
      var d := SeasonNeeds(seasons[..|seasons| - 1]);
      var last := seasons[|seasons| - 1];
      if Acceptable(last.state) then d.Put(last.number, AcceptableNumbers(last.episodes)) else d
  }

  /** `needed_media` of an item: None for a movie, otherwise season number -> episode numbers. */
  function GetNeededMedia(item: MediaItem): (r: Option<Dict<int, seq<int>>>)
    requires item.kind == Episode ==> item.parent != null
    ensures r.None? <==> item.kind == Movie
    ensures item.kind == Episode ==> r == Some(Dict([(item.parent.number, [item.number])]))
    ensures item.kind == Season ==> r == Some(Dict([(item.number, AcceptableNumbers(item.episodes))]))
  {
    match item.kind
    case Movie => None
    case Show => Some(SeasonNeeds(item.seasons))
    case Season => Some(Dict([(item.number, AcceptableNumbers(item.episodes))]))
    case Episode => Some(Dict([(item.parent.number, [item.number])]))
  }

  /**
   * For a show, a season number is needed exactly when some season in an acceptable state
   * carries it, and it asks for the acceptable episodes of the last such season.
   */
  lemma {:induction false} ShowNeeds(seasons: seq<MediaItem>, n: int)
    ensures SeasonNeeds(seasons).Contains(n) <==>
              exists i :: 0 <= i < |seasons| && Acceptable(seasons[i].state) && seasons[i].number == n
    ensures forall i :: 0 <= i < |seasons| && Acceptable(seasons[i].state) && seasons[i].number == n &&
                        (forall k :: i < k < |seasons| && Acceptable(seasons[k].state) ==> seasons[k].number != n)
                        ==> SeasonNeeds(seasons).Get(n) == Some(AcceptableNumbers(seasons[i].episodes))
    ensures DistinctKeys(SeasonNeeds(seasons).Keys())
  {
    if seasons != [] {
      var init := seasons[..|seasons| - 1];
      var last := seasons[|seasons| - 1];
      ShowNeeds(init, n);
      var d := SeasonNeeds(init);
      if Acceptable(last.state) {
        PutKeepsDistinct(d, last.number, AcceptableNumbers(last.episodes));
      }
      forall i | 0 <= i < |seasons| && Acceptable(seasons[i].state) && seasons[i].number == n &&
                 (forall k :: i < k < |seasons| && Acceptable(seasons[k].state) ==> seasons[k].number != n)
        ensures SeasonNeeds(seasons).Get(n) == Some(AcceptableNumbers(seasons[i].episodes))
      {
        if i < |seasons| - 1 {
          assert seasons[i] == init[i];
        }
      }
      if SeasonNeeds(seasons).Contains(n) && !(Acceptable(last.state) && last.number == n) {
        var i :| 0 <= i < |init| && Acceptable(init[i].state) && init[i].number == n;
        assert seasons[i] == init[i];
      }
      if exists i :: 0 <= i < |seasons| && Acceptable(seasons[i].state) && seasons[i].number == n {
        var i :| 0 <= i < |seasons| && Acceptable(seasons[i].state) && seasons[i].number == n;
        if i < |seasons| - 1 {
          assert init[i] == seasons[i];
        }
      }
    }
  }

  /** The (season, episode) pairs the needed media asks for: `needed_episodes`. */
  function NeededSlots(needed: Dict<int, seq<int>>): set<(int, int)> {
    set i, e | 0 <= i < |needed.items| && e in needed.items[i].1 :: (needed.items[i].0, e)
  }

  /** `len([episode for season in needed_media for episode in needed_media[season]])` */
  function NeededCount(items: seq<(int, seq<int>)>): nat {
    if items == [] then 0 else |items[0].1| + NeededCount(items[1..])
  }

  /** The truth value of `needed_media`: None and the empty dict are both false. */
  predicate Truthy(needed: Option<Dict<int, seq<int>>>) {
    needed.Some? && !needed.value.IsEmpty()
  }

  // ---------------------------------------------------------------------------
  // The shared stop flag

  /**
   * `break_pointer`: `found` is set by a worker that matched a container; `breakOnFirst`
   * says whether a match should stop every worker.
   */
  class BreakPointer {
    var found: bool
    const breakOnFirst: bool

    constructor (breakOnFirst: bool)
      ensures !found && this.breakOnFirst == breakOnFirst
    {
      found := false;
      this.breakOnFirst := breakOnFirst;
    }

    /** `break_pointer[1] and break_pointer[0]` */
    predicate Stop()
      reads this
    {
      breakOnFirst && found
    }
  }

  /** What a backend's scan ends with: its dict (or the exception it raised) and the flag. */
  datatype Pass<T> = Pass(value: Result<T>, found: bool)

  // ---------------------------------------------------------------------------
  // File finder

  /** What the title parser reads from a file name; Unparsed when it raised. */
  datatype ShowParse = Unparsed | Parsed(season: int, episodes: seq<int>)

  /**
   * The external title parser, seen through the file finder: `show` gives the first season
   * and the episodes of a name, `movie` whether the name parses as a movie.
   */
  datatype TitleParser = TitleParser(show: string -> ShowParse, movie: string -> bool)

  /**
   * File `f` can fill slot `p`: it parses to a non-zero season and a non-empty episode
   * list (the truth test of the source), with p's season and p's episode among them.
   */
  predicate Claims(parser: TitleParser, f: DebridFile, p: (int, int)) {
    match parser.show(f.filename)
    case Unparsed => false
    case Parsed(s, eps) => s != 0 && eps != [] && s == p.0 && p.1 in eps
  }

  /** Position of the first file that can fill slot `p`; |files| when none can. */
  function FirstClaimAt(files: Container, parser: TitleParser, p: (int, int)): (k: nat)
    ensures k <= |files|
    ensures k < |files| ==> Claims(parser, files[k], p)
    ensures forall j :: 0 <= j < k && j < |files| ==> !Claims(parser, files[j], p)
  {
    if files == [] then 0
    else
      var init := files[..|files| - 1];
      var k := FirstClaimAt(init, parser, p);
      if k < |init| then k
      else if Claims(parser, files[|files| - 1], p) then |init|
      else |files|
  }

  /** The file that claims slot `p`: the first one, in container order, that can fill it. */
  function FirstClaim(files: Container, parser: TitleParser, p: (int, int)): Option<DebridFile> {
    var k := FirstClaimAt(files, parser, p);
    if k < |files| then Some(files[k]) else None
  }

  /** The episodes of season `s` among the slots of a flat match. */
  function EpisodesOf(flat: map<(int, int), DebridFile>, s: int): set<int> {
    set p | p in flat && p.0 == s :: p.1
  }

  /** One season's row of a flat match. */
  function Row(flat: map<(int, int), DebridFile>, s: int): (row: map<int, DebridFile>)
    ensures row.Keys == EpisodesOf(flat, s)
    ensures forall e :: e in row ==> (s, e) in flat && row[e] == flat[(s, e)]
  {
    var row := map e | e in EpisodesOf(flat, s) :: flat[(s, e)];
    forall e | e in row ensures (s, e) in flat {
      var q :| q in flat && q.0 == s && q.1 == e;
      assert q == (s, e);
    }
    row
  }

  /** The nested form (season -> episode -> file) of a match keyed by (season, episode). */
  function Nest(flat: map<(int, int), DebridFile>): (m: MatchedFiles)
    ensures Slots(m) == flat.Keys
    ensures forall p :: p in flat ==> p.0 in m && p.1 in m[p.0] && m[p.0][p.1] == flat[p]
    ensures forall s :: s in m ==> m[s] != map[]
  {
    var m := map s | s in (set p | p in flat :: p.0) :: Row(flat, s);
    forall p | p in flat
      ensures p.0 in m && p.1 in m[p.0] && m[p.0][p.1] == flat[p]
    {
      assert p == (p.0, p.1);
      assert p.1 in EpisodesOf(flat, p.0);
    }
    forall q | q in Slots(m) ensures q in flat {
      var s, e :| s in m && e in m[s] && q == (s, e);
    }
    forall q | q in flat ensures q in Slots(m) {
      var s, e := q.0, q.1;
      assert s in m && e in m[s];
      assert (s, e) in Slots(m);
    }
    forall s | s in m ensures m[s] != map[] {
      var q :| q in flat && q.0 == s;
      assert q.1 in EpisodesOf(flat, s);
    }
    m
  }

  /** The match built from slots that are all claimed: each slot holds its first claimant. */
  function BuildMatches(slots: set<(int, int)>, files: Container, parser: TitleParser): MatchedFiles
    requires forall p :: p in slots ==> FirstClaim(files, parser, p).Some?
  {
    Nest(map p | p in slots :: FirstClaim(files, parser, p).value)
  }

  /**
   * The show branch of `cache_matches`: with the stop flag raised no file is scanned;
   * otherwise the match exists exactly when every needed slot has a claimant.
   */
  function MatchShow(needed: Dict<int, seq<int>>, files: Container, parser: TitleParser, stop: bool): Option<MatchedFiles> {
    var slots := NeededSlots(needed);
    if stop then (if slots == {} then Some(map[]) else None)
    else if forall p :: p in slots ==> FirstClaim(files, parser, p).Some? then Some(BuildMatches(slots, files, parser))
    else None
  }

  /** `max(files, key=filesize)`: the first file of the largest size. */
  function Biggest(files: Container): (b: DebridFile)
    requires files != []
    ensures forall f :: f in files ==> f.filesize <= b.filesize
    ensures exists k :: 0 <= k < |files| && files[k] == b && forall j :: 0 <= j < k ==> files[j].filesize < b.filesize
  {
    var k := BiggestAt(files);
    assert files[k] == files[k];
    files[k]
  }

  function BiggestAt(files: Container): (k: nat)
    requires files != []
    ensures k < |files|
    ensures forall j :: 0 <= j < |files| ==> files[j].filesize <= files[k].filesize
    ensures forall j :: 0 <= j < k ==> files[j].filesize < files[k].filesize
  {
    if |files| == 1 then 0
    else
      var init := files[..|files| - 1];
      var k := BiggestAt(init);
      if files[|files| - 1].filesize > init[k].filesize then |files| - 1 else k
  }

  /**
   * What `cache_matches` computes: the show branch when `needed_media` is truthy, otherwise
   * the movie branch, which looks only at the biggest file and raises on an empty container.
   */
  function MatchFiles(needed: Option<Dict<int, seq<int>>>, files: Container, parser: TitleParser, stop: bool)
    : (r: Result<Option<MatchedFiles>>)
    ensures r.Err? <==> !Truthy(needed) && files == []
    ensures r.Err? ==> r.error == NoFiles
    ensures Truthy(needed) ==> r == Ok(MatchShow(needed.value, files, parser, stop))
    ensures !Truthy(needed) && r.Ok? && r.value.Some? ==>
              exists b :: b in files && r.value.value == map[1 := map[1 := b]] && parser.movie(b.filename) &&
                          forall f :: f in files ==> f.filesize <= b.filesize
    ensures !Truthy(needed) && files != [] && r.value.None? ==> !parser.movie(Biggest(files).filename)
  {
    if Truthy(needed) then Ok(MatchShow(needed.value, files, parser, stop))
    else if files == [] then Err(NoFiles)
    else
      var big := Biggest(files);
      Ok(if parser.movie(big.filename) then Some(map[1 := map[1 := big]]) else None)
  }

  /**
   * `FileFinder.get_cached_container`: a match of the container, or `{}` (None) when the
   * container is too small for the needed episodes or nothing matched.
   */
  function GetCachedContainer(needed: Option<Dict<int, seq<int>>>, container: Container, parser: TitleParser, stop: bool)
    : (r: Result<Option<CachedContainer>>)
    ensures Truthy(needed) && |container| < NeededCount(needed.value.items) ==> r == Ok(None)
    ensures r.Ok? && r.value.Some? ==> r.value.value.allFiles == container && r.value.value.matchedFiles != map[]
    ensures r.Ok? && r.value.Some? ==> MatchFiles(needed, container, parser, stop) == Ok(Some(r.value.value.matchedFiles))
    ensures r.Err? <==> !Truthy(needed) && container == []
    ensures var m := MatchFiles(needed, container, parser, stop);
            (!Truthy(needed) || |container| >= NeededCount(needed.value.items)) && m.Ok? && m.value.Some? && m.value.value != map[]
            ==> r == Ok(Some(CachedContainer(container, m.value.value)))
  {
    if !Truthy(needed) || |container| >= NeededCount(needed.value.items) then
      match MatchFiles(needed, container, parser, stop)
      case Err(e) => Err(e)
      case Ok(m) => if m.Some? && m.value != map[] then Ok(Some(CachedContainer(container, m.value))) else Ok(None)
    else Ok(None)
  }

  // ---------------------------------------------------------------------------
  // The file scan of `cache_matches`

  /** Two nested matches with the same slots, the same file in each slot and no empty row are equal. */
  lemma SameMatches(m: MatchedFiles, n: MatchedFiles)
    requires Slots(m) == Slots(n)
    requires forall s :: s in m ==> m[s] != map[]
    requires forall s :: s in n ==> n[s] != map[]
    requires forall s, e :: s in m && e in m[s] ==> s in n && e in n[s] && m[s][e] == n[s][e]
    ensures m == n
  {
    forall s | s in m ensures s in n {
      var e := KeyOf(m[s]);
    }
    forall s | s in n ensures s in m {
      var e := KeyOf(n[s]);
      var u, v := s, e;
      assert (u, v) in Slots(n);
    }
    forall s | s in m ensures m[s] == n[s] {
      forall e | e in n[s] ensures e in m[s] {
        var u, v := s, e;
        assert (u, v) in Slots(m);
        var s', e' :| s' in m && e' in m[s'] && (u, v) == (s', e');
      }
      forall e | e in m[s] ensures e in n[s] && m[s][e] == n[s][e] {
      }
      assert m[s].Keys == n[s].Keys;
    }
  }

  /** A key of a non-empty row. */
  lemma KeyOf(row: map<int, DebridFile>) returns (e: int)
    requires row != map[]
    ensures e in row
  {
    if forall k :: k !in row {
      assert false;
    }
    e :| e in row;
  }

  /** What the scan of `files[..i]` has built: the unclaimed slots and the claims so far. */
  ghost predicate Scanned(files: Container, parser: TitleParser, slots: set<(int, int)>, i: nat,
                          remaining: set<(int, int)>, matches: MatchedFiles)
    requires i <= |files|
  {
    && remaining <= slots
    && (forall p :: p in slots ==> (p in remaining <==> FirstClaim(files[..i], parser, p).None?))
    && Slots(matches) == slots - remaining
    && (forall p :: p in slots - remaining ==>
          p.0 in matches && p.1 in matches[p.0] && FirstClaim(files[..i], parser, p) == Some(matches[p.0][p.1]))
    && (forall s :: s in matches ==> matches[s] != map[])
  }

  /**
   * `FileFinder.cache_matches`. For a truthy `needed` the files are scanned in container
   * order; each episode of a truthy parse claims its slot if the slot is still needed.
   */
  method CacheMatches(files: Container, needed: Option<Dict<int, seq<int>>>, parser: TitleParser, bp: BreakPointer)
    returns (r: Result<Option<MatchedFiles>>)
    ensures r == MatchFiles(needed, files, parser, bp.Stop())
  {
    if needed.Some? && !needed.value.IsEmpty() {
      var slots := NeededSlots(needed.value);
      var remaining := slots;
      var matches: MatchedFiles := map[];
      var i := 0;
      while i < |files|
        invariant i <= |files|
        decreases |files| - i
        invariant bp.Stop() ==> i == 0
        invariant Scanned(files, parser, slots, i, remaining, matches)
      {
        if bp.Stop() {
          break;
        }
        var file := files[i];
        match parser.show(file.filename) {
          case Unparsed =>
            ClaimsNothing(files, parser, slots, i, remaining, matches);
          case Parsed(season, episodes) =>
            if season != 0 && episodes != [] {
              remaining, matches := Claim(files, parser, slots, i, remaining, matches, season, episodes);
            } else {
              ClaimsNothing(files, parser, slots, i, remaining, matches);
            }
        }
        i := i + 1;
      }
      ScanConcludes(needed, files, parser, bp.Stop(), i, remaining, matches);
      if remaining == {} {
        r := Ok(Some(matches));
      } else {
        r := Ok(None);
      }
    } else if files == [] {
      r := Err(NoFiles);
    } else {
      var biggest := Biggest(files);
      if parser.movie(biggest.filename) {
        r := Ok(Some(map[1 := map[1 := biggest]]));
      } else {
        r := Ok(None);
      }
    }
  }

  /**
   * The end of the show branch: a scan that the flag stopped before the first file, or that
   * saw every file, has found a match exactly when no needed slot remains, and it is the one
   * `MatchFiles` gives.
   */
  lemma ScanConcludes(needed: Option<Dict<int, seq<int>>>, files: Container, parser: TitleParser, stop: bool,
                      i: nat, remaining: set<(int, int)>, matches: MatchedFiles)
    requires Truthy(needed) && i <= |files|
    requires Scanned(files, parser, NeededSlots(needed.value), i, remaining, matches)
    requires if stop then i == 0 else i == |files|
    ensures MatchFiles(needed, files, parser, stop) == Ok(if remaining == {} then Some(matches) else None)
  {
    if stop {
      StoppedScanConcludes(needed.value, files, parser, remaining, matches);
    } else {
      FullScanConcludes(needed.value, files, parser, remaining, matches);
    }
  }

  lemma FullScanConcludes(needed: Dict<int, seq<int>>, files: Container, parser: TitleParser,
                          remaining: set<(int, int)>, matches: MatchedFiles)
    requires Scanned(files, parser, NeededSlots(needed), |files|, remaining, matches)
    ensures MatchShow(needed, files, parser, false) == if remaining == {} then Some(matches) else None
  {
    assert files[..|files|] == files;
    if remaining == {} {
      AllClaimedMatch(needed, files, parser, matches);
    } else {
      var p :| p in remaining;
      assert p in NeededSlots(needed) && FirstClaim(files, parser, p).None?;
    }
  }

  lemma AllClaimedMatch(needed: Dict<int, seq<int>>, files: Container, parser: TitleParser, matches: MatchedFiles)
    requires Scanned(files, parser, NeededSlots(needed), |files|, {}, matches)
    requires files[..|files|] == files
    ensures MatchShow(needed, files, parser, false) == Some(matches)
  {
    var slots := NeededSlots(needed);
    assert slots - {} == slots;
    forall p | p in slots ensures FirstClaim(files, parser, p).Some? {
      assert FirstClaim(files[..|files|], parser, p).Some?;
    }
    var b := BuildMatches(slots, files, parser);
    forall s, e | s in matches && e in matches[s] ensures s in b && e in b[s] && matches[s][e] == b[s][e] {
      assert (s, e) in Slots(matches);
      assert FirstClaim(files[..|files|], parser, (s, e)) == Some(matches[s][e]);
    }
    SameMatches(matches, b);
  }

  lemma StoppedScanConcludes(needed: Dict<int, seq<int>>, files: Container, parser: TitleParser,
                             remaining: set<(int, int)>, matches: MatchedFiles)
    requires Scanned(files, parser, NeededSlots(needed), 0, remaining, matches)
    ensures MatchShow(needed, files, parser, true) == if remaining == {} then Some(matches) else None
  {
    var slots := NeededSlots(needed);
    assert files[..0] == [];
    assert remaining == slots;
    if remaining == {} {
      assert Slots(map[]) == {};
      SameMatches(matches, map[]);
    }
  }

  /** A file whose parse is falsy claims no slot: the scan state carries over unchanged. */
  lemma ClaimsNothing(files: Container, parser: TitleParser, slots: set<(int, int)>, i: nat,
                      remaining: set<(int, int)>, matches: MatchedFiles)
    requires i < |files| && Scanned(files, parser, slots, i, remaining, matches)
    requires parser.show(files[i].filename).Parsed? ==>
               parser.show(files[i].filename).season == 0 || parser.show(files[i].filename).episodes == []
    ensures Scanned(files, parser, slots, i + 1, remaining, matches)
  {
    FirstClaimSteps(files, parser, i);
  }

  /**
   * The inner loop of `cache_matches` for file `files[i]`, which parsed to `season` and
   * `episodes`: each listed episode whose slot is still needed is claimed by this file.
   */
  method Claim(files: Container, parser: TitleParser, slots: set<(int, int)>, i: nat,
               remaining0: set<(int, int)>, matches0: MatchedFiles, season: int, episodes: seq<int>)
    returns (remaining: set<(int, int)>, matches: MatchedFiles)
    requires i < |files|
    requires parser.show(files[i].filename) == Parsed(season, episodes) && season != 0 && episodes != []
    requires Scanned(files, parser, slots, i, remaining0, matches0)
    ensures Scanned(files, parser, slots, i + 1, remaining, matches)
  {
    FirstClaimSteps(files, parser, i);
    remaining, matches := remaining0, matches0;
    var j := 0;
    while j < |episodes|
      invariant j <= |episodes|
      invariant remaining <= remaining0
      invariant forall p :: p in slots ==>
                  (p in remaining <==> p in remaining0 && !(p.0 == season && p.1 in episodes[..j]))
      invariant Slots(matches) == slots - remaining
      invariant forall p :: p in slots - remaining ==>
                  p.0 in matches && p.1 in matches[p.0] && FirstClaim(files[..i + 1], parser, p) == Some(matches[p.0][p.1])
      invariant forall s :: s in matches ==> matches[s] != map[]
    {
      var slot := (season, episodes[j]);
      if slot in remaining {
        SlotsPut(matches, season, episodes[j], files[i]);
        var row := if season in matches then matches[season] else map[];
        matches := matches[season := row[episodes[j] := files[i]]];
        remaining := remaining - {slot};
      }
      assert episodes[..j + 1] == episodes[..j] + [episodes[j]];
      j := j + 1;
    }
    assert episodes[..j] == episodes;
  }

  /** Recording one claim adds exactly its slot. */
  lemma SlotsPut(m: MatchedFiles, s: int, e: int, f: DebridFile)
    ensures var row := if s in m then m[s] else map[];
            Slots(m[s := row[e := f]]) == Slots(m) + {(s, e)}
  {
    var row := if s in m then m[s] else map[];
    var n := m[s := row[e := f]];
    forall q | q in Slots(m) + {(s, e)} ensures q in Slots(n) {
      var u, v := q.0, q.1;
      assert u in n && v in n[u];
      assert (u, v) in Slots(n);
    }
    forall q | q in Slots(n) ensures q in Slots(m) + {(s, e)} {
      var u, v :| u in n && v in n[u] && q == (u, v);
      if q != (s, e) {
        assert u in m && v in m[u];
        assert (u, v) in Slots(m);
      }
    }
  }

  lemma FirstClaimSteps(files: Container, parser: TitleParser, i: nat)
    requires i < |files|
    ensures forall p :: FirstClaim(files[..i + 1], parser, p) ==
              if FirstClaim(files[..i], parser, p).Some? then FirstClaim(files[..i], parser, p)
              else if Claims(parser, files[i], p) then Some(files[i])
              else None
  {
    assert files[..i + 1] == files[..i] + [files[i]];
    forall p {
      FirstClaimSnoc(files[..i], files[i], parser, p);
    }
  }

  // ---------------------------------------------------------------------------
  // Properties of the show branch

  /**
   * Without the stop flag the show branch succeeds exactly when every needed slot has some
   * file that can fill it; the match then covers exactly the needed slots, and each slot
   * holds the first file, in container order, that can fill it.
   */
  lemma {:induction false} ShowMatchExact(needed: Dict<int, seq<int>>, files: Container, parser: TitleParser)
    ensures MatchShow(needed, files, parser, false).Some? <==>
              forall p :: p in NeededSlots(needed) ==> exists k :: 0 <= k < |files| && Claims(parser, files[k], p)
    ensures MatchShow(needed, files, parser, false).Some? ==>
              var m := MatchShow(needed, files, parser, false).value;
              && Slots(m) == NeededSlots(needed)
              && forall p :: p in NeededSlots(needed) ==>
                   exists k :: 0 <= k < |files| && m[p.0][p.1] == files[k] && Claims(parser, files[k], p) &&
                               forall j :: 0 <= j < k ==> !Claims(parser, files[j], p)
  {
    var slots := NeededSlots(needed);
    forall p | p in slots
      ensures FirstClaim(files, parser, p).Some? <==> exists k :: 0 <= k < |files| && Claims(parser, files[k], p)
    {
      var k := FirstClaimAt(files, parser, p);
      if exists k' :: 0 <= k' < |files| && Claims(parser, files[k'], p) {
        var k' :| 0 <= k' < |files| && Claims(parser, files[k'], p);
        assert k <= k';
      }
    }
    if MatchShow(needed, files, parser, false).Some? {
      var m := MatchShow(needed, files, parser, false).value;
      forall p | p in slots
        ensures exists k :: 0 <= k < |files| && m[p.0][p.1] == files[k] && Claims(parser, files[k], p) &&
                            forall j :: 0 <= j < k ==> !Claims(parser, files[j], p)
      {
        var k := FirstClaimAt(files, parser, p);
        assert m[p.0][p.1] == files[k];
      }
    }
  }

  /** Appending one file: it can only fill a slot that no earlier file fills. */
  lemma FirstClaimSnoc(files: Container, x: DebridFile, parser: TitleParser, p: (int, int))
    ensures FirstClaim(files + [x], parser, p) ==
              if FirstClaim(files, parser, p).Some? then FirstClaim(files, parser, p)
              else if Claims(parser, x, p) then Some(x)
              else None
  {
    assert (files + [x])[..|files|] == files;
  }

  /** A file that cannot fill slot `p` may be removed without changing who claims `p`. */
  lemma {:induction false} FirstClaimSkip(a: Container, f: DebridFile, b: Container, parser: TitleParser, p: (int, int))
    requires !Claims(parser, f, p)
    ensures FirstClaim(a + [f] + b, parser, p) == FirstClaim(a + b, parser, p)
    decreases |b|
  {
    if b == [] {
      assert a + [f] + b == a + [f];
      assert a + b == a;
      FirstClaimSnoc(a, f, parser, p);
    } else {
      var b' := b[..|b| - 1];
      var x := b[|b| - 1];
      assert a + [f] + b == (a + [f] + b') + [x];
      assert a + b == (a + b') + [x];
      FirstClaimSkip(a, f, b', parser, p);
      FirstClaimSnoc(a + [f] + b', x, parser, p);
      FirstClaimSnoc(a + b', x, parser, p);
    }
  }

  /**
   * A file whose parse fails, has season 0 or lists no episodes is ignored by the show
   * branch: the outcome is the same with the file left out.
   */
  lemma FalsyParseIgnored(needed: Dict<int, seq<int>>, a: Container, f: DebridFile, b: Container,
                          parser: TitleParser, stop: bool)
    requires parser.show(f.filename).Unparsed? ||
             parser.show(f.filename).season == 0 || parser.show(f.filename).episodes == []
    ensures MatchShow(needed, a + [f] + b, parser, stop) == MatchShow(needed, a + b, parser, stop)
  {
    forall p ensures FirstClaim(a + [f] + b, parser, p) == FirstClaim(a + b, parser, p) {
      FirstClaimSkip(a, f, b, parser, p);
    }
    var slots := NeededSlots(needed);
    if forall p :: p in slots ==> FirstClaim(a + b, parser, p).Some? {
      assert (map p | p in slots :: FirstClaim(a + [f] + b, parser, p).value)
          == (map p | p in slots :: FirstClaim(a + b, parser, p).value);
    }
  }
}
