/**
 * The Real-Debrid backend (src/program/downloaders/realdebrid.py): choosing, for each probed
 * hash, a cached container from an instant-availability response, and recording the hashes
 * it adds to the account.
 */
module RealDebrid {
  import opened Common
  import opened Dicts
  import opened Files
  import opened Sorting
  import opened Text
  import opened Shared
  import Probe

  // ---------------------------------------------------------------------------
  // The availability response

  /** The value the response holds for one hash: a list of containers, a dict, or anything else. */
  datatype Availability = AvList(containers: seq<Container>) | AvDict(rd: Option<seq<Container>>) | AvOther

  /** What the availability call gave: a dict keyed by hash, a bare list, or an exception. */
  datatype Response = Availabilities(entries: Dict<string, Availability>) | AvailabilityList | CallFailed

  /** `get_instant_availability`: a list answer or a failed call counts as an empty dict. */
  function Normalise(response: Response): (d: Dict<string, Availability>)
    ensures response.Availabilities? ==> d == response.entries
    ensures !response.Availabilities? ==> forall h :: !d.Contains(h)
  {
    if response.Availabilities? then response.entries else Dict([])
  }

  /**
   * The containers offered for one hash: a list is used as it is, a dict gives its "rd"
   * entry (none when absent), a missing hash is the empty dict, anything else gives none.
   */
  function ContainersOf(data: Option<Availability>): (cs: seq<Container>)
    ensures data.None? || data.value.AvOther? ==> cs == []
    ensures data.Some? && data.value.AvList? ==> cs == data.value.containers
    ensures data.Some? && data.value.AvDict? ==> cs == data.value.rd.GetOr([])
  {
    match data
    case None => []
    case Some(AvList(cs)) => cs
    case Some(AvDict(rd)) => rd.GetOr([])
    case Some(AvOther) => []
  }

  // ---------------------------------------------------------------------------
  // Eligible containers

  /**
   * `all_files_valid`: every file name ends in "." followed by one of the video extensions
   * (case-sensitive) and has no "sample" in it, in any case. As with Python's `all`, a
   * container without files passes; as with `any`, no extension fails every file.
   */
  predicate AllFilesValid(container: Container, exts: seq<string>)
    ensures container == [] ==> AllFilesValid(container, exts)
    ensures exts == [] && container != [] ==> !AllFilesValid(container, exts)
  {
    assert container != [] ==> container[0] in container;
    forall f :: f in container ==> ValidFile(f, exts)
  }

  /** The test `all_files_valid` puts to one file. */
  predicate ValidFile(f: DebridFile, exts: seq<string>) {
    exists ext :: ext in exts && EndsWith(f.filename, "." + ext) && !HasSubstring(Lower(f.filename), "sample")
  }

  /** The sort key of `containers.sort(key=len, reverse=True)`. */
  function SizeKey(c: Container): int {
    -|c|
  }

  /** The containers in the order they are tried: `containers.sort(key=len, reverse=True)`. */
  function SortedContainers(cs: seq<Container>): (r: seq<Container>)
    ensures |r| == |cs|
  {
    SortBy(cs, SizeKey)
  }

  /** The containers are tried largest file count first, none lost or added. */
  lemma SortedContainersOrder(cs: seq<Container>)
    ensures multiset(SortedContainers(cs)) == multiset(cs)
    ensures forall i, j :: 0 <= i < j < |cs| ==> |SortedContainers(cs)[i]| >= |SortedContainers(cs)[j]|
  {
    SortBySorted(cs, SizeKey);
    var r := SortedContainers(cs);
    forall i, j | 0 <= i < j < |cs| ensures |r[i]| >= |r[j]| {
      assert SizeKey(r[i]) <= SizeKey(r[j]);
    }
  }

  /** Containers of the same size keep their response order. */
  lemma SortedContainersStable(cs: seq<Container>, c: int)
    ensures WithKey(SortedContainers(cs), SizeKey, c) == WithKey(cs, SizeKey, c)
  {
    SortByStable(cs, SizeKey, c);
  }

  // ---------------------------------------------------------------------------
  // The scan, as functions

  /**
   * The inner loop over one hash's containers, from `entry` and flag `found`: each eligible
   * container's file-finder result overwrites the entry; a match raises the flag, and with
   * `break_on_first` a raised flag ends the loop.
   */
  function TryContainers(needed: Option<Dict<int, seq<int>>>, parser: TitleParser, exts: seq<string>,
                         breakOnFirst: bool, cs: seq<Container>, entry: Option<CachedContainer>, found: bool)
    : Pass<Option<CachedContainer>>
    decreases |cs|
  {
    if cs == [] || (breakOnFirst && found) then Pass(Ok(entry), found)
    else if !AllFilesValid(cs[0], exts) then TryContainers(needed, parser, exts, breakOnFirst, cs[1..], entry, found)
    else
      match GetCachedContainer(needed, cs[0], parser, breakOnFirst && found)
      case Err(e) => Pass(Err(e), found)
      case Ok(c) => TryContainers(needed, parser, exts, breakOnFirst, cs[1..], c, found || c.Some?)
  }

  /**
   * The outer loop from hash `hashes[0]` on, with `acc` built so far: each hash first gets
   * the empty entry; a raised flag with `break_on_first` then ends the scan; otherwise the
   * hash's containers are tried in size order.
   */
  function Scan(response: Dict<string, Availability>, hashes: seq<string>, needed: Option<Dict<int, seq<int>>>,
                parser: TitleParser, exts: seq<string>, breakOnFirst: bool, found: bool,
                acc: Dict<string, Option<CachedContainer>>)
    : Pass<Dict<string, Option<CachedContainer>>>
    decreases |hashes|
  {
    if hashes == [] then Pass(Ok(acc), found)
    else
      var h := hashes[0];
      var acc' := acc.Put(h, None);
      if breakOnFirst && found then Pass(Ok(acc'), found)
      else
        var cs := SortedContainers(ContainersOf(response.Get(h)));
        var p := TryContainers(needed, parser, exts, breakOnFirst, cs, None, found);
        match p.value
        case Err(e) => Pass(Err(e), p.found)
        case Ok(entry) => Scan(response, hashes[1..], needed, parser, exts, breakOnFirst, p.found, acc'.Put(h, entry))
  }

  /** `get_cached_containers`: the dict it returns (or the exception) and the final flag. */
  function CachedContainers(response: Response, hashes: seq<string>, needed: Option<Dict<int, seq<int>>>,
                            parser: TitleParser, exts: seq<string>, breakOnFirst: bool, found: bool)
    : Pass<Dict<string, Option<CachedContainer>>>
  {
    Scan(Normalise(response), hashes, needed, parser, exts, breakOnFirst, found, Dict([]))
  }

  /** `get_torrent_names`: the torrent's "filename" and "original_filename"; a missing key raises. */
  function GetTorrentNames(info: map<string, string>): (r: Result<(string, string)>)
    ensures r.Ok? <==> "filename" in info && "original_filename" in info
    ensures r.Ok? ==> r.value == (info["filename"], info["original_filename"])
  {
    if "filename" in info && "original_filename" in info then Ok((info["filename"], info["original_filename"]))
    else Err(MissingKey)
  }

  // ---------------------------------------------------------------------------
  // Properties of the scan

  /**
   * The scan's dict has an entry exactly for the keys of `acc` and the first `n` hashes;
   * when `n` falls short of all hashes, the scan stopped on the flag at hash `n - 1`, which
   * kept the empty entry.
   */
  ghost predicate KeyedUpTo(d: Dict<string, Option<CachedContainer>>, found: bool,
                            acc: Dict<string, Option<CachedContainer>>, hashes: seq<string>, n: nat, breakOnFirst: bool) {
    && n <= |hashes|
    && (hashes != [] ==> 1 <= n)
    && (forall h :: d.Contains(h) <==> acc.Contains(h) || h in hashes[..n])
    && (n < |hashes| ==> breakOnFirst && found && d.Get(hashes[n - 1]) == Some(None))
  }

  lemma PutContains<V>(d: Dict<string, V>, k: string, v: V)
    ensures forall x :: d.Put(k, v).Contains(x) <==> d.Contains(x) || x == k
  {
    forall x ensures d.Put(k, v).Contains(x) <==> d.Contains(x) || x == k {
      assert d.Put(k, v).Get(x).Some? <==> d.Put(k, v).Contains(x);
    }
  }

  lemma {:induction false} ScanKeys(response: Dict<string, Availability>, hashes: seq<string>,
                                    needed: Option<Dict<int, seq<int>>>, parser: TitleParser, exts: seq<string>,
                                    breakOnFirst: bool, found: bool, acc: Dict<string, Option<CachedContainer>>)
    returns (n: nat)
    ensures var p := Scan(response, hashes, needed, parser, exts, breakOnFirst, found, acc);
            p.value.Ok? ==> KeyedUpTo(p.value.value, p.found, acc, hashes, n, breakOnFirst)
    decreases |hashes|
  {
    var p := Scan(response, hashes, needed, parser, exts, breakOnFirst, found, acc);
    n := 0;
    if hashes != [] && p.value.Ok? {
      var h := hashes[0];
      var acc' := acc.Put(h, None);
      PutContains(acc, h, None);
      if breakOnFirst && found {
        n := 1;
        assert hashes[..1] == [h];
      } else {
        var cs := SortedContainers(ContainersOf(response.Get(h)));
        var t := TryContainers(needed, parser, exts, breakOnFirst, cs, None, found);
        assert t.value.Ok?;
        var acc'' := acc'.Put(h, t.value.value);
        assert p == Scan(response, hashes[1..], needed, parser, exts, breakOnFirst, t.found, acc'');
        PutContains(acc', h, t.value.value);
        var n' := ScanKeys(response, hashes[1..], needed, parser, exts, breakOnFirst, t.found, acc'');
        n := n' + 1;
        KeyedStep(p.value.value, p.found, acc, acc'', hashes, n', breakOnFirst);
      }
    }
  }

  lemma KeyedStep(d: Dict<string, Option<CachedContainer>>, found: bool,
                  acc: Dict<string, Option<CachedContainer>>, acc'': Dict<string, Option<CachedContainer>>,
                  hashes: seq<string>, n': nat, breakOnFirst: bool)
    requires hashes != []
    requires forall x :: acc''.Contains(x) <==> acc.Contains(x) || x == hashes[0]
    requires KeyedUpTo(d, found, acc'', hashes[1..], n', breakOnFirst)
    ensures KeyedUpTo(d, found, acc, hashes, n' + 1, breakOnFirst)
  {
    assert hashes[..n' + 1] == [hashes[0]] + hashes[1..][..n'];
    if n' + 1 < |hashes| {
      assert hashes[1..][n' - 1] == hashes[n'];
    }
  }

  /**
   * Which hashes get an entry in a `get_cached_containers` result: every hash up to and
   * including the one at which the scan stopped (that one with the empty entry), none after
   * it; a scan stops early only with `break_on_first` and the flag raised.
   */
  lemma ScanKeysPrefix(response: Response, hashes: seq<string>, needed: Option<Dict<int, seq<int>>>,
                       parser: TitleParser, exts: seq<string>, breakOnFirst: bool, found: bool)
    returns (n: nat)
    ensures var p := CachedContainers(response, hashes, needed, parser, exts, breakOnFirst, found);
            p.value.Ok? ==>
              && n <= |hashes| && (hashes != [] ==> 1 <= n)
              && (forall h :: p.value.value.Contains(h) <==> h in hashes[..n])
              && (n < |hashes| ==> breakOnFirst && p.found && p.value.value.Get(hashes[n - 1]) == Some(None))
  {
    n := ScanKeys(Normalise(response), hashes, needed, parser, exts, breakOnFirst, found, Dict([]));
  }

  lemma {:induction false} ScanDistinct(response: Dict<string, Availability>, hashes: seq<string>,
                                        needed: Option<Dict<int, seq<int>>>, parser: TitleParser, exts: seq<string>,
                                        breakOnFirst: bool, found: bool, acc: Dict<string, Option<CachedContainer>>)
    requires DistinctKeys(acc.Keys())
    ensures var p := Scan(response, hashes, needed, parser, exts, breakOnFirst, found, acc);
            p.value.Ok? ==> DistinctKeys(p.value.value.Keys())
    decreases |hashes|
  {
    if hashes != [] {
      var h := hashes[0];
      var acc' := acc.Put(h, None);
      PutKeepsDistinct(acc, h, None);
      if !(breakOnFirst && found) {
        var cs := SortedContainers(ContainersOf(response.Get(h)));
        var t := TryContainers(needed, parser, exts, breakOnFirst, cs, None, found);
        if t.value.Ok? {
          PutKeepsDistinct(acc', h, t.value.value);
          ScanDistinct(response, hashes[1..], needed, parser, exts, breakOnFirst, t.found, acc'.Put(h, t.value.value));
        }
      }
    }
  }

  /**
   * What a worker hands back for its batch `hashes`: a dict holding each hash of the batch
   * at most once and no other hash.
   */
  lemma WorkerAnswersBatch(response: Response, hashes: seq<string>, needed: Option<Dict<int, seq<int>>>,
                           parser: TitleParser, exts: seq<string>, breakOnFirst: bool, found: bool)
    ensures var p := CachedContainers(response, hashes, needed, parser, exts, breakOnFirst, found);
            p.value.Ok? ==> Probe.Answers(Probe.Completed(p.value.value), hashes)
  {
    var p := CachedContainers(response, hashes, needed, parser, exts, breakOnFirst, found);
    if p.value.Ok? {
      var d := p.value.value;
      ScanDistinct(Normalise(response), hashes, needed, parser, exts, breakOnFirst, found, Dict([]));
      var n := ScanKeysPrefix(response, hashes, needed, parser, exts, breakOnFirst, found);
      forall h | h in d.Keys() ensures h in hashes {
        ContainsKey(d.items, h);
        assert h in hashes[..n];
      }
    }
  }

  /**
   * A list answer or a failed availability call leaves every hash uncached: the scan
   * succeeds, every entry is empty, the flag is untouched, and unless the flag already
   * stops it every hash gets an entry.
   */
  lemma {:induction false} UnavailableAllUncached(response: Response, hashes: seq<string>,
                                                  needed: Option<Dict<int, seq<int>>>, parser: TitleParser,
                                                  exts: seq<string>, breakOnFirst: bool, found: bool)
    requires !response.Availabilities?
    ensures var p := CachedContainers(response, hashes, needed, parser, exts, breakOnFirst, found);
            && p.value.Ok?
            && p.found == found
            && (forall h :: p.value.value.Contains(h) ==> p.value.value.Get(h) == Some(None))
            && (!(breakOnFirst && found) ==> forall h :: h in hashes ==> p.value.value.Contains(h))
  {
    ScanNoOffers(Normalise(response), hashes, needed, parser, exts, breakOnFirst, found, Dict([]));
    var n := ScanKeysPrefix(response, hashes, needed, parser, exts, breakOnFirst, found);
    if n == |hashes| {
      assert hashes[..n] == hashes;
    }
  }

  lemma {:induction false} ScanNoOffers(response: Dict<string, Availability>, hashes: seq<string>,
                                        needed: Option<Dict<int, seq<int>>>, parser: TitleParser, exts: seq<string>,
                                        breakOnFirst: bool, found: bool, acc: Dict<string, Option<CachedContainer>>)
    requires forall h :: !response.Contains(h)
    requires forall h :: acc.Contains(h) ==> acc.Get(h) == Some(None)
    ensures var p := Scan(response, hashes, needed, parser, exts, breakOnFirst, found, acc);
            && p.value.Ok?
            && p.found == found
            && forall h :: p.value.value.Contains(h) ==> p.value.value.Get(h) == Some(None)
    decreases |hashes|
  {
    if hashes != [] {
      var h := hashes[0];
      var acc' := acc.Put(h, None);
      AllNone(acc, h);
      if !(breakOnFirst && found) {
        assert !response.Contains(h);
        AllNone(acc', h);
        ScanNoOffers(response, hashes[1..], needed, parser, exts, breakOnFirst, found, acc'.Put(h, None));
      }
    }
  }

  /** Storing the empty entry keeps every entry empty. */
  lemma AllNone(acc: Dict<string, Option<CachedContainer>>, h: string)
    requires forall x :: acc.Contains(x) ==> acc.Get(x) == Some(None)
    ensures forall x :: acc.Put(h, None).Contains(x) ==> acc.Put(h, None).Get(x) == Some(None)
  {
    forall x | acc.Put(h, None).Contains(x) ensures acc.Put(h, None).Get(x) == Some(None) {
      if x != h {
        assert acc.Contains(x);
      }
    }
  }

  /** An entry holds a match of one of its hash's offered containers that passed `all_files_valid`. */
  ghost predicate Offered(cs: seq<Container>, exts: seq<string>, e: Option<CachedContainer>) {
    e.Some? ==> e.value.allFiles in cs && AllFilesValid(e.value.allFiles, exts) && e.value.matchedFiles != map[]
  }

  lemma {:induction false} TryContainersOffered(needed: Option<Dict<int, seq<int>>>, parser: TitleParser,
                                                exts: seq<string>, breakOnFirst: bool, all: seq<Container>,
                                                cs: seq<Container>, entry: Option<CachedContainer>, found: bool)
    requires forall c :: c in cs ==> c in all
    requires Offered(all, exts, entry)
    ensures var t := TryContainers(needed, parser, exts, breakOnFirst, cs, entry, found);
            t.value.Ok? ==> Offered(all, exts, t.value.value)
    decreases |cs|
  {
    if cs != [] && !(breakOnFirst && found) {
      assert cs[0] in all;
      if AllFilesValid(cs[0], exts) {
        var g := GetCachedContainer(needed, cs[0], parser, breakOnFirst && found);
        if g.Ok? {
          TryContainersOffered(needed, parser, exts, breakOnFirst, all, cs[1..], g.value, found || g.value.Some?);
        }
      } else {
        TryContainersOffered(needed, parser, exts, breakOnFirst, all, cs[1..], entry, found);
      }
    }
  }

  lemma {:induction false} ScanOffered(response: Dict<string, Availability>, hashes: seq<string>,
                                       needed: Option<Dict<int, seq<int>>>, parser: TitleParser, exts: seq<string>,
                                       breakOnFirst: bool, found: bool, acc: Dict<string, Option<CachedContainer>>)
    requires forall h :: acc.Contains(h) ==> Offered(ContainersOf(response.Get(h)), exts, acc.Get(h).value)
    ensures var p := Scan(response, hashes, needed, parser, exts, breakOnFirst, found, acc);
            p.value.Ok? ==>
              forall h :: p.value.value.Contains(h) ==> Offered(ContainersOf(response.Get(h)), exts, p.value.value.Get(h).value)
    decreases |hashes|
  {
    if hashes != [] {
      var h := hashes[0];
      var acc' := acc.Put(h, None);
      assert forall x :: acc'.Contains(x) ==> Offered(ContainersOf(response.Get(x)), exts, acc'.Get(x).value) by {
        forall x | acc'.Contains(x) ensures Offered(ContainersOf(response.Get(x)), exts, acc'.Get(x).value) {
          if x != h {
            assert acc.Get(x).Some?;
          }
        }
      }
      if !(breakOnFirst && found) {
        var offers := ContainersOf(response.Get(h));
        var cs := SortedContainers(offers);
        SortedContainersOrder(offers);
        forall c | c in cs ensures c in offers {
          assert c in multiset(cs);
        }
        TryContainersOffered(needed, parser, exts, breakOnFirst, offers, cs, None, found);
        var t := TryContainers(needed, parser, exts, breakOnFirst, cs, None, found);
        if t.value.Ok? {
          var acc'' := acc'.Put(h, t.value.value);
          forall x | acc''.Contains(x) ensures Offered(ContainersOf(response.Get(x)), exts, acc''.Get(x).value) {
            if x != h {
              assert acc'.Get(x).Some?;
            }
          }
          ScanOffered(response, hashes[1..], needed, parser, exts, breakOnFirst, t.found, acc'');
        }
      }
    }
  }

  /**
   * A cached entry is the file finder's match of one of the containers the response offered
   * for that hash, and that container passed `all_files_valid`.
   */
  lemma CachedEntryOffered(response: Response, hashes: seq<string>, needed: Option<Dict<int, seq<int>>>,
                           parser: TitleParser, exts: seq<string>, breakOnFirst: bool, found: bool, h: string)
    ensures var p := CachedContainers(response, hashes, needed, parser, exts, breakOnFirst, found);
            p.value.Ok? && p.value.value.Get(h).Some? && p.value.value.Get(h).value.Some? ==>
              var c := p.value.value.Get(h).value.value;
              c.allFiles in ContainersOf(Normalise(response).Get(h)) &&
              AllFilesValid(c.allFiles, exts) && c.matchedFiles != map[]
  {
    ScanOffered(Normalise(response), hashes, needed, parser, exts, breakOnFirst, found, Dict([]));
  }

  /** The last container, in trying order, that passes `all_files_valid`. */
  function LastEligible(cs: seq<Container>, exts: seq<string>): (r: Option<Container>)
    ensures r.Some? ==> r.value in cs && AllFilesValid(r.value, exts)
  {
    if cs == [] then None
    else
      var rest := LastEligible(cs[1..], exts);
      if rest.Some? then rest else if AllFilesValid(cs[0], exts) then Some(cs[0]) else None
  }

  /**
   * Without `break_on_first` every eligible container overwrites the entry, so the file
   * finder's answer for the last eligible container is what stays (the previous entry when
   * none is eligible).
   */
  lemma {:induction false} LastEligibleWins(needed: Option<Dict<int, seq<int>>>, parser: TitleParser,
                                            exts: seq<string>, cs: seq<Container>,
                                            entry: Option<CachedContainer>, found: bool)
    ensures var t := TryContainers(needed, parser, exts, false, cs, entry, found);
            t.value.Ok? ==>
              t.value == match LastEligible(cs, exts)
                         case None => Ok(entry)
                         case Some(c) => GetCachedContainer(needed, c, parser, false)
    decreases |cs|
  {
    if cs != [] {
      if AllFilesValid(cs[0], exts) {
        var g := GetCachedContainer(needed, cs[0], parser, false);
        if g.Ok? {
          LastEligibleWins(needed, parser, exts, cs[1..], g.value, found || g.value.Some?);
        }
      } else {
        LastEligibleWins(needed, parser, exts, cs[1..], entry, found);
      }
    }
  }

  /**
   * With `break_on_first`, the first eligible container the file finder matches ends the
   * loop: its match is the entry, the flag is raised, and later containers are not looked at.
   */
  lemma {:induction false} FirstMatchStops(needed: Option<Dict<int, seq<int>>>, parser: TitleParser,
                                           exts: seq<string>, before: seq<Container>, c: Container,
                                           after: seq<Container>, entry: Option<CachedContainer>)
    requires forall b :: b in before && AllFilesValid(b, exts) ==> GetCachedContainer(needed, b, parser, false) == Ok(None)
    requires AllFilesValid(c, exts) && GetCachedContainer(needed, c, parser, false).Ok?
    requires GetCachedContainer(needed, c, parser, false).value.Some?
    ensures TryContainers(needed, parser, exts, true, before + [c] + after, entry, false)
         == Pass(GetCachedContainer(needed, c, parser, false), true)
    decreases |before|
  {
    var cs := before + [c] + after;
    if before == [] {
      assert cs[0] == c && cs[1..] == after;
    } else {
      assert cs[0] == before[0] && cs[1..] == before[1..] + [c] + after;
      var next := if AllFilesValid(before[0], exts) then None else entry;
      FirstMatchStops(needed, parser, exts, before[1..], c, after, next);
    }
  }

  // ---------------------------------------------------------------------------
  // The downloader

  class RealDebridDownloader {
    /** Whether `validate` accepted the settings and account (a remote check, given here). */
    const initialized: bool
    /** Hashes of the torrents already on the account. */
    var existingHashes: seq<string>

    constructor (initialized: bool, existing: seq<string>)
      ensures this.initialized == initialized && existingHashes == existing
    {
      this.initialized := initialized;
      existingHashes := existing;
    }

    /**
     * `download_cached` given what `add_torrent` returned: an id adds the hash to the
     * account's hashes and is returned; no id raises and changes nothing.
     */
    method DownloadCached(infohash: string, added: Option<string>) returns (r: Result<string>)
      modifies this
      ensures added.Some? && added.value != "" ==>
                r == Ok(added.value) && existingHashes == old(existingHashes) + [infohash]
      ensures !(added.Some? && added.value != "") ==>
                r == Err(TorrentNotAdded) && existingHashes == old(existingHashes)
    {
      if added.Some? && added.value != "" {
        existingHashes := existingHashes + [infohash];
        r := Ok(added.value);
      } else {
        r := Err(TorrentNotAdded);
      }
    }

    /**
     * `get_cached_containers` (and `process_hashes`, which only calls it) over the given
     * availability response, sharing the stop flag `bp` with the other workers.
     */
    method GetCachedContainers(hashes: seq<string>, response: Response, needed: Option<Dict<int, seq<int>>>,
                               parser: TitleParser, exts: seq<string>, bp: BreakPointer)
      returns (r: Result<Dict<string, Option<CachedContainer>>>)
      modifies bp
      ensures var p := CachedContainers(response, hashes, needed, parser, exts, bp.breakOnFirst, old(bp.found));
              r == p.value && bp.found == p.found
    {
      var data := Normalise(response);
      var cached: Dict<string, Option<CachedContainer>> := Dict([]);
      ghost var spec := Scan(data, hashes, needed, parser, exts, bp.breakOnFirst, bp.found, cached);
      var i := 0;
      while i < |hashes|
        invariant i <= |hashes|
        invariant spec == Scan(data, hashes[i..], needed, parser, exts, bp.breakOnFirst, bp.found, cached)
      {
        var next, done := Step(data, hashes[i..], needed, parser, exts, cached, bp);
        if done {
          return next;
        }
        assert hashes[i..][1..] == hashes[i + 1..];
        cached := next.value;
        i := i + 1;
      }
      assert hashes[i..] == [];
      r := Ok(cached);
    }

    /**
     * One turn of the loop, at the first of `rest`: the hash gets the empty entry; a raised
     * flag with `break_on_first` then breaks; otherwise its containers are tried in size
     * order. `done` says the loop ends with `r`.
     */
    method Step(data: Dict<string, Availability>, rest: seq<string>, needed: Option<Dict<int, seq<int>>>,
                parser: TitleParser, exts: seq<string>, cached: Dict<string, Option<CachedContainer>>, bp: BreakPointer)
      returns (r: Result<Dict<string, Option<CachedContainer>>>, done: bool)
      requires rest != []
      modifies bp
      ensures var before := Scan(data, rest, needed, parser, exts, bp.breakOnFirst, old(bp.found), cached);
              && (done ==> before == Pass(r, bp.found))
              && (!done ==> r.Ok? && before == Scan(data, rest[1..], needed, parser, exts, bp.breakOnFirst, bp.found, r.value))
    {
      var infohash := rest[0];
      var acc := cached.Put(infohash, None);
      if bp.Stop() {
        return Ok(acc), true;
      }
      var containers := SortedContainers(ContainersOf(data.Get(infohash)));
      var entry := TryEach(containers, needed, parser, exts, bp);
      if entry.Err? {
        return Err(entry.error), true;
      }
      r, done := Ok(acc.Put(infohash, entry.value)), false;
    }

    /** The loop over one hash's containers, already in size order. */
    method TryEach(containers: seq<Container>, needed: Option<Dict<int, seq<int>>>, parser: TitleParser,
                   exts: seq<string>, bp: BreakPointer)
      returns (r: Result<Option<CachedContainer>>)
      modifies bp
      ensures var p := TryContainers(needed, parser, exts, bp.breakOnFirst, containers, None, old(bp.found));
              r == p.value && bp.found == p.found
    {
      var entry: Option<CachedContainer> := None;
      var j := 0;
      while j < |containers|
        invariant j <= |containers|
        invariant TryContainers(needed, parser, exts, bp.breakOnFirst, containers, None, old(bp.found))
               == TryContainers(needed, parser, exts, bp.breakOnFirst, containers[j..], entry, bp.found)
      {
        assert containers[j..][0] == containers[j] && containers[j..][1..] == containers[j + 1..];
        if bp.Stop() {
          break;
        }
        if AllFilesValid(containers[j], exts) {
          var result := GetCachedContainer(needed, containers[j], parser, bp.Stop());
          if result.Err? {
            return Err(result.error);
          }
          entry := result.value;
          if entry.Some? {
            bp.found := true;
            if bp.breakOnFirst {
              break;
            }
          }
        }
        j := j + 1;
      }
      r := Ok(entry);
    }
  }
}
