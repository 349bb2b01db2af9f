/**
 * The All-Debrid backend (src/program/downloaders/alldebrid.py): flattening a magnet's file
 * listing, choosing a cached container per probed hash from an instant-availability answer,
 * and recording the hashes it adds to the account.
 */
module AllDebrid {
  import opened Common
  import opened Dicts
  import opened Files
  import opened Text
  import opened Shared
  import RealDebrid
  import Probe

  // ---------------------------------------------------------------------------
  // File listings

  /**
   * One entry of a magnet's "files" listing: its name "n", its size "s" as `int()` reads it
   * (None when that raises ValueError), and its sub-entries "e".
   */
  datatype FileEntry = FileEntry(name: Option<string>, size: Option<int>, entries: seq<FileEntry>)

  /** What `walk_alldebrid_files` yields for one entry with a size. */
  function Yielded(f: FileEntry): (string, int)
    requires f.size.Some?
  {
    (f.name.GetOr("UNKNOWN"), f.size.value)
  }

  /**
   * The pairs `walk_alldebrid_files` yields: one per top-level entry with a size, in order.
   * Directory entries are set aside and their walk is never consumed, so they yield nothing.
   */
  function Walked(files: seq<FileEntry>): (r: seq<(string, int)>)
    ensures |r| <= |files|
  {
    if files == [] then []
    else
      var last := files[|files| - 1];
      Walked(files[..|files| - 1]) + (if last.size.Some? then [Yielded(last)] else [])
  }

  /** The walk as its generator runs: sized entries are yielded, the others collected as directories. */
  method WalkAllDebridFiles(files: seq<FileEntry>) returns (walked: seq<(string, int)>)
    ensures walked == Walked(files)
  {
    walked := [];
    var dirs: seq<FileEntry> := [];
    for i := 0 to |files|
      invariant walked == Walked(files[..i])
    {
      assert files[..i + 1][..i] == files[..i];
      var f := files[i];
      if f.size.Some? {
        walked := walked + [(f.name.GetOr("UNKNOWN"), f.size.value)];
      } else {
        dirs := dirs + [f];
      }
    }
    assert files[..|files|] == files;
  }

  /**
   * The walk reads only the top level: two listings whose entries agree in name and size
   * yield the same pairs, whatever their directories contain.
   */
  lemma {:induction false} NestedEntriesIgnored(a: seq<FileEntry>, b: seq<FileEntry>)
    requires |a| == |b|
    requires forall i :: 0 <= i < |a| ==> a[i].name == b[i].name && a[i].size == b[i].size
    ensures Walked(a) == Walked(b)
  {
    if a != [] {
      NestedEntriesIgnored(a[..|a| - 1], b[..|b| - 1]);
    }
  }

  /** A listing of directories only yields nothing. */
  lemma {:induction false} DirectoriesYieldNothing(files: seq<FileEntry>)
    requires forall i :: 0 <= i < |files| ==> files[i].size.None?
    ensures Walked(files) == []
  {
    if files != [] {
      DirectoriesYieldNothing(files[..|files| - 1]);
    }
  }

  /**
   * `all_files_valid`: every walked name, lower-cased, has no "sample" and its text after
   * the last dot is one of the video extensions. A listing that yields no file passes; with
   * no extension, any yielded file fails.
   */
  predicate AllFilesValid(files: seq<FileEntry>, exts: seq<string>)
    ensures Walked(files) == [] ==> AllFilesValid(files, exts)
    ensures exts == [] && Walked(files) != [] ==> !AllFilesValid(files, exts)
  {
    assert Walked(files) != [] ==> Walked(files)[0] in Walked(files);
    forall p :: p in Walked(files) ==> !HasSubstring(Lower(p.0), "sample") && AfterLastDot(Lower(p.0)) in exts
  }

  /** The container handed to the file finder: position i holds the i-th walked file. */
  function ToContainer(walked: seq<(string, int)>): (c: Container)
    ensures |c| == |walked|
    ensures forall i :: 0 <= i < |c| ==> c[i] == DebridFile(walked[i].0, walked[i].1)
  {
    seq(|walked|, i requires 0 <= i < |walked| => DebridFile(walked[i].0, walked[i].1))
  }

  /**
   * Unlike Real-Debrid, the extension test ignores case: an upper-case extension passes here
   * and fails there.
   */
  lemma UpperCaseExtension()
    ensures AllFilesValid([FileEntry(Some("Movie.MKV"), Some(1), [])], ["mkv"])
    ensures !RealDebrid.AllFilesValid([DebridFile("Movie.MKV", 1)], ["mkv"])
  {
    UpperAcceptedHere();
    UpperRejectedThere();
  }

  lemma UpperAcceptedHere()
    ensures AllFilesValid([FileEntry(Some("Movie.MKV"), Some(1), [])], ["mkv"])
  {
    var files := [FileEntry(Some("Movie.MKV"), Some(1), [])];
    assert Walked(files) == [("Movie.MKV", 1)] by {
      assert files[..0] == [];
    }
    LowerNameAccepted();
  }

  lemma UpperRejectedThere()
    ensures !RealDebrid.AllFilesValid([DebridFile("Movie.MKV", 1)], ["mkv"])
  {
    var name := "Movie.MKV";
    assert name[|name| - 4..] != ".mkv" by {
      assert name[|name| - 4..][1] == 'M';
    }
    assert !EndsWith(name, "." + "mkv");
    assert DebridFile(name, 1) in [DebridFile(name, 1)];
  }

  lemma LowerNameAccepted()
    ensures !HasSubstring(Lower("Movie.MKV"), "sample") && AfterLastDot(Lower("Movie.MKV")) == "mkv"
  {
    LowerMovie();
    var lower := "movie.mkv";
    assert lower[5] == '.' && lower[6..] == "mkv";
    AfterDotAt(lower, 5);
    assert 's' !in lower;
    MissingFirstChar(lower, "sample");
  }

  lemma LowerMovie()
    ensures Lower("Movie.MKV") == "movie.mkv"
  {
    var upper, lower := "Movie.MKV", Lower("Movie.MKV");
    assert LowerChar('M') == 'm' && LowerChar('K') == 'k' && LowerChar('V') == 'v';
    forall i | 0 <= i < 9 ensures lower[i] == "movie.mkv"[i] {
      assert lower[i] == LowerChar(upper[i]);
    }
  }

  /**
   * Where names are lower case and carry a dot, and extensions carry none, the two backends'
   * validity tests accept the same containers: they part only on case and on dot-free names.
   */
  lemma ValidityAgrees(files: seq<FileEntry>, exts: seq<string>)
    requires forall e :: e in exts ==> '.' !in e
    requires forall p :: p in Walked(files) ==> Lower(p.0) == p.0 && '.' in p.0
    ensures AllFilesValid(files, exts) <==> RealDebrid.AllFilesValid(ToContainer(Walked(files)), exts)
  {
    var w := Walked(files);
    var c := ToContainer(w);
    if AllFilesValid(files, exts) {
      forall f | f in c
        ensures RealDebrid.ValidFile(f, exts)
      {
        var i :| 0 <= i < |c| && c[i] == f;
        assert w[i] in w;
        var ext := AfterLastDot(w[i].0);
        EndsWithDotExt(w[i].0, ext);
      }
    }
    if RealDebrid.AllFilesValid(c, exts) {
      forall p | p in w ensures !HasSubstring(Lower(p.0), "sample") && AfterLastDot(Lower(p.0)) in exts {
        var i :| 0 <= i < |w| && w[i] == p;
        assert c[i] in c && RealDebrid.ValidFile(c[i], exts);
        var ext :| ext in exts && EndsWith(c[i].filename, "." + ext) && !HasSubstring(Lower(c[i].filename), "sample");
        EndsWithDotExt(p.0, ext);
      }
    }
  }

  /**
   * A name without a dot is its own extension here: a file called "mkv" passes here and
   * fails there.
   */
  lemma DotlessName()
    ensures AllFilesValid([FileEntry(Some("mkv"), Some(1), [])], ["mkv"])
    ensures !RealDebrid.AllFilesValid([DebridFile("mkv", 1)], ["mkv"])
  {
    DotlessAcceptedHere();
    DotlessRejectedThere();
  }

  lemma DotlessAcceptedHere()
    ensures AllFilesValid([FileEntry(Some("mkv"), Some(1), [])], ["mkv"])
  {
    DotlessWalked();
    DotlessLower();
    OneFileValid([FileEntry(Some("mkv"), Some(1), [])], ["mkv"], "mkv", 1);
  }

  lemma OneFileValid(files: seq<FileEntry>, exts: seq<string>, name: string, size: int)
    requires Walked(files) == [(name, size)]
    requires !HasSubstring(Lower(name), "sample") && AfterLastDot(Lower(name)) in exts
    ensures AllFilesValid(files, exts)
  {
  }

  lemma DotlessWalked()
    ensures Walked([FileEntry(Some("mkv"), Some(1), [])]) == [("mkv", 1)]
  {
    var files := [FileEntry(Some("mkv"), Some(1), [])];
    assert files[..0] == [];
  }

  lemma DotlessLower()
    ensures !HasSubstring(Lower("mkv"), "sample") && AfterLastDot(Lower("mkv")) == "mkv"
  {
    var lower := Lower("mkv");
    assert lower == "mkv" by {
      assert LowerChar('m') == 'm' && LowerChar('k') == 'k' && LowerChar('v') == 'v';
      forall i | 0 <= i < 3 ensures lower[i] == "mkv"[i] {
        assert lower[i] == LowerChar("mkv"[i]);
      }
    }
    MissingFirstChar(lower, "sample");
    NoDotWhole(lower);
  }

  lemma DotlessRejectedThere()
    ensures !RealDebrid.AllFilesValid([DebridFile("mkv", 1)], ["mkv"])
  {
    assert !EndsWith("mkv", "." + "mkv");
    assert DebridFile("mkv", 1) in [DebridFile("mkv", 1)];
  }

  // ---------------------------------------------------------------------------
  // The availability answer

  /** One magnet of the answer: its "hash" and its "files" listing (None when absent). */
  datatype Magnet = Magnet(hash: Option<string>, files: Option<seq<FileEntry>>)

  /** The magnets of `magnet/instant`, or a failed call (which hands back the exception). */
  datatype Response = Magnets(magnets: seq<Magnet>) | CallFailed

  /** `{m.get("hash"): m for m in response}`: a later magnet with the same hash replaces an earlier one. */
  function MagnetIndex(magnets: seq<Magnet>): Dict<Option<string>, Magnet> {
    if magnets == [] then Dict([])
    else
      var last := magnets[|magnets| - 1];
      MagnetIndex(magnets[..|magnets| - 1]).Put(last.hash, last)
  }

  /** The index after one more magnet: that magnet for its hash, the earlier index otherwise. */
  lemma MagnetIndexStep(magnets: seq<Magnet>, h: Option<string>)
    requires magnets != []
    ensures var last := magnets[|magnets| - 1];
            MagnetIndex(magnets).Get(h) == if h == last.hash then Some(last) else MagnetIndex(magnets[..|magnets| - 1]).Get(h)
  {
  }

  /** A hash is in the index exactly when some magnet of the answer carries it. */
  lemma MagnetIndexHas(magnets: seq<Magnet>, h: Option<string>)
    ensures MagnetIndex(magnets).Get(h).Some? <==> exists i :: 0 <= i < |magnets| && magnets[i].hash == h
  {
    if MagnetIndex(magnets).Get(h).Some? {
      var i := IndexedHashOccurs(magnets, h);
    }
    if exists i :: 0 <= i < |magnets| && magnets[i].hash == h {
      var i :| 0 <= i < |magnets| && magnets[i].hash == h;
      OccurringHashIndexed(magnets, h, i);
    }
  }

  lemma {:induction false} IndexedHashOccurs(magnets: seq<Magnet>, h: Option<string>) returns (i: nat)
    requires MagnetIndex(magnets).Get(h).Some?
    ensures i < |magnets| && magnets[i].hash == h
  {
    if magnets != [] && h == magnets[|magnets| - 1].hash {
      i := |magnets| - 1;
    } else if magnets != [] {
      var init := magnets[..|magnets| - 1];
      MagnetIndexStep(magnets, h);
      i := IndexedHashOccurs(init, h);
      assert magnets[i] == init[i];
    }
  }

  lemma {:induction false} OccurringHashIndexed(magnets: seq<Magnet>, h: Option<string>, i: nat)
    requires i < |magnets| && magnets[i].hash == h
    ensures MagnetIndex(magnets).Get(h).Some?
  {
    var init := magnets[..|magnets| - 1];
    MagnetIndexStep(magnets, h);
    if h != magnets[|magnets| - 1].hash {
      assert magnets[i] == init[i];
      OccurringHashIndexed(init, h, i);
    }
  }

  /** For a hash, the index holds the last magnet of the answer that carries it. */
  lemma {:induction false} MagnetIndexLastWins(magnets: seq<Magnet>, h: Option<string>, i: nat)
    requires i < |magnets| && magnets[i].hash == h
    requires forall j :: i < j < |magnets| ==> magnets[j].hash != h
    ensures MagnetIndex(magnets).Get(h) == Some(magnets[i])
  {
    var n := |magnets| - 1;
    MagnetIndexStep(magnets, h);
    if i < n {
      var init := magnets[..n];
      assert magnets[n].hash != h;
      assert init[i] == magnets[i];
      forall j | i < j < |init| ensures init[j].hash != h {
        assert init[j] == magnets[j];
      }
      MagnetIndexLastWins(init, h, i);
    }
  }

  /** `magnets.get(infohash, {}).get("files", [])` */
  function FilesOf(index: Dict<Option<string>, Magnet>, h: string): seq<FileEntry> {
    match index.Get(Some(h))
    case None => []
    case Some(m) => m.files.GetOr([])
  }

  // ---------------------------------------------------------------------------
  // The scan, as functions

  /**
   * The entry a hash ends up with: the empty entry unless its magnet lists files that all
   * pass `all_files_valid`, in which case the file finder's answer for the walked container.
   */
  function HashEntry(index: Dict<Option<string>, Magnet>, h: string, needed: Option<Dict<int, seq<int>>>,
                     parser: TitleParser, exts: seq<string>, stop: bool): Result<Option<CachedContainer>>
  {
    var files := FilesOf(index, h);
    if files == [] || !AllFilesValid(files, exts) then Ok(None)
    else GetCachedContainer(needed, ToContainer(Walked(files)), parser, stop)
  }

  /**
   * The loop from hash `hashes[0]` on, with `acc` built so far: a raised flag with
   * `break_on_first` ends the scan before the hash gets an entry; otherwise the hash gets the
   * empty entry, then its file finder answer if it has one; a match raises the flag.
   */
  function Scan(index: Dict<Option<string>, Magnet>, hashes: seq<string>, needed: Option<Dict<int, seq<int>>>,
                parser: TitleParser, exts: seq<string>, breakOnFirst: bool, found: bool,
                acc: Dict<string, Option<CachedContainer>>)
    : Pass<Dict<string, Option<CachedContainer>>>
    decreases |hashes|
  {
    if hashes == [] || (breakOnFirst && found) then Pass(Ok(acc), found)
    else
      var h := hashes[0];
      match HashEntry(index, h, needed, parser, exts, breakOnFirst && found)
      case Err(e) => Pass(Err(e), found)
      case Ok(entry) =>
        Scan(index, hashes[1..], needed, parser, exts, breakOnFirst, found || entry.Some?, acc.Put(h, None).Put(h, entry))
  }

  /** One step of the scan over a hash: its entry, or the exception it raises. */
  lemma ScanUnfold(index: Dict<Option<string>, Magnet>, hashes: seq<string>, needed: Option<Dict<int, seq<int>>>,
                   parser: TitleParser, exts: seq<string>, breakOnFirst: bool, found: bool,
                   acc: Dict<string, Option<CachedContainer>>)
    requires hashes != [] && !(breakOnFirst && found)
    ensures var r := HashEntry(index, hashes[0], needed, parser, exts, false);
            Scan(index, hashes, needed, parser, exts, breakOnFirst, found, acc)
              == if r.Err? then Pass(Err(r.error), found)
                 else Scan(index, hashes[1..], needed, parser, exts, breakOnFirst, found || r.value.Some?,
                           acc.Put(hashes[0], None).Put(hashes[0], r.value))
  {
  }

  /** The scan ends with what it has once the hashes run out or the raised flag stops it. */
  lemma ScanEnds(index: Dict<Option<string>, Magnet>, hashes: seq<string>, needed: Option<Dict<int, seq<int>>>,
                 parser: TitleParser, exts: seq<string>, breakOnFirst: bool, found: bool,
                 acc: Dict<string, Option<CachedContainer>>)
    requires hashes == [] || (breakOnFirst && found)
    ensures Scan(index, hashes, needed, parser, exts, breakOnFirst, found, acc) == Pass(Ok(acc), found)
  {
  }

  /** `get_cached_containers`: the dict it returns (or the exception) and the final flag. */
  function CachedContainers(response: Response, hashes: seq<string>, needed: Option<Dict<int, seq<int>>>,
                            parser: TitleParser, exts: seq<string>, breakOnFirst: bool, found: bool)
    : Pass<Dict<string, Option<CachedContainer>>>
  {
    match response
    case CallFailed => Pass(Err(AvailabilityFailed), found)
    case Magnets(ms) => Scan(MagnetIndex(ms), hashes, needed, parser, exts, breakOnFirst, found, Dict([]))
  }

  // ---------------------------------------------------------------------------
  // Properties of the scan

  /**
   * The scan's dict has an entry exactly for the keys of `acc` and the first `n` hashes; when
   * `n` falls short of all hashes, the flag stopped the scan at hash `n`, before its entry.
   */
  ghost predicate KeyedBefore(d: Dict<string, Option<CachedContainer>>, found: bool,
                              acc: Dict<string, Option<CachedContainer>>, hashes: seq<string>, n: nat, breakOnFirst: bool) {
    && n <= |hashes|
    && (forall h :: d.Contains(h) <==> acc.Contains(h) || h in hashes[..n])
    && (n < |hashes| ==> breakOnFirst && found)
  }

  lemma {:induction false} ScanKeys(index: Dict<Option<string>, Magnet>, hashes: seq<string>,
                                    needed: Option<Dict<int, seq<int>>>, parser: TitleParser, exts: seq<string>,
                                    breakOnFirst: bool, found: bool, acc: Dict<string, Option<CachedContainer>>)
    returns (n: nat)
    ensures var p := Scan(index, hashes, needed, parser, exts, breakOnFirst, found, acc);
            p.value.Ok? ==> KeyedBefore(p.value.value, p.found, acc, hashes, n, breakOnFirst)
    decreases |hashes|
  {
    n := 0;
    var p := Scan(index, hashes, needed, parser, exts, breakOnFirst, found, acc);
    if hashes != [] && !(breakOnFirst && found) && p.value.Ok? {
      var h := hashes[0];
      var r := HashEntry(index, h, needed, parser, exts, false);
      assert r.Ok?;
      var acc'' := acc.Put(h, None).Put(h, r.value);
      assert p == Scan(index, hashes[1..], needed, parser, exts, breakOnFirst, found || r.value.Some?, acc'');
      RealDebrid.PutContains(acc, h, None);
      RealDebrid.PutContains(acc.Put(h, None), h, r.value);
      var n' := ScanKeys(index, hashes[1..], needed, parser, exts, breakOnFirst, found || r.value.Some?, acc'');
      n := n' + 1;
      KeyedBeforeStep(p.value.value, p.found, acc, acc'', hashes, n', breakOnFirst);
    }
  }

  lemma KeyedBeforeStep(d: Dict<string, Option<CachedContainer>>, found: bool,
                        acc: Dict<string, Option<CachedContainer>>, acc'': Dict<string, Option<CachedContainer>>,
                        hashes: seq<string>, n': nat, breakOnFirst: bool)
    requires hashes != []
    requires forall x :: acc''.Contains(x) <==> acc.Contains(x) || x == hashes[0]
    requires KeyedBefore(d, found, acc'', hashes[1..], n', breakOnFirst)
    ensures KeyedBefore(d, found, acc, hashes, n' + 1, breakOnFirst)
  {
    assert hashes[..n' + 1] == [hashes[0]] + hashes[1..][..n'];
  }

  /**
   * Which hashes get an entry in a `get_cached_containers` result: the hashes before the one
   * at which the raised flag stopped the scan, that one and later ones not (unless they
   * occurred before); only `break_on_first` with the flag raised stops it.
   */
  lemma ScanKeysBeforeStop(response: Response, hashes: seq<string>, needed: Option<Dict<int, seq<int>>>,
                           parser: TitleParser, exts: seq<string>, breakOnFirst: bool, found: bool)
    returns (n: nat)
    ensures var p := CachedContainers(response, hashes, needed, parser, exts, breakOnFirst, found);
            p.value.Ok? ==>
              && n <= |hashes|
              && (forall h :: p.value.value.Contains(h) <==> h in hashes[..n])
              && (n < |hashes| ==> breakOnFirst && p.found)
  {
    n := 0;
    if response.Magnets? {
      n := ScanKeys(MagnetIndex(response.magnets), hashes, needed, parser, exts, breakOnFirst, found, Dict([]));
    }
  }

  lemma {:induction false} ScanDistinct(index: Dict<Option<string>, Magnet>, hashes: seq<string>,
                                        needed: Option<Dict<int, seq<int>>>, parser: TitleParser, exts: seq<string>,
                                        breakOnFirst: bool, found: bool, acc: Dict<string, Option<CachedContainer>>)
    requires DistinctKeys(acc.Keys())
    ensures var p := Scan(index, hashes, needed, parser, exts, breakOnFirst, found, acc);
            p.value.Ok? ==> DistinctKeys(p.value.value.Keys())
    decreases |hashes|
  {
    if hashes != [] && !(breakOnFirst && found) {
      var h := hashes[0];
      var r := HashEntry(index, h, needed, parser, exts, false);
      if r.Ok? {
        PutKeepsDistinct(acc, h, None);
        PutKeepsDistinct(acc.Put(h, None), h, r.value);
        ScanDistinct(index, hashes[1..], needed, parser, exts, breakOnFirst, found || r.value.Some?,
                     acc.Put(h, None).Put(h, r.value));
      }
    }
  }

  /**
   * What a worker hands back for its batch `hashes`: a dict holding each hash of the batch
   * at most once and no other hash.
   */
  lemma WorkerAnswersBatch(response: Response, hashes: seq<string>, needed: Option<Dict<int, seq<int>>>,
                           parser: TitleParser, exts: seq<string>, breakOnFirst: bool, found: bool)
    ensures var p := CachedContainers(response, hashes, needed, parser, exts, breakOnFirst, found);
            p.value.Ok? ==> Probe.Answers(Probe.Completed(p.value.value), hashes)
  {
    var p := CachedContainers(response, hashes, needed, parser, exts, breakOnFirst, found);
    if p.value.Ok? {
      var d := p.value.value;
      ScanDistinct(MagnetIndex(response.magnets), hashes, needed, parser, exts, breakOnFirst, found, Dict([]));
      var n := ScanKeysBeforeStop(response, hashes, needed, parser, exts, breakOnFirst, found);
      forall h | h in d.Keys() ensures h in hashes {
        ContainsKey(d.items, h);
        assert h in hashes[..n];
      }
    }
  }

  /**
   * The entry of hash `h` agrees with its magnet's listing: empty when the magnet lists no
   * files, and a match only of the walked container of a listing that passed `all_files_valid`.
   */
  ghost predicate EntryFits(index: Dict<Option<string>, Magnet>, exts: seq<string>, h: string, e: Option<CachedContainer>) {
    var files := FilesOf(index, h);
    && (files == [] ==> e.None?)
    && (e.Some? ==> e.value.allFiles == ToContainer(Walked(files)) && AllFilesValid(files, exts) && e.value.matchedFiles != map[])
  }

  lemma {:induction false} ScanEntriesFit(index: Dict<Option<string>, Magnet>, hashes: seq<string>,
                                          needed: Option<Dict<int, seq<int>>>, parser: TitleParser, exts: seq<string>,
                                          breakOnFirst: bool, found: bool, acc: Dict<string, Option<CachedContainer>>)
    requires AllFit(index, exts, acc)
    ensures var p := Scan(index, hashes, needed, parser, exts, breakOnFirst, found, acc);
            p.value.Ok? ==> AllFit(index, exts, p.value.value)
    decreases |hashes|
  {
    var p := Scan(index, hashes, needed, parser, exts, breakOnFirst, found, acc);
    if hashes != [] && !(breakOnFirst && found) {
      var h := hashes[0];
      var r := HashEntry(index, h, needed, parser, exts, false);
      if r.Ok? {
        var acc'' := acc.Put(h, None).Put(h, r.value);
        assert p == Scan(index, hashes[1..], needed, parser, exts, breakOnFirst, found || r.value.Some?, acc'');
        HashEntryFits(index, h, needed, parser, exts);
        PutFits(index, exts, acc, h, r.value);
        ScanEntriesFit(index, hashes[1..], needed, parser, exts, breakOnFirst, found || r.value.Some?, acc'');
      }
    }
  }

  ghost predicate AllFit(index: Dict<Option<string>, Magnet>, exts: seq<string>, d: Dict<string, Option<CachedContainer>>) {
    forall h :: d.Contains(h) ==> EntryFits(index, exts, h, d.Get(h).value)
  }

  lemma HashEntryFits(index: Dict<Option<string>, Magnet>, h: string, needed: Option<Dict<int, seq<int>>>,
                      parser: TitleParser, exts: seq<string>)
    ensures var r := HashEntry(index, h, needed, parser, exts, false);
            r.Ok? ==> EntryFits(index, exts, h, r.value)
  {
  }

  lemma PutFits(index: Dict<Option<string>, Magnet>, exts: seq<string>, acc: Dict<string, Option<CachedContainer>>,
                h: string, e: Option<CachedContainer>)
    requires AllFit(index, exts, acc)
    requires EntryFits(index, exts, h, e)
    ensures AllFit(index, exts, acc.Put(h, None).Put(h, e))
  {
    var d := acc.Put(h, None).Put(h, e);
    forall x | d.Contains(x) ensures EntryFits(index, exts, x, d.Get(x).value) {
      if x != h {
        assert d.Get(x) == acc.Put(h, None).Get(x) == acc.Get(x);
      }
    }
  }

  /** The same for a whole `get_cached_containers` call; a failed availability call raises. */
  lemma EntriesFitListing(response: Response, hashes: seq<string>, needed: Option<Dict<int, seq<int>>>,
                          parser: TitleParser, exts: seq<string>, breakOnFirst: bool, found: bool)
    ensures response.CallFailed? ==>
              CachedContainers(response, hashes, needed, parser, exts, breakOnFirst, found) == Pass(Err(AvailabilityFailed), found)
    ensures var p := CachedContainers(response, hashes, needed, parser, exts, breakOnFirst, found);
            p.value.Ok? ==>
              forall h :: p.value.value.Contains(h) ==>
                EntryFits(MagnetIndex(response.magnets), exts, h, p.value.value.Get(h).value)
  {
    if response.Magnets? {
      ScanEntriesFit(MagnetIndex(response.magnets), hashes, needed, parser, exts, breakOnFirst, found, Dict([]));
    }
  }

  /** `get_torrent_names`: the status "filename", as both names; a missing key raises. */
  function GetTorrentNames(info: map<string, string>): (r: Result<(string, string)>)
    ensures r.Ok? <==> "filename" in info
    ensures r.Ok? ==> r.value.0 == r.value.1 == info["filename"]
  {
    if "filename" in info then Ok((info["filename"], info["filename"])) else Err(MissingKey)
  }

  // ---------------------------------------------------------------------------
  // The downloader

  class AllDebridDownloader {
    /** Whether `validate` accepted the settings and account (a remote check, given here). */
    const initialized: bool
    /** Hashes of the magnets already on the account. */
    var existingHashes: seq<string>

    constructor (initialized: bool, existing: seq<string>)
      ensures this.initialized == initialized && existingHashes == existing
    {
      this.initialized := initialized;
      existingHashes := existing;
    }

    /**
     * `download_cached` given the id `add_torrent` returned: a non-zero id adds the hash to
     * the account's hashes and is returned; no id raises and changes nothing.
     */
    method DownloadCached(infohash: string, added: Option<int>) returns (r: Result<int>)
      modifies this
      ensures added.Some? && added.value != 0 ==>
                r == Ok(added.value) && existingHashes == old(existingHashes) + [infohash]
      ensures !(added.Some? && added.value != 0) ==>
                r == Err(TorrentNotAdded) && existingHashes == old(existingHashes)
    {
      if added.Some? && added.value != 0 {
        existingHashes := existingHashes + [infohash];
        r := Ok(added.value);
      } else {
        r := Err(TorrentNotAdded);
      }
    }

    /**
     * `get_cached_containers` (and `process_hashes`, which only calls it) over the given
     * availability answer, sharing the stop flag `bp` with the other workers.
     */
    method GetCachedContainers(hashes: seq<string>, response: Response, needed: Option<Dict<int, seq<int>>>,
                               parser: TitleParser, exts: seq<string>, bp: BreakPointer)
      returns (r: Result<Dict<string, Option<CachedContainer>>>)
      modifies bp
      ensures var p := CachedContainers(response, hashes, needed, parser, exts, bp.breakOnFirst, old(bp.found));
              r == p.value && bp.found == p.found
    {
      if response.CallFailed? {
        return Err(AvailabilityFailed);
      }
      var magnets := MagnetIndex(response.magnets);
      var cached: Dict<string, Option<CachedContainer>> := Dict([]);
      ghost var spec := Scan(magnets, hashes, needed, parser, exts, bp.breakOnFirst, bp.found, cached);
      assert spec == CachedContainers(response, hashes, needed, parser, exts, bp.breakOnFirst, old(bp.found));
      var i := 0;
      while i < |hashes|
        invariant i <= |hashes|
        invariant spec == Scan(magnets, hashes[i..], needed, parser, exts, bp.breakOnFirst, bp.found, cached)
      {
        var next, done := Step(magnets, hashes[i..], needed, parser, exts, cached, bp);
        if done {
          return next;
        }
        assert hashes[i..][1..] == hashes[i + 1..];
        cached := next.value;
        i := i + 1;
      }
      ScanEnds(magnets, hashes[i..], needed, parser, exts, bp.breakOnFirst, bp.found, cached);
      r := Ok(cached);
    }

    /**
     * One turn of the loop, at the first of `rest`: a raised flag with `break_on_first`
     * breaks before the hash; otherwise the hash is visited, and a match under
     * `break_on_first` breaks after it. `done` says the loop ends with `r`.
     */
    method Step(magnets: Dict<Option<string>, Magnet>, rest: seq<string>, needed: Option<Dict<int, seq<int>>>,
                parser: TitleParser, exts: seq<string>, cached: Dict<string, Option<CachedContainer>>, bp: BreakPointer)
      returns (r: Result<Dict<string, Option<CachedContainer>>>, done: bool)
      requires rest != []
      modifies bp
      ensures var before := Scan(magnets, rest, needed, parser, exts, bp.breakOnFirst, old(bp.found), cached);
              && (done ==> before == Pass(r, bp.found))
              && (!done ==> r.Ok? && before == Scan(magnets, rest[1..], needed, parser, exts, bp.breakOnFirst, bp.found, r.value))
    {
      if bp.Stop() {
        ScanEnds(magnets, rest, needed, parser, exts, bp.breakOnFirst, bp.found, cached);
        return Ok(cached), true;
      }
      ScanUnfold(magnets, rest, needed, parser, exts, bp.breakOnFirst, bp.found, cached);
      r := Visit(magnets, rest[0], needed, parser, exts, cached, bp);
      if r.Err? {
        return r, true;
      }
      done := bp.Stop();
      if done {
        // the match of this hash raised the flag and `break_on_first` ends the loop
        ScanEnds(magnets, rest[1..], needed, parser, exts, bp.breakOnFirst, bp.found, r.value);
      }
    }

    /**
     * The loop body for one hash once the flag let it through: the empty entry first, then
     * the file finder's answer if the hash has valid files; a match raises the flag.
     */
    method Visit(magnets: Dict<Option<string>, Magnet>, infohash: string, needed: Option<Dict<int, seq<int>>>,
                 parser: TitleParser, exts: seq<string>, cached: Dict<string, Option<CachedContainer>>, bp: BreakPointer)
      returns (r: Result<Dict<string, Option<CachedContainer>>>)
      requires !bp.Stop()
      modifies bp
      ensures var e := HashEntry(magnets, infohash, needed, parser, exts, false);
              && (e.Err? ==> r == Err(e.error) && bp.found == old(bp.found))
              && (e.Ok? ==> r == Ok(cached.Put(infohash, None).Put(infohash, e.value))
                            && bp.found == (old(bp.found) || e.value.Some?))
    {
      var acc := cached.Put(infohash, None);
      var entry := EntryFor(magnets, infohash, needed, parser, exts, bp.Stop());
      if entry.Err? {
        return Err(entry.error);
      }
      acc := acc.Put(infohash, entry.value);
      if entry.value.Some? {
        bp.found := true;
      }
      r := Ok(acc);
    }

    /**
     * The body of the loop for one hash: look up its magnet's files, skip a hash without
     * files (`continue`), and ask the file finder when every walked file passes.
     */
    method EntryFor(magnets: Dict<Option<string>, Magnet>, infohash: string, needed: Option<Dict<int, seq<int>>>,
                    parser: TitleParser, exts: seq<string>, stop: bool)
      returns (r: Result<Option<CachedContainer>>)
      ensures r == HashEntry(magnets, infohash, needed, parser, exts, stop)
    {
      var files := FilesOf(magnets, infohash);
      if files == [] {
        return Ok(None);
      }
      if AllFilesValid(files, exts) {
        var walked := WalkAllDebridFiles(files);
        r := GetCachedContainer(needed, ToContainer(walked), parser, stop);
      } else {
        r := Ok(None);
      }
    }
  }
}
