/**
 * `Downloader.get_cached_streams` (src/program/downloaders/__init__.py): the candidate hashes
 * are probed in batches of five by worker threads, and the per-hash answers are folded, in
 * the order the workers finish, into the streams the downloader may use.
 *
 * The thread pool is not modelled: what it contributes is the order in which the batch
 * outcomes arrive, which is an input here.
 */
module Probe {
  import opened Common
  import opened Dicts
  import opened Files
  import opened Sorting
  import Lists

  /** `speed_mode` (prefer speed over quality) and `break_on_first`. */
  datatype Mode = Mode(speedMode: bool, breakOnFirst: bool)

  /** What one worker's future yields: its dict from hash to container, or an exception. */
  datatype BatchOutcome = Completed(containers: Dict<string, Option<CachedContainer>>) | Raised

  /** One per-hash answer: the hash and its container (None for `{}`). */
  type Event = (string, Option<CachedContainer>)

  /** The fold state: `priority_index` and `results`. */
  datatype Scan = Scan(pointer: nat, results: seq<CachedStream>)

  /** After an answer: go on, return early with a selection, or raise. */
  datatype Step = Next(scan: Scan) | Stop(selected: seq<CachedStream>) | Crash(error: Error)

  // ---------------------------------------------------------------------------
  // Batches

  /** `[hashes[i:i + 5] for i in range(0, len(hashes), 5)]` */
  function Chunks(hashes: seq<string>): seq<seq<string>>
    decreases |hashes|
  {
    if hashes == [] then []
    else if |hashes| <= 5 then [hashes]
    else [hashes[..5]] + Chunks(hashes[5..])
  }

  function Flatten(cs: seq<seq<string>>): seq<string> {
    if cs == [] then [] else cs[0] + Flatten(cs[1..])
  }

  function Min(a: int, b: int): int {
    if a <= b then a else b
  }

  /** Together the batches are the candidate list, in order. */
  lemma {:induction false} ChunksFlatten(hashes: seq<string>)
    ensures Flatten(Chunks(hashes)) == hashes
    decreases |hashes|
  {
    if hashes == [] {
    } else if |hashes| <= 5 {
      assert Flatten(Chunks(hashes)) == hashes + Flatten([]);
    } else {
      ChunksFlatten(hashes[5..]);
      assert hashes == hashes[..5] + hashes[5..];
    }
  }

  /** There are ⌈n/5⌉ batches. */
  lemma {:induction false} ChunksCount(hashes: seq<string>)
    ensures |Chunks(hashes)| == (|hashes| + 4) / 5
    decreases |hashes|
  {
    if |hashes| > 5 {
      ChunksCount(hashes[5..]);
    }
  }

  /** Batch k is the slice starting at 5k, five hashes long except possibly the last, never empty. */
  lemma {:induction false} ChunksSlices(hashes: seq<string>)
    ensures forall k :: 0 <= k < |Chunks(hashes)| ==>
              && 5 * k < |hashes|
              && Chunks(hashes)[k] == hashes[5 * k .. Min(5 * k + 5, |hashes|)]
              && 1 <= |Chunks(hashes)[k]| <= 5
    decreases |hashes|
  {
    if |hashes| > 5 {
      var rest := hashes[5..];
      ChunksSlices(rest);
      var cs := Chunks(hashes);
      assert cs == [hashes[..5]] + Chunks(rest);
      forall k | 1 <= k < |cs|
        ensures 5 * k < |hashes| && cs[k] == hashes[5 * k .. Min(5 * k + 5, |hashes|)]
      {
        var k' := k - 1;
        assert cs[k] == Chunks(rest)[k'];
        assert 5 * k == 5 * k' + 5;
        var lo, hi := 5 * k', Min(5 * k' + 5, |rest|);
        assert hi + 5 == Min(5 * k + 5, |hashes|);
        SliceOfDrop(hashes, 5, lo, hi);
      }
    }
  }

  /** A slice of a suffix is a slice of the whole, shifted. */
  lemma SliceOfDrop<T>(s: seq<T>, n: nat, lo: nat, hi: nat)
    requires n <= |s| && lo <= hi <= |s| - n
    ensures s[n..][lo..hi] == s[n + lo .. n + hi]
  {
    forall i | 0 <= i < hi - lo ensures s[n..][lo..hi][i] == s[n + lo .. n + hi][i] {
      assert s[n..][lo..hi][i] == s[n + lo + i];
    }
  }

  // ---------------------------------------------------------------------------
  // The fold

  predicate Hit(e: Event) {
    IsCached(e.1)
  }

  /** The result dict built for a cached answer: `{"infohash": infohash, **container}`. */
  function StreamOf(e: Event): CachedStream
    requires Hit(e)
  {
    ToStream(e.0, e.1.value)
  }

  /**
   * One answer of the loop body. A cached answer is appended to `results`; in speed mode with
   * `break_on_first` it returns the results at once; otherwise, when its hash is the one at
   * `priority_index` and `break_on_first` holds, it alone is returned. An uncached answer at
   * `priority_index` moves the pointer on by one. Reading `hashes[priority_index]` past the end
   * raises.
   */
  function StepOn(hashes: seq<string>, mode: Mode, scan: Scan, e: Event): (st: Step)
    ensures st.Crash? <==> scan.pointer >= |hashes| && !(Hit(e) && mode.speedMode && mode.breakOnFirst)
    ensures st.Crash? ==> st.error == PointerPastEnd
    ensures st.Next? ==> scan.pointer < |hashes|
    ensures st.Next? && Hit(e) ==> st.scan == Scan(scan.pointer, scan.results + [StreamOf(e)])
    ensures st.Next? && !Hit(e) ==>
              st.scan == Scan(if e.0 == hashes[scan.pointer] then scan.pointer + 1 else scan.pointer, scan.results)
    ensures st.Stop? ==> Hit(e) && mode.breakOnFirst
    ensures st.Stop? && mode.speedMode ==> st.selected == scan.results + [StreamOf(e)]
    ensures st.Stop? && !mode.speedMode ==> st.selected == [StreamOf(e)] && e.0 == hashes[scan.pointer]
    ensures Hit(e) && mode.breakOnFirst && (mode.speedMode || (scan.pointer < |hashes| && e.0 == hashes[scan.pointer]))
            ==> st.Stop?
  {
    if Hit(e) then
      var results := scan.results + [StreamOf(e)];
      if mode.breakOnFirst && mode.speedMode then Stop(results)
      else if scan.pointer >= |hashes| then Crash(PointerPastEnd)
      else if e.0 == hashes[scan.pointer] && mode.breakOnFirst then Stop([StreamOf(e)])
      else Next(Scan(scan.pointer, results))
    else if scan.pointer >= |hashes| then Crash(PointerPastEnd)
    else if e.0 == hashes[scan.pointer] then Next(Scan(scan.pointer + 1, scan.results))
    else Next(scan)
  }

  /** The answers of one or more batches, in order, until one of them stops the scan. */
  function ScanEvents(hashes: seq<string>, mode: Mode, scan: Scan, events: seq<Event>): Step
    decreases |events|
  {
    if events == [] then Next(scan)
    else
      var st := StepOn(hashes, mode, scan, events[0]);
      if st.Next? then ScanEvents(hashes, mode, st.scan, events[1..]) else st
  }

  /** The batch outcomes in arrival order; a worker's exception propagates out of the loop. */
  function ScanBatches(hashes: seq<string>, mode: Mode, scan: Scan, arrivals: seq<BatchOutcome>): Step
    decreases |arrivals|
  {
    if arrivals == [] then Next(scan)
    else if arrivals[0].Raised? then Crash(WorkerRaised)
    else
      var st := ScanEvents(hashes, mode, scan, arrivals[0].containers.items);
      if st.Next? then ScanBatches(hashes, mode, st.scan, arrivals[1..]) else st
  }

  /** `hashes.index(h)`: the first position of `h`. */
  function IndexIn(hashes: seq<string>, h: string): (i: nat)
    requires h in hashes
    ensures i < |hashes| && hashes[i] == h
    ensures forall j :: 0 <= j < i ==> hashes[j] != h
  {
    if hashes[0] == h then 0 else 1 + IndexIn(hashes[1..], h)
  }

  /** The sort key `lambda x: hashes.index(x["infohash"])` (total: only used once every hash is known). */
  function PositionKey(hashes: seq<string>): CachedStream -> int {
    (x: CachedStream) => if x.infohash in hashes then IndexIn(hashes, x.infohash) else |hashes|
  }

  /** The closing sort: by first position in the candidate list; an unknown hash raises. */
  function Finish(hashes: seq<string>, results: seq<CachedStream>): (r: Result<seq<CachedStream>>)
    ensures r.Err? <==> exists x :: x in results && x.infohash !in hashes
    ensures r.Ok? ==> multiset(r.value) == multiset(results) && SortedBy(r.value, PositionKey(hashes))
  {
    if forall x :: x in results ==> x.infohash in hashes then
      SortBySorted(results, PositionKey(hashes));
      Ok(SortBy(results, PositionKey(hashes)))
    else Err(NotACandidate)
  }

  /** What `get_cached_streams` returns, or the error it raises. */
  function Probe(hashes: seq<string>, mode: Mode, arrivals: seq<BatchOutcome>): Result<seq<CachedStream>> {
    match ScanBatches(hashes, mode, Scan(0, []), arrivals)
    case Stop(selected) => Ok(selected)
    case Crash(e) => Err(e)
    case Next(scan) => Finish(hashes, scan.results)
  }

  /** The rest of the batch fold after a step inside batch `arrivals[i]`. */
  function Resume(hashes: seq<string>, mode: Mode, st: Step, rest: seq<BatchOutcome>): Step {
    if st.Next? then ScanBatches(hashes, mode, st.scan, rest) else st
  }

  // ---------------------------------------------------------------------------
  // The loop

  /**
   * `Downloader.get_cached_streams` over the batch outcomes in the order the workers finish.
   */
  method GetCachedStreams(hashes: seq<string>, mode: Mode, arrivals: seq<BatchOutcome>)
    returns (r: Result<seq<CachedStream>>)
    ensures r == Probe(hashes, mode, arrivals)
  {
    var pointer: nat := 0;
    var results: seq<CachedStream> := [];
    var i := 0;
    while i < |arrivals|
      invariant i <= |arrivals|
      invariant ScanBatches(hashes, mode, Scan(0, []), arrivals) == ScanBatches(hashes, mode, Scan(pointer, results), arrivals[i..])
    {
      if arrivals[i].Raised? {
        return Err(WorkerRaised);
      }
      var items := arrivals[i].containers.items;
      var j := 0;
      while j < |items|
        invariant j <= |items|
        invariant ScanBatches(hashes, mode, Scan(0, []), arrivals)
               == Resume(hashes, mode, ScanEvents(hashes, mode, Scan(pointer, results), items[j..]), arrivals[i + 1..])
      {
        var (infohash, container) := items[j];
        assert items[j..][1..] == items[j + 1..];
        if container.Some? && container.value.matchedFiles != map[] {
          var result := ToStream(infohash, container.value);
          results := results + [result];
          if mode.breakOnFirst && mode.speedMode {
            return Ok(results);
          } else if pointer >= |hashes| {
            return Err(PointerPastEnd);
          } else if infohash == hashes[pointer] && mode.breakOnFirst {
            return Ok([result]);
          }
        } else if pointer >= |hashes| {
          return Err(PointerPastEnd);
        } else if infohash == hashes[pointer] {
          pointer := pointer + 1;
        }
        j := j + 1;
      }
      assert arrivals[i..][1..] == arrivals[i + 1..];
      i := i + 1;
    }
    if forall x :: x in results ==> x.infohash in hashes {
      results := SortBy(results, PositionKey(hashes));
      r := Ok(results);
    } else {
      r := Err(NotACandidate);
    }
  }

  // ---------------------------------------------------------------------------
  // Properties of the selection

  /** The per-hash answers of the batches, in arrival order. */
  function Events(arrivals: seq<BatchOutcome>): seq<Event> {
    if arrivals == [] then []
    else (if arrivals[0].Completed? then arrivals[0].containers.items else []) + Events(arrivals[1..])
  }

  predicate NoneRaised(arrivals: seq<BatchOutcome>) {
    forall k :: 0 <= k < |arrivals| ==> arrivals[k].Completed?
  }

  /** The cached answers, as result dicts, in arrival order. */
  function Hits(events: seq<Event>): (r: seq<CachedStream>)
    ensures |r| <= |events|
    ensures forall x :: x in r ==> exists k :: 0 <= k < |events| && Hit(events[k]) && x == StreamOf(events[k])
  {
    if events == [] then []
    else (if Hit(events[0]) then [StreamOf(events[0])] else []) + Hits(events[1..])
  }

  /** Scanning two runs of answers is scanning the first and then, unless it stopped, the second. */
  lemma {:induction false} ScanEventsAppend(hashes: seq<string>, mode: Mode, scan: Scan, a: seq<Event>, b: seq<Event>)
    ensures ScanEvents(hashes, mode, scan, a + b) ==
              var st := ScanEvents(hashes, mode, scan, a);
              if st.Next? then ScanEvents(hashes, mode, st.scan, b) else st
    decreases |a|
  {
    if a == [] {
      assert a + b == b;
    } else {
      assert (a + b)[0] == a[0];
      assert (a + b)[1..] == a[1..] + b;
      var st := StepOn(hashes, mode, scan, a[0]);
      if st.Next? {
        ScanEventsAppend(hashes, mode, st.scan, a[1..], b);
      }
    }
  }

  /** When no worker raised, folding the batches is folding their answers one after another. */
  lemma {:induction false} BatchesAreEvents(hashes: seq<string>, mode: Mode, scan: Scan, arrivals: seq<BatchOutcome>)
    requires NoneRaised(arrivals)
    ensures ScanBatches(hashes, mode, scan, arrivals) == ScanEvents(hashes, mode, scan, Events(arrivals))
    decreases |arrivals|
  {
    if arrivals != [] {
      var items := arrivals[0].containers.items;
      ScanEventsAppend(hashes, mode, scan, items, Events(arrivals[1..]));
      var st := ScanEvents(hashes, mode, scan, items);
      if st.Next? {
        BatchesAreEvents(hashes, mode, st.scan, arrivals[1..]);
      }
    }
  }

  /**
   * The pointer never runs past the end while there are at most as many answers left as
   * candidates after it; until a stop, results collect exactly the cached answers.
   */
  lemma {:induction false} ScanNeverCrashes(hashes: seq<string>, mode: Mode, scan: Scan, events: seq<Event>)
    requires scan.pointer + |events| <= |hashes|
    ensures !ScanEvents(hashes, mode, scan, events).Crash?
    ensures !mode.breakOnFirst ==> ScanEvents(hashes, mode, scan, events).Next?
    ensures ScanEvents(hashes, mode, scan, events).Next? ==>
              ScanEvents(hashes, mode, scan, events).scan.results == scan.results + Hits(events)
    decreases |events|
  {
    if events != [] {
      var st := StepOn(hashes, mode, scan, events[0]);
      if st.Next? {
        ScanNeverCrashes(hashes, mode, st.scan, events[1..]);
      }
    }
  }

  /** Well-formed answers: no more of them than candidates, and all about candidates. */
  predicate WellFormed(hashes: seq<string>, arrivals: seq<BatchOutcome>) {
    && NoneRaised(arrivals)
    && |Events(arrivals)| <= |hashes|
    && forall k :: 0 <= k < |Events(arrivals)| ==> Events(arrivals)[k].0 in hashes
  }

  // ---------------------------------------------------------------------------
  // Where well-formed answers come from

  /**
   * A worker's answer for the batch `chunk`: a dict, each hash in it once, every hash in it
   * one of the batch.
   */
  predicate Answers(o: BatchOutcome, chunk: seq<string>) {
    && o.Completed?
    && DistinctKeys(o.containers.Keys())
    && forall h :: h in o.containers.Keys() ==> h in chunk
  }

  /**
   * The workers' answers, one per batch of the candidates (`arrivals[k]` answers batch
   * `batch[k]`, no batch twice), in whatever order they finish, are well formed.
   */
  lemma BatchAnswersWellFormed(hashes: seq<string>, arrivals: seq<BatchOutcome>, batch: seq<nat>)
    requires |batch| == |arrivals|
    requires forall k :: 0 <= k < |batch| ==>
               batch[k] < |Chunks(hashes)| && Answers(arrivals[k], Chunks(hashes)[batch[k]])
    requires forall k, l :: 0 <= k < l < |batch| ==> batch[k] != batch[l]
    ensures WellFormed(hashes, arrivals)
  {
    var cs := Chunks(hashes);
    ChunksSlices(hashes);
    forall t | 0 <= t < |Events(arrivals)| ensures Events(arrivals)[t].0 in hashes {
      var k, j := EventSource(arrivals, t);
      var o := arrivals[k];
      assert o.containers.Keys()[j] == Events(arrivals)[t].0;
      assert Events(arrivals)[t].0 in o.containers.Keys();
      var c := cs[batch[k]];
      assert c == hashes[5 * batch[k] .. Min(5 * batch[k] + 5, |hashes|)];
      var i :| 0 <= i < |c| && c[i] == Events(arrivals)[t].0;
      assert c[i] == hashes[5 * batch[k] + i];
    }
    var lens := Lens(cs);
    forall k | 0 <= k < |batch| ensures |arrivals[k].containers.items| <= lens[batch[k]] {
      DistinctWithin(arrivals[k].containers.Keys(), cs[batch[k]]);
    }
    EventsWithin(arrivals, lens, batch);
    Lists.SumPicked(lens, batch);
    SumLens(cs);
    ChunksFlatten(hashes);
  }

  /** Where answer `t` comes from: entry `j` of the dict of arrival `k`. */
  lemma {:induction false} EventSource(arrivals: seq<BatchOutcome>, t: nat) returns (k: nat, j: nat)
    requires t < |Events(arrivals)|
    ensures k < |arrivals| && arrivals[k].Completed? && j < |arrivals[k].containers.items|
    ensures Events(arrivals)[t] == arrivals[k].containers.items[j]
    decreases |arrivals|
  {
    var here := if arrivals[0].Completed? then arrivals[0].containers.items else [];
    if t < |here| {
      k, j := 0, t;
    } else {
      var k', j' := EventSource(arrivals[1..], t - |here|);
      k, j := k' + 1, j';
    }
  }

  /** The batch sizes. */
  function Lens(cs: seq<seq<string>>): (r: seq<nat>)
    ensures |r| == |cs| && forall i :: 0 <= i < |cs| ==> r[i] == |cs[i]|
  {
    seq(|cs|, i requires 0 <= i < |cs| => |cs[i]|)
  }

  lemma {:induction false} SumLens(cs: seq<seq<string>>)
    ensures Lists.Sum(Lens(cs)) == |Flatten(cs)|
    decreases |cs|
  {
    if cs != [] {
      assert Lens(cs)[1..] == Lens(cs[1..]);
      SumLens(cs[1..]);
    }
  }

  /** Answers no larger than their batches total no more than the batches they answer. */
  lemma {:induction false} EventsWithin(arrivals: seq<BatchOutcome>, lens: seq<nat>, batch: seq<nat>)
    requires |batch| == |arrivals| && NoneRaised(arrivals)
    requires forall k :: 0 <= k < |batch| ==> batch[k] < |lens| && |arrivals[k].containers.items| <= lens[batch[k]]
    ensures |Events(arrivals)| <= Lists.Sum(Lists.Pick(lens, batch))
    decreases |arrivals|
  {
    if arrivals != [] {
      EventsWithin(arrivals[1..], lens, batch[1..]);
    }
  }

  /** Distinct hashes all drawn from a batch are no more than the batch. */
  lemma DistinctWithin(ks: seq<string>, chunk: seq<string>)
    requires DistinctKeys(ks) && forall h :: h in ks ==> h in chunk
    ensures |ks| <= |chunk|
  {
    var inKeys := set h | h in ks;
    var inChunk := set h | h in chunk;
    DistinctCard(ks);
    CardAtMost(chunk);
    assert inChunk == inKeys + (inChunk - inKeys);
    assert inKeys * (inChunk - inKeys) == {};
  }

  lemma {:induction false} DistinctCard(ks: seq<string>)
    requires DistinctKeys(ks)
    ensures |set h | h in ks| == |ks|
    decreases |ks|
  {
    if ks != [] {
      DistinctCard(ks[1..]);
      assert (set h | h in ks) == {ks[0]} + (set h | h in ks[1..]);
      assert ks[0] !in ks[1..];
    }
  }

  lemma {:induction false} CardAtMost(s: seq<string>)
    ensures |set h | h in s| <= |s|
    decreases |s|
  {
    if s != [] {
      CardAtMost(s[1..]);
      assert (set h | h in s) == {s[0]} + (set h | h in s[1..]);
    }
  }

  /**
   * On well-formed answers neither `hashes[priority_index]` nor `hashes.index` can raise:
   * the probe always returns a list.
   */
  lemma WellFormedNeverRaises(hashes: seq<string>, mode: Mode, arrivals: seq<BatchOutcome>)
    requires WellFormed(hashes, arrivals)
    ensures Probe(hashes, mode, arrivals).Ok?
  {
    var events := Events(arrivals);
    BatchesAreEvents(hashes, mode, Scan(0, []), arrivals);
    ScanNeverCrashes(hashes, mode, Scan(0, []), events);
    var st := ScanEvents(hashes, mode, Scan(0, []), events);
    if st.Next? {
      forall x | x in st.scan.results ensures x.infohash in hashes {
        var k :| 0 <= k < |events| && Hit(events[k]) && x == StreamOf(events[k]);
      }
    }
  }

  /** Every stream a scan keeps or returns is one it held already or a cached answer it met. */
  lemma {:induction false} ScanKeepsHits(hashes: seq<string>, mode: Mode, scan: Scan, events: seq<Event>)
    ensures var st := ScanEvents(hashes, mode, scan, events);
            && (st.Next? ==> forall x :: x in st.scan.results ==> x in scan.results || x in Hits(events))
            && (st.Stop? ==> forall x :: x in st.selected ==> x in scan.results || x in Hits(events))
    decreases |events|
  {
    if events != [] {
      var st := StepOn(hashes, mode, scan, events[0]);
      assert Hits(events) == (if Hit(events[0]) then [StreamOf(events[0])] else []) + Hits(events[1..]);
      if st.Next? {
        ScanKeepsHits(hashes, mode, st.scan, events[1..]);
      }
    }
  }

  /**
   * The probe returns only cached answers; on well-formed answers it returns a list, and each
   * of its streams is about a candidate hash and has a non-empty `matched_files`.
   */
  lemma ProbeReturnsHits(hashes: seq<string>, mode: Mode, arrivals: seq<BatchOutcome>)
    requires NoneRaised(arrivals)
    ensures var r := Probe(hashes, mode, arrivals);
            r.Ok? ==> forall x :: x in r.value ==> x in Hits(Events(arrivals))
    ensures WellFormed(hashes, arrivals) ==>
              var r := Probe(hashes, mode, arrivals);
              r.Ok? && forall x :: x in r.value ==> x.infohash in hashes && x.matchedFiles != map[]
  {
    var events := Events(arrivals);
    BatchesAreEvents(hashes, mode, Scan(0, []), arrivals);
    ScanKeepsHits(hashes, mode, Scan(0, []), events);
    var r := Probe(hashes, mode, arrivals);
    var st := ScanEvents(hashes, mode, Scan(0, []), events);
    if r.Ok? && st.Next? {
      forall x | x in r.value ensures x in Hits(events) {
        assert x in multiset(r.value);
      }
    }
    if WellFormed(hashes, arrivals) {
      WellFormedNeverRaises(hashes, mode, arrivals);
      forall x | x in r.value ensures x.infohash in hashes && x.matchedFiles != map[] {
        var k :| 0 <= k < |events| && Hit(events[k]) && x == StreamOf(events[k]);
      }
    }
  }

  /**
   * When nothing returns early (always so without `break_on_first`), the probe returns exactly
   * the cached answers, stably sorted by their position among the candidates (empty when none
   * is cached).
   */
  lemma AllHitsSorted(hashes: seq<string>, mode: Mode, arrivals: seq<BatchOutcome>)
    requires WellFormed(hashes, arrivals)
    requires !mode.breakOnFirst || !ScanBatches(hashes, mode, Scan(0, []), arrivals).Stop?
    ensures Probe(hashes, mode, arrivals) == Ok(SortBy(Hits(Events(arrivals)), PositionKey(hashes)))
    ensures Hits(Events(arrivals)) == [] ==> Probe(hashes, mode, arrivals) == Ok([])
  {
    var events := Events(arrivals);
    BatchesAreEvents(hashes, mode, Scan(0, []), arrivals);
    ScanNeverCrashes(hashes, mode, Scan(0, []), events);
    WellFormedNeverRaises(hashes, mode, arrivals);
    var st := ScanBatches(hashes, mode, Scan(0, []), arrivals);
    assert st.scan.results == Hits(events) by {
      assert [] + Hits(events) == Hits(events);
    }
    assert Probe(hashes, mode, arrivals) == Finish(hashes, Hits(events));
  }

  /**
   * In speed mode with `break_on_first`, the first cached answer to arrive is returned on
   * its own.
   */
  lemma {:induction false} SpeedFirstHit(hashes: seq<string>, mode: Mode, scan: Scan, events: seq<Event>, k: nat)
    requires mode.speedMode && mode.breakOnFirst
    requires scan.results == [] && scan.pointer + |events| <= |hashes|
    requires k < |events| && Hit(events[k]) && forall j :: 0 <= j < k ==> !Hit(events[j])
    ensures ScanEvents(hashes, mode, scan, events) == Stop([StreamOf(events[k])])
    decreases k
  {
    if k > 0 {
      var st := StepOn(hashes, mode, scan, events[0]);
      SpeedFirstHit(hashes, mode, st.scan, events[1..], k - 1);
    }
  }

  /** The same for the whole probe, when the workers did not raise and the answers are well formed. */
  lemma SpeedModeReturnsFirstHit(hashes: seq<string>, mode: Mode, arrivals: seq<BatchOutcome>, k: nat)
    requires mode.speedMode && mode.breakOnFirst
    requires WellFormed(hashes, arrivals)
    requires k < |Events(arrivals)| && Hit(Events(arrivals)[k])
    requires forall j :: 0 <= j < k ==> !Hit(Events(arrivals)[j])
    ensures Probe(hashes, mode, arrivals) == Ok([StreamOf(Events(arrivals)[k])])
  {
    BatchesAreEvents(hashes, mode, Scan(0, []), arrivals);
    SpeedFirstHit(hashes, mode, Scan(0, []), Events(arrivals), k);
  }

  /** Hash `h` was reported uncached among `events`. */
  ghost predicate ReportedMiss(events: seq<Event>, h: string) {
    exists j :: 0 <= j < |events| && events[j].0 == h && !Hit(events[j])
  }

  /**
   * In quality mode the early return is priority-sound: the chosen stream is a cached answer
   * for the candidate at some position p, and every candidate before p was reported uncached
   * before it arrived.
   */
  lemma {:induction false} QualityStopIsPriority(hashes: seq<string>, mode: Mode, scan: Scan, seen: seq<Event>, events: seq<Event>)
    requires !mode.speedMode
    requires scan.pointer <= |hashes|
    requires forall q :: 0 <= q < scan.pointer ==> ReportedMiss(seen, hashes[q])
    ensures ScanEvents(hashes, mode, scan, events).Stop? ==>
              exists k, p :: 0 <= k < |events| && 0 <= p < |hashes| &&
                Hit(events[k]) && events[k].0 == hashes[p] &&
                ScanEvents(hashes, mode, scan, events).selected == [StreamOf(events[k])] &&
                forall q :: 0 <= q < p ==> ReportedMiss(seen + events[..k], hashes[q])
    decreases |events|
  {
    if events != [] {
      var e := events[0];
      var st := StepOn(hashes, mode, scan, e);
      if st.Stop? {
        assert seen + events[..0] == seen;
        assert events[0] == e;
      } else if st.Next? {
        var seen' := seen + [e];
        forall q | 0 <= q < st.scan.pointer ensures ReportedMiss(seen', hashes[q]) {
          if q < scan.pointer {
            var j :| 0 <= j < |seen| && seen[j].0 == hashes[q] && !Hit(seen[j]);
            assert seen'[j] == seen[j];
          } else {
            assert seen'[|seen|] == e;
          }
        }
        QualityStopIsPriority(hashes, mode, st.scan, seen', events[1..]);
        var rest := ScanEvents(hashes, mode, st.scan, events[1..]);
        if rest.Stop? {
          var k, p :| 0 <= k < |events[1..]| && 0 <= p < |hashes| &&
                Hit(events[1..][k]) && events[1..][k].0 == hashes[p] &&
                rest.selected == [StreamOf(events[1..][k])] &&
                forall q :: 0 <= q < p ==> ReportedMiss(seen' + events[1..][..k], hashes[q]);
          assert seen' + events[1..][..k] == seen + events[..k + 1];
          assert events[k + 1] == events[1..][k];
        }
      }
    }
  }

  /** The quality-mode guarantee for the whole probe. */
  lemma QualityModePicksPriority(hashes: seq<string>, mode: Mode, arrivals: seq<BatchOutcome>)
    requires !mode.speedMode
    requires NoneRaised(arrivals)
    ensures ScanBatches(hashes, mode, Scan(0, []), arrivals).Stop? ==>
              exists k, p :: 0 <= k < |Events(arrivals)| && 0 <= p < |hashes| &&
                Hit(Events(arrivals)[k]) && Events(arrivals)[k].0 == hashes[p] &&
                Probe(hashes, mode, arrivals) == Ok([StreamOf(Events(arrivals)[k])]) &&
                forall q :: 0 <= q < p ==> ReportedMiss(Events(arrivals)[..k], hashes[q])
  {
    BatchesAreEvents(hashes, mode, Scan(0, []), arrivals);
    QualityStopIsPriority(hashes, mode, Scan(0, []), [], Events(arrivals));
    if ScanBatches(hashes, mode, Scan(0, []), arrivals).Stop? {
      var events := Events(arrivals);
      var k, p :| 0 <= k < |events| && 0 <= p < |hashes| &&
                Hit(events[k]) && events[k].0 == hashes[p] &&
                ScanEvents(hashes, mode, Scan(0, []), events).selected == [StreamOf(events[k])] &&
                forall q :: 0 <= q < p ==> ReportedMiss([] + events[..k], hashes[q]);
      assert [] + events[..k] == events[..k];
    }
  }

  /** A worker's exception that arrives before any early return is raised by the probe. */
  lemma {:induction false} RaisedPropagates(hashes: seq<string>, mode: Mode, scan: Scan,
                                            before: seq<BatchOutcome>, after: seq<BatchOutcome>)
    requires NoneRaised(before)
    requires ScanEvents(hashes, mode, scan, Events(before)).Next?
    ensures ScanBatches(hashes, mode, scan, before + [Raised] + after) == Crash(WorkerRaised)
    decreases |before|
  {
    if before == [] {
      assert before + [Raised] + after == [Raised] + after;
    } else {
      var items := before[0].containers.items;
      assert (before + [Raised] + after)[1..] == before[1..] + [Raised] + after;
      ScanEventsAppend(hashes, mode, scan, items, Events(before[1..]));
      var st := ScanEvents(hashes, mode, scan, items);
      RaisedPropagates(hashes, mode, st.scan, before[1..], after);
    }
  }
}
