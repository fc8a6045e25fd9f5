/**
 * The progress bookkeeping of one playlist download: the list of songs still
 * queued for the primary site, the list of fallback downloads in flight, the
 * one-shot notice flag of the wait loop, and the download counter.
 *
 * The source updates this state from several threads; here every update is
 * one atomic step, and the steps of a run are any sequential interleaving.
 */
module Bookkeeping {
  import opened Wrappers
  import opened Text

  /** `List<T>.Remove`: drops the first element equal to `x`; a list without `x` is unchanged. */
  function RemoveFirst<T(==)>(xs: seq<T>, x: T): seq<T>
  {
    if xs == [] then []
    else if xs[0] == x then xs[1..]
    else [xs[0]] + RemoveFirst(xs[1..], x)
  }

  /** Removing takes away one `x` when there is one, and nothing otherwise. */
  lemma {:induction false} RemoveFirstSpec<T>(xs: seq<T>, x: T)
    ensures multiset(RemoveFirst(xs, x)) == multiset(xs) - multiset{x}
    ensures x !in xs ==> RemoveFirst(xs, x) == xs
    ensures |RemoveFirst(xs, x)| == if x in xs then |xs| - 1 else |xs|
  {
    if xs != [] {
      assert xs == [xs[0]] + xs[1..];
      if xs[0] != x {
        RemoveFirstSpec(xs[1..], x);
      }
    }
  }

  /** The element removed is the first `x`, and the others keep their order. */
  lemma {:induction false} RemoveFirstAt<T>(xs: seq<T>, x: T) returns (i: nat)
    requires x in xs
    ensures i < |xs| && xs[i] == x && x !in xs[..i]
    ensures RemoveFirst(xs, x) == xs[..i] + xs[i + 1..]
  {
    if xs[0] == x {
      i := 0;
    } else {
      var tail := xs[1..];
      assert x in tail by {
        assert xs == [xs[0]] + tail;
      }
      var j := RemoveFirstAt(tail, x);
      i := j + 1;
      SplitAround(xs, j);
    }
  }

  /** Slicing `xs` around position `j + 1` is slicing its tail around `j`. */
  lemma SplitAround<T>(xs: seq<T>, j: nat)
    requires j + 1 < |xs|
    ensures xs[..j + 1] == [xs[0]] + xs[1..][..j]
    ensures xs[j + 2..] == xs[1..][j + 1..]
  {
  }

  /** The list left after removing the names of `hs`, one occurrence each, in order. */
  function RemoveAll<T(==)>(xs: seq<T>, hs: seq<T>): seq<T>
    decreases |hs|
  {
    if hs == [] then xs
    else RemoveFirst(RemoveAll(xs, hs[..|hs| - 1]), hs[|hs| - 1])
  }

  /** Handling one more name removes one more occurrence of it. */
  lemma RemoveAllSnoc<T>(xs: seq<T>, hs: seq<T>, h: T)
    ensures RemoveAll(xs, hs + [h]) == RemoveFirst(RemoveAll(xs, hs), h)
  {
    assert (hs + [h])[..|hs|] == hs;
  }

  /** Taking away `b` and then one `h` is taking away `b` with one more `h`. */
  lemma MinusStep<T>(a: multiset<T>, b: multiset<T>, h: T)
    ensures (a - b) - multiset{h} == a - (b + multiset{h})
  {
    forall e
      ensures ((a - b) - multiset{h})[e] == (a - (b + multiset{h}))[e]
    {
    }
  }

  /** Starting a name keeps the pending list equal to the started names less the finished ones. */
  lemma StartKeepsPending<T>(started: seq<T>, finished: seq<T>, pending: seq<T>, x: T)
    requires multiset(finished) <= multiset(started)
    requires multiset(pending) == multiset(started) - multiset(finished)
    ensures multiset(finished) <= multiset(started + [x])
    ensures multiset(pending + [x]) == multiset(started + [x]) - multiset(finished)
  {
    PlusStep(multiset(started), multiset(finished), x);
  }

  /** A new miss keeps every started fallback download owed to a miss. */
  lemma MissKeepsOwed<T>(started: seq<T>, missed: seq<T>, x: T)
    requires multiset(started) <= multiset(missed)
    ensures multiset(started) <= multiset(missed + [x])
  {
    assert multiset(missed + [x]) == multiset(missed) + multiset{x};
  }

  /** Finishing a pending name keeps the pending list equal to the started names less the finished ones. */
  lemma FinishKeepsPending<T>(started: seq<T>, finished: seq<T>, pending: seq<T>, x: T)
    requires multiset(finished) <= multiset(started)
    requires multiset(pending) == multiset(started) - multiset(finished) && x in pending
    ensures multiset(finished + [x]) <= multiset(started)
    ensures multiset(RemoveFirst(pending, x)) == multiset(started) - multiset(finished + [x])
  {
    RemoveFirstSpec(pending, x);
    assert x in multiset(pending);
    MinusStep(multiset(started), multiset(finished), x);
  }

  /** Adding one `h` after taking away `b` is taking `b` from one more `h`, when `b` was all there. */
  lemma PlusStep<T>(a: multiset<T>, b: multiset<T>, h: T)
    requires b <= a
    ensures (a - b) + multiset{h} == (a + multiset{h}) - b
  {
    forall e
      ensures ((a - b) + multiset{h})[e] == ((a + multiset{h}) - b)[e]
    {
    }
  }

  /** Removing one occurrence per handled name leaves the multiset difference. */
  lemma {:induction false} RemoveAllMultiset<T>(xs: seq<T>, hs: seq<T>)
    decreases |hs|
    ensures multiset(RemoveAll(xs, hs)) == multiset(xs) - multiset(hs)
  {
    if hs != [] {
      var init := hs[..|hs| - 1];
      var h := hs[|hs| - 1];
      assert hs == init + [h];
      RemoveAllMultiset(xs, init);
      RemoveFirstSpec(RemoveAll(xs, init), h);
      MinusStep(multiset(xs), multiset(init), h);
    }
  }

  /** The list is emptied exactly when every name was handled at least as often as it was queued. */
  lemma RemoveAllEmptyIff<T>(xs: seq<T>, hs: seq<T>)
    ensures RemoveAll(xs, hs) == [] <==> multiset(xs) <= multiset(hs)
  {
    RemoveAllMultiset(xs, hs);
    var r := RemoveAll(xs, hs);
    if multiset(xs) <= multiset(hs) {
      assert multiset(r) == multiset{};
    } else {
      var e :| multiset(xs)[e] > multiset(hs)[e];
      assert e in multiset(r);
    }
  }

  /** Handling each queued name once, in any order and whatever its duplicates, empties the list. */
  lemma HandlingEachOnceEmpties<T>(xs: seq<T>, hs: seq<T>)
    requires multiset(hs) == multiset(xs)
    ensures RemoveAll(xs, hs) == []
  {
    RemoveAllEmptyIff(xs, hs);
  }

  /** A file the browser is still writing. */
  predicate IsPartialDownload(file: string)
  {
    EndsWith(file, "crdownload")
  }

  /** The notice printed once, when only fallback downloads remain. */
  function YoutubeNotice(pending: seq<string>): string
  {
    "\nWaiting for youtube downloads\n" + Join(pending, "\n") + "\n" + "Please be calm, those really take a long time"
  }

  /** `processed` holds the queued songs not yet handled, and is kept only in parallel mode. */
  ghost predicate ProcessedInv(runInParallel: bool, processed: seq<string>, queued: seq<string>, handled: seq<string>)
  {
    if runInParallel then processed == RemoveAll(queued, handled) else processed == []
  }

  /**
   * Every fallback download started is owed to a miss, and the fallback list
   * holds the started downloads less the finished ones.
   */
  ghost predicate FallbackInv(fromYoutube: Option<seq<string>>, missed: seq<string>,
                              started: seq<string>, finished: seq<string>)
  {
    && (fromYoutube.None? <==> started == [])
    && multiset(started) <= multiset(missed)
    && multiset(finished) <= multiset(started)
    && multiset(fromYoutube.GetOr([])) == multiset(started) - multiset(finished)
  }

  /** Every handled song was a hit or a miss, and the counter counts hits and finished fallbacks. */
  ghost predicate CountInv(count: int, handled: seq<string>, succeeded: nat, missed: seq<string>, finished: seq<string>)
  {
    succeeded + |missed| == |handled| && count == succeeded + |finished|
  }

  /** Handling one song keeps `processed` equal to the queued songs not yet handled. */
  lemma HandleStep(runInParallel: bool, processed: seq<string>, queued: seq<string>, handled: seq<string>, x: string)
    requires ProcessedInv(runInParallel, processed, queued, handled)
    ensures ProcessedInv(runInParallel, if runInParallel then RemoveFirst(processed, x) else processed, queued, handled + [x])
  {
    RemoveAllSnoc(queued, handled, x);
  }

  /** A miss keeps the fallback invariant: one more download becomes owed. */
  lemma MissStep(fromYoutube: Option<seq<string>>, missed: seq<string>, started: seq<string>,
                 finished: seq<string>, x: string)
    requires FallbackInv(fromYoutube, missed, started, finished)
    ensures FallbackInv(fromYoutube, missed + [x], started, finished)
  {
    MissKeepsOwed(started, missed, x);
  }

  /** Starting a fallback download that a miss owes keeps the fallback invariant. */
  lemma StartStep(fromYoutube: Option<seq<string>>, missed: seq<string>, started: seq<string>,
                  finished: seq<string>, x: string)
    requires FallbackInv(fromYoutube, missed, started, finished)
    requires multiset(started + [x]) <= multiset(missed)
    ensures FallbackInv(Some(fromYoutube.GetOr([]) + [x]), missed, started + [x], finished)
  {
    StartKeepsPending(started, finished, fromYoutube.GetOr([]), x);
  }

  /** Finishing a pending fallback download keeps the fallback invariant. */
  lemma FinishStep(fromYoutube: Option<seq<string>>, missed: seq<string>, started: seq<string>,
                   finished: seq<string>, x: string)
    requires FallbackInv(fromYoutube, missed, started, finished)
    requires fromYoutube.Some? && x in fromYoutube.value
    ensures FallbackInv(Some(RemoveFirst(fromYoutube.value, x)), missed, started, finished + [x])
  {
    FinishKeepsPending(started, finished, fromYoutube.value, x);
    RemoveFirstSpec(fromYoutube.value, x);
  }

  /** The state of one playlist download on a freshly built downloader. */
  class PlaylistRun {
    /** Whether songs are handled by parallel workers; only then is the `processed` list kept. */
    const runInParallel: bool
    /** Songs not yet handled by a parallel worker. */
    var processed: seq<string>
    /** The fallback downloads in flight; `None` until the first one starts. */
    var fromYoutube: Option<seq<string>>
    /** Whether the fallback notice has been printed. */
    var youtubeWritten: bool
    /** Songs sent to download so far. */
    var count: int
    /** The number of songs in the playlist. */
    const total: int

    /** The refined song names of the playlist. */
    ghost const queued: seq<string>
    /** The songs the primary site has handled, hit or miss, in order. */
    ghost var handled: seq<string>
    /** How many of those were hits. */
    ghost var succeeded: nat
    /** The songs the primary site missed, in order; each is owed one fallback download. */
    ghost var missed: seq<string>
    /** The fallback downloads started and finished, in order. */
    ghost var started: seq<string>
    ghost var finished: seq<string>

    ghost predicate Valid()
      reads this
    {
      && ProcessedInv(runInParallel, processed, queued, handled)
      && total == |queued|
      && FallbackInv(fromYoutube, missed, started, finished)
      && CountInv(count, handled, succeeded, missed, finished)
    }

    /** The set-up before the songs are handed out. */
    constructor (songsNames: seq<string>, runInParallel: bool)
      ensures Valid()
      ensures this.runInParallel == runInParallel && queued == songsNames && total == |songsNames|
      ensures processed == (if runInParallel then songsNames else [])
      ensures fromYoutube == None && !youtubeWritten && count == 0
      ensures handled == [] && succeeded == 0 && missed == [] && started == [] && finished == []
    {
      this.runInParallel := runInParallel;
      queued := songsNames;
      total := |songsNames|;
      processed := if runInParallel then songsNames else [];
      fromYoutube := None;
      youtubeWritten := false;
      count := 0;
      handled := [];
      succeeded := 0;
      missed := [];
      started := [];
      finished := [];
    }

    /** The primary site reported a miss for `songName`; the song is handed to the fallback. */
    method PrimaryMiss(songName: string)
      requires Valid()
      modifies this
      ensures Valid()
      ensures processed == if runInParallel then RemoveFirst(old(processed), songName) else old(processed)
      ensures handled == old(handled) + [songName] && missed == old(missed) + [songName]
      ensures fromYoutube == old(fromYoutube) && youtubeWritten == old(youtubeWritten) && count == old(count)
      ensures succeeded == old(succeeded) && started == old(started) && finished == old(finished)
    {
      HandleStep(runInParallel, processed, queued, handled, songName);
      MissStep(fromYoutube, missed, started, finished, songName);
      processed, handled, missed :=
        if runInParallel then RemoveFirst(processed, songName) else processed, handled + [songName], missed + [songName];
    }

    /**
     * The primary site started downloading `songName`. The result tells
     * whether the "waiting for downloads to finish" line is printed.
     */
    method PrimarySuccess(songName: string) returns (allHandedOut: bool)
      requires Valid()
      modifies this
      ensures Valid()
      ensures processed == if runInParallel then RemoveFirst(old(processed), songName) else old(processed)
      ensures handled == old(handled) + [songName] && succeeded == old(succeeded) + 1
      ensures count == old(count) + 1
      ensures allHandedOut <==> processed == []
      ensures !runInParallel ==> allHandedOut
      ensures fromYoutube == old(fromYoutube) && youtubeWritten == old(youtubeWritten)
      ensures missed == old(missed) && started == old(started) && finished == old(finished)
    {
      HandleStep(runInParallel, processed, queued, handled, songName);
      processed, handled, succeeded, count :=
        if runInParallel then RemoveFirst(processed, songName) else processed, handled + [songName], succeeded + 1, count + 1;
      allHandedOut := |processed| == 0;
    }

    /**
     * A fallback download of `songName` begins; the list is created on first
     * use. Only a miss starts one, once per miss.
     */
    method YoutubeStarted(songName: string)
      requires Valid()
      requires multiset(started + [songName]) <= multiset(missed)
      modifies this
      ensures Valid()
      ensures fromYoutube == Some(old(fromYoutube).GetOr([]) + [songName])
      ensures started == old(started) + [songName]
      ensures processed == old(processed) && youtubeWritten == old(youtubeWritten) && count == old(count)
      ensures handled == old(handled) && succeeded == old(succeeded) && missed == old(missed)
      ensures finished == old(finished)
    {
      var pending := fromYoutube.GetOr([]) + [songName];
      StartStep(fromYoutube, missed, started, finished, songName);
      fromYoutube, started := Some(pending), started + [songName];
    }

    /** The fallback download of `songName`, started earlier, is sent to download and leaves the list. */
    method YoutubeFinished(songName: string)
      requires Valid()
      requires fromYoutube.Some? && songName in fromYoutube.value
      modifies this
      ensures Valid()
      ensures fromYoutube == Some(RemoveFirst(old(fromYoutube).value, songName))
      ensures finished == old(finished) + [songName] && count == old(count) + 1
      ensures processed == old(processed) && youtubeWritten == old(youtubeWritten)
      ensures handled == old(handled) && succeeded == old(succeeded) && missed == old(missed)
      ensures started == old(started)
    {
      FinishStep(fromYoutube, missed, started, finished, songName);
      fromYoutube, finished, count := Some(RemoveFirst(fromYoutube.value, songName)), finished + [songName], count + 1;
    }

    /** The wait loop's condition, given the file names now in the download folder. */
    predicate StillWaiting(files: seq<string>)
      reads this
    {
      || |processed| > 0
      || (exists f :: f in files && IsPartialDownload(f))
      || (fromYoutube.Some? && |fromYoutube.value| > 0)
    }

    /** One pass of the wait loop: prints the fallback notice at most once, when nothing else is queued. */
    method WaitTick() returns (notice: Option<string>)
      requires Valid()
      modifies this
      ensures Valid()
      ensures notice.Some? <==> processed == [] && fromYoutube.Some? && |fromYoutube.value| > 0 && !old(youtubeWritten)
      ensures notice.Some? ==> notice.value == YoutubeNotice(fromYoutube.value)
      ensures old(youtubeWritten) ==> notice.None?
      ensures youtubeWritten == (old(youtubeWritten) || notice.Some?)
      ensures processed == old(processed) && fromYoutube == old(fromYoutube) && count == old(count)
      ensures handled == old(handled) && succeeded == old(succeeded) && missed == old(missed)
      ensures started == old(started) && finished == old(finished)
    {
      notice := None;
      if |processed| == 0 && fromYoutube.Some? && |fromYoutube.value| > 0 && !youtubeWritten {
        notice := Some(YoutubeNotice(fromYoutube.value));
        youtubeWritten := true;
      }
    }
  }

  /** Once every miss has had its fallback download started and finished, the fallback list is empty. */
  lemma FallbacksDoneEmpty(s: PlaylistRun)
    requires s.Valid()
    requires multiset(s.finished) == multiset(s.started) == multiset(s.missed)
    ensures s.fromYoutube.GetOr([]) == []
  {
    assert multiset(s.fromYoutube.GetOr([])) == multiset{};
  }

  /** In parallel mode the wait goes on while some queued song has not been handled. */
  lemma WaitCoversUnhandled(s: PlaylistRun, files: seq<string>)
    requires s.Valid() && s.runInParallel
    requires !(multiset(s.queued) <= multiset(s.handled))
    ensures s.StillWaiting(files)
  {
    RemoveAllEmptyIff(s.queued, s.handled);
  }

  /**
   * The wait ends once every queued song was handled, every fallback download
   * that started has finished, and no file is partial.
   */
  lemma WaitEndsWhenAllDone(s: PlaylistRun, files: seq<string>)
    requires s.Valid()
    requires multiset(s.handled) == multiset(s.queued)
    requires multiset(s.finished) == multiset(s.started)
    requires forall f :: f in files ==> !IsPartialDownload(f)
    ensures !s.StillWaiting(files)
  {
    if s.runInParallel {
      HandlingEachOnceEmpties(s.queued, s.handled);
    }
    if s.fromYoutube.Some? {
      assert multiset(s.fromYoutube.value) == multiset{};
    }
  }

  /**
   * In serial mode a miss hands the song to a fallback task and returns at
   * once. Until that task has put the song on the fallback list, nothing
   * keeps the wait loop going: the wait can end, and the browser be closed,
   * before the fallback download has started.
   */
  method SerialMissNotAwaited(songName: string) returns (run: PlaylistRun, waiting: bool)
    ensures run.Valid() && !run.runInParallel && run.handled == [songName]
    ensures run.missed == [songName] && run.started == [] && run.started != run.missed
    ensures !waiting
  {
    run := new PlaylistRun([songName], false);
    run.PrimaryMiss(songName);
    waiting := run.StillWaiting([]);
  }
}
