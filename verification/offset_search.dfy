/** The search loop of `whipper offset find` (`Find.do`): rip track 1 at
    each candidate offset, compare its AccurateRip checksum with every
    reference response, and on a hit run a confirmation pass over tracks
    2 .. N-1. Ripping is the abstract oracle `trial`; the reference
    responses and the disc's track count `n` are inputs. */
module OffsetSearch {
  import opened Wrappers
  import opened Hex
  import OffsetParse

  /** One AccurateRip response: the disc id it was filed under (whipper
      only logs it) and one checksum string per track. */
  datatype Response = Response(discId: string, checksums: seq<string>)

  /** How one rip-and-checksum of a track at an offset ends: the checksum,
      or one of the task exceptions the search tells apart. */
  datatype TrialOutcome =
    | Ripped(checksum: UInt32)
    | FileSizeError
    | MissingDependency
    | OtherTaskError

  /** The rips the search asks the drive for, in order. */
  datatype Trial = Trial(track: nat, offset: int)

  type Oracle = (nat, int) -> TrialOutcome

  /** What ends a run with an exception instead of a verdict. */
  datatype Abort =
    | DependencyMissing(offset: int)          // re-raised MissingDependencyException
    | ResponseTooShort(track: nat, index: nat) // IndexError in `r.checksums[track - 1]`
    | HttpFailure(code: int)                   // HTTPError other than 404

  // ---------------------------------------------------------------------
  // match

  /** The nested `match`: the first response whose checksum for the track
      equals the computed one; a response too short to have that track
      raises IndexError before any later response is looked at. */
  datatype MatchResult = MatchedAt(index: nat) | NoMatch | ShortResponse(index: nat)

  predicate Agrees(r: Response, track: nat, cs: string)
    requires track >= 1
  {
    track <= |r.checksums| && r.checksums[track - 1] == cs
  }

  /** Where the scan over the responses stopped. */
  function Stop(m: MatchResult, rs: seq<Response>): nat {
    if m.NoMatch? then |rs| else m.index
  }

  function MatchFrom(cs: string, track: nat, rs: seq<Response>, from: nat): (m: MatchResult)
    requires track >= 1 && from <= |rs|
    ensures from <= Stop(m, rs) <= |rs|
    ensures m.MatchedAt? ==> m.index < |rs| && Agrees(rs[m.index], track, cs)
    ensures m.ShortResponse? ==> m.index < |rs| && |rs[m.index].checksums| < track
    ensures forall j :: from <= j < Stop(m, rs) ==> track <= |rs[j].checksums| && !Agrees(rs[j], track, cs)
    decreases |rs| - from
  {
    if from == |rs| then NoMatch
    else if |rs[from].checksums| < track then ShortResponse(from)
    else if rs[from].checksums[track - 1] == cs then MatchedAt(from)
    else MatchFrom(cs, track, rs, from + 1)
  }

  /** `match(archecksum, track, responses)`: the smallest index of an
      agreeing response, `NoMatch` only when every response has the track
      and none agrees. */
  function Match(cs: string, track: nat, rs: seq<Response>): (m: MatchResult)
    requires track >= 1
    ensures m.MatchedAt? ==> m.index < |rs| && Agrees(rs[m.index], track, cs)
    ensures m.ShortResponse? ==> m.index < |rs| && |rs[m.index].checksums| < track
    ensures forall j :: 0 <= j < Stop(m, rs) ==> track <= |rs[j].checksums| && !Agrees(rs[j], track, cs)
  {
    MatchFrom(cs, track, rs, 0)
  }

  predicate CoversTrack(rs: seq<Response>, track: nat) {
    forall j :: 0 <= j < |rs| ==> track <= |rs[j].checksums|
  }

  /** When every response lists the track, `match` fails exactly when no
      response has the checksum there, and otherwise finds the first one
      that does. */
  lemma MatchCharacterized(cs: string, track: nat, rs: seq<Response>)
    requires track >= 1 && CoversTrack(rs, track)
    ensures !Match(cs, track, rs).ShortResponse?
    ensures Match(cs, track, rs) == NoMatch <==> forall j :: 0 <= j < |rs| ==> rs[j].checksums[track - 1] != cs
    ensures forall i :: (0 <= i < |rs| && rs[i].checksums[track - 1] == cs
      && forall j :: 0 <= j < i ==> rs[j].checksums[track - 1] != cs) ==> Match(cs, track, rs) == MatchedAt(i)
  {
    var m := Match(cs, track, rs);
    if m.MatchedAt? {
      forall i | 0 <= i < |rs| && rs[i].checksums[track - 1] == cs
        && (forall j :: 0 <= j < i ==> rs[j].checksums[track - 1] != cs)
        ensures m == MatchedAt(i)
      {
      }
    }
  }

  /** With no reference responses nothing ever matches. */
  lemma MatchEmpty(cs: string, track: nat)
    requires track >= 1
    ensures Match(cs, track, []) == NoMatch
  {
  }

  // ---------------------------------------------------------------------
  // The confirmation pass

  /** Result of the loop over tracks 2 .. n-1 (started at `track`): one
      hit flag per visited track, the rips asked for, or the IndexError
      that ended it. */
  datatype Pass =
    | Pass(hits: seq<bool>, trials: seq<Trial>)
    | PassAborted(abort: Abort, trials: seq<Trial>)

  function CountHits(hits: seq<bool>): (c: nat)
    ensures c <= |hits|
  {
    if |hits| == 0 then 0 else (if hits[0] then 1 else 0) + CountHits(hits[1..])
  }

  /** `count` after the pass: 1 for track 1, plus one per confirmed track. */
  function Count(p: Pass): nat
    requires p.Pass?
  {
    1 + CountHits(p.hits)
  }

  /** The rips of one offset, tracks `first`, `first + 1`, ... in order. */
  predicate Consecutive(ts: seq<Trial>, first: nat, offset: int) {
    forall k :: 0 <= k < |ts| ==> ts[k] == Trial(first + k, offset)
  }

  function Visits(track: nat, n: nat): nat {
    if track < n then n - track else 0
  }

  /** The body of `for track in range(2, n)`, from `track` on, with the
      current `archecksum`. A `FileSizeError` skips the track; any other
      task exception is swallowed and `match` runs on the checksum of the
      last track that did rip. */
  function ConfirmFrom(trial: Oracle, rs: seq<Response>, n: nat, offset: int, track: nat, archecksum: string): (p: Pass)
    requires track >= 2
    ensures Consecutive(p.trials, track, offset)
    ensures p.Pass? ==> |p.hits| == |p.trials| == Visits(track, n)
    ensures p.PassAborted? ==> 1 <= |p.trials| <= Visits(track, n) && p.abort.ResponseTooShort?
    decreases n - track
  {
    if n <= track then Pass([], [])
    else
      var t := Trial(track, offset);
      var outcome := trial(track, offset);
      if outcome.FileSizeError? then
        Prepend(false, t, ConfirmFrom(trial, rs, n, offset, track + 1, archecksum))
      else
        var cs := if outcome.Ripped? then Hex8(outcome.checksum) else archecksum;
        var m := Match(cs, track, rs);
        if m.ShortResponse? then PassAborted(ResponseTooShort(track, m.index), [t])
        else Prepend(m.MatchedAt?, t, ConfirmFrom(trial, rs, n, offset, track + 1, cs))
  }

  function Prepend(hit: bool, t: Trial, p: Pass): (q: Pass) {
    match p
    case Pass(hits, ts) => Pass([hit] + hits, [t] + ts)
    case PassAborted(a, ts) => PassAborted(a, [t] + ts)
  }

  /** The checksum `archecksum` holds when `match` runs for `track`: the
      one of the latest track up to it that ripped, else track 1's. */
  function CurrentChecksum(trial: Oracle, offset: int, track: nat, first: string): string
    decreases track
  {
    if track <= 1 then first
    else match trial(track, offset)
      case Ripped(c) => Hex8(c)
      case _ => CurrentChecksum(trial, offset, track - 1, first)
  }

  /** The checksum `match` sees for `track` is track 1's when no track
      from 2 up to it ripped, and otherwise that of the latest one that
      did. */
  lemma {:induction false} CurrentChecksumLatest(trial: Oracle, offset: int, track: nat, first: string)
    ensures (forall k :: 2 <= k <= track ==> !trial(k, offset).Ripped?) ==> CurrentChecksum(trial, offset, track, first) == first
    ensures (exists k :: 2 <= k <= track && trial(k, offset).Ripped?) ==>
      exists k :: 2 <= k <= track && trial(k, offset).Ripped?
        && CurrentChecksum(trial, offset, track, first) == Hex8(trial(k, offset).checksum)
        && forall later :: k < later <= track ==> !trial(later, offset).Ripped?
    decreases track
  {
    if track > 1 {
      var here := CurrentChecksum(trial, offset, track, first);
      if trial(track, offset).Ripped? {
        assert here == Hex8(trial(track, offset).checksum);
      } else {
        assert here == CurrentChecksum(trial, offset, track - 1, first);
        CurrentChecksumLatest(trial, offset, track - 1, first);
        if exists k :: 2 <= k <= track && trial(k, offset).Ripped? {
          var k :| 2 <= k <= track - 1 && trial(k, offset).Ripped?
            && CurrentChecksum(trial, offset, track - 1, first) == Hex8(trial(k, offset).checksum)
            && forall later :: k < later <= track - 1 ==> !trial(later, offset).Ripped?;
          assert forall later :: k < later <= track ==> !trial(later, offset).Ripped?;
        }
      }
    }
  }

  /** Track `track` counts as confirmed: it was not skipped for a
      `FileSizeError` and the current checksum agrees with some response
      at that track, not necessarily the one track 1 agreed with. */
  predicate Confirmed(trial: Oracle, rs: seq<Response>, offset: int, track: nat, first: string)
    requires track >= 1
  {
    && !trial(track, offset).FileSizeError?
    && exists j :: 0 <= j < |rs| && Agrees(rs[j], track, CurrentChecksum(trial, offset, track, first))
  }

  /** Unless a response is too short, `match` succeeds exactly when some
      response agrees. */
  lemma MatchFoundIff(cs: string, track: nat, rs: seq<Response>)
    requires track >= 1
    ensures !Match(cs, track, rs).ShortResponse? ==>
      (Match(cs, track, rs).MatchedAt? <==> exists j :: 0 <= j < |rs| && Agrees(rs[j], track, cs))
  {
  }

  /** Whether each of the tracks `track`, ..., `n - 1` is confirmed. */
  function ConfirmedFlags(trial: Oracle, rs: seq<Response>, n: nat, offset: int, track: nat, first: string): (fs: seq<bool>)
    requires track >= 1
    ensures |fs| == Visits(track, n)
    decreases n - track
  {
    if n <= track then [] else [Confirmed(trial, rs, offset, track, first)] + ConfirmedFlags(trial, rs, n, offset, track + 1, first)
  }

  lemma {:induction false} ConfirmedFlagsAt(trial: Oracle, rs: seq<Response>, n: nat, offset: int, track: nat, first: string)
    requires track >= 1
    ensures forall k :: 0 <= k < Visits(track, n) ==>
      (ConfirmedFlags(trial, rs, n, offset, track, first)[k] <==> Confirmed(trial, rs, offset, track + k, first))
    decreases n - track
  {
    if track < n {
      ConfirmedFlagsAt(trial, rs, n, offset, track + 1, first);
      var fs := ConfirmedFlags(trial, rs, n, offset, track, first);
      var rest := ConfirmedFlags(trial, rs, n, offset, track + 1, first);
      forall k | 1 <= k < |fs|
        ensures fs[k] <==> Confirmed(trial, rs, offset, track + k, first)
      {
        assert fs[k] == rest[k - 1];
      }
    }
  }

  /** One step of the pass: the hit flag of `track` is whether `match`
      found the checksum current at `track`, and the pass goes on with
      that checksum. */
  lemma ConfirmStep(trial: Oracle, rs: seq<Response>, n: nat, offset: int, track: nat, first: string)
    requires 2 <= track < n
    requires ConfirmFrom(trial, rs, n, offset, track, CurrentChecksum(trial, offset, track - 1, first)).Pass?
    ensures ConfirmFrom(trial, rs, n, offset, track + 1, CurrentChecksum(trial, offset, track, first)).Pass?
    ensures ConfirmFrom(trial, rs, n, offset, track, CurrentChecksum(trial, offset, track - 1, first)).hits ==
      [Confirmed(trial, rs, offset, track, first)] + ConfirmFrom(trial, rs, n, offset, track + 1, CurrentChecksum(trial, offset, track, first)).hits
  {
    var cur := CurrentChecksum(trial, offset, track - 1, first);
    var next := CurrentChecksum(trial, offset, track, first);
    var outcome := trial(track, offset);
    assert next == if outcome.Ripped? then Hex8(outcome.checksum) else cur;
    MatchFoundIff(next, track, rs);
  }

  /** Once past track n - 1 the pass has nothing left to rip. */
  lemma ConfirmDone(trial: Oracle, rs: seq<Response>, n: nat, offset: int, track: nat, cs: string)
    requires 2 <= track && n <= track
    ensures ConfirmFrom(trial, rs, n, offset, track, cs) == Pass([], [])
  {
  }

  /** The pass marks exactly the confirmed tracks as hits. */
  lemma {:induction false} ConfirmHitFlags(trial: Oracle, rs: seq<Response>, n: nat, offset: int, track: nat, first: string)
    requires track >= 2
    ensures ConfirmFrom(trial, rs, n, offset, track, CurrentChecksum(trial, offset, track - 1, first)).Pass? ==>
      ConfirmFrom(trial, rs, n, offset, track, CurrentChecksum(trial, offset, track - 1, first)).hits == ConfirmedFlags(trial, rs, n, offset, track, first)
    decreases n - track
  {
    var cur := CurrentChecksum(trial, offset, track - 1, first);
    var p := ConfirmFrom(trial, rs, n, offset, track, cur);
    if n <= track {
      ConfirmDone(trial, rs, n, offset, track, cur);
    } else if p.Pass? {
      var q := ConfirmFrom(trial, rs, n, offset, track + 1, CurrentChecksum(trial, offset, track, first));
      var here := Confirmed(trial, rs, offset, track, first);
      ConfirmStep(trial, rs, n, offset, track, first);
      assert p.hits == [here] + q.hits;
      ConfirmHitFlags(trial, rs, n, offset, track + 1, first);
      assert q.hits == ConfirmedFlags(trial, rs, n, offset, track + 1, first);
      assert ConfirmedFlags(trial, rs, n, offset, track, first) == [here] + q.hits;
    }
  }

  /** The pass marks exactly the confirmed tracks as hits. */
  lemma ConfirmHits(trial: Oracle, rs: seq<Response>, n: nat, offset: int, track: nat, first: string)
    requires track >= 2
    ensures var p := ConfirmFrom(trial, rs, n, offset, track, CurrentChecksum(trial, offset, track - 1, first));
      p.Pass? ==> forall k :: 0 <= k < |p.hits| ==> (p.hits[k] <==> Confirmed(trial, rs, offset, track + k, first))
  {
    ConfirmHitFlags(trial, rs, n, offset, track, first);
    ConfirmedFlagsAt(trial, rs, n, offset, track, first);
  }

  lemma {:induction false} CountHitsAll(hits: seq<bool>)
    ensures CountHits(hits) == |hits| <==> forall k :: 0 <= k < |hits| ==> hits[k]
  {
    if |hits| > 0 {
      CountHitsAll(hits[1..]);
      assert forall k :: 1 <= k < |hits| ==> hits[k] == hits[1..][k - 1];
    }
  }

  /** `count == len(tracks) - 1` holds exactly when every track from 2 to
      n-1 was confirmed; `count` never passes n - 1 once n >= 2, and for
      n <= 1 it stays 1 and so never equals n - 1. */
  lemma CountReachesTarget(trial: Oracle, rs: seq<Response>, n: nat, offset: int, first: string)
    ensures var p := ConfirmFrom(trial, rs, n, offset, 2, first);
      p.Pass? ==>
        && 1 <= Count(p) <= (if n >= 2 then n - 1 else 1)
        && (Count(p) == n - 1 <==> n >= 2 && forall t :: 2 <= t < n ==> Confirmed(trial, rs, offset, t, first))
  {
    var p := ConfirmFrom(trial, rs, n, offset, 2, first);
    if p.Pass? {
      assert CurrentChecksum(trial, offset, 1, first) == first;
      ConfirmHits(trial, rs, n, offset, 2, first);
      CountHitsAll(p.hits);
      if n >= 2 {
        assert |p.hits| == n - 2;
        if Count(p) == n - 1 {
          forall t | 2 <= t < n ensures Confirmed(trial, rs, offset, t, first) {
            assert p.hits[t - 2];
          }
        }
      }
    }
  }

  // ---------------------------------------------------------------------
  // One candidate offset

  datatype Verdict = Accepted | Rejected | Aborted(abort: Abort)

  /** Everything the loop body does for one offset: its verdict and the
      rips it asked for. */
  datatype Attempt = Attempt(verdict: Verdict, trials: seq<Trial>)

  /** One iteration of `for offset in self._offsets`. */
  function TryOffset(trial: Oracle, rs: seq<Response>, n: nat, offset: int): (a: Attempt)
    ensures |a.trials| >= 1 && a.trials[0] == Trial(1, offset)
    ensures Consecutive(a.trials, 1, offset)
    ensures |a.trials| <= (if n >= 2 then n - 1 else 1)
    ensures a.verdict.Accepted? ==> n >= 2 && trial(1, offset).Ripped?
    ensures a.verdict.Aborted? && a.verdict.abort.DependencyMissing? ==> a.verdict.abort.offset == offset && |a.trials| == 1
    ensures trial(1, offset).MissingDependency? ==> a.verdict == Aborted(DependencyMissing(offset))
    ensures trial(1, offset).FileSizeError? || trial(1, offset).OtherTaskError? ==> a.verdict.Rejected? && |a.trials| == 1
    ensures trial(1, offset).Ripped? && Match(Hex8(trial(1, offset).checksum), 1, rs).NoMatch? ==>
      a == Attempt(Rejected, [Trial(1, offset)])
    ensures trial(1, offset).Ripped? && Match(Hex8(trial(1, offset).checksum), 1, rs).ShortResponse? ==>
      a == Attempt(Aborted(ResponseTooShort(1, Match(Hex8(trial(1, offset).checksum), 1, rs).index)), [Trial(1, offset)])
    ensures a.verdict.Aborted? ==> trial(1, offset).MissingDependency? || a.verdict.abort.ResponseTooShort?
  {
    var t1 := Trial(1, offset);
    match trial(1, offset)
    case MissingDependency => Attempt(Aborted(DependencyMissing(offset)), [t1])
    case FileSizeError => Attempt(Rejected, [t1])
    case OtherTaskError => Attempt(Rejected, [t1])
    case Ripped(c) =>
      var cs := Hex8(c);
      match Match(cs, 1, rs)
      case ShortResponse(i) => Attempt(Aborted(ResponseTooShort(1, i)), [t1])
      case NoMatch => Attempt(Rejected, [t1])
      case MatchedAt(_) =>
        var p := ConfirmFrom(trial, rs, n, offset, 2, cs);
        assert Consecutive([t1] + p.trials, 1, offset);
        match p
        case PassAborted(ab, ts) => Attempt(Aborted(ab), [t1] + ts)
        case Pass(_, ts) =>
          CountReachesTarget(trial, rs, n, offset, cs);
          Attempt(if Count(p) == n - 1 then Accepted else Rejected, [t1] + ts)
  }

  /** Track 1 agrees with some reference response at this offset. */
  predicate FirstTrackMatches(trial: Oracle, rs: seq<Response>, offset: int) {
    && trial(1, offset).Ripped?
    && exists j :: 0 <= j < |rs| && Agrees(rs[j], 1, Hex8(trial(1, offset).checksum))
  }

  /** With well-formed responses, an offset is accepted exactly when
      track 1 matches some response and every track from 2 to n-1 is
      confirmed. */
  lemma AcceptedIff(trial: Oracle, rs: seq<Response>, n: nat, offset: int)
    requires forall t :: 1 <= t < n ==> CoversTrack(rs, t)
    requires n >= 2
    ensures TryOffset(trial, rs, n, offset).verdict.Accepted? <==>
      && FirstTrackMatches(trial, rs, offset)
      && forall t :: 2 <= t < n ==> Confirmed(trial, rs, offset, t, Hex8(trial(1, offset).checksum))
  {
    if trial(1, offset).Ripped? {
      var cs := Hex8(trial(1, offset).checksum);
      assert CoversTrack(rs, 1);
      MatchCharacterized(cs, 1, rs);
      ConfirmCompletes(trial, rs, n, offset, 2, cs);
      CountReachesTarget(trial, rs, n, offset, cs);
    }
  }

  /** When every response lists every track the pass visits, the pass
      cannot hit an IndexError. */
  lemma {:induction false} ConfirmCompletes(trial: Oracle, rs: seq<Response>, n: nat, offset: int, track: nat, cs: string)
    requires track >= 2
    requires forall t :: track <= t < n ==> CoversTrack(rs, t)
    ensures ConfirmFrom(trial, rs, n, offset, track, cs).Pass?
    decreases n - track
  {
    if track < n {
      var outcome := trial(track, offset);
      var cs' := if outcome.Ripped? then Hex8(outcome.checksum) else cs;
      MatchCharacterized(cs', track, rs);
      ConfirmCompletes(trial, rs, n, offset, track + 1, if outcome.FileSizeError? then cs else cs');
    }
  }

  /** With two tracks there is nothing to confirm: a track-1 match alone
      accepts the offset. */
  lemma TwoTracksNeedOnlyTrackOne(trial: Oracle, rs: seq<Response>, offset: int)
    requires CoversTrack(rs, 1)
    ensures TryOffset(trial, rs, 2, offset).verdict.Accepted? <==> FirstTrackMatches(trial, rs, offset)
  {
    AcceptedIff(trial, rs, 2, offset);
  }

  // ---------------------------------------------------------------------
  // The search

  datatype Outcome = FoundOffset(offset: int) | NoOffsetFound | SearchAborted(abort: Abort)

  datatype SearchResult = SearchResult(outcome: Outcome, trials: seq<Trial>)

  /** `for offset in self._offsets`: the first accepted offset ends the
      search, an exception aborts it, and a rejected offset moves on. */
  function Search(trial: Oracle, rs: seq<Response>, n: nat, offsets: seq<int>): (r: SearchResult)
    ensures r.outcome.FoundOffset? ==> r.outcome.offset in offsets
    ensures |r.trials| == 0 <==> |offsets| == 0
    decreases |offsets|
  {
    if |offsets| == 0 then SearchResult(NoOffsetFound, [])
    else
      var a := TryOffset(trial, rs, n, offsets[0]);
      match a.verdict
      case Accepted => SearchResult(FoundOffset(offsets[0]), a.trials)
      case Aborted(ab) => SearchResult(SearchAborted(ab), a.trials)
      case Rejected =>
        var rest := Search(trial, rs, n, offsets[1..]);
        SearchResult(rest.outcome, a.trials + rest.trials)
  }

  /** The offsets whose track 1 was ripped, in order. */
  function FirstTrackOffsets(ts: seq<Trial>): seq<int> {
    if |ts| == 0 then []
    else (if ts[0].track == 1 then [ts[0].offset] else []) + FirstTrackOffsets(ts[1..])
  }

  lemma {:induction false} FirstTrackOffsetsAppend(xs: seq<Trial>, ys: seq<Trial>)
    ensures FirstTrackOffsets(xs + ys) == FirstTrackOffsets(xs) + FirstTrackOffsets(ys)
  {
    if |xs| > 0 {
      assert (xs + ys)[1..] == xs[1..] + ys;
      FirstTrackOffsetsAppend(xs[1..], ys);
    } else {
      assert xs + ys == ys;
    }
  }

  lemma {:induction false} FirstTrackOffsetsLater(ts: seq<Trial>, first: nat, offset: int)
    requires first >= 2 && Consecutive(ts, first, offset)
    ensures FirstTrackOffsets(ts) == []
  {
    if |ts| > 0 {
      FirstTrackOffsetsLater(ts[1..], first + 1, offset);
    }
  }

  /** Each attempt rips track 1 of its own offset once, first. */
  lemma AttemptFirstTrack(trial: Oracle, rs: seq<Response>, n: nat, offset: int)
    ensures FirstTrackOffsets(TryOffset(trial, rs, n, offset).trials) == [offset]
  {
    var ts := TryOffset(trial, rs, n, offset).trials;
    assert ts == [ts[0]] + ts[1..];
    FirstTrackOffsetsAppend([ts[0]], ts[1..]);
    FirstTrackOffsetsLater(ts[1..], 2, offset);
  }

  /** The index of the first offset that is not rejected (`|offsets|` if
      there is none). */
  function Decisive(trial: Oracle, rs: seq<Response>, n: nat, offsets: seq<int>): (j: nat)
    ensures j <= |offsets|
    ensures forall i :: 0 <= i < j ==> TryOffset(trial, rs, n, offsets[i]).verdict.Rejected?
    ensures j < |offsets| ==> !TryOffset(trial, rs, n, offsets[j]).verdict.Rejected?
    decreases |offsets|
  {
    if |offsets| == 0 || !TryOffset(trial, rs, n, offsets[0]).verdict.Rejected? then 0
    else
      var j := Decisive(trial, rs, n, offsets[1..]);
      RejectedCons(trial, rs, n, offsets, j);
      1 + j
  }

  lemma RejectedCons(trial: Oracle, rs: seq<Response>, n: nat, offsets: seq<int>, j: nat)
    requires 0 < |offsets| && j < |offsets|
    requires TryOffset(trial, rs, n, offsets[0]).verdict.Rejected?
    requires forall i :: 0 <= i < j ==> TryOffset(trial, rs, n, offsets[1..][i]).verdict.Rejected?
    requires j < |offsets| - 1 ==> !TryOffset(trial, rs, n, offsets[1..][j]).verdict.Rejected?
    ensures forall i :: 0 <= i < j + 1 ==> TryOffset(trial, rs, n, offsets[i]).verdict.Rejected?
    ensures j + 1 < |offsets| ==> !TryOffset(trial, rs, n, offsets[j + 1]).verdict.Rejected?
  {
    forall i | 1 <= i < j + 1
      ensures TryOffset(trial, rs, n, offsets[i]).verdict.Rejected?
    {
      assert offsets[i] == offsets[1..][i - 1];
    }
    if j + 1 < |offsets| {
      assert offsets[j + 1] == offsets[1..][j];
    }
  }

  /** What the search reports when the given verdict decides it. */
  function Conclude(v: Verdict, offset: int): Outcome {
    match v
    case Accepted => FoundOffset(offset)
    case Aborted(ab) => SearchAborted(ab)
    case Rejected => NoOffsetFound
  }

  /** The outcome of the search is the one the first offset that is not
      rejected gives, and nothing is found when every offset is rejected. */
  lemma {:induction false} SearchOutcome(trial: Oracle, rs: seq<Response>, n: nat, offsets: seq<int>)
    ensures var j := Decisive(trial, rs, n, offsets);
      Search(trial, rs, n, offsets).outcome ==
        if j < |offsets| then Conclude(TryOffset(trial, rs, n, offsets[j]).verdict, offsets[j]) else NoOffsetFound
    decreases |offsets|
  {
    if |offsets| > 0 {
      var a := TryOffset(trial, rs, n, offsets[0]);
      if a.verdict.Rejected? {
        var later := offsets[1..];
        SearchOutcome(trial, rs, n, later);
        var j' := Decisive(trial, rs, n, later);
        assert Decisive(trial, rs, n, offsets) == j' + 1;
        if j' < |later| {
          assert offsets[j' + 1] == later[j'];
        }
      }
    }
  }

  /** The rips of full attempts at the given offsets, one attempt after
      the other. */
  function AttemptTrials(trial: Oracle, rs: seq<Response>, n: nat, offsets: seq<int>): seq<Trial>
    decreases |offsets|
  {
    if |offsets| == 0 then []
    else TryOffset(trial, rs, n, offsets[0]).trials + AttemptTrials(trial, rs, n, offsets[1..])
  }

  lemma AttemptTrialsCons(trial: Oracle, rs: seq<Response>, n: nat, x: int, xs: seq<int>)
    ensures AttemptTrials(trial, rs, n, [x] + xs) == TryOffset(trial, rs, n, x).trials + AttemptTrials(trial, rs, n, xs)
  {
    assert ([x] + xs)[0] == x;
    assert ([x] + xs)[1..] == xs;
  }

  /** The search makes exactly the rips of the attempts at the offsets
      up to and including the deciding one, in list order, and nothing
      for any later offset; when every offset is rejected, those of all
      the attempts. */
  lemma {:induction false} SearchRips(trial: Oracle, rs: seq<Response>, n: nat, offsets: seq<int>)
    ensures var j := Decisive(trial, rs, n, offsets);
      Search(trial, rs, n, offsets).trials == AttemptTrials(trial, rs, n, if j < |offsets| then offsets[..j + 1] else offsets)
    decreases |offsets|
  {
    if |offsets| > 0 {
      var a := TryOffset(trial, rs, n, offsets[0]);
      if a.verdict.Rejected? {
        var later := offsets[1..];
        SearchRips(trial, rs, n, later);
        var j' := Decisive(trial, rs, n, later);
        assert Decisive(trial, rs, n, offsets) == j' + 1;
        if j' < |later| {
          assert offsets[..j' + 2] == [offsets[0]] + later[..j' + 1];
          AttemptTrialsCons(trial, rs, n, offsets[0], later[..j' + 1]);
        } else {
          assert offsets == [offsets[0]] + later;
          AttemptTrialsCons(trial, rs, n, offsets[0], later);
        }
      } else {
        assert offsets[..1] == [offsets[0]] + [];
        AttemptTrialsCons(trial, rs, n, offsets[0], []);
        assert a.trials + [] == a.trials;
      }
    }
  }

  /** Each attempt rips track 1 of its own offset once, so the attempts
      at a list of offsets rip track 1 at exactly those offsets, in order. */
  lemma {:induction false} AttemptsFirstTracks(trial: Oracle, rs: seq<Response>, n: nat, offsets: seq<int>)
    ensures FirstTrackOffsets(AttemptTrials(trial, rs, n, offsets)) == offsets
    decreases |offsets|
  {
    if |offsets| > 0 {
      var a := TryOffset(trial, rs, n, offsets[0]);
      AttemptFirstTrack(trial, rs, n, offsets[0]);
      AttemptsFirstTracks(trial, rs, n, offsets[1..]);
      FirstTrackOffsetsAppend(a.trials, AttemptTrials(trial, rs, n, offsets[1..]));
      assert offsets == [offsets[0]] + offsets[1..];
    }
  }

  /** Track 1 is ripped once for each offset up to and including the
      deciding one, in list order, and for no later offset. */
  lemma SearchTrials(trial: Oracle, rs: seq<Response>, n: nat, offsets: seq<int>)
    ensures var j := Decisive(trial, rs, n, offsets);
      FirstTrackOffsets(Search(trial, rs, n, offsets).trials) == if j < |offsets| then offsets[..j + 1] else offsets
  {
    var j := Decisive(trial, rs, n, offsets);
    var tried := if j < |offsets| then offsets[..j + 1] else offsets;
    SearchRips(trial, rs, n, offsets);
    AttemptsFirstTracks(trial, rs, n, tried);
    assert FirstTrackOffsets(Search(trial, rs, n, offsets).trials) == tried;
  }

  /** The search is decided by the first offset that is not rejected: an
      accepted one is the result and no later offset is tried, for any
      track; an abort ends it; if every offset is rejected, each of them
      was attempted in full, and had track 1 ripped exactly once, in list
      order. */
  lemma SearchFirstDecisive(trial: Oracle, rs: seq<Response>, n: nat, offsets: seq<int>)
    ensures var r := Search(trial, rs, n, offsets);
      var j := Decisive(trial, rs, n, offsets);
      && r.trials == AttemptTrials(trial, rs, n, if j < |offsets| then offsets[..j + 1] else offsets)
      && (j == |offsets| ==> r.outcome == NoOffsetFound && FirstTrackOffsets(r.trials) == offsets)
      && (j < |offsets| ==>
            && FirstTrackOffsets(r.trials) == offsets[..j + 1]
            && r.outcome == match TryOffset(trial, rs, n, offsets[j]).verdict
                            case Accepted => FoundOffset(offsets[j])
                            case Aborted(ab) => SearchAborted(ab)
                            case Rejected => NoOffsetFound)
  {
    SearchOutcome(trial, rs, n, offsets);
    SearchRips(trial, rs, n, offsets);
    SearchTrials(trial, rs, n, offsets);
  }

  /** The search returns an offset exactly when some offset is accepted,
      and it is the first accepted one, with only rejected ones before it. */
  lemma FoundIsFirstAccepted(trial: Oracle, rs: seq<Response>, n: nat, offsets: seq<int>, k: int)
    ensures Search(trial, rs, n, offsets).outcome == FoundOffset(k) <==>
      exists j :: 0 <= j < |offsets| && offsets[j] == k
        && TryOffset(trial, rs, n, offsets[j]).verdict.Accepted?
        && forall i :: 0 <= i < j ==> TryOffset(trial, rs, n, offsets[i]).verdict.Rejected?
  {
    SearchFirstDecisive(trial, rs, n, offsets);
    var d := Decisive(trial, rs, n, offsets);
    if exists j :: 0 <= j < |offsets| && offsets[j] == k
        && TryOffset(trial, rs, n, offsets[j]).verdict.Accepted?
        && forall i :: 0 <= i < j ==> TryOffset(trial, rs, n, offsets[i]).verdict.Rejected? {
      var j :| 0 <= j < |offsets| && offsets[j] == k
        && TryOffset(trial, rs, n, offsets[j]).verdict.Accepted?
        && forall i :: 0 <= i < j ==> TryOffset(trial, rs, n, offsets[i]).verdict.Rejected?;
    }
  }

  /** Without reference responses no offset is ever found. */
  lemma NoResponsesNoOffset(trial: Oracle, n: nat, offsets: seq<int>)
    ensures !Search(trial, [], n, offsets).outcome.FoundOffset?
  {
    SearchFirstDecisive(trial, [], n, offsets);
    var j := Decisive(trial, [], n, offsets);
    if j < |offsets| && trial(1, offsets[j]).Ripped? {
      MatchEmpty(Hex8(trial(1, offsets[j]).checksum), 1);
    }
  }

  /** An empty response list does not stop the loop early: unless a
      track-1 rip misses a dependency, track 1 is still ripped at every
      candidate offset, in order, before no offset is reported. */
  lemma NoResponsesTriesAll(trial: Oracle, n: nat, offsets: seq<int>)
    requires forall i :: 0 <= i < |offsets| ==> !trial(1, offsets[i]).MissingDependency?
    ensures Search(trial, [], n, offsets).outcome == NoOffsetFound
    ensures FirstTrackOffsets(Search(trial, [], n, offsets).trials) == offsets
  {
    forall i | 0 <= i < |offsets|
      ensures !TryOffset(trial, [], n, offsets[i]).verdict.Accepted?
    {
      if trial(1, offsets[i]).Ripped? {
        MatchEmpty(Hex8(trial(1, offsets[i]).checksum), 1);
      }
    }
    NothingAcceptedTriesAll(trial, [], n, offsets);
  }

  /** A single-track disc never confirms an offset: `count` is 1 and the
      target `len(tracks) - 1` is 0. */
  lemma SingleTrackNoOffset(trial: Oracle, rs: seq<Response>, offsets: seq<int>)
    ensures !Search(trial, rs, 1, offsets).outcome.FoundOffset?
  {
    SearchFirstDecisive(trial, rs, 1, offsets);
  }

  /** A missing dependency on the track-1 rip of the first offset that
      gets that far ends the whole search with that exception. */
  lemma MissingDependencyAborts(trial: Oracle, rs: seq<Response>, n: nat, offsets: seq<int>, j: nat)
    requires j < |offsets| && trial(1, offsets[j]).MissingDependency?
    requires forall i :: 0 <= i < j ==> TryOffset(trial, rs, n, offsets[i]).verdict.Rejected?
    ensures Search(trial, rs, n, offsets).outcome == SearchAborted(DependencyMissing(offsets[j]))
    ensures FirstTrackOffsets(Search(trial, rs, n, offsets).trials) == offsets[..j + 1]
  {
    SearchFirstDecisive(trial, rs, n, offsets);
  }

  /** When every response lists every track the attempt reads, an offset
      whose track-1 rip does not miss a dependency is either accepted or
      rejected: nothing can abort it. */
  lemma CoveredAttemptDecides(trial: Oracle, rs: seq<Response>, n: nat, offset: int)
    requires CoversTrack(rs, 1) && forall t :: 2 <= t < n ==> CoversTrack(rs, t)
    requires !trial(1, offset).MissingDependency?
    ensures !TryOffset(trial, rs, n, offset).verdict.Aborted?
  {
    if trial(1, offset).Ripped? {
      var cs := Hex8(trial(1, offset).checksum);
      MatchCharacterized(cs, 1, rs);
      ConfirmCompletes(trial, rs, n, offset, 2, cs);
    }
  }

  /** With responses that list every track read, no missing dependency
      and no accepted offset, the search tries every offset in order and
      reports that none was found. */
  lemma NothingAcceptedTriesAll(trial: Oracle, rs: seq<Response>, n: nat, offsets: seq<int>)
    requires CoversTrack(rs, 1) && forall t :: 2 <= t < n ==> CoversTrack(rs, t)
    requires forall i :: 0 <= i < |offsets| ==> !trial(1, offsets[i]).MissingDependency?
    requires forall i :: 0 <= i < |offsets| ==> !TryOffset(trial, rs, n, offsets[i]).verdict.Accepted?
    ensures Search(trial, rs, n, offsets).outcome == NoOffsetFound
    ensures FirstTrackOffsets(Search(trial, rs, n, offsets).trials) == offsets
  {
    var j := Decisive(trial, rs, n, offsets);
    if j < |offsets| {
      CoveredAttemptDecides(trial, rs, n, offsets[j]);
    }
    SearchFirstDecisive(trial, rs, n, offsets);
  }

  // ---------------------------------------------------------------------
  // How the code departs from a record-pinned, failure-aware confirmation

  /** Confirmation is not pinned to the response that matched track 1:
      here track 1 agrees only with response 0 and track 2 only with
      response 1, no response agrees with both, and the offset is still
      accepted. */
  lemma ConfirmationNotPinned(a: UInt32, b: UInt32, offset: int)
    ensures var rs := [Response("", [Hex8(a), "", ""]), Response("", ["", Hex8(b), ""])];
      var trial := (t: nat, o: int) => if t == 1 then Ripped(a) else Ripped(b);
      && TryOffset(trial, rs, 3, offset).verdict == Accepted
      && !exists j :: 0 <= j < |rs| && Agrees(rs[j], 1, Hex8(a)) && Agrees(rs[j], 2, Hex8(b))
  {
    var rs := [Response("", [Hex8(a), "", ""]), Response("", ["", Hex8(b), ""])];
    var trial := (t: nat, o: int) => if t == 1 then Ripped(a) else Ripped(b);
    assert |Hex8(a)| == 8 && |Hex8(b)| == 8;
    assert Match(Hex8(a), 1, rs) == MatchedAt(0);
    assert MatchFrom(Hex8(b), 2, rs, 1) == MatchedAt(1);
    assert Match(Hex8(b), 2, rs) == MatchedAt(1);
    assert ConfirmFrom(trial, rs, 3, offset, 3, Hex8(b)) == Pass([], []);
    var p := ConfirmFrom(trial, rs, 3, offset, 2, Hex8(a));
    assert p == Pass([true], [Trial(2, offset)]);
    assert CountHits(p.hits) == 1;
  }

  /** A confirmation rip that fails with anything but a FileSizeError is
      swallowed and track 1's checksum is matched against track 2's
      reference: a release whose first two tracks have the same checksum
      is confirmed without track 2 ever being read. */
  lemma StaleChecksumConfirms(a: UInt32, failure: TrialOutcome, offset: int)
    requires failure.MissingDependency? || failure.OtherTaskError?
    ensures var rs := [Response("", [Hex8(a), Hex8(a), ""])];
      var trial := (t: nat, o: int) => if t == 1 then Ripped(a) else failure;
      TryOffset(trial, rs, 3, offset).verdict == Accepted
  {
    var rs := [Response("", [Hex8(a), Hex8(a), ""])];
    var trial := (t: nat, o: int) => if t == 1 then Ripped(a) else failure;
    assert Match(Hex8(a), 1, rs) == MatchedAt(0);
    assert Match(Hex8(a), 2, rs) == MatchedAt(0);
    assert ConfirmFrom(trial, rs, 3, offset, 3, Hex8(a)) == Pass([], []);
    var p := ConfirmFrom(trial, rs, 3, offset, 2, Hex8(a));
    assert p == Pass([true], [Trial(2, offset)]);
    assert CountHits(p.hits) == 1;
  }

  // ---------------------------------------------------------------------
  // Worked scenarios: candidates [6, 48], three tracks, one response [A, B, C]

  /** Track 1 misses at 6, matches at 48, and track 2 confirms at 48. */
  lemma ScenarioFound(miss: UInt32, a: UInt32, b: UInt32, c: string)
    requires miss != a
    ensures var rs := [Response("", [Hex8(a), Hex8(b), c])];
      var trial := (t: nat, o: int) => if o == 6 then Ripped(miss) else if t == 1 then Ripped(a) else Ripped(b);
      Search(trial, rs, 3, [6, 48]) == SearchResult(FoundOffset(48), [Trial(1, 6), Trial(1, 48), Trial(2, 48)])
  {
    Hex8Injective(miss, a);
  }

  /** The same disc with track 2 unreadable at 48: one confirmed track of
      the two needed, so the search goes on and finds nothing. */
  lemma ScenarioSkippedTrack(miss: UInt32, a: UInt32, b: UInt32, c: string)
    requires miss != a
    ensures var rs := [Response("", [Hex8(a), Hex8(b), c])];
      var trial := (t: nat, o: int) => if o == 6 then Ripped(miss) else if t == 1 then Ripped(a) else FileSizeError;
      Search(trial, rs, 3, [6, 48]) == SearchResult(NoOffsetFound, [Trial(1, 6), Trial(1, 48), Trial(2, 48)])
  {
    Hex8Injective(miss, a);
  }

  // ---------------------------------------------------------------------
  // Find.do

  /** What the reference download produced. */
  datatype Fetch = Fetched(responses: seq<Response>) | HttpError(code: int)

  /** How `whipper offset find` ends. */
  datatype FindResult =
    | OffsetFound(offset: int)                  // `_foundOffset`, return 0
    | AlbumNotFound                             // HTTP 404, return 1
    | NoMatchingOffset                          // every offset tried, falls off the end
    | BadOffsets(error: OffsetParse.ParseError) // ValueError from the `-o` option
    | Failed(abort: Abort)                      // an exception propagates

  datatype Run = Run(result: FindResult, trials: seq<Trial>)

  /** `handle_arguments` followed by `do`: parse the offsets, fetch the
      responses, then search. */
  function Find(option: string, fetch: Fetch, n: nat, trial: Oracle): (run: Run)
    ensures run.result.BadOffsets? <==> OffsetParse.ParseOffsets(option).Err?
    ensures run.result.BadOffsets? ==> run == Run(BadOffsets(OffsetParse.ParseOffsets(option).error), [])
    ensures fetch == HttpError(404) ==> (run.result == AlbumNotFound || run.result.BadOffsets?) && run.trials == []
    ensures run.result.OffsetFound? ==>
      && fetch.Fetched? && n >= 2
      && OffsetParse.ParseOffsets(option).Ok? && run.result.offset in OffsetParse.ParseOffsets(option).value
    ensures OffsetParse.ParseOffsets(option).Ok? && fetch.HttpError? && fetch.code != 404 ==>
      run == Run(Failed(HttpFailure(fetch.code)), [])
    ensures OffsetParse.ParseOffsets(option).Ok? && fetch.Fetched? ==>
      var r := Search(trial, fetch.responses, n, OffsetParse.ParseOffsets(option).value);
      && run.trials == r.trials
      && (run.result.OffsetFound? <==> r.outcome.FoundOffset?)
      && (r.outcome.FoundOffset? ==> run.result.offset == r.outcome.offset)
      && (run.result == NoMatchingOffset <==> r.outcome == NoOffsetFound)
      && (run.result.Failed? <==> r.outcome.SearchAborted?)
      && (r.outcome.SearchAborted? ==> run.result.abort == r.outcome.abort)
  {
    match OffsetParse.ParseOffsets(option)
    case Err(e) => Run(BadOffsets(e), [])
    case Ok(offsets) =>
      match fetch
      case HttpError(code) =>
        if code == 404 then Run(AlbumNotFound, []) else Run(Failed(HttpFailure(code)), [])
      case Fetched(rs) =>
        var r := Search(trial, rs, n, offsets);
        if r.outcome.FoundOffset? then
          SingleTrackNoOffset(trial, rs, offsets);
          FoundNeedsTwoTracks(trial, rs, n, offsets);
          Run(OffsetFound(r.outcome.offset), r.trials)
        else if r.outcome.NoOffsetFound? then Run(NoMatchingOffset, r.trials)
        else Run(Failed(r.outcome.abort), r.trials)
  }

  /** With a parsable option and a successful download, the run reports
      offset `k` exactly when `k` is the first parsed offset that is
      accepted with only rejected ones before it. */
  lemma FindFirstAccepted(option: string, rs: seq<Response>, n: nat, trial: Oracle, k: int)
    ensures Find(option, Fetched(rs), n, trial).result == OffsetFound(k) <==>
      && OffsetParse.ParseOffsets(option).Ok?
      && (exists j :: 0 <= j < |OffsetParse.ParseOffsets(option).value|
            && OffsetParse.ParseOffsets(option).value[j] == k
            && TryOffset(trial, rs, n, OffsetParse.ParseOffsets(option).value[j]).verdict.Accepted?
            && forall i :: 0 <= i < j ==> TryOffset(trial, rs, n, OffsetParse.ParseOffsets(option).value[i]).verdict.Rejected?)
  {
    if OffsetParse.ParseOffsets(option).Ok? {
      FoundIsFirstAccepted(trial, rs, n, OffsetParse.ParseOffsets(option).value, k);
    }
  }

  /** With a parsable option and a successful download, the run rips
      what the attempts at the parsed offsets up to the deciding one rip,
      in order, and nothing else. */
  lemma FindRips(option: string, rs: seq<Response>, n: nat, trial: Oracle, offsets: seq<int>)
    requires OffsetParse.ParseOffsets(option) == Ok(offsets)
    ensures var j := Decisive(trial, rs, n, offsets);
      Find(option, Fetched(rs), n, trial).trials == AttemptTrials(trial, rs, n, if j < |offsets| then offsets[..j + 1] else offsets)
  {
    FindSearchTrials(option, rs, n, trial, offsets);
    SearchRips(trial, rs, n, offsets);
  }

  lemma FindSearchTrials(option: string, rs: seq<Response>, n: nat, trial: Oracle, offsets: seq<int>)
    requires OffsetParse.ParseOffsets(option) == Ok(offsets)
    ensures Find(option, Fetched(rs), n, trial).trials == Search(trial, rs, n, offsets).trials
  {
  }

  lemma FoundNeedsTwoTracks(trial: Oracle, rs: seq<Response>, n: nat, offsets: seq<int>)
    ensures Search(trial, rs, n, offsets).outcome.FoundOffset? ==> n >= 2
  {
    SearchFirstDecisive(trial, rs, n, offsets);
  }
}
