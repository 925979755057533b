/** `_getMetadata` of the MusicBrainz lookup: a release record as the
    web service returns it, and the disc id that was looked up, become the
    disc's `DiscMetadata`, or nothing when the release has no id. */
module MusicBrainz {
  import opened Wrappers
  import opened Text

  /** The MusicBrainz id of the "Various Artists" pseudo-artist. */
  const VariousArtistsId: string := "89ad4ac3-39f7-470e-963a-56509c546377"

  const ReleaseUrlPrefix: string := "http://musicbrainz.org/release/"

  // ---------------------------------------------------------------------
  // The release record (keys that may be absent are Options)

  datatype Artist = Artist(id: string, name: string, sortName: string)

  /** A `track-list` entry's recording: `artist-credit` and `length` may
      be missing; the credit is the list of its credited artists. */
  datatype Recording = Recording(id: string, title: string, artistCredit: Option<seq<Artist>>, length: Option<int>)

  /** A `medium-list` entry: `position` already read with `int()`,
      `discIds` the ids of its `disc-list`. */
  datatype Medium = Medium(position: int, title: Option<string>, discIds: seq<string>, tracks: seq<Recording>)

  datatype Release = Release(
    id: string,
    title: string,
    artistCredit: seq<Artist>,
    date: Option<string>,
    disambiguation: Option<string>,
    media: seq<Medium>)

  // ---------------------------------------------------------------------
  // The result

  datatype TrackMetadata = TrackMetadata(
    artist: string,
    title: string,
    duration: int,
    mbid: string,
    sortName: string,
    mbidArtist: string)

  /** `title`, `releaseTitle` and `duration` are only assigned once a
      medium carrying the disc id is seen; `release` only when the release
      has a date. */
  datatype DiscMetadata = DiscMetadata(
    artist: string,
    sortName: string,
    title: Option<string>,
    various: bool,
    tracks: seq<TrackMetadata>,
    release: Option<string>,
    releaseTitle: Option<string>,
    mbid: string,
    mbidArtist: string,
    url: string,
    duration: Option<int>)

  // ---------------------------------------------------------------------
  // What `_getMetadata` assumes of its input

  /** A recording credit `_getMetadata` can read on a Various Artists
      release: a first artist with a name, sort name and id (otherwise the
      fallback `metadata.artist.name` fails on a string). */
  predicate CreditUsable(credit: seq<Artist>) {
    |credit| > 0 && credit[0].name != "" && credit[0].sortName != "" && credit[0].id != ""
  }

  predicate CreditsUsable(various: bool, recs: seq<Recording>) {
    forall rec :: rec in recs && various && rec.artistCredit.Some? ==> CreditUsable(rec.artistCredit.value)
  }

  predicate MediaUsable(various: bool, media: seq<Medium>, discid: string) {
    forall m :: m in media && discid in m.discIds ==> CreditsUsable(various, m.tracks)
  }

  /** A release with an id has a first artist credit, and every recording
      credit the various-artists branch reads is usable. */
  predicate Readable(rel: Release, discid: string) {
    rel.id != "" ==>
      && |rel.artistCredit| > 0
      && MediaUsable(rel.artistCredit[0].id == VariousArtistsId, rel.media, discid)
  }

  // ---------------------------------------------------------------------
  // The transformation, loop by loop

  /** `int(t['recording'].get('length', 0))`. */
  function LengthOf(rec: Recording): int {
    match rec.length
    case None => 0
    case Some(l) => l
  }

  /** One `TrackMetadata`: the release's lead artist unless the release is
      Various Artists and the recording has its own credit. */
  function TrackFor(lead: Artist, various: bool, rec: Recording): (t: TrackMetadata)
    requires various && rec.artistCredit.Some? ==> CreditUsable(rec.artistCredit.value)
    ensures t.title == rec.title && t.mbid == rec.id
    ensures t.duration == if rec.length.Some? then rec.length.value else 0
    ensures !various || rec.artistCredit.None? ==>
      t.artist == lead.name && t.sortName == lead.sortName && t.mbidArtist == lead.id
    ensures various && rec.artistCredit.Some? ==>
      var a := rec.artistCredit.value[0];
      t.artist == a.name && t.sortName == a.sortName && t.mbidArtist == a.id
  {
    var who := if !various || rec.artistCredit.None? then lead else rec.artistCredit.value[0];
    TrackMetadata(who.name, rec.title, LengthOf(rec), rec.id, who.sortName, who.id)
  }

  function TracksFor(lead: Artist, various: bool, recs: seq<Recording>): (ts: seq<TrackMetadata>)
    requires CreditsUsable(various, recs)
    ensures |ts| == |recs|
  {
    seq(|recs|, i requires 0 <= i < |recs| => TrackFor(lead, various, recs[i]))
  }

  /** `disc.title`: the release title followed by the decorations the
      release and the medium call for. */
  function DecoratedTitle(rel: Release, m: Medium): (title: string)
    ensures |rel.title| <= |title| && title[..|rel.title|] == rel.title
  {
    var count := |rel.media|;
    var d1 := if rel.disambiguation.Some? then " (" + rel.disambiguation.value + ")" else "";
    var d2 := if count > 1 then " (Disc " + IntToString(m.position) + " of " + IntToString(count) + ")" else "";
    var d3 := if m.title.Some? then ": " + m.title.value else "";
    assert (rel.title + d1 + d2 + d3)[..|rel.title|] == rel.title;
    rel.title + d1 + d2 + d3
  }

  /** The title of the disc: release title, then ` (disambiguation)`
      when the release has one, then ` (Disc p of n)` when the release has
      several media, then `: medium title` when the medium has one. Each
      part sits right after the previous one, and the length leaves room
      for nothing else. */
  lemma DecoratedTitleParts(rel: Release, m: Medium)
    ensures rel.disambiguation.Some? ==>
      var title, d := DecoratedTitle(rel, m), " (" + rel.disambiguation.value + ")";
      |rel.title| + |d| <= |title| && title[|rel.title|..|rel.title| + |d|] == d
    ensures |rel.media| > 1 ==>
      var title := DecoratedTitle(rel, m);
      var k := |rel.title| + (if rel.disambiguation.Some? then |rel.disambiguation.value| + 3 else 0);
      var disc := " (Disc " + IntToString(m.position) + " of " + IntToString(|rel.media|) + ")";
      k + |disc| <= |title| && title[k..k + |disc|] == disc
    ensures m.title.Some? ==>
      var title, tail := DecoratedTitle(rel, m), ": " + m.title.value;
      |tail| <= |title| && title[|title| - |tail|..] == tail
    ensures |DecoratedTitle(rel, m)| ==
      |rel.title|
      + (if rel.disambiguation.Some? then |rel.disambiguation.value| + 3 else 0)
      + (if |rel.media| > 1 then |" (Disc " + IntToString(m.position) + " of " + IntToString(|rel.media|) + ")"| else 0)
      + (if m.title.Some? then |m.title.value| + 2 else 0)
    ensures rel.disambiguation.None? && |rel.media| <= 1 && m.title.None? ==> DecoratedTitle(rel, m) == rel.title
  {
    var count := |rel.media|;
    var d1 := if rel.disambiguation.Some? then " (" + rel.disambiguation.value + ")" else "";
    var d2 := if count > 1 then " (Disc " + IntToString(m.position) + " of " + IntToString(count) + ")" else "";
    var d3 := if m.title.Some? then ": " + m.title.value else "";
    Decorate(rel.title, d1, d2, d3);
  }

  /** The second of two media, on a release with a disambiguation,
      carrying its own medium title: `Album (live) (Disc 2 of 2): Bonus`
      for the release `Album` disambiguated as `live` and the medium
      `Bonus`. */
  lemma TitleExample(rel: Release, m: Medium, d: string, t: string)
    requires rel.disambiguation == Some(d) && |rel.media| == 2
    requires m.position == 2 && m.title == Some(t)
    ensures DecoratedTitle(rel, m) == rel.title + " (" + d + ") (Disc 2 of 2): " + t
  {
    var d1, d3 := " (" + d + ")", ": " + t;
    assert DecoratedTitle(rel, m) == rel.title + d1 + " (Disc 2 of 2)" + d3 by {
      var two := IntToString(2);
      assert two == "2" by { assert DigitChar(2) == '2'; }
      assert " (Disc " + two + " of " + two + ")" == " (Disc 2 of 2)";
    }
    assert rel.title + d1 + " (Disc 2 of 2)" + d3 == rel.title + " (" + d + ") (Disc 2 of 2): " + t;
  }

  /** A word with three decorations appended: the word, then each
      decoration in turn, and nothing else. */
  lemma Decorate(w: string, d1: string, d2: string, d3: string)
    ensures var s := w + d1 + d2 + d3;
      && |s| == |w| + |d1| + |d2| + |d3|
      && s[..|w|] == w
      && s[|w|..|w| + |d1|] == d1
      && s[|w| + |d1|..|w| + |d1| + |d2|] == d2
      && s[|s| - |d3|..] == d3
      && (d1 == d2 == d3 == "" ==> s == w)
  {
    var s := w + d1 + d2 + d3;
    assert s == w + (d1 + d2 + d3);
    assert s == (w + d1) + (d2 + d3);
    assert s == (w + d1 + d2) + d3;
  }

  /** The local variables of `_getMetadata` that its loops update, and
      the attributes they assign. */
  datatype Acc = Acc(
    title: Option<string>,
    releaseTitle: Option<string>,
    tracks: seq<TrackMetadata>,
    tainted: bool,
    duration: int,
    reported: Option<int>)

  predicate HasZeroLength(recs: seq<Recording>) {
    exists i :: 0 <= i < |recs| && LengthOf(recs[i]) == 0
  }

  function SumLengths(recs: seq<Recording>): int {
    if |recs| == 0 then 0 else LengthOf(recs[0]) + SumLengths(recs[1..])
  }

  /** `for t in medium['track-list']`: append one track each, mark the
      sum tainted on a missing or zero length, otherwise add the length.
      Nothing else changes. */
  function AddTracks(acc: Acc, lead: Artist, various: bool, recs: seq<Recording>): (r: Acc)
    requires CreditsUsable(various, recs)
    ensures r.title == acc.title && r.releaseTitle == acc.releaseTitle && r.reported == acc.reported
    ensures r.tracks == acc.tracks + TracksFor(lead, various, recs)
    ensures r.tainted == (acc.tainted || HasZeroLength(recs))
    ensures r.duration == acc.duration + SumLengths(recs)
    decreases |recs|
  {
    if |recs| == 0 then acc
    else
      var tm := TrackFor(lead, various, recs[0]);
      var next := acc.(
        tracks := acc.tracks + [tm],
        tainted := acc.tainted || tm.duration == 0,
        duration := if tm.duration == 0 then acc.duration else acc.duration + tm.duration);
      TracksForCons(lead, various, recs);
      ZeroLengthCons(recs);
      AddTracks(next, lead, various, recs[1..])
  }

  lemma TracksForCons(lead: Artist, various: bool, recs: seq<Recording>)
    requires |recs| > 0 && CreditsUsable(various, recs)
    ensures CreditsUsable(various, recs[1..])
    ensures TracksFor(lead, various, recs) == [TrackFor(lead, various, recs[0])] + TracksFor(lead, various, recs[1..])
  {
    assert recs[0] in recs;
    assert forall rec :: rec in recs[1..] ==> rec in recs;
  }

  lemma ZeroLengthCons(recs: seq<Recording>)
    requires |recs| > 0
    ensures HasZeroLength(recs) <==> LengthOf(recs[0]) == 0 || HasZeroLength(recs[1..])
  {
    if HasZeroLength(recs) && LengthOf(recs[0]) != 0 {
      var i :| 0 <= i < |recs| && LengthOf(recs[i]) == 0;
      assert recs[1..][i - 1] == recs[i];
    }
    if HasZeroLength(recs[1..]) {
      var i :| 0 <= i < |recs[1..]| && LengthOf(recs[1..][i]) == 0;
      assert recs[i + 1] == recs[1..][i];
    }
  }

  /** The body run for a medium each time its disc list holds the disc id. */
  function TakeMedium(acc: Acc, rel: Release, lead: Artist, various: bool, m: Medium): (r: Acc)
    requires CreditsUsable(various, m.tracks)
    ensures r.title == Some(DecoratedTitle(rel, m)) && r.releaseTitle == Some(rel.title)
    ensures r.tracks == acc.tracks + TracksFor(lead, various, m.tracks)
    ensures r.tainted == (acc.tainted || HasZeroLength(m.tracks))
    ensures r.duration == acc.duration + SumLengths(m.tracks)
    ensures r.reported == Some(if r.tainted then 0 else r.duration)
  {
    var titled := acc.(title := Some(DecoratedTitle(rel, m)), releaseTitle := Some(rel.title));
    var filled := AddTracks(titled, lead, various, m.tracks);
    filled.(reported := Some(if filled.tainted then 0 else filled.duration))
  }

  /** `for disc in medium['disc-list']`. */
  function ScanDiscs(acc: Acc, rel: Release, lead: Artist, various: bool, m: Medium, discid: string, ids: seq<string>): (r: Acc)
    requires discid in ids ==> CreditsUsable(various, m.tracks)
    ensures discid !in ids ==> r == acc
    decreases |ids|
  {
    if |ids| == 0 then acc
    else
      var next := if ids[0] == discid then TakeMedium(acc, rel, lead, various, m) else acc;
      ScanDiscs(next, rel, lead, various, m, discid, ids[1..])
  }

  /** `for medium in release['medium-list']`. */
  function ScanMedia(acc: Acc, rel: Release, lead: Artist, various: bool, media: seq<Medium>, discid: string): (r: Acc)
    requires MediaUsable(various, media, discid)
    ensures (forall i :: 0 <= i < |media| ==> discid !in media[i].discIds) ==> r == acc
    decreases |media|
  {
    if |media| == 0 then acc
    else
      var next := ScanDiscs(acc, rel, lead, various, media[0], discid, media[0].discIds);
      ScanMedia(next, rel, lead, various, media[1..], discid)
  }

  /** `_getMetadata(release, discid)`. */
  function GetMetadata(rel: Release, discid: string): (md: Option<DiscMetadata>)
    requires Readable(rel, discid)
    ensures md.None? <==> rel.id == ""
    ensures md.Some? ==> md.value.mbid == rel.id && md.value.url == ReleaseUrlPrefix + rel.id
    ensures md.Some? ==> (md.value.various <==> rel.artistCredit[0].id == VariousArtistsId)
    ensures md.Some? ==>
      && md.value.artist == rel.artistCredit[0].name
      && md.value.sortName == rel.artistCredit[0].sortName
      && md.value.mbidArtist == rel.artistCredit[0].id
      && md.value.release == rel.date
  {
    if rel.id == "" then None
    else
      var lead := rel.artistCredit[0];
      var various := lead.id == VariousArtistsId;
      var acc := ScanMedia(Acc(None, None, [], false, 0, None), rel, lead, various, rel.media, discid);
      Some(DiscMetadata(
        lead.name, lead.sortName, acc.title, various, acc.tracks, rel.date,
        acc.releaseTitle, rel.id, lead.id, ReleaseUrlPrefix + rel.id, acc.reported))
  }

  // ---------------------------------------------------------------------
  // Reference definitions: what the loops add up to

  /** How many entries of a disc list are the disc id. */
  function MatchCount(ids: seq<string>, discid: string): (c: nat)
    ensures c > 0 <==> discid in ids
  {
    if |ids| == 0 then 0 else (if ids[0] == discid then 1 else 0) + MatchCount(ids[1..], discid)
  }

  function Repeat(recs: seq<Recording>, k: nat): (r: seq<Recording>)
    ensures forall rec :: rec in r ==> rec in recs
  {
    if k == 0 then [] else recs + Repeat(recs, k - 1)
  }

  /** The recordings `_getMetadata` reports, in medium order and then
      track-list order: each medium's track list once for every entry of
      its disc list equal to the disc id. */
  function Selected(media: seq<Medium>, discid: string): seq<Recording> {
    if |media| == 0 then []
    else Repeat(media[0].tracks, MatchCount(media[0].discIds, discid)) + Selected(media[1..], discid)
  }

  /** The last medium whose disc list holds the disc id: the one whose
      title is left in `metadata.title`. */
  function LastTaken(media: seq<Medium>, discid: string): (r: Option<Medium>)
    ensures r.Some? <==> exists m :: m in media && discid in m.discIds
    ensures r.Some? ==> r.value in media && discid in r.value.discIds
  {
    if |media| == 0 then None
    else
      match LastTaken(media[1..], discid)
      case Some(m) => Some(m)
      case None => if discid in media[0].discIds then Some(media[0]) else None
  }

  /** `metadata.duration`, once assigned, reflects the running sum. */
  predicate Consistent(acc: Acc) {
    acc.reported.None? || acc.reported == Some(if acc.tainted then 0 else acc.duration)
  }

  lemma {:induction false} TracksForAppend(lead: Artist, various: bool, a: seq<Recording>, b: seq<Recording>)
    requires CreditsUsable(various, a) && CreditsUsable(various, b)
    ensures CreditsUsable(various, a + b)
    ensures TracksFor(lead, various, a + b) == TracksFor(lead, various, a) + TracksFor(lead, various, b)
  {
    var l, r := TracksFor(lead, various, a + b), TracksFor(lead, various, a) + TracksFor(lead, various, b);
    forall i | 0 <= i < |l| ensures l[i] == r[i] {
      if i >= |a| {
        assert (a + b)[i] == b[i - |a|];
      }
    }
  }

  lemma {:induction false} SumLengthsAppend(a: seq<Recording>, b: seq<Recording>)
    ensures SumLengths(a + b) == SumLengths(a) + SumLengths(b)
    ensures HasZeroLength(a + b) == (HasZeroLength(a) || HasZeroLength(b))
    decreases |a|
  {
    if |a| == 0 {
      assert a + b == b;
    } else {
      assert (a + b)[1..] == a[1..] + b;
      SumLengthsAppend(a[1..], b);
    }
    if HasZeroLength(a + b) {
      var i :| 0 <= i < |a + b| && LengthOf((a + b)[i]) == 0;
      if i >= |a| {
        assert (a + b)[i] == b[i - |a|];
      }
    }
    if HasZeroLength(b) {
      var i :| 0 <= i < |b| && LengthOf(b[i]) == 0;
      assert (a + b)[i + |a|] == b[i];
    }
  }

  /** Adding the tracks of `here` and then those of `later` adds the
      tracks of `here + later`. */
  lemma ExtendsTrans(acc: Acc, mid: Acc, r: Acc, lead: Artist, various: bool, here: seq<Recording>, later: seq<Recording>)
    requires CreditsUsable(various, here) && CreditsUsable(various, later)
    requires mid.tracks == acc.tracks + TracksFor(lead, various, here)
    requires mid.tainted == (acc.tainted || HasZeroLength(here))
    requires mid.duration == acc.duration + SumLengths(here)
    requires r.tracks == mid.tracks + TracksFor(lead, various, later)
    requires r.tainted == (mid.tainted || HasZeroLength(later))
    requires r.duration == mid.duration + SumLengths(later)
    ensures CreditsUsable(various, here + later)
    ensures r.tracks == acc.tracks + TracksFor(lead, various, here + later)
    ensures r.tainted == (acc.tainted || HasZeroLength(here + later))
    ensures r.duration == acc.duration + SumLengths(here + later)
  {
    TracksForAppend(lead, various, here, later);
    SumLengthsAppend(here, later);
    assert acc.tracks + TracksFor(lead, various, here) + TracksFor(lead, various, later)
      == acc.tracks + (TracksFor(lead, various, here) + TracksFor(lead, various, later));
  }

  /** One pass over a medium's disc list adds that medium's tracks once per
      matching entry. */
  lemma {:induction false} ScanDiscsTracks(acc: Acc, rel: Release, lead: Artist, various: bool, m: Medium, discid: string, ids: seq<string>)
    requires discid in ids ==> CreditsUsable(various, m.tracks)
    ensures CreditsUsable(various, Repeat(m.tracks, MatchCount(ids, discid)))
    ensures var r := ScanDiscs(acc, rel, lead, various, m, discid, ids);
      var sel := Repeat(m.tracks, MatchCount(ids, discid));
      && r.tracks == acc.tracks + TracksFor(lead, various, sel)
      && r.tainted == (acc.tainted || HasZeroLength(sel))
      && r.duration == acc.duration + SumLengths(sel)
    decreases |ids|
  {
    if |ids| > 0 {
      var rest := ids[1..];
      if ids[0] == discid {
        var next := TakeMedium(acc, rel, lead, various, m);
        ScanDiscsTracks(next, rel, lead, various, m, discid, rest);
        var later := Repeat(m.tracks, MatchCount(rest, discid));
        assert Repeat(m.tracks, MatchCount(ids, discid)) == m.tracks + later;
        ExtendsTrans(acc, next, ScanDiscs(next, rel, lead, various, m, discid, rest), lead, various, m.tracks, later);
      } else {
        assert discid in ids ==> discid in rest;
        ScanDiscsTracks(acc, rel, lead, various, m, discid, rest);
      }
    }
  }

  /** One pass over a medium's disc list sets the title, the release title
      and the reported duration exactly when the list holds the disc id,
      and leaves the reported duration consistent with the running sum. */
  lemma {:induction false} ScanDiscsTitle(acc: Acc, rel: Release, lead: Artist, various: bool, m: Medium, discid: string, ids: seq<string>)
    requires discid in ids ==> CreditsUsable(various, m.tracks)
    requires Consistent(acc)
    ensures var r := ScanDiscs(acc, rel, lead, various, m, discid, ids);
      && Consistent(r)
      && r.reported.Some? == (acc.reported.Some? || discid in ids)
      && r.title == (if discid in ids then Some(DecoratedTitle(rel, m)) else acc.title)
      && r.releaseTitle == (if discid in ids then Some(rel.title) else acc.releaseTitle)
    decreases |ids|
  {
    if |ids| > 0 {
      var rest := ids[1..];
      assert discid in ids <==> ids[0] == discid || discid in rest;
      if ids[0] == discid {
        var next := TakeMedium(acc, rel, lead, various, m);
        ScanDiscsTitle(next, rel, lead, various, m, discid, rest);
      } else {
        ScanDiscsTitle(acc, rel, lead, various, m, discid, rest);
      }
    }
  }

  /** One pass over a medium's disc list adds that medium's tracks once per
      matching entry and, if there was one, sets the title. */
  lemma ScanDiscsEffect(acc: Acc, rel: Release, lead: Artist, various: bool, m: Medium, discid: string, ids: seq<string>)
    requires discid in ids ==> CreditsUsable(various, m.tracks)
    requires Consistent(acc)
    ensures CreditsUsable(various, Repeat(m.tracks, MatchCount(ids, discid)))
    ensures var r := ScanDiscs(acc, rel, lead, various, m, discid, ids);
      var sel := Repeat(m.tracks, MatchCount(ids, discid));
      && r.tracks == acc.tracks + TracksFor(lead, various, sel)
      && r.tainted == (acc.tainted || HasZeroLength(sel))
      && r.duration == acc.duration + SumLengths(sel)
      && Consistent(r)
      && r.reported.Some? == (acc.reported.Some? || discid in ids)
      && r.title == (if discid in ids then Some(DecoratedTitle(rel, m)) else acc.title)
      && r.releaseTitle == (if discid in ids then Some(rel.title) else acc.releaseTitle)
  {
    ScanDiscsTracks(acc, rel, lead, various, m, discid, ids);
    ScanDiscsTitle(acc, rel, lead, various, m, discid, ids);
  }

  /** The loop over the media adds the selected recordings' tracks in
      medium order. */
  lemma {:induction false} ScanMediaTracks(acc: Acc, rel: Release, lead: Artist, various: bool, media: seq<Medium>, discid: string)
    requires MediaUsable(various, media, discid)
    ensures CreditsUsable(various, Selected(media, discid))
    ensures var r := ScanMedia(acc, rel, lead, various, media, discid);
      var sel := Selected(media, discid);
      && r.tracks == acc.tracks + TracksFor(lead, various, sel)
      && r.tainted == (acc.tainted || HasZeroLength(sel))
      && r.duration == acc.duration + SumLengths(sel)
    decreases |media|
  {
    if |media| > 0 {
      var m := media[0];
      assert m in media;
      var next := ScanDiscs(acc, rel, lead, various, m, discid, m.discIds);
      ScanDiscsTracks(acc, rel, lead, various, m, discid, m.discIds);
      assert MediaUsable(various, media[1..], discid) by {
        forall m' | m' in media[1..] ensures m' in media { }
      }
      ScanMediaTracks(next, rel, lead, various, media[1..], discid);
      var here := Repeat(m.tracks, MatchCount(m.discIds, discid));
      var later := Selected(media[1..], discid);
      ExtendsTrans(acc, next, ScanMedia(next, rel, lead, various, media[1..], discid), lead, various, here, later);
    }
  }

  /** The loop over the media keeps the title of the last medium holding
      the disc id and leaves the reported duration consistent with the
      running sum. */
  lemma {:induction false} ScanMediaTitle(acc: Acc, rel: Release, lead: Artist, various: bool, media: seq<Medium>, discid: string)
    requires MediaUsable(various, media, discid)
    requires Consistent(acc)
    ensures var r := ScanMedia(acc, rel, lead, various, media, discid);
      var last := LastTaken(media, discid);
      && Consistent(r)
      && r.reported.Some? == (acc.reported.Some? || last.Some?)
      && r.title == (if last.Some? then Some(DecoratedTitle(rel, last.value)) else acc.title)
      && r.releaseTitle == (if last.Some? then Some(rel.title) else acc.releaseTitle)
    decreases |media|
  {
    if |media| > 0 {
      var m := media[0];
      assert m in media;
      var next := ScanDiscs(acc, rel, lead, various, m, discid, m.discIds);
      ScanDiscsTitle(acc, rel, lead, various, m, discid, m.discIds);
      assert MediaUsable(various, media[1..], discid) by {
        forall m' | m' in media[1..] ensures m' in media { }
      }
      ScanMediaTitle(next, rel, lead, various, media[1..], discid);
    }
  }

  /** The loop over the media adds the selected recordings' tracks, keeps
      the title of the last medium holding the disc id, and leaves the
      reported duration consistent with the running sum. */
  lemma ScanMediaEffect(acc: Acc, rel: Release, lead: Artist, various: bool, media: seq<Medium>, discid: string)
    requires MediaUsable(various, media, discid)
    requires Consistent(acc)
    ensures CreditsUsable(various, Selected(media, discid))
    ensures var r := ScanMedia(acc, rel, lead, various, media, discid);
      var sel := Selected(media, discid);
      var last := LastTaken(media, discid);
      && r.tracks == acc.tracks + TracksFor(lead, various, sel)
      && r.tainted == (acc.tainted || HasZeroLength(sel))
      && r.duration == acc.duration + SumLengths(sel)
      && Consistent(r)
      && r.reported.Some? == (acc.reported.Some? || last.Some?)
      && r.title == (if last.Some? then Some(DecoratedTitle(rel, last.value)) else acc.title)
      && r.releaseTitle == (if last.Some? then Some(rel.title) else acc.releaseTitle)
  {
    ScanMediaTracks(acc, rel, lead, various, media, discid);
    ScanMediaTitle(acc, rel, lead, various, media, discid);
  }

  // ---------------------------------------------------------------------
  // Properties of _getMetadata

  /** The reported tracks are the selected recordings, each made into a
      `TrackMetadata` as the track loop does. */
  lemma MetadataTrackList(rel: Release, discid: string)
    requires Readable(rel, discid) && rel.id != ""
    ensures var lead := rel.artistCredit[0];
      var various := lead.id == VariousArtistsId;
      var sel := Selected(rel.media, discid);
      && CreditsUsable(various, sel)
      && GetMetadata(rel, discid).value.tracks == TracksFor(lead, various, sel)
  {
    var lead := rel.artistCredit[0];
    ScanMediaTracks(Acc(None, None, [], false, 0, None), rel, lead, lead.id == VariousArtistsId, rel.media, discid);
  }

  /** One `TrackMetadata` per selected recording, in order, carrying the
      recording's title, id and length (0 when missing). */
  lemma MetadataTracks(rel: Release, discid: string)
    requires Readable(rel, discid) && rel.id != ""
    ensures var md := GetMetadata(rel, discid).value;
      var sel := Selected(rel.media, discid);
      && |md.tracks| == |sel|
      && forall i :: 0 <= i < |sel| ==>
           && md.tracks[i].title == sel[i].title
           && md.tracks[i].mbid == sel[i].id
           && md.tracks[i].duration == LengthOf(sel[i])
  {
    MetadataTrackList(rel, discid);
  }

  /** A track inherits the release's artist, sort name and artist id when
      the release is not Various Artists or the recording has no credit;
      otherwise it takes its own first credited artist's. */
  lemma TrackArtistInherited(rel: Release, discid: string)
    requires Readable(rel, discid) && rel.id != ""
    ensures var md := GetMetadata(rel, discid).value;
      var sel := Selected(rel.media, discid);
      && |md.tracks| == |sel|
      && (forall i :: 0 <= i < |sel| && (!md.various || sel[i].artistCredit.None?) ==>
            && md.tracks[i].artist == md.artist
            && md.tracks[i].sortName == md.sortName
            && md.tracks[i].mbidArtist == md.mbidArtist)
      && (forall i :: 0 <= i < |sel| && md.various && sel[i].artistCredit.Some? ==>
            && |sel[i].artistCredit.value| > 0
            && md.tracks[i].artist == sel[i].artistCredit.value[0].name
            && md.tracks[i].sortName == sel[i].artistCredit.value[0].sortName
            && md.tracks[i].mbidArtist == sel[i].artistCredit.value[0].id)
  {
    MetadataTrackList(rel, discid);
    var sel := Selected(rel.media, discid);
    assert forall i :: 0 <= i < |sel| ==> sel[i] in sel;
  }

  /** The title is the decorated title of the last medium holding the disc
      id and `releaseTitle` the bare release title; both stay unset when
      no medium holds it. */
  lemma MetadataTitle(rel: Release, discid: string)
    requires Readable(rel, discid) && rel.id != ""
    ensures var md := GetMetadata(rel, discid).value;
      && md.title == (match LastTaken(rel.media, discid)
                      case None => None
                      case Some(m) => Some(DecoratedTitle(rel, m)))
      && md.releaseTitle == (if LastTaken(rel.media, discid).Some? then Some(rel.title) else None)
  {
    var lead := rel.artistCredit[0];
    ScanMediaEffect(Acc(None, None, [], false, 0, None), rel, lead, lead.id == VariousArtistsId, rel.media, discid);
  }

  /** The duration is the sum of the reported tracks' lengths, 0 as soon as
      one of them has a missing or zero length, and unset when no medium
      holds the disc id. */
  lemma MetadataDuration(rel: Release, discid: string)
    requires Readable(rel, discid) && rel.id != ""
    ensures var md := GetMetadata(rel, discid).value;
      var sel := Selected(rel.media, discid);
      md.duration == if LastTaken(rel.media, discid).Some?
                     then Some(if HasZeroLength(sel) then 0 else SumLengths(sel))
                     else None
  {
    var lead := rel.artistCredit[0];
    ScanMediaEffect(Acc(None, None, [], false, 0, None), rel, lead, lead.id == VariousArtistsId, rel.media, discid);
  }

  /** The tracks of the media whose disc list holds the disc id, in order. */
  function TakenTracks(media: seq<Medium>, discid: string): seq<Recording> {
    if |media| == 0 then []
    else (if discid in media[0].discIds then media[0].tracks else []) + TakenTracks(media[1..], discid)
  }

  /** When no disc list names the disc id twice, the reported recordings
      are exactly the tracks of the media holding it, medium by medium. */
  lemma {:induction false} SelectedWhenUnique(media: seq<Medium>, discid: string)
    requires forall m :: m in media ==> MatchCount(m.discIds, discid) <= 1
    ensures Selected(media, discid) == TakenTracks(media, discid)
    decreases |media|
  {
    if |media| > 0 {
      var m := media[0];
      assert m in media;
      forall m' | m' in media[1..] ensures MatchCount(m'.discIds, discid) <= 1 {
        assert m' in media;
      }
      SelectedWhenUnique(media[1..], discid);
      var here := if discid in m.discIds then m.tracks else [];
      assert Repeat(m.tracks, MatchCount(m.discIds, discid)) == here by {
        if discid in m.discIds {
          assert Repeat(m.tracks, 1) == m.tracks + [];
        }
      }
    }
  }

  /** Every reported recording comes from a medium whose disc list holds
      the disc id. */
  lemma {:induction false} SelectedFromMatchingMedia(media: seq<Medium>, discid: string)
    ensures forall rec :: rec in Selected(media, discid) ==>
      exists m :: m in media && discid in m.discIds && rec in m.tracks
    decreases |media|
  {
    if |media| > 0 {
      SelectedFromMatchingMedia(media[1..], discid);
      var m := media[0];
      assert m in media;
      assert forall m' :: m' in media[1..] ==> m' in media;
      forall rec | rec in Selected(media, discid)
        ensures exists m' :: m' in media && discid in m'.discIds && rec in m'.tracks
      {
        if rec in Repeat(m.tracks, MatchCount(m.discIds, discid)) {
          assert discid in m.discIds && rec in m.tracks;
        } else {
          assert rec in Selected(media[1..], discid);
          var m' :| m' in media[1..] && discid in m'.discIds && rec in m'.tracks;
          assert m' in media;
        }
      }
    }
  }
}
