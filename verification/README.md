# Drive read-offset search and MusicBrainz release metadata, in Dafny

This project models two pieces of the whipper/morituri CD ripper as pure
functions and proves properties of them.

**`whipper offset find`** (`whipper/command/offset.py`) works out a drive's
sample-level read offset:

- It parses the `-o/--offsets` option into an ordered list of candidate
  offsets (`OffsetParse`).
- It rips track 1 at each candidate and renders the AccurateRip checksum as
  `"%08x"` (`Hex`).
- It looks that checksum up among the reference responses (`match`).
- When track 1 matches, it runs a confirmation pass over tracks 2 .. N-1.
- It accepts the first offset for which every one of those tracks matched
  (`OffsetSearch`).

Ripping and checksumming are one abstract oracle,
`trial(track, offset) -> Ripped(checksum) | FileSizeError | MissingDependency | OtherTaskError`.
The reference responses and the disc's track count `N` are inputs. `Find`
chains the option parser, the outcome of the reference download and the
search, and returns the result together with the ordered list of rips it
asked for.

**`_getMetadata`** (`morituri/common/musicbrainzngs.py`) turns a MusicBrainz
release record and the disc id that was looked up into a `DiscMetadata`. The
`MusicBrainz` module covers:

- the missing-id check;
- Various-Artists detection;
- the decorated disc title;
- track selection from the media that carry the disc id;
- per-track artist inheritance;
- the "tainted" duration sum.

The nested dictionaries become datatypes, with `Option` fields for the keys
that may be absent.

`Text` holds the Python string behaviour the models need: `strip()`,
`split(sep)`, reading decimal digits and writing `"%d"`. `Wrappers` holds
`Option` and `Result`.

### What the code does, where a reading of its intent might differ

- **Duplicates are kept.** Repeated offsets, whether from repeated tokens
  or from overlapping ranges, are each tried again (`ParseKeepsDuplicates`).
- **Reversed ranges are empty.** A range `a:b` with `a > b` adds nothing,
  and the parse still succeeds (`ExpandRange`).
- **Whitespace may follow a sign.** Python 2's `int()` reads `"- 5"` as -5,
  so such a token is a valid offset (`SignGap`).
- **An empty option is an error.** It fails with `int('')`. It does not
  give an empty list (`EmptyOptionFails`).
- **The ValueError quotes the token without its leading whitespace.**
  Python 2's `int()` skips leading whitespace before it gives up, and it
  quotes the rest of its argument, cut at 200 characters. The blocks
  after the first in the default `", "`-separated option start with a
  space, which the message leaves out: `-o "+6, +4x8"` fails on `'+4x8'`
  (`ErrorText`, `PaddedBlockQuoted`, `SecondBlockQuoted`, `BadLiterals`).
- **Confirmation is not pinned.** The confirmation pass calls `match`
  against *all* responses for each track, not only the response that
  matched track 1. An offset can be accepted although no single response
  agrees with all of its tracks (`ConfirmationNotPinned`).
- **Swallowed failures reuse the old checksum.** In the confirmation pass,
  only a `FileSizeError` skips a track. Any other task exception, a missing
  dependency included, is swallowed, and `match` then runs on the checksum
  of the last track that did rip (`StaleChecksumConfirms`).
- **`count` can exceed N-1 on a one-track disc.** `count` starts at 1, so it
  stays at or below N-1 only when N >= 2. With N = 1 it is 1 and never
  equals the target 0, so no offset is ever found (`CountReachesTarget`,
  `SingleTrackNoOffset`).
- **A short response aborts the search.** `match` indexes
  `r.checksums[track - 1]` outside any `try`. A response with too few
  checksums therefore raises an IndexError that ends the search. The model
  carries this as `ShortResponse` and `ResponseTooShort`.
- **No responses still means a full pass over the offsets.** With an empty
  response list no offset can match. The loop still rips track 1 at every
  candidate offset, in order, before it reports that no offset was found
  (`NoResponsesTriesAll`). Only a missing dependency on track 1 ends it
  early.
- **A disc id listed twice adds its medium twice.** In `_getMetadata`, a
  medium whose disc list names the disc id twice contributes its tracks
  twice. `SelectedWhenUnique` gives the usual case.
- **`duration` may never be assigned.** `DiscMetadata` has no class-level
  `duration`, so when no medium carries the disc id the attribute is never
  set. The model gives `None` there.

## Model

| member | source | states |
|---|---|---|
| Text.Split | whipper/command/offset.py:71 | `str.split(sep)` yields at least one piece, no piece holds the separator, and the pieces joined with the separator give back the input |
| Text.SplitJoin | whipper/command/offset.py:71-74 | splitting a join of separator-free pieces returns exactly those pieces |
| Text.SplitAppend | whipper/command/offset.py:71 | splitting `a + sep + b` gives the pieces of `a` followed by the pieces of `b` |
| Text.StripPadded | whipper/command/offset.py:75-77 | the whitespace `int()` tolerates in front of a literal is removed by strip, and nothing else is |
| Text.NatToStringRoundTrip | whipper/command/offset.py:75-77 | reading back the decimal digits `"%d"` writes gives the original number |
| Hex.Hex8 | whipper/command/offset.py:217 | `"%08x"` of a 32-bit checksum is always exactly eight lower-case hexadecimal digits |
| Hex.HexDigitsValue | whipper/command/offset.py:217 | the k rendered digits denote the value modulo 16^k |
| Hex.Hex8RoundTrip | whipper/command/offset.py:217 | the eight rendered digits denote the checksum itself, so nothing is lost |
| Hex.Hex8Injective | whipper/command/offset.py:217 | two checksums render to the same string exactly when they are equal, so string comparison in `match` is checksum comparison |
| OffsetParse.ParseInt | whipper/command/offset.py:75-77 | a failing `int()` raises a ValueError quoting `ErrorText` of its argument: the literal from its first non-whitespace character on, cut at 200 characters |
| OffsetParse.ErrorText | whipper/command/offset.py:75-77 | the literal a ValueError of `int()` quotes has at most 200 characters, is a prefix of the argument with its leading whitespace removed, and does not start with whitespace |
| OffsetParse.ErrorTextSkipsPadding | whipper/command/offset.py:75-77 | whitespace in front of a literal does not change what the ValueError quotes |
| OffsetParse.PaddedBlockQuoted | whipper/command/offset.py:76-77 | a colon-free block that `int()` rejects fails with a ValueError that leaves out the whitespace in front of it, and quotes the rest whole when it has at most 200 characters |
| OffsetParse.SecondBlockQuoted | whipper/command/offset.py:70-77 | when a rejected block follows a valid offset and a comma, the option fails with that block's ValueError, which leaves out the whitespace after the comma; so `-o "+6, +4x8"` fails on `'+4x8'` |
| OffsetParse.RangeHalfQuoted | whipper/command/offset.py:74-75 | when the first half of a range block is rejected, its ValueError leaves out the whitespace in front of it; so in `" 5x:7"` it quotes `'5x'` |
| OffsetParse.BadLiterals | whipper/command/offset.py:75-77 | `int()` rejects `+4x8` and `5x`, and its ValueError quotes each of them whole |
| OffsetParse.ParseIntSpells | whipper/command/offset.py:75-77 | `int(t)` returns v exactly when t, stripped of surrounding whitespace, is an optional sign, then whitespace only if there was a sign, then one or more decimal digits whose signed base-10 value is v |
| OffsetParse.ParseIntRejects | whipper/command/offset.py:75-77 | `int(t)` raises a ValueError exactly when the stripped t spells no integer in that syntax |
| OffsetParse.SignGap | whipper/command/offset.py:75-77 | whitespace after the sign is skipped: `int("- " + digits)` is minus the number the digits spell, so `int("- 5")` is -5 |
| OffsetParse.DigitsRunToEnd | whipper/command/offset.py:75-77 | whitespace between digits is a ValueError: `int("5 5")` fails |
| OffsetParse.SignAlone | whipper/command/offset.py:75-77 | a sign with no digits is a ValueError: `int("- ")` fails |
| OffsetParse.ParseIntFormatted | whipper/command/offset.py:75-77 | `int()` reads back an offset written as `"%d"` or `"+%d"`, with or without a leading space |
| OffsetParse.Range | whipper/command/offset.py:75 | `range(lo, hi)` holds hi - lo consecutive integers starting at lo, and is empty when hi <= lo |
| OffsetParse.ExpandSingle | whipper/command/offset.py:76-77 | a block without a colon, spelled as `"%d"` writes an integer, contributes exactly that integer; other spellings are covered by `ExpandBlockShape` and `ExpandPlainBlock` |
| OffsetParse.ExpandRange | whipper/command/offset.py:73-75 | a block `a:b` with both halves spelled as `"%d"` writes them contributes a, a+1, ..., b inclusive; it contributes nothing when a > b, and the parse still succeeds; other spellings are covered by `ExpandColonBlock` |
| OffsetParse.ExpandBlockShape | whipper/command/offset.py:73-77 | a block without a colon gives one offset and fails exactly when `int()` rejects it; any block gives consecutive offsets; the two-name unpacking fails exactly when the block has more than one colon; for a block `a:b` the ValueError is that of `int(a)` if `a` is not an integer, else that of `int(b)`, and the block expands when both halves are integers |
| OffsetParse.ExpandColonBlock | whipper/command/offset.py:75 | `int(a)` is evaluated first and its ValueError wins; otherwise the ValueError of `int(b)`; otherwise the block gives int(a), int(a)+1, ..., int(b) inclusive, and nothing when int(a) > int(b) |
| OffsetParse.ExpandPlainBlock | whipper/command/offset.py:77 | a block without a colon gives exactly the one offset `int()` reads from it, or the ValueError of `int()` on the block, quoted without its leading whitespace |
| OffsetParse.Collect | whipper/command/offset.py:72-77 | running the blocks' results in order succeeds exactly when every block's result is a success |
| OffsetParse.FirstFailure | whipper/command/offset.py:72-77 | a failed run carries the error of the first failing block result, and every result before it is a success |
| OffsetParse.CollectAppend | whipper/command/offset.py:72-77 | running two lists of block results in sequence appends their offsets; the first failure wins |
| OffsetParse.ParseBlocks | whipper/command/offset.py:72-77 | the parse succeeds exactly when every block parses |
| OffsetParse.FirstBadBlock | whipper/command/offset.py:72-77 | a failed parse carries the error of the first block that fails, and every block before it parses |
| OffsetParse.ParseOffsets | whipper/command/offset.py:69-77 | `handle_arguments` succeeds exactly when every comma-separated block expands, and otherwise raises the ValueError of the first block that does not |
| OffsetParse.ParseBlocksAppend | whipper/command/offset.py:72-77 | parsing two block lists in sequence gives the first list's offsets followed by the second's; the first failure wins |
| OffsetParse.ParseOffsetsAppend | whipper/command/offset.py:69-77 | the offsets of `a,b` are those of `a` followed by those of `b`, so token order is kept, and a bad token anywhere fails the whole parse with no partial list |
| OffsetParse.ParseKeepsDuplicates | whipper/command/offset.py:70-77 | giving the same tokens twice yields every offset twice; duplicates are not removed |
| OffsetParse.EmptyOptionFails | whipper/command/offset.py:71-77 | an empty option raises the ValueError of `int('')` instead of giving an empty list |
| OffsetParse.FormatOffset | whipper/command/offset.py:42-52 | an offset written as in the default list (`+n`, `0`, `-n`) is non-empty, has no leading whitespace, ends in a digit and holds no comma or colon |
| OffsetParse.FormatOffsetsRoundTrip | whipper/command/offset.py:42-77 | any non-empty list of offsets written in the default option's `", "`-separated form parses back to itself |
| OffsetParse.DefaultOffsetsParse | whipper/command/offset.py:42-65 | the default option parses to the 92 built-in offsets in their listed order |
| OffsetSearch.MatchFrom | whipper/command/offset.py:125-130 | scanning from a position returns the first response at or after it that agrees, or the first one too short to hold the track, and every response skipped held the track with a different checksum |
| OffsetSearch.Match | whipper/command/offset.py:125-130 | `match` returns the smallest index whose checksum for the track equals the computed one; every earlier response holds the track and disagrees |
| OffsetSearch.MatchCharacterized | whipper/command/offset.py:125-130 | when every response lists the track, `match` fails exactly when no response has that checksum there, and otherwise returns the least such index |
| OffsetSearch.MatchEmpty | whipper/command/offset.py:125-130 | with no responses `match` never succeeds |
| OffsetSearch.MatchFoundIff | whipper/command/offset.py:125-130 | unless a response is too short, `match` succeeds exactly when some response agrees |
| OffsetSearch.ConfirmFrom | whipper/command/offset.py:164-181 | the confirmation pass rips tracks 2, 3, ..., N-1 in increasing order at the one offset, never the last track and nothing when N <= 2, with one hit flag per visited track; only an IndexError from `match` cuts it short |
| OffsetSearch.CurrentChecksumLatest | whipper/command/offset.py:166-176 | `archecksum` when `match` runs for a confirmation track is track 1's checksum if no track from 2 up to it ripped, and otherwise the checksum of the latest track that did |
| OffsetSearch.ConfirmHits | whipper/command/offset.py:166-181 | a visited track is a hit exactly when it was not skipped for a FileSizeError and the checksum then held (its own, or that of the latest earlier track that ripped) agrees with some response at that track |
| OffsetSearch.ConfirmHitFlags | whipper/command/offset.py:164-181 | a confirmation pass that is not cut short yields, track by track from its start, exactly the per-track confirmation flags defined independently of the loop |
| OffsetSearch.ConfirmCompletes | whipper/command/offset.py:166-176 | when every response lists every visited track, the confirmation pass runs to the end |
| OffsetSearch.CountReachesTarget | whipper/command/offset.py:158-182 | `count` starts at 1 and rises by one per confirmed track, so it stays between 1 and N-1 for N >= 2; it equals N-1 exactly when N >= 2 and every track 2..N-1 is confirmed |
| OffsetSearch.TryOffset | whipper/command/offset.py:132-188 | one offset's attempt rips track 1 first, then only later tracks of that offset. A missing dependency on track 1 aborts. A FileSizeError or other failure rejects the offset after that single rip. Acceptance needs N >= 2 and a ripped track 1. When track 1 rips but `match` finds no agreeing response, the offset is rejected after that one rip; when a response is too short for track 1, the search aborts with that IndexError after that one rip. Every abort is a missing dependency on track 1 or a response too short |
| OffsetSearch.AcceptedIff | whipper/command/offset.py:156-184 | with well-formed responses, an offset is accepted exactly when track 1 matches some response and every track 2..N-1 is confirmed |
| OffsetSearch.CoveredAttemptDecides | whipper/command/offset.py:132-188 | when every response lists every track the attempt reads and track 1 does not miss a dependency, the attempt is accepted or rejected, never aborted |
| OffsetSearch.NothingAcceptedTriesAll | whipper/command/offset.py:132-191 | with responses that list every track read, no missing dependency on track 1 and no accepted offset, the search tries every candidate in order, ripping track 1 of each, and reports that no offset was found |
| OffsetSearch.TwoTracksNeedOnlyTrackOne | whipper/command/offset.py:164-184 | on a two-track disc a track-1 match alone accepts the offset |
| OffsetSearch.AttemptFirstTrack | whipper/command/offset.py:132-135 | each attempt rips track 1 of its own offset exactly once |
| OffsetSearch.Search | whipper/command/offset.py:132-191 | a found offset is one of the candidates, and rips happen exactly when there are candidates |
| OffsetSearch.SearchFirstDecisive | whipper/command/offset.py:132-191 | the first offset that is not rejected decides the search. An accepted one is returned. An abort propagates. If all are rejected, nothing is found. The rips are exactly those of the full attempts up to and including the deciding offset, in order, so no track of any later offset is ripped; track 1 of each of those offsets is ripped exactly once |
| OffsetSearch.SearchOutcome | whipper/command/offset.py:132-191 | the search result is decided by the first offset that is not rejected: its acceptance gives that offset, its abort gives the abort, and with none left nothing is found |
| OffsetSearch.SearchRips | whipper/command/offset.py:132-191 | the search's whole rip sequence, every track included, is the concatenation of the attempts at the offsets up to and including the first one not rejected, or at all of them when every one is rejected |
| OffsetSearch.AttemptsFirstTracks | whipper/command/offset.py:132-166 | the attempts at a list of offsets rip track 1 at exactly those offsets, in order |
| OffsetSearch.SearchTrials | whipper/command/offset.py:132-191 | the track-1 rips made by the search are, in order, the candidates up to and including the first one not rejected, or all of them when every one is rejected |
| OffsetSearch.FoundIsFirstAccepted | whipper/command/offset.py:132-184 | the search returns offset k exactly when k is at some position that is accepted and every earlier position was rejected |
| OffsetSearch.MissingDependencyAborts | whipper/command/offset.py:134-141 | a missing dependency on the track-1 rip aborts the search with that error, and no later offset is tried |
| OffsetSearch.NoResponsesNoOffset | whipper/command/offset.py:156-157 | with an empty response list no offset is ever found |
| OffsetSearch.NoResponsesTriesAll | whipper/command/offset.py:125-191 | with an empty response list and no missing dependency on track 1, every candidate's track 1 is still ripped, in order, before no offset is reported |
| OffsetSearch.SingleTrackNoOffset | whipper/command/offset.py:182-184 | on a one-track disc no offset is ever found |
| OffsetSearch.FoundNeedsTwoTracks | whipper/command/offset.py:182-184 | a found offset implies the disc has at least two tracks |
| OffsetSearch.ConfirmationNotPinned | whipper/command/offset.py:176-180 | track 1 can agree only with response 0 and track 2 only with response 1, and the offset is still accepted |
| OffsetSearch.StaleChecksumConfirms | whipper/command/offset.py:167-176 | a confirmation rip failing with a missing dependency or another non-FileSizeError exception is counted as confirmed when track 1's checksum also fits track 2 |
| OffsetSearch.ScenarioFound | whipper/command/offset.py:132-184 | candidates [6, 48] on a three-track disc with one response [A, B, C]: a miss at 6 and matches of tracks 1 and 2 at 48 give offset 48 after exactly the rips (1,6), (1,48), (2,48) |
| OffsetSearch.ScenarioSkippedTrack | whipper/command/offset.py:143-188 | the same disc with track 2 unreadable at 48: one confirmed track is short of the two needed, and the search ends with no offset |
| OffsetSearch.Find | whipper/command/offset.py:69-191 | a bad `-o` ends the run with its ValueError before any rip, and only then. An HTTP 404 returns "album not found" and any other HTTP error propagates, both before any offset is tried. With a parsed option and a download, the run makes exactly the search's rips and reports its outcome: the found offset, no offset, or the propagated exception. A found offset needs N >= 2 and membership in the parsed offsets |
| OffsetSearch.FindFirstAccepted | whipper/command/offset.py:69-191 | after a successful download the run reports offset k exactly when the option parses and k is the first parsed offset that is accepted, with only rejected ones before it |
| OffsetSearch.FindRips | whipper/command/offset.py:69-191 | after a successful download of the responses for a parsable option, the run rips exactly what the attempts at the parsed offsets up to the deciding one rip, in order |
| MusicBrainz.GetMetadata | morituri/common/musicbrainzngs.py:76-172 | no metadata exactly when the release id is empty. Otherwise `mbid` is the id and `url` is the release URL prefix plus the id. `various` holds exactly when the first credited artist is the Various Artists id. Artist, sort name, artist id and date come from the release |
| MusicBrainz.DecoratedTitle | morituri/common/musicbrainzngs.py:124-134 | the disc title starts with the release title |
| MusicBrainz.DecoratedTitleParts | morituri/common/musicbrainzngs.py:124-134 | the disc title is the release title, then ` (disambiguation)` right after it when the release has one, then ` (Disc p of n)` right after that when there are n > 1 media, then `: medium title` at the end when the medium has one; its length leaves room for no other text, so with n <= 1 no disc part appears |
| MusicBrainz.TitleExample | morituri/common/musicbrainzngs.py:124-134 | medium 2 of a two-medium release with disambiguation d and medium title t is titled `<release title> (d) (Disc 2 of 2): t`, e.g. "Album (live) (Disc 2 of 2): Bonus" |
| MusicBrainz.TrackFor | morituri/common/musicbrainzngs.py:136-156 | a track carries its recording's title and id and its length, 0 when missing; it takes the release's artist, sort name and artist id unless the release is Various Artists and the recording has a credit, and then its first credited artist's |
| MusicBrainz.AddTracks | morituri/common/musicbrainzngs.py:135-165 | the track loop appends one track per recording and marks the sum tainted exactly when a length is missing or zero. The running duration grows by the lengths' sum. Title and reported duration are untouched |
| MusicBrainz.MatchCount | morituri/common/musicbrainzngs.py:122-123 | a medium's disc list yields at least one matching entry exactly when it contains the disc id |
| MusicBrainz.LastTaken | morituri/common/musicbrainzngs.py:121-134 | the medium whose title survives exists exactly when some medium holds the disc id, and it is such a medium |
| MusicBrainz.TakeMedium | morituri/common/musicbrainzngs.py:123-170 | each matching disc entry sets the decorated title and the release title, appends the medium's tracks, taints and grows the running sum by exactly those, and reports 0 when tainted and the running sum otherwise |
| MusicBrainz.ScanDiscs | morituri/common/musicbrainzngs.py:122-123 | a disc list that does not hold the disc id changes nothing |
| MusicBrainz.ScanMedia | morituri/common/musicbrainzngs.py:121-123 | when no medium's disc list holds the disc id, the media loop changes nothing |
| MusicBrainz.ScanDiscsTracks | morituri/common/musicbrainzngs.py:122-165 | one medium's disc-list loop appends that medium's tracks once per entry equal to the disc id, and taints and grows the running duration by exactly those tracks |
| MusicBrainz.ScanDiscsTitle | morituri/common/musicbrainzngs.py:122-170 | the disc-list loop sets the decorated title, the release title and a reported duration exactly when the list holds the disc id, and otherwise leaves them as they were |
| MusicBrainz.ScanDiscsEffect | morituri/common/musicbrainzngs.py:122-170 | one medium's disc-list loop adds the medium's tracks once per matching entry. With a match it sets the decorated title and the release title, and leaves the reported duration consistent with the running sum |
| MusicBrainz.ScanMediaTracks | morituri/common/musicbrainzngs.py:121-165 | the media loop appends the tracks of the selected recordings, medium by medium, and taints and grows the running duration by exactly those |
| MusicBrainz.ScanMediaTitle | morituri/common/musicbrainzngs.py:121-170 | after the media loop the title is the decorated title of the last medium holding the disc id, the release title is set, and a duration is reported, exactly when such a medium exists |
| MusicBrainz.ScanMediaEffect | morituri/common/musicbrainzngs.py:121-170 | the media loop adds the selected recordings' tracks in medium and track-list order. It keeps the title of the last matching medium and reports a duration consistent with the final sum |
| MusicBrainz.MetadataTrackList | morituri/common/musicbrainzngs.py:135-165 | the reported track list is the selected recordings, each turned into a TrackMetadata with the release-level or own credit as the loop chooses |
| MusicBrainz.MetadataTracks | morituri/common/musicbrainzngs.py:135-165 | one TrackMetadata per selected recording, in order, carrying its title, id and length (0 when missing) |
| MusicBrainz.TrackArtistInherited | morituri/common/musicbrainzngs.py:138-150 | a track takes the release's artist, sort name and artist id when the release is not Various Artists or the recording has no credit, and its own first credited artist's otherwise |
| MusicBrainz.MetadataTitle | morituri/common/musicbrainzngs.py:124-134 | `title` is the decorated title of the last medium holding the disc id and `releaseTitle` the undecorated release title; both stay unset when no medium holds it |
| MusicBrainz.MetadataDuration | morituri/common/musicbrainzngs.py:117-170 | the duration is the sum of the reported tracks' lengths; it is 0 if any of them has a missing or zero length, and unset when no medium holds the disc id |
| MusicBrainz.SelectedWhenUnique | morituri/common/musicbrainzngs.py:121-135 | when no disc list names the disc id twice, the reported recordings are exactly the tracks of the media holding it, medium by medium |
| MusicBrainz.SelectedFromMatchingMedia | morituri/common/musicbrainzngs.py:121-135 | every reported recording comes from a medium whose disc list holds the disc id |

## Left out

- Device handling is not modelled: loading and unmounting the drive, reading
  the TOC with cdrdao, `drive.getDeviceInfo`, and saving the offset to the
  configuration in `_foundOffset`. These are hardware and persistent-state
  I/O. The track count `N` is an input, and `OffsetFound` stands for the
  call to `_foundOffset`.
- The work inside `_arcs` is replaced by the `trial` oracle: the cdparanoia
  rip, the AccurateRip checksum task, and the temporary file. These are
  subprocess and file I/O. Only the `"%08x"` rendering of the checksum is
  modelled.
- The AccurateRip download and `accurip.getAccurateRipResponses` are not
  modelled: the network is out of scope and the parser is not part of this
  model. Their outcome is the `Fetch` input. The warning about a response
  whose disc id differs from the TOC's is only logged, so `Response.discId`
  is carried but never used.
- `musicbrainz()` is not modelled. It makes the web-service calls and maps
  their errors, and it uses the external musicbrainzngs library. Logging and
  `sys.stdout` messages are left out too; the outcomes they announce are
  captured by the results.
- Process exit codes are not modelled. `OffsetFound` stands for return 0,
  `AlbumNotFound` for return 1, and `NoMatchingOffset` for falling off the
  end.
- gobject thread setup and argparse plumbing are not modelled.
- The search is single-threaded and does one rip at a time. The model has no
  concurrency, and the ordered `trials` list is the drive's access order.
- OffsetParse.ParseInt: reads surrounding whitespace, an optional sign,
  whitespace after the sign, then ASCII decimal digits. That is the syntax
  of the word-sized path of Python 2's `int()` on a byte string, whose
  `strtoul` skips whitespace after the sign (`SignGap`). Literals too large
  for a machine word go through Python's long-integer parser instead; that
  path is not modelled separately. The ValueError carries the quoted text
  (`ErrorText`), not the full message built around its `repr`.
- MusicBrainz.GetMetadata: some inputs are preconditions instead of
  modelled errors (`Readable`), because `_getMetadata` crashes on them. These
  are an empty release artist credit, which raises an IndexError, and a
  Various Artists recording credit without a first artist's name, sort
  name or id. For such a credit, the fallback `metadata.artist.name` reads
  an attribute of a string.
- `Medium.position` is the value of `int(medium['position'])`. A
  non-numeric position, which would raise a ValueError, is not modelled.
- `Recording.length` is the value of `int(t['recording'].get('length', 0))`,
  with `None` for a missing key. A non-numeric length, which would raise a
  ValueError, is not modelled.
- The oracle `trial` is a function of (track, offset). A rip repeated at
  the same track and offset therefore has the same outcome in the model.
  That happens when duplicate offsets are kept. A real drive may give a
  different result on the second rip.
