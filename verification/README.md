# implayer core in Dafny

A verified model of the non-UI core of implayer, a desktop music player. The
model covers three parts.

- **The playback engine** (`src/player.rs`). One iteration of the engine
  loop is a pure step function. It applies the `PlayerAction` received, if
  any, then reads and decodes one packet while a track is loaded and playing.
  Its inputs are the action and the packet outcomes the reader and decoder
  will deliver. Its outputs are the new engine state and a log of effects:
  seek, output opened, position set, buffer written, song ended. The
  Symphonia time conversions keep the fraction of a second exactly, as a
  ratio of integers.
- **The helpers of `src/util.rs`**: the `[h:]m:ss` duration formatter,
  `is_point_in_rect` and `is_default_playlist`.
- **Playlist and selection bookkeeping** (`src/actions.rs`, `src/app.rs`):
  - the song record and its file-stem parsing, and the case-insensitive
    search;
  - the playlist sort comparator;
  - the M3U writer (`save_playlist`) and the loader loop of `initialize`;
  - the playback actions `play`, `pause`, `resume`, `stop`, `next` and
    `prev`;
  - `increment_indices`, `add_song` and `change_file_name`;
  - the song list's handlers: ctrl-A, Delete and the context menu's
    "Remove", J (move down), K (move up), and plain, shift- and ctrl-clicks.
    J walks the selection from the last row up and reads the source's
    `last_index` as the moved position of the next selected row; K walks it
    from the first row down and reads the previous row's moved position.

Modules, in dependency order:

- `Wrappers`: `Option` and `Result`.
- `Text`: the parts of Rust's `str`/`String` the code relies on, such as
  `split_once`, `split`, `lines`, `trim`, `to_lowercase`, `contains`,
  string `cmp`, `to_string` and `{:02}`.
- `Library`: songs, playlists, the comparator and the M3U format.
- `Util`: `src/util.rs`.
- `Player`: `src/player.rs`.
- `Selection`: the row bookkeeping on one playlist's rows, selected indices
  and playing row.
- `AppState`: the fields of `State` the handlers use.
- `Actions`: `src/actions.rs`.
- `App`: the handlers on the whole state.

Foreign code is replaced by parameters:

- the Symphonia reader and decoder, by packet outcomes;
- `get_duration`, by a given duration;
- `Path::exists` after a rename, by a flag.

## Model

| member | source | states |
|---|---|---|
| Player.TimeToMs | src/player.rs:18-20 | the milliseconds' whole seconds are the time's seconds, and the last three digits are the fraction's thousandths, truncated |
| Player.MsToTime | src/player.rs:22-27 | the result is a valid time (fraction in [0, 1)) denoting exactly the given milliseconds |
| Player.TimeRoundTrip | src/player.rs:18-27 | `time_to_ms(ms_to_time(ms)) == ms` for every ms |
| Player.Initial | src/player.rs:79-81 | the engine starts with no track and not playing |
| Player.ApplyAction | src/player.rs:96-166 | volume changes only on SetVolume and the position never changes; the track changes only on Play or Stop; the playing flag changes only on Play, Stop, or Pause/Resume with a track; Play loads a fresh unopened track and plays; Stop unloads; only Seek with a track has an effect, the seek to `ms_to_time(ms)` |
| Player.DecodeStep | src/player.rs:168-207 | a packet is consumed iff a track is loaded and playing and one is left; the song-ended signal is sent iff that packet fails to read or fails fatally to decode, and is then the only effect and unloads the track; the output is opened only on a track whose output was not open |
| Player.Step | src/player.rs:83-208 | one iteration consumes at most one packet, signals the end of a song at most once, and signals only when it leaves nothing loaded and not playing |
| Player.NoSessionNoOps | src/player.rs:132-161 | without a track, Pause, Resume, Seek and no action change nothing, consume nothing and have no effect |
| Player.StopNeverSignals | src/player.rs:142-145 | Stop leaves no track and not playing, consumes no packet and has no effect, so it never signals |
| Player.PauseOnlyClearsPlaying | src/player.rs:132-136 | with a track, Pause changes only the playing flag, to false |
| Player.ResumeOnlySetsPlaying | src/player.rs:137-141 | with a track, Resume is an action-less iteration from the same state with playing set |
| Player.SetVolumeOnlyChangesVolume | src/player.rs:162-164 | SetVolume is an action-less iteration from the same state with the new volume |
| Player.SeekKeepsPlayingAndVolume | src/player.rs:146-161 | with a track, Seek first asks for `ms_to_time(ms)`, then continues as an action-less iteration; playing flag, volume and track are kept |
| Player.PlayStartsFreshSession | src/player.rs:97-131 | Play replaces any track with a fresh one whose output is unopened, sets playing, and opens the output iff the first packet decodes |
| Player.ErrorsTearDownOrSkip | src/player.rs:174-181 | a read error or a fatal decode error unloads the track, stops playing and signals exactly once; a corrupt frame is skipped and keeps everything |
| Player.DecodeSetsPositionThenWrites | src/player.rs:184-198 | a decoded packet sets the position to `time_to_ms` of its timestamp and then writes with the current volume, opening the output first iff it was not open |
| Player.Run | src/player.rs:83-208 | the loop: iterations one after another, each from the state the previous left, with their effects in order; its bounds are Player.SignalsBoundedByPlays and Player.OutputOpenedAtMostOnce |
| Player.SignalsBoundedByPlays | src/player.rs:83-208 | over any run, song-ended signals plus the track still loaded never exceed the Play actions plus the track loaded at the start |
| Player.OutputOpenedAtMostOnce | src/player.rs:186-191 | without a Play, a run opens the audio output at most once, and only if the loaded track's output was not yet open |
| Player.IdleStaysIdle | src/player.rs:132-170 | actions other than Play sent to an idle engine keep it idle, keep the position and have no effect |
| Player.Receive | src/player.rs:84-94 | while playing, the engine takes the next queued action or none without waiting; otherwise it blocks on an empty queue while a sender lives, and exits when none does |
| Util.MsToString | src/util.rs:3-29 | `ms_to_string` itself: hours and a colon from one hour on, the minutes, a colon and two-digit seconds; the lemmas below state its layout |
| Util.ParseClockRoundTrip | src/util.rs:3-29 | reading the formatted string back as `[h:]m:ss` gives exactly `ms / 1000` seconds |
| Util.MsToStringFields | src/util.rs:10-26 | the output is `h:mm:ss` (two-digit minutes) from one hour on, and `m:ss` (unpadded minutes) below |
| Util.HoursIffAnHour | src/util.rs:10-21 | an hours field and its colon appear iff ms is at least an hour; minutes are then two digits; below an hour they are unpadded |
| Util.UnderAMinute | src/util.rs:15-26 | under a minute the output is `0:` and two digits worth the whole seconds |
| Util.SecondsField | src/util.rs:26 | the output always ends in a colon and exactly two digits worth `(ms % 60000) / 1000` |
| Util.IgnoresSubSecond | src/util.rs:10-26 | sub-second milliseconds never change the output |
| Util.IsPointInRect | src/util.rs:39-47 | true iff the point lies within the rectangle on both axes, edges included |
| Util.IsDefaultPlaylist | src/util.rs:49-52 | true iff the name is "All" or "All Unused" |
| Text.NatToStringRoundTrip | src/util.rs:11 | the decimal rendering of a number reads back as that number |
| Text.SplitOnce | src/app.rs:272-277 | `split_once` is absent iff the character is absent; otherwise the parts around its first occurrence |
| Text.Trim | src/app.rs:98-103 | the result is a slice of the input with only whitespace removed around it, and it neither starts nor ends with whitespace |
| Text.LinesOfJoin | src/app.rs:269 | `lines` recovers lines joined by line feeds when none holds a line feed or ends in a carriage return and the last is not empty |
| Text.ContainsIffOccurs | src/app.rs:110-112 | the `contains` scan succeeds iff the needle occurs at some offset |
| Text.LowerIdempotent | src/app.rs:110-112 | lower-casing twice is lower-casing once |
| Text.CompareStringsAntisymmetric | src/app.rs:173 | string order is antisymmetric, and Equal means the strings are equal |
| Library.NewSong | src/app.rs:88-107 | the song keeps path, duration and existence; the artist contains no dash; a stem without a dash gives the trimmed stem as artist and an empty name |
| Library.NewSongSplitsAtFirstDash | src/app.rs:89-103 | for a stem made of an artist part without a dash, a dash and a rest, the artist is the trimmed part and the name the trimmed rest |
| Library.IsMatching | src/app.rs:109-113 | true iff the lower-cased search occurs in the lower-cased name or artist |
| Library.EmptySearchMatchesAll | src/app.rs:109-113 | an empty search matches every song |
| Library.MatchingIgnoresCase | src/app.rs:109-113 | songs that agree up to case, and the search lower-cased or not, match alike |
| Library.MatchesSubstringOfName | src/app.rs:109-113 | any slice of the name matches its song |
| Library.ComparePlaylists | src/app.rs:152-175 | the comparator as written, branch for branch; its order is stated by Library.ComparatorOrder and its flaw by Library.ComparatorNotAntisymmetric |
| Library.ComparatorOrder | src/app.rs:152-175 | "All" compares Less as left operand; "All Unused" sorts before everything but "All"; among other names, undotted before dotted, then case-insensitive order, antisymmetrically |
| Library.ComparatorNotAntisymmetric | src/app.rs:154-156 | "Abc" vs "All" and "All" vs "Abc" both compare Less |
| Library.CompareNames | src/app.rs:152-175 | the corrected comparator orders by group (All, All Unused, plain, directory) first |
| Library.CompareNamesAntisymmetric | src/app.rs:152-175 | the corrected comparator is antisymmetric, and agrees with the original on distinct names unless the right one is "All" |
| Library.SavePlaylist | src/actions.rs:222-236 | the file `save_playlist` writes: the header, then per song a line feed, its `#EXTINF` line, a line feed and its path; its lines are stated by Library.SavedLines |
| Library.SaveLoadRoundTrip | src/actions.rs:222-236 | loading what `save_playlist` wrote gives back every path, and every duration truncated to whole seconds (0 when unknown), when no field holds a line break |
| Library.SavedLines | src/actions.rs:225-235 | the saved file's lines are the header, then per song its `#EXTINF:<seconds>,<artist> - <name>` line and its path |
| Library.InfoLineDuration | src/app.rs:272-278 | the loader reads the written seconds back from an `#EXTINF` line, times 1000 |
| Library.LoadEntriesOfSaved | src/app.rs:271-279 | the loader loop reads entry k from lines 2k+1 (duration) and 2k+2 (path) |
| Library.ParseU64 | src/app.rs:278 | a number `parse::<u64>` accepts always fits in 64 bits |
| Library.InfoDuration | src/app.rs:272-278 | a duration read from an `#EXTINF` line is a whole number of seconds in milliseconds, below 2^64 seconds; a failure names the line read and is never a missing path line |
| Library.LoadEntriesWith | src/app.rs:270-279 | the loader loop over lines 1, 3, 5, ..., stopping at the first failing line; its shape is stated by Library.LoadEntriesShape |
| Library.LoadEntriesShape | src/app.rs:270-279 | a successful load from line k consumes the remaining lines in pairs, entry i being read from line k + 2i and holding the path on line k + 2i + 1; a missing path line can only be the one past the end |
| Library.LoadPlaylist | src/app.rs:268-279 | the entries of a playlist file, skipping its first line |
| Library.LoadPlaylistShape | src/app.rs:268-279 | entry i of a loaded file holds the path on line 2i + 2 and a whole number of seconds; a file ending on an information line fails on the line past the end |
| Library.ParseU64OfNatToString | src/app.rs:278 | `parse::<u64>` reads a rendered number below 2^64 back |
| Library.ResolveEntry | src/app.rs:281-302 | the playlist song has the entry's path and a duration; only the first scanned song with that path can change, and only by gaining a duration it lacked; an unscanned path gives a new song |
| Library.FirstWithPath | src/app.rs:281 | the index `find` stops at: the first scanned song with the path, or the length when there is none |
| Library.ResolveEntryKeepsTimed | src/app.rs:281-302 | when the first scanned song with the path has a duration, it is the playlist's song and no scanned song changes |
| Library.ResolveEntryFillsDuration | src/app.rs:281-302 | when the first scanned song with the path has no duration, it gains the entry's (the file's when the entry says 0), becomes the playlist's song, and every other scanned song is left alone |
| Library.ResolveEntryIdempotent | src/app.rs:281-302 | resolving the same entry again, whatever the file's duration reads then, changes nothing |
| Selection.SortIndices | src/app.rs:400 | `sort_unstable` gives the same indices in ascending order, strictly so when none repeats |
| Selection.RemoveRows | src/app.rs:400-411 | removing the selected rows from the last to the first leaves as many rows fewer as were selected |
| Selection.PlayingAfterRemoval | src/app.rs:401-407 | the corrected playing-row update never moves the row down |
| Selection.PlayingAfterRemovalAsWritten | src/app.rs:401-407 | whenever the update as written does not underflow, it agrees with the corrected one |
| Selection.RemoveRowsIsUnselected | src/app.rs:400-411 | removing the sorted selection from the last row to the first leaves exactly the unselected rows, in order |
| Selection.UnselectedAt | src/app.rs:400-411 | an unselected row j ends at `j` minus the number of removed rows below it, holding the same song |
| Selection.PlayingKept | src/app.rs:401-407 | a playing row that is not removed moves up by the number of removed rows below it |
| Selection.PlayingRemoved | src/app.rs:401-407 | a removed playing row ends one above its shifted place, or at 0 when every row before it went too |
| Selection.DeleteKeepsPlaying | src/app.rs:399-414 | a playing row that is not removed still names the same song afterwards |
| Selection.AsWrittenUnderflow | src/app.rs:402-404 | the loop as written fails exactly when the playing row is removed together with every row before it; otherwise it agrees with the corrected update |
| Selection.DeleteFirstPlayingUnderflows | src/app.rs:402-404 | deleting the playing row 0 underflows as written and stays at 0 when corrected |
| Selection.MoveDown | src/app.rs:421-443 | J permutes the rows; every selected song moves one row down or stays, staying exactly when it is on the last row or the next selected song is blocked right below it; the selection stays ascending and follows its songs; the playing row follows its song |
| Selection.MoveUp | src/app.rs:451-473 | K permutes the rows; every selected song moves one row up or stays, staying exactly when it is on row 0 or the previous selected song is blocked right above it; the selection stays ascending and follows its songs; the playing row follows its song |
| Selection.SwapFollow | src/app.rs:431-436 | after swapping two rows, the updated playing row names the same song |
| Selection.ShiftClick | src/app.rs:790-803 | the first selected row stays first, and the selection becomes exactly the rows between it and the clicked row; an empty selection stays empty |
| Selection.ShiftClickValid | src/app.rs:790-803 | shift-click keeps the selection free of repeats and within the playlist |
| Selection.CtrlClick | src/app.rs:804-813 | ctrl-click toggles the clicked row's membership and leaves every other row's alone |
| Selection.CtrlClickTwice | src/app.rs:804-813 | two ctrl-clicks on a row give back the same selected rows |
| Selection.CtrlClickValid | src/app.rs:804-813 | ctrl-click keeps the selection free of repeats and within the playlist |
| Selection.SelectAll | src/app.rs:385-397 | ctrl-A selects, without repeats, exactly the rows the search shows (every row for an empty search) |
| Actions.Stop | src/actions.rs:126-135 | sends Stop, clears both playing indices and the playing flag, keeps playlists and selection |
| Actions.Pause | src/actions.rs:117-124 | always sends Pause and clears the playing flag, keeping the playing song |
| Actions.Resume | src/actions.rs:137-147 | sends Resume iff a song index is set, and then sets the playing flag; the playing song is kept |
| Actions.Play | src/actions.rs:96-115 | a song whose file is missing changes nothing; otherwise its path is sent and it becomes the playing song |
| Actions.PauseThenResume | src/actions.rs:117-147 | pausing and resuming a playing song restores the state, playing |
| Actions.ResumeAfterStop | src/actions.rs:126-147 | after a stop, resume sends nothing and changes nothing |
| Actions.StopTwice | src/actions.rs:126-135 | stopping twice is stopping once |
| Actions.FirstExisting | src/actions.rs:193-204 | the first row from the given one whose file exists, none iff there is no such row |
| Actions.LastExisting | src/actions.rs:156-168 | the last row before the given one whose file exists, none iff there is no such row |
| Actions.Next | src/actions.rs:186-220 | without a playing song nothing happens; otherwise the nearest later song whose file exists is played, and when there is none it acts as stop |
| Actions.Prev | src/actions.rs:149-184 | without a playing song nothing happens; otherwise the nearest earlier song whose file exists is played, and when there is none it acts as stop |
| Actions.NextThenPrev | src/actions.rs:149-220 | when the playing song exists, prev after a successful next returns to it |
| Actions.PrevThenNext | src/actions.rs:149-220 | when the playing song exists, next after a successful prev returns to it |
| Actions.IncrementIndices | src/actions.rs:83-95 | selected indices move by the amount iff the selected playlist is the target; the playing index moves iff the playing playlist is the target; nothing else changes |
| Actions.AllIndex | src/actions.rs:254-258 | `add_song` appends to the first playlist called "All" |
| Actions.AddSong | src/actions.rs:246-263 | the song goes first in the target and last in "All"; no playlist is renamed or lost; indices are shifted by `increment_indices` with 1 |
| Actions.AddSongShifts | src/actions.rs:251-260 | every existing song keeps its row, one lower in the target; playlists other than the target and "All" are untouched |
| Actions.AddSongKeepsPlaying | src/actions.rs:246-263 | the playing indices name the same song after `add_song` |
| Actions.AddSongKeepsSelection | src/actions.rs:246-263 | every selected index names the same song after `add_song` |
| Actions.ChangeFileName | src/actions.rs:71-80 | in every playlist, exactly the songs whose path is the original name take the new path, artist, name and existence; all others are unchanged |
| Actions.RenameLeavesNoOldPath | src/actions.rs:71-80 | after renaming to another name no song has the old path, and the songs with the new path are those that had the old or the new one |
| App.SelectAllKey | src/app.rs:385-397 | ctrl-A selects exactly the rows the search shows and changes nothing else |
| App.DeleteKey | src/app.rs:399-414 | with a selection, the selected playlist loses as many rows as were selected, the selection is cleared, other playlists are untouched, and a playing index into another playlist is kept |
| App.DeleteRemovesSelection | src/app.rs:399-414 | the selected playlist keeps exactly its unselected songs, in order |
| App.DeleteKeepsPlayingSong | src/app.rs:401-407 | when the playing song is not deleted, the playing indices name the same song afterwards |
| App.DeleteKeyAsWritten | src/app.rs:399-414 | the handler as written removes the same rows and clears the selection |
| App.DeleteAsWrittenAgrees | src/app.rs:399-414 | in the playing playlist and without the underflow, the handler as written equals the corrected one |
| App.DeleteOtherPlaylistMisdirects | src/app.rs:401-407 | as written, deleting in one playlist moves the playing index of another, so a different song shows as playing; the corrected handler keeps it |
| App.MoveDownKey | src/app.rs:416-445 | J does nothing without a selection, with a search text or in "All"/"All Unused"; otherwise it reorders only the selected playlist, each selected song moving one row down or staying, staying exactly when it is on the last row or the next selected song stays right below it; the selection and the playing song follow their songs |
| App.MoveUpKey | src/app.rs:446-475 | K: the mirror image, each selected song moving one row up or staying, staying exactly when it is on row 0 or the previous selected song stays right above it |
| App.MoveDownKeyAsWritten | src/app.rs:416-445 | J as written: the same reordering of the selected playlist, and the playing index follows the moved rows whichever playlist plays |
| App.MoveUpKeyAsWritten | src/app.rs:446-475 | K as written: the same reordering, and the playing index follows the moved rows whichever playlist plays |
| App.DownAsWrittenMisdirects | src/app.rs:433-438 | J on row 0 of one playlist while row 1 of another plays: as written, another song of the playing playlist shows as playing |
| App.UpAsWrittenMisdirects | src/app.rs:463-468 | K on row 1 of one playlist while row 1 of another plays: as written, another song of the playing playlist shows as playing |
| App.DownOtherPlaylistMisdirects | src/app.rs:433-438 | on that input, the handler as written shows song c as playing instead of d; the corrected handler keeps d |
| App.UpOtherPlaylistMisdirects | src/app.rs:463-468 | the same for K |
| App.ClickRow | src/app.rs:790-836 | shift extends from the anchor, ctrl toggles the row, a plain click selects the row alone and a double click plays it if its file exists; the selection stays valid |

## Left out

- User interface: windows, drawing, fonts, colours, drag and drop, scrolling (`song_scroll_index`) and the right-click selection.
- `src/main.rs` and `src/download.rs`: event loop, subprocesses, threads and pipes.
- Symphonia probing and decoding, `get_duration` and the audio output: foreign code, seen only as packet outcomes and given durations.
- Channels, threads and the shared `Arc<Mutex<u64>>` position: one iteration takes an optional action and returns an effect log.
- Floating point: the volume is an exact real, so `powi(4)` and f32 rounding are not modelled, nor are the slider maths, `lerp`, `add_pos` and `sub_pos`.
- Util.IsPointInRect: takes exact reals, so there is no NaN; with f32 NaN coordinates every comparison in the source is false and the function returns true.
- Text.Lower: lower-cases ASCII letters only; Rust's `to_lowercase` is Unicode-wide.
- Library.InfoDuration: multiplies the seconds by 1000 without the u64 overflow check of the source.
- Library.NewSong: takes the file stem, the relative path and the existence flag as inputs; `file_stem`, `strip_prefix` and `Path::exists` are path operations.
- Actions.AddSong: takes the new song as built by `Library.NewSong`; the duration probe is foreign code.
- Actions.Play: sends the song's path relative to the music directory; joining it to the directory is a path operation.
- Actions.ChangeFileName: the rename on disk and the existence check afterwards are the `present` parameter.
- `set_current_metadata` and the media-control (souvlaki) calls: foreign API.
- `DefaultHasher` change detection and the "All Unused" computation: the hashing is opaque.
- The context menu's "Add to" (src/app.rs:857-882): inline bookkeeping that is not modelled. It inserts each selected song at row 0 of the target, raises the playing index by one per song when the target plays, and never shifts the selection.
- The context menu's "Reload file" (src/app.rs:901-919): sets the duration of every song with the selected song's path to `get_duration`, rounded down to whole seconds; the probe is foreign code, and the loop is not modelled.
- The renaming dialog: UI around Actions.ChangeFileName.
- Player.Run: every iteration gets its own upcoming packets, and the packets one iteration leaves unread are not carried to the next; a run is a sequence of independent reader snapshots, not one stream.
- The `println!` of a recoverable decode error (src/player.rs:199-201): console output; the model only skips the packet.
- `unwrap` failures on I/O and on out-of-range indices: preconditions of the modelled operations.
- App.MoveDownKey: updates the playing row only when the playing playlist is the selected one; the source updates it regardless (the third finding, modelled by App.MoveDownKeyAsWritten).
- App.MoveUpKey: the same for K (the third finding, modelled by App.MoveUpKeyAsWritten).

## Findings

| source | as written | input that shows it | evidently intended | confidence | as-written member | corrected member |
|---|---|---|---|---|---|---|
| src/app.rs:402-404 | `Some(0.max(p - 1))` on `usize` computes `p - 1` before the `max` | a one-song playlist playing its only song, row 0 selected, Delete pressed: `0 - 1` underflows (panic in debug, wrapped index in release) | keep the playing row at 0 | high (not executed) | Selection.PlayingAfterRemovalAsWritten, Selection.DeleteFirstPlayingUnderflows | Selection.PlayingAfterRemoval, Selection.PlayingRemoved |
| src/app.rs:401-407 | Delete adjusts `playing_song_index` without checking that the playing playlist is the selected one | song 1 of playlist 1 playing; row 0 of playlist 0 selected and deleted: the playing index becomes 0 and names another song | adjust only when the playing playlist is the selected one, as `increment_indices` does | medium (not executed) | App.DeleteKeyAsWritten, App.DeleteOtherPlaylistMisdirects | App.DeleteKey, App.DeleteKeepsPlayingSong |
| src/app.rs:433-438, src/app.rs:463-468 | J and K move `playing_song_index` with the swapped rows without checking that the playing playlist is the selected one | song 1 of playlist 1 playing; row 0 of playlist 0 selected and J pressed: the playing index becomes 0 and names another song | adjust only when the playing playlist is the selected one | medium (not executed) | App.MoveDownKeyAsWritten, App.MoveUpKeyAsWritten, App.DownOtherPlaylistMisdirects, App.UpOtherPlaylistMisdirects | App.MoveDownKey, App.MoveUpKey |
| src/app.rs:154-156 | the comparator returns `Less` whenever the left name is "All" but never `Greater` when only the right one is | names "Abc" and "All": both orders compare `Less`, which is not a total order for `sort_by` | "All" compares `Greater` as right operand | medium (not executed) | Library.ComparePlaylists, Library.ComparatorNotAntisymmetric | Library.CompareNames, Library.CompareNamesAntisymmetric |
