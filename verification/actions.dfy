/** The state-changing actions of `src/actions.rs`: playback control
    (`play`, `pause`, `resume`, `stop`, `next`, `prev`), index shifting
    (`increment_indices`), adding a song (`add_song`) and propagating a
    rename (`change_file_name`). `save_playlist` is `Library.SavePlaylist`.
    Each action returns the new state and the command it sends to the
    playback engine, if any; the media-control calls are not modelled. */
module Actions {
  import opened Wrappers
  import opened Library
  import opened AppState
  import Player

  /** The new state and the command sent on `action_tx`. */
  datatype Outcome = Outcome(state: State, sent: Option<Player.Action>)

  /** The playlists, the selection and the search text agree: an action
      that only touches playback leaves these as they were. */
  predicate SameLibrary(a: State, b: State) {
    a.playlists == b.playlists && a.selectedPlaylist == b.selectedPlaylist
    && a.selection == b.selection && a.search == b.search
  }

  // ---------------------------------------------------------------------
  // stop, pause, resume, play
  // ---------------------------------------------------------------------

  /** `stop`: the engine is told to stop and nothing is playing any more. */
  function Stop(st: State): (r: Outcome)
    ensures r.sent == Some(Player.Stop)
    ensures !r.state.isPlaying && r.state.playingPlaylist.None? && r.state.playingSong.None?
    ensures Current(r.state).None? && SameLibrary(r.state, st)
  {
    Outcome(st.(isPlaying := false, playingPlaylist := None, playingSong := None), Some(Player.Stop))
  }

  /** `pause`: sent whether or not a song is playing. */
  function Pause(st: State): (r: Outcome)
    ensures r.sent == Some(Player.Pause) && !r.state.isPlaying
    ensures r.state.playingPlaylist == st.playingPlaylist && r.state.playingSong == st.playingSong
    ensures Current(r.state) == Current(st) && SameLibrary(r.state, st)
  {
    Outcome(st.(isPlaying := false), Some(Player.Pause))
  }

  /** `resume`: does nothing without a playing song. */
  function Resume(st: State): (r: Outcome)
    ensures r.sent.Some? <==> st.playingSong.Some?
    ensures r.sent.Some? ==> r.sent == Some(Player.Resume)
    ensures r.state.isPlaying <==> st.isPlaying || st.playingSong.Some?
    ensures r.state.playingPlaylist == st.playingPlaylist && r.state.playingSong == st.playingSong
    ensures Current(r.state) == Current(st) && SameLibrary(r.state, st)
  {
    if st.playingSong.None? then Outcome(st, None)
    else Outcome(st.(isPlaying := true), Some(Player.Resume))
  }

  /** `play`: a song whose file is missing is not played; otherwise the
      engine is given its path and it becomes the playing song. The path is
      taken relative to the music directory. */
  function Play(st: State, pl: nat, i: nat): (r: Outcome)
    requires pl < |st.playlists| && i < |st.playlists[pl].songs|
    ensures var song := st.playlists[pl].songs[i];
            && (!song.fileExists ==> r == Outcome(st, None))
            && (song.fileExists ==>
                  && r.sent == Some(Player.Play(song.path)) && r.state.isPlaying
                  && r.state.playingPlaylist == Some(pl) && r.state.playingSong == Some(i)
                  && Current(r.state) == Some(song))
    ensures SameLibrary(r.state, st)
  {
    var song := st.playlists[pl].songs[i];
    if !song.fileExists then Outcome(st, None)
    else Outcome(st.(isPlaying := true, playingPlaylist := Some(pl), playingSong := Some(i)),
                 Some(Player.Play(song.path)))
  }

  /** Pausing and resuming a playing song gives back the same state, now
      playing. */
  lemma PauseThenResume(st: State)
    requires st.playingSong.Some?
    ensures Resume(Pause(st).state) == Outcome(st.(isPlaying := true), Some(Player.Resume))
  {
  }

  /** After a stop there is nothing to resume. */
  lemma ResumeAfterStop(st: State)
    ensures Resume(Stop(st).state) == Outcome(Stop(st).state, None)
  {
  }

  /** Stopping twice is stopping once. */
  lemma StopTwice(st: State)
    ensures Stop(Stop(st).state) == Stop(st)
  {
  }

  // ---------------------------------------------------------------------
  // next and prev
  // ---------------------------------------------------------------------

  /** The first song from row `from` on whose file exists. */
  function FirstExisting(songs: seq<Song>, from: nat): (r: Option<nat>)
    ensures r.Some? ==> from <= r.value < |songs| && songs[r.value].fileExists
    ensures r.Some? ==> forall m :: from <= m < r.value ==> !songs[m].fileExists
    ensures r.None? <==> forall m :: from <= m < |songs| ==> !songs[m].fileExists
    decreases |songs| - from
  {
    if from >= |songs| then None
    else if songs[from].fileExists then Some(from)
    else FirstExisting(songs, from + 1)
  }

  /** The last song before row `upto` whose file exists. */
  function LastExisting(songs: seq<Song>, upto: nat): (r: Option<nat>)
    requires upto <= |songs|
    ensures r.Some? ==> r.value < upto && songs[r.value].fileExists
    ensures r.Some? ==> forall m :: r.value < m < upto ==> !songs[m].fileExists
    ensures r.None? <==> forall m :: 0 <= m < upto ==> !songs[m].fileExists
  {
    if upto == 0 then None
    else if songs[upto - 1].fileExists then Some(upto - 1)
    else LastExisting(songs, upto - 1)
  }

  /** `next`: nothing happens unless a song is playing. Otherwise the
      nearest later song whose file exists is played; when there is none,
      playback stops. */
  function Next(st: State): (r: Outcome)
    requires PlayingListExists(st)
    ensures !Playing(st) ==> r == Outcome(st, None)
    ensures Playing(st) ==>
              var songs := PlayingSongs(st);
              var p := st.playingSong.value;
              && (r.sent == Some(Player.Stop) <==> forall m :: p < m < |songs| ==> !songs[m].fileExists)
              && (r.sent == Some(Player.Stop) ==> r == Stop(st))
              && (r.sent != Some(Player.Stop) ==>
                    && r.state.playingSong.Some?
                    && var j := r.state.playingSong.value;
                    && p < j < |songs| && songs[j].fileExists
                    && (forall m :: p < m < j ==> !songs[m].fileExists)
                    && r.sent == Some(Player.Play(songs[j].path))
                    && r.state == st.(isPlaying := true, playingSong := Some(j)))
  {
    if !Playing(st) then Outcome(st, None)
    else
      var songs := PlayingSongs(st);
      match FirstExisting(songs, st.playingSong.value + 1)
      case None => Stop(st)
      case Some(j) =>
        Outcome(st.(isPlaying := true, playingSong := Some(j)), Some(Player.Play(songs[j].path)))
  }

  /** The precondition `prev` needs: the rows are counted back from the
      playing row with `len - playing_song_index`, which must not underflow. */
  predicate PrevDefined(st: State) {
    PlayingListExists(st) && (Playing(st) ==> st.playingSong.value <= |PlayingSongs(st)|)
  }

  /** `prev`: nothing happens unless a song is playing. Otherwise the
      nearest earlier song whose file exists is played; when there is none,
      playback stops. */
  function Prev(st: State): (r: Outcome)
    requires PrevDefined(st)
    ensures !Playing(st) ==> r == Outcome(st, None)
    ensures Playing(st) ==>
              var songs := PlayingSongs(st);
              var p := st.playingSong.value;
              && (r.sent == Some(Player.Stop) <==> forall m :: 0 <= m < p ==> !songs[m].fileExists)
              && (r.sent == Some(Player.Stop) ==> r == Stop(st))
              && (r.sent != Some(Player.Stop) ==>
                    && r.state.playingSong.Some?
                    && var j := r.state.playingSong.value;
                    && j < p && songs[j].fileExists
                    && (forall m :: j < m < p ==> !songs[m].fileExists)
                    && r.sent == Some(Player.Play(songs[j].path))
                    && r.state == st.(isPlaying := true, playingSong := Some(j)))
  {
    if !Playing(st) then Outcome(st, None)
    else
      var songs := PlayingSongs(st);
      match LastExisting(songs, st.playingSong.value)
      case None => Stop(st)
      case Some(j) =>
        Outcome(st.(isPlaying := true, playingSong := Some(j)), Some(Player.Play(songs[j].path)))
  }

  /** `prev` undoes `next` when the song playing before `next` exists. */
  lemma NextThenPrev(st: State)
    requires PlayingListExists(st) && Playing(st)
    requires st.playingSong.value < |PlayingSongs(st)| && PlayingSongs(st)[st.playingSong.value].fileExists
    requires Next(st).sent != Some(Player.Stop)
    ensures PrevDefined(Next(st).state)
    ensures Prev(Next(st).state) == Outcome(st.(isPlaying := true), Some(Player.Play(PlayingSongs(st)[st.playingSong.value].path)))
  {
    var songs := PlayingSongs(st);
    var p := st.playingSong.value;
    var after := Next(st).state;
    var j := after.playingSong.value;
    assert PlayingSongs(after) == songs;
    assert LastExisting(songs, j) == Some(p) by {
      var q := LastExisting(songs, j);
      assert q.Some? by {
        assert 0 <= p < j && songs[p].fileExists;
      }
    }
  }

  /** `next` undoes `prev` when the song playing before `prev` exists. */
  lemma PrevThenNext(st: State)
    requires PrevDefined(st) && Playing(st)
    requires st.playingSong.value < |PlayingSongs(st)| && PlayingSongs(st)[st.playingSong.value].fileExists
    requires Prev(st).sent != Some(Player.Stop)
    ensures PlayingListExists(Prev(st).state)
    ensures Next(Prev(st).state) == Outcome(st.(isPlaying := true), Some(Player.Play(PlayingSongs(st)[st.playingSong.value].path)))
  {
    var songs := PlayingSongs(st);
    var p := st.playingSong.value;
    var after := Prev(st).state;
    var j := after.playingSong.value;
    assert PlayingSongs(after) == songs;
    assert FirstExisting(songs, j + 1) == Some(p) by {
      var q := FirstExisting(songs, j + 1);
      assert q.Some? by {
        assert j + 1 <= p < |songs| && songs[p].fileExists;
      }
    }
  }

  // ---------------------------------------------------------------------
  // increment_indices and add_song
  // ---------------------------------------------------------------------

  /** `increment_indices`: the selected rows move down by `amount` when the
      selected playlist is `pl`, and so does the playing row when the
      playing playlist is `pl`; nothing else changes. */
  function IncrementIndices(st: State, pl: nat, amount: nat): (r: State)
    ensures r.playlists == st.playlists && r.selectedPlaylist == st.selectedPlaylist && r.search == st.search
    ensures r.isPlaying == st.isPlaying && r.playingPlaylist == st.playingPlaylist
    ensures |r.selection| == |st.selection|
    ensures forall k :: 0 <= k < |st.selection| ==>
              r.selection[k] == st.selection[k] + (if st.selectedPlaylist == pl then amount else 0)
    ensures st.playingPlaylist == Some(pl) && st.playingSong.Some? ==>
              r.playingSong == Some(st.playingSong.value + amount)
    ensures st.playingPlaylist != Some(pl) ==> r.playingSong == st.playingSong
    ensures st.playingSong.None? ==> r.playingSong.None?
  {
    var sel := if st.selectedPlaylist == pl && st.selection != [] then
                 seq(|st.selection|, k requires 0 <= k < |st.selection| => st.selection[k] + amount)
               else st.selection;
    var playing := if st.playingPlaylist == Some(pl) && st.playingSong.Some? then
                     Some(st.playingSong.value + amount)
                   else st.playingSong;
    st.(selection := sel, playingSong := playing)
  }

  /** The first playlist called `name` from position `from` on. */
  function FirstNamed(playlists: seq<Playlist>, name: string, from: nat): (r: Option<nat>)
    ensures r.Some? ==> from <= r.value < |playlists| && playlists[r.value].name == name
    ensures r.Some? ==> forall q :: from <= q < r.value ==> playlists[q].name != name
    ensures r.None? <==> forall q :: from <= q < |playlists| ==> playlists[q].name != name
    decreases |playlists| - from
  {
    if from >= |playlists| then None
    else if playlists[from].name == name then Some(from)
    else FirstNamed(playlists, name, from + 1)
  }

  predicate HasAllPlaylist(playlists: seq<Playlist>) {
    exists q :: 0 <= q < |playlists| && playlists[q].name == AllPlaylistName
  }

  /** The playlist `add_song` appends to: the first one called "All". */
  function AllIndex(playlists: seq<Playlist>): (a: nat)
    requires HasAllPlaylist(playlists)
    ensures a < |playlists| && playlists[a].name == AllPlaylistName
    ensures forall q :: 0 <= q < a ==> playlists[q].name != AllPlaylistName
  {
    var r := FirstNamed(playlists, AllPlaylistName, 0);
    assert r.Some?;
    r.value
  }

  /** `Vec::insert(0, song)` on playlist `pl`. */
  function InsertFirst(playlists: seq<Playlist>, pl: nat, song: Song): (r: seq<Playlist>)
    requires pl < |playlists|
    ensures |r| == |playlists| && r[pl].songs == [song] + playlists[pl].songs
    ensures forall q :: 0 <= q < |playlists| ==> r[q].name == playlists[q].name
    ensures forall q :: 0 <= q < |playlists| && q != pl ==> r[q] == playlists[q]
  {
    playlists[pl := playlists[pl].(songs := [song] + playlists[pl].songs)]
  }

  /** `Vec::push(song)` on playlist `a`. */
  function PushLast(playlists: seq<Playlist>, a: nat, song: Song): (r: seq<Playlist>)
    requires a < |playlists|
    ensures |r| == |playlists| && r[a].songs == playlists[a].songs + [song]
    ensures forall q :: 0 <= q < |playlists| ==> r[q].name == playlists[q].name
    ensures forall q :: 0 <= q < |playlists| && q != a ==> r[q] == playlists[q]
  {
    playlists[a := playlists[a].(songs := playlists[a].songs + [song])]
  }

  /** `add_song`: the new song goes first in playlist `pl` and last in the
      "All" playlist, and the indices into `pl` move down one. The song is
      the one `Song::new` builds (`Library.NewSong`) from the file's stem,
      its path and its probed duration. */
  function AddSong(st: State, song: Song, pl: nat): (r: State)
    requires pl < |st.playlists| && HasAllPlaylist(st.playlists)
    ensures var a := AllIndex(st.playlists);
            && |r.playlists| == |st.playlists|
            && (forall q :: 0 <= q < |st.playlists| ==> r.playlists[q].name == st.playlists[q].name)
            && |r.playlists[pl].songs| > 0 && r.playlists[pl].songs[0] == song
            && |r.playlists[a].songs| > 0 && r.playlists[a].songs[|r.playlists[a].songs| - 1] == song
    ensures r == IncrementIndices(st.(playlists := r.playlists), pl, 1)
  {
    var a := AllIndex(st.playlists);
    var inserted := InsertFirst(st.playlists, pl, song);
    var pushed := PushLast(inserted, a, song);
    assert pushed[pl].songs[0] == song by {
      if a == pl {
        assert pushed[pl].songs == [song] + st.playlists[pl].songs + [song];
      }
    }
    IncrementIndices(st.(playlists := pushed), pl, 1)
  }

  /** One song's row after `add_song`: one lower in playlist `pl`, the same
      elsewhere. */
  lemma AddSongRow(st: State, song: Song, pl: nat, q: nat, i: nat)
    requires pl < |st.playlists| && HasAllPlaylist(st.playlists)
    requires q < |st.playlists| && i < |st.playlists[q].songs|
    ensures var r := AddSong(st, song, pl);
            var j := i + (if q == pl then 1 else 0);
            j < |r.playlists[q].songs| && r.playlists[q].songs[j] == st.playlists[q].songs[i]
  {
    var a := AllIndex(st.playlists);
    var inserted := InsertFirst(st.playlists, pl, song);
    var pushed := PushLast(inserted, a, song);
    assert AddSong(st, song, pl).playlists == pushed;
    var j := i + (if q == pl then 1 else 0);
    assert inserted[q].songs[j] == st.playlists[q].songs[i];
    assert pushed[q].songs[j] == inserted[q].songs[j];
  }

  /** `add_song` leaves every other playlist alone, and every song keeps its
      row, one lower in playlist `pl`. */
  lemma AddSongShifts(st: State, song: Song, pl: nat)
    requires pl < |st.playlists| && HasAllPlaylist(st.playlists)
    ensures var r := AddSong(st, song, pl);
            var a := AllIndex(st.playlists);
            && (forall q :: 0 <= q < |st.playlists| ==>
                  |r.playlists[q].songs|
                    == |st.playlists[q].songs| + (if q == pl then 1 else 0) + (if q == a then 1 else 0))
            && (forall q :: 0 <= q < |st.playlists| && q != pl && q != a ==> r.playlists[q] == st.playlists[q])
            && (forall q, i :: 0 <= q < |st.playlists| && 0 <= i < |st.playlists[q].songs| ==>
                  r.playlists[q].songs[i + (if q == pl then 1 else 0)] == st.playlists[q].songs[i])
  {
    var r := AddSong(st, song, pl);
    var a := AllIndex(st.playlists);
    var inserted := InsertFirst(st.playlists, pl, song);
    assert r.playlists == PushLast(inserted, a, song);
    forall q, i | 0 <= q < |st.playlists| && 0 <= i < |st.playlists[q].songs|
      ensures r.playlists[q].songs[i + (if q == pl then 1 else 0)] == st.playlists[q].songs[i]
    {
      AddSongRow(st, song, pl, q, i);
    }
  }

  /** After `add_song` the playing indices still name the song they named. */
  lemma AddSongKeepsPlaying(st: State, song: Song, pl: nat)
    requires pl < |st.playlists| && HasAllPlaylist(st.playlists)
    requires Current(st).Some?
    ensures Current(AddSong(st, song, pl)) == Current(st)
  {
    var r := AddSong(st, song, pl);
    var q, i := st.playingPlaylist.value, st.playingSong.value;
    AddSongRow(st, song, pl, q, i);
    assert r == IncrementIndices(st.(playlists := r.playlists), pl, 1);
  }

  /** After `add_song` every selected index still names the song it named. */
  lemma AddSongKeepsSelection(st: State, song: Song, pl: nat)
    requires pl < |st.playlists| && HasAllPlaylist(st.playlists)
    requires st.selectedPlaylist < |st.playlists|
    ensures var r := AddSong(st, song, pl);
            var sp := st.selectedPlaylist;
            forall k :: 0 <= k < |st.selection| && st.selection[k] < |st.playlists[sp].songs| ==>
              r.selection[k] < |r.playlists[sp].songs|
              && r.playlists[sp].songs[r.selection[k]] == st.playlists[sp].songs[st.selection[k]]
  {
    var r := AddSong(st, song, pl);
    var sp := st.selectedPlaylist;
    assert r == IncrementIndices(st.(playlists := r.playlists), pl, 1);
    forall k | 0 <= k < |st.selection| && st.selection[k] < |st.playlists[sp].songs|
      ensures r.selection[k] < |r.playlists[sp].songs|
      ensures r.playlists[sp].songs[r.selection[k]] == st.playlists[sp].songs[st.selection[k]]
    {
      AddSongRow(st, song, pl, sp, st.selection[k]);
    }
  }

  // ---------------------------------------------------------------------
  // change_file_name
  // ---------------------------------------------------------------------

  /** One song after the rename of file `original` to `renamed`. */
  function RenameSong(song: Song, original: string, renamed: string, artist: string, name: string, present: bool): Song {
    if song.path == original then song.(path := renamed, artist := artist, name := name, fileExists := present)
    else song
  }

  /** `change_file_name`: every song, in every playlist, whose path is the
      original file name takes the new path, artist, name and existence
      flag. Whether the file exists under its new name after the rename on
      disk is the `exists` parameter. */
  function ChangeFileName(st: State, original: string, renamed: string, artist: string, name: string, present: bool)
    : (r: State)
    ensures r.selectedPlaylist == st.selectedPlaylist && r.selection == st.selection && r.search == st.search
    ensures r.isPlaying == st.isPlaying && r.playingPlaylist == st.playingPlaylist && r.playingSong == st.playingSong
    ensures |r.playlists| == |st.playlists|
    ensures forall q :: 0 <= q < |st.playlists| ==>
              r.playlists[q].name == st.playlists[q].name && |r.playlists[q].songs| == |st.playlists[q].songs|
    ensures forall q, i :: 0 <= q < |st.playlists| && 0 <= i < |st.playlists[q].songs| ==>
              var before := st.playlists[q].songs[i];
              && (before.path == original ==>
                    r.playlists[q].songs[i] == Song(renamed, name, artist, before.duration, present))
              && (before.path != original ==> r.playlists[q].songs[i] == before)
  {
    var playlists := seq(|st.playlists|, q requires 0 <= q < |st.playlists| =>
      var songs := st.playlists[q].songs;
      st.playlists[q].(songs := seq(|songs|, i requires 0 <= i < |songs| =>
        RenameSong(songs[i], original, renamed, artist, name, present))));
    st.(playlists := playlists)
  }

  /** After a rename to a different name no song refers to the old file,
      and every song referring to the new file either did so before or
      referred to the old one. */
  lemma RenameLeavesNoOldPath(st: State, original: string, renamed: string, artist: string, name: string, present: bool)
    requires original != renamed
    ensures var r := ChangeFileName(st, original, renamed, artist, name, present);
            forall q, i :: 0 <= q < |r.playlists| && 0 <= i < |r.playlists[q].songs| ==>
              && r.playlists[q].songs[i].path != original
              && (r.playlists[q].songs[i].path == renamed <==>
                    st.playlists[q].songs[i].path == original || st.playlists[q].songs[i].path == renamed)
  {
    var r := ChangeFileName(st, original, renamed, artist, name, present);
    forall q, i | 0 <= q < |r.playlists| && 0 <= i < |r.playlists[q].songs|
      ensures r.playlists[q].songs[i].path != original
      ensures r.playlists[q].songs[i].path == renamed <==>
                st.playlists[q].songs[i].path == original || st.playlists[q].songs[i].path == renamed
    {
      assert i < |st.playlists[q].songs|;
    }
  }
}
