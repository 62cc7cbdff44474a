/** The part of `State` in `src/app.rs` that the playlist actions and the
    song list's key handlers read and write. Window, text-box, media-control,
    download and change-detection fields are not modelled. */
module AppState {
  import opened Wrappers
  import opened Library

  /** `selected_song_indices` index the songs of the selected playlist;
      `playing_song_index` indexes the songs of the playing playlist. */
  datatype State = State(
    playlists: seq<Playlist>,
    selectedPlaylist: nat,
    selection: seq<nat>,
    search: string,
    playingPlaylist: Option<nat>,
    playingSong: Option<nat>,
    isPlaying: bool)

  /** Both playing indices are set. */
  predicate Playing(st: State) {
    st.playingPlaylist.Some? && st.playingSong.Some?
  }

  /** The playing playlist exists whenever both playing indices are set;
      the program indexes `playlists` with it without a check. */
  predicate PlayingListExists(st: State) {
    Playing(st) ==> st.playingPlaylist.value < |st.playlists|
  }

  /** The songs of the playing playlist. */
  function PlayingSongs(st: State): seq<Song>
    requires Playing(st) && PlayingListExists(st)
  {
    st.playlists[st.playingPlaylist.value].songs
  }

  /** The song the playing indices name, when they name one. */
  function Current(st: State): Option<Song> {
    if Playing(st) && st.playingPlaylist.value < |st.playlists|
       && st.playingSong.value < |st.playlists[st.playingPlaylist.value].songs|
    then Some(st.playlists[st.playingPlaylist.value].songs[st.playingSong.value])
    else None
  }
}
