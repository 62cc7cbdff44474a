/** The song list's key and mouse handlers in `draw` of `src/app.rs`, on
    the whole state: ctrl-A, Delete (and the context menu's "Remove"), J and
    K, and the plain, shift- and ctrl-clicks on a row. The row bookkeeping
    itself is in `Selection`. */
module App {
  import opened Wrappers
  import opened Library
  import opened AppState
  import Selection
  import Util
  import Actions
  import Player

  /** The songs of the selected playlist. */
  function SelectedSongs(st: State): seq<Song>
    requires st.selectedPlaylist < |st.playlists|
  {
    st.playlists[st.selectedPlaylist].songs
  }

  /** What the song list keeps true: the selected playlist exists and the
      selection names distinct rows of it. */
  predicate Valid(st: State) {
    st.selectedPlaylist < |st.playlists| && Selection.ValidSelection(st.selection, |SelectedSongs(st)|)
  }

  /** The selected playlist's songs replaced by `songs`. */
  function WithSelectedSongs(st: State, songs: seq<Song>): (r: seq<Playlist>)
    requires st.selectedPlaylist < |st.playlists|
    ensures |r| == |st.playlists| && r[st.selectedPlaylist].songs == songs
    ensures forall q :: 0 <= q < |st.playlists| ==> r[q].name == st.playlists[q].name
    ensures forall q :: 0 <= q < |st.playlists| && q != st.selectedPlaylist ==> r[q] == st.playlists[q]
  {
    st.playlists[st.selectedPlaylist := st.playlists[st.selectedPlaylist].(songs := songs)]
  }

  // ---------------------------------------------------------------------
  // Ctrl-A
  // ---------------------------------------------------------------------

  /** Ctrl-A: every row the search shows becomes selected. */
  function SelectAllKey(st: State): (r: State)
    requires st.selectedPlaylist < |st.playlists|
    ensures Valid(r) && r.(selection := st.selection) == st
    ensures forall j :: j in r.selection <==>
              0 <= j < |SelectedSongs(st)| && (st.search == [] || IsMatching(SelectedSongs(st)[j], st.search))
  {
    st.(selection := Selection.SelectAll(SelectedSongs(st), st.search))
  }

  // ---------------------------------------------------------------------
  // Delete
  // ---------------------------------------------------------------------

  /** Delete, or "Remove" in the context menu, with a selection: the
      selected rows are removed from the selected playlist and the selection
      is cleared. The playing row moves with the removal, but only when the
      playing playlist is the selected one (see `DeleteKeyAsWritten`), and
      a removed first row leaves it at 0 (see
      `Selection.PlayingAfterRemovalAsWritten`). */
  function DeleteKey(st: State): (r: State)
    requires Valid(st)
    ensures st.selection == [] ==> r == st
    ensures Valid(r)
    ensures st.selection != [] ==>
              && r.selection == [] && r.selectedPlaylist == st.selectedPlaylist
              && |r.playlists| == |st.playlists|
              && (forall q :: 0 <= q < |st.playlists| ==> r.playlists[q].name == st.playlists[q].name)
              && (forall q :: 0 <= q < |st.playlists| && q != st.selectedPlaylist ==>
                    r.playlists[q] == st.playlists[q])
              && |SelectedSongs(r)| == |SelectedSongs(st)| - |st.selection|
              && r.search == st.search && r.isPlaying == st.isPlaying
              && r.playingPlaylist == st.playingPlaylist
              && (st.playingPlaylist != Some(st.selectedPlaylist) ==> r.playingSong == st.playingSong)
  {
    if st.selection == [] then st
    else
      var sp := st.selectedPlaylist;
      var xs := SelectedSongs(st);
      var idx := Selection.SortIndices(st.selection);
      Selection.SortedSelectionIsValid(st.selection, |xs|);
      var playing := if st.playingPlaylist == Some(sp) && st.playingSong.Some? then
                       Some(Selection.PlayingAfterRemoval(st.playingSong.value, idx))
                     else st.playingSong;
      st.(playlists := WithSelectedSongs(st, Selection.RemoveRows(xs, idx)), selection := [], playingSong := playing)
  }

  /** Delete removes exactly the selected rows and keeps the others in
      their order. */
  lemma DeleteRemovesSelection(st: State)
    requires Valid(st) && st.selection != []
    ensures SelectedSongs(DeleteKey(st)) == Selection.Unselected(SelectedSongs(st), st.selection)
  {
    var xs := SelectedSongs(st);
    var idx := Selection.SortIndices(st.selection);
    Selection.SortedSelectionIsValid(st.selection, |xs|);
    Selection.RemoveRowsIsUnselected(xs, idx);
    Selection.UnselectedSameBelow(xs, idx, st.selection);
  }

  /** Delete keeps the playing song playing when it was not itself removed:
      the playing indices name the same song afterwards. */
  lemma DeleteKeepsPlayingSong(st: State)
    requires Valid(st) && Current(st).Some?
    requires st.playingPlaylist == Some(st.selectedPlaylist) ==> st.playingSong.value !in st.selection
    ensures Current(DeleteKey(st)) == Current(st)
  {
    if st.selection != [] && st.playingPlaylist == Some(st.selectedPlaylist) {
      var xs := SelectedSongs(st);
      var idx := Selection.SortIndices(st.selection);
      Selection.SortedSelectionIsValid(st.selection, |xs|);
      Selection.DeleteKeepsPlaying(xs, idx, st.playingSong.value);
    }
  }

  /** The same handler as written: the playing row is adjusted whatever
      playlist is playing, and `0.max(p - 1)` underflows when the playing
      row is 0 and removed (`None`). */
  function DeleteKeyAsWritten(st: State): (r: Option<State>)
    requires Valid(st)
    ensures st.selection == [] ==> r == Some(st)
    ensures r.Some? ==> r.value.playlists == DeleteKey(st).playlists && r.value.selection == DeleteKey(st).selection
  {
    if st.selection == [] then Some(st)
    else
      var sp := st.selectedPlaylist;
      var xs := SelectedSongs(st);
      var idx := Selection.SortIndices(st.selection);
      Selection.SortedSelectionIsValid(st.selection, |xs|);
      var removed := st.(playlists := WithSelectedSongs(st, Selection.RemoveRows(xs, idx)), selection := []);
      if st.playingSong.None? then Some(removed)
      else
        match Selection.PlayingAfterRemovalAsWritten(st.playingSong.value, idx)
        case None => None
        case Some(p) => Some(removed.(playingSong := Some(p)))
  }

  /** When the selected playlist is the playing one and the playing row does
      not underflow, the handler as written does what `DeleteKey` does. */
  lemma DeleteAsWrittenAgrees(st: State)
    requires Valid(st) && st.playingPlaylist == Some(st.selectedPlaylist) && st.playingSong.Some?
    requires var p := st.playingSong.value;
             !(p in st.selection && Selection.CountBelow(Selection.SortIndices(st.selection), p) == p)
    ensures DeleteKeyAsWritten(st) == Some(DeleteKey(st))
  {
    if st.selection != [] {
      var idx := Selection.SortIndices(st.selection);
      Selection.SortedSelectionIsValid(st.selection, |SelectedSongs(st)|);
      Selection.AsWrittenUnderflow(st.playingSong.value, idx);
    }
  }

  /** Two songs in playlist 0 and two in playlist 1; the second song of
      playlist 1 plays and row 0 of playlist 0 is selected. */
  function TwoPlaylists(): State {
    var a := Song("a.mp3", "", "a", None, true);
    var b := Song("b.mp3", "", "b", None, true);
    var c := Song("c.mp3", "", "c", None, true);
    var d := Song("d.mp3", "", "d", None, true);
    State([Playlist("x", [a, b]), Playlist("y", [c, d])], 0, [0], "", Some(1), Some(1), true)
  }

  /** Deleting a row of playlist 0 moves the playing row of playlist 1 as
      written, so another song is shown as playing; `DeleteKey` keeps it. */
  lemma DeleteOtherPlaylistMisdirects()
    ensures Valid(TwoPlaylists())
    ensures Current(TwoPlaylists()) == Some(Song("d.mp3", "", "d", None, true))
    ensures DeleteKeyAsWritten(TwoPlaylists()).Some?
    ensures Current(DeleteKeyAsWritten(TwoPlaylists()).value) == Some(Song("c.mp3", "", "c", None, true))
    ensures Current(DeleteKey(TwoPlaylists())) == Some(Song("d.mp3", "", "d", None, true))
  {
    var st := TwoPlaylists();
    assert Selection.SortIndices([0]) == [0];
    assert Selection.PlayingAfterRemovalAsWritten(1, [0]) == Some(0);
  }

  // ---------------------------------------------------------------------
  // J and K
  // ---------------------------------------------------------------------

  /** J and K act only with a selection, without a search filter and in a
      playlist the user made. */
  predicate MoveAllowed(st: State)
    requires st.selectedPlaylist < |st.playlists|
  {
    st.selection != [] && st.search == [] && !Util.IsDefaultPlaylist(st.playlists[st.selectedPlaylist].name)
  }

  /** The playing row as seen from the selected playlist. */
  function PlayingHere(st: State): Option<nat> {
    if st.playingPlaylist == Some(st.selectedPlaylist) then st.playingSong else None
  }

  /** What J and K promise of the rows: a reordering of the selected
      playlist only, and the selection still names the same songs, in
      ascending rows. */
  predicate ReorderedRows(st: State, r: State)
    requires Valid(st)
  {
    && r.selectedPlaylist == st.selectedPlaylist && |r.playlists| == |st.playlists|
    && (forall q :: 0 <= q < |st.playlists| ==> r.playlists[q].name == st.playlists[q].name)
    && (forall q :: 0 <= q < |st.playlists| && q != st.selectedPlaylist ==> r.playlists[q] == st.playlists[q])
    && |SelectedSongs(r)| == |SelectedSongs(st)|
    && multiset(SelectedSongs(r)) == multiset(SelectedSongs(st))
    && |r.selection| == |st.selection| && Selection.Increasing(r.selection)
    && Selection.Below(r.selection, |SelectedSongs(r)|)
    && Selection.Below(Selection.SortIndices(st.selection), |SelectedSongs(st)|)
    && (forall k :: 0 <= k < |r.selection| ==>
          SelectedSongs(r)[r.selection[k]] == SelectedSongs(st)[Selection.SortIndices(st.selection)[k]])
    && r.search == st.search && r.isPlaying == st.isPlaying && r.playingPlaylist == st.playingPlaylist
  }

  /** What J and K promise: the rows are reordered and the playing indices
      name the same song. */
  predicate Reordered(st: State, r: State)
    requires Valid(st)
  {
    && ReorderedRows(st, r)
    && (Current(st).Some? ==> Current(r) == Current(st))
  }

  /** J's rule for the `k`th selected row: it moves one row down, or stays
      exactly when it is the last row or the selected row below it ended
      right under it. */
  predicate DownRule(st: State, r: State, k: nat)
    requires Valid(st) && ReorderedRows(st, r) && k < |r.selection|
  {
    var from := Selection.SortIndices(st.selection)[k];
    && (r.selection[k] == from || r.selection[k] == from + 1)
    && (r.selection[k] == from <==>
          from + 1 == |SelectedSongs(st)| || (k + 1 < |r.selection| && r.selection[k + 1] == from + 1))
  }

  predicate MovedDown(st: State, r: State)
    requires Valid(st) && ReorderedRows(st, r)
  {
    forall k: nat :: k < |r.selection| ==> DownRule(st, r, k)
  }

  /** K's rule for the `k`th selected row: it moves one row up, or stays
      exactly when it is row 0 or the selected row above it ended right
      over it. */
  predicate UpRule(st: State, r: State, k: nat)
    requires Valid(st) && ReorderedRows(st, r) && k < |r.selection|
  {
    var from := Selection.SortIndices(st.selection)[k];
    && (r.selection[k] == from || r.selection[k] + 1 == from)
    && (r.selection[k] == from <==> from == 0 || (k > 0 && r.selection[k - 1] + 1 == from))
  }

  predicate MovedUp(st: State, r: State)
    requires Valid(st) && ReorderedRows(st, r)
  {
    forall k: nat :: k < |r.selection| ==> UpRule(st, r, k)
  }

  /** The state after a move, from the moved rows, the new row positions of
      the selection and the new playing row. */
  function AfterMove(st: State, ys: seq<Song>, moved: seq<nat>, now: Option<nat>): State
    requires st.selectedPlaylist < |st.playlists|
  {
    st.(playlists := WithSelectedSongs(st, ys), selection := moved,
        playingSong := if st.playingPlaylist == Some(st.selectedPlaylist) then now else st.playingSong)
  }

  /** The move handlers' common conclusion about the rows. */
  lemma MoveRows(st: State, idx: seq<nat>, ys: seq<Song>, moved: seq<nat>, playing: Option<nat>)
    requires Valid(st) && idx == Selection.SortIndices(st.selection)
    requires |ys| == |SelectedSongs(st)| && multiset(ys) == multiset(SelectedSongs(st))
    requires Selection.Below(idx, |SelectedSongs(st)|)
    requires |moved| == |idx| && Selection.Increasing(moved) && Selection.Below(moved, |ys|)
    requires forall j :: 0 <= j < |idx| ==> ys[moved[j]] == SelectedSongs(st)[idx[j]]
    ensures var r := st.(playlists := WithSelectedSongs(st, ys), selection := moved, playingSong := playing);
            Valid(r) && ReorderedRows(st, r)
  {
    var r := st.(playlists := WithSelectedSongs(st, ys), selection := moved, playingSong := playing);
    assert SelectedSongs(r) == ys;
    assert |st.selection| == |idx| by {
      assert |multiset(idx)| == |multiset(st.selection)|;
    }
    assert Selection.Distinct(moved);
  }

  /** The corrected handlers' conclusion: the playing song is kept too. */
  lemma MoveReorders(st: State, idx: seq<nat>, ys: seq<Song>, moved: seq<nat>, now: Option<nat>)
    requires Valid(st) && idx == Selection.SortIndices(st.selection)
    requires |ys| == |SelectedSongs(st)| && multiset(ys) == multiset(SelectedSongs(st))
    requires Selection.Below(idx, |SelectedSongs(st)|)
    requires |moved| == |idx| && Selection.Increasing(moved) && Selection.Below(moved, |ys|)
    requires forall j :: 0 <= j < |idx| ==> ys[moved[j]] == SelectedSongs(st)[idx[j]]
    requires Selection.Tracks(SelectedSongs(st), ys, PlayingHere(st), now)
    ensures Valid(AfterMove(st, ys, moved, now)) && Reordered(st, AfterMove(st, ys, moved, now))
  {
    var r := AfterMove(st, ys, moved, now);
    MoveRows(st, idx, ys, moved, r.playingSong);
    assert SelectedSongs(r) == ys;
  }

  /** `Selection.MoveDown`'s row rule, read on the state. */
  lemma DownRules(st: State, r: State, idx: seq<nat>)
    requires Valid(st) && ReorderedRows(st, r) && idx == Selection.SortIndices(st.selection)
    requires forall j :: 0 <= j < |idx| ==> r.selection[j] == idx[j] || r.selection[j] == idx[j] + 1
    requires |r.selection| == |idx|
    requires forall j :: 0 <= j < |idx| ==> Selection.DownStays(SelectedSongs(st), idx, r.selection, j)
    ensures MovedDown(st, r)
  {
    forall k: nat | k < |r.selection|
      ensures DownRule(st, r, k)
    {
      assert Selection.DownStays(SelectedSongs(st), idx, r.selection, k);
    }
  }

  /** `Selection.MoveUp`'s row rule, read on the state. */
  lemma UpRules(st: State, r: State, idx: seq<nat>)
    requires Valid(st) && ReorderedRows(st, r) && idx == Selection.SortIndices(st.selection)
    requires forall j :: 0 <= j < |idx| ==> r.selection[j] == idx[j] || r.selection[j] + 1 == idx[j]
    requires |r.selection| == |idx|
    requires forall j :: 0 <= j < |idx| ==> Selection.UpStays(idx, r.selection, j)
    ensures MovedUp(st, r)
  {
    forall k: nat | k < |r.selection|
      ensures UpRule(st, r, k)
    {
      assert Selection.UpStays(idx, r.selection, k);
    }
  }

  /** J: the selected rows move one row down where they can. The playing
      row follows its song only when the selected playlist is the playing
      one (see `MoveDownKeyAsWritten`). */
  method MoveDownKey(st: State) returns (r: State)
    requires Valid(st)
    ensures Valid(r)
    ensures !MoveAllowed(st) ==> r == st
    ensures MoveAllowed(st) ==> Reordered(st, r) && MovedDown(st, r)
  {
    if !MoveAllowed(st) {
      return st;
    }
    var idx := Selection.SortIndices(st.selection);
    Selection.SortedSelectionIsValid(st.selection, |SelectedSongs(st)|);
    var ys, moved, now := Selection.MoveDown(SelectedSongs(st), idx, PlayingHere(st));
    MoveReorders(st, idx, ys, moved, now);
    r := AfterMove(st, ys, moved, now);
    DownRules(st, r, idx);
  }

  /** K: the selected rows move one row up where they can. The playing row
      follows its song only when the selected playlist is the playing one
      (see `MoveUpKeyAsWritten`). */
  method MoveUpKey(st: State) returns (r: State)
    requires Valid(st)
    ensures Valid(r)
    ensures !MoveAllowed(st) ==> r == st
    ensures MoveAllowed(st) ==> Reordered(st, r) && MovedUp(st, r)
  {
    if !MoveAllowed(st) {
      return st;
    }
    var idx := Selection.SortIndices(st.selection);
    Selection.SortedSelectionIsValid(st.selection, |SelectedSongs(st)|);
    var ys, moved, now := Selection.MoveUp(SelectedSongs(st), idx, PlayingHere(st));
    MoveReorders(st, idx, ys, moved, now);
    r := AfterMove(st, ys, moved, now);
    UpRules(st, r, idx);
  }

  /** J as written: the playing row is swapped along with the selected rows
      whatever playlist is playing, as if it indexed the selected one. */
  method MoveDownKeyAsWritten(st: State) returns (r: State)
    requires Valid(st)
    ensures Valid(r)
    ensures !MoveAllowed(st) ==> r == st
    ensures MoveAllowed(st) ==>
              && ReorderedRows(st, r) && MovedDown(st, r)
              && Selection.Tracks(SelectedSongs(st), SelectedSongs(r), st.playingSong, r.playingSong)
  {
    if !MoveAllowed(st) {
      return st;
    }
    var idx := Selection.SortIndices(st.selection);
    Selection.SortedSelectionIsValid(st.selection, |SelectedSongs(st)|);
    var ys, moved, now := Selection.MoveDown(SelectedSongs(st), idx, st.playingSong);
    MoveRows(st, idx, ys, moved, now);
    r := st.(playlists := WithSelectedSongs(st, ys), selection := moved, playingSong := now);
    assert SelectedSongs(r) == ys && r.selection == moved;
    DownRules(st, r, idx);
  }

  /** K as written: the mirror image of `MoveDownKeyAsWritten`. */
  method MoveUpKeyAsWritten(st: State) returns (r: State)
    requires Valid(st)
    ensures Valid(r)
    ensures !MoveAllowed(st) ==> r == st
    ensures MoveAllowed(st) ==>
              && ReorderedRows(st, r) && MovedUp(st, r)
              && Selection.Tracks(SelectedSongs(st), SelectedSongs(r), st.playingSong, r.playingSong)
  {
    if !MoveAllowed(st) {
      return st;
    }
    var idx := Selection.SortIndices(st.selection);
    Selection.SortedSelectionIsValid(st.selection, |SelectedSongs(st)|);
    var ys, moved, now := Selection.MoveUp(SelectedSongs(st), idx, st.playingSong);
    MoveRows(st, idx, ys, moved, now);
    r := st.(playlists := WithSelectedSongs(st, ys), selection := moved, playingSong := now);
    assert SelectedSongs(r) == ys && r.selection == moved;
    UpRules(st, r, idx);
  }

  /** J on row 0 of playlist 0 while song 1 of playlist 1 plays: any
      result that obeys J's rules and moves the playing row as if it
      indexed playlist 0 shows song "c" of playlist 1 as playing, where
      "d" played. */
  lemma DownAsWrittenMisdirects(r: State)
    requires Valid(TwoPlaylists()) && ReorderedRows(TwoPlaylists(), r) && MovedDown(TwoPlaylists(), r)
    requires Selection.Tracks(SelectedSongs(TwoPlaylists()), SelectedSongs(r), Some(1), r.playingSong)
    ensures Current(r) == Some(Song("c.mp3", "", "c", None, true))
  {
    var st := TwoPlaylists();
    assert Selection.SortIndices([0]) == [0];
    assert |r.selection| == 1 && DownRule(st, r, 0);
    OtherOfPair(SelectedSongs(r), Song("a.mp3", "", "a", None, true), Song("b.mp3", "", "b", None, true));
    assert r.playlists[1] == st.playlists[1];
  }

  /** K on row 1 of playlist 0 in the same state: as written it too shows
      "c" as playing. */
  lemma UpAsWrittenMisdirects(r: State)
    requires Valid(TwoPlaylists().(selection := [1]))
    requires ReorderedRows(TwoPlaylists().(selection := [1]), r) && MovedUp(TwoPlaylists().(selection := [1]), r)
    requires Selection.Tracks(SelectedSongs(TwoPlaylists()), SelectedSongs(r), Some(1), r.playingSong)
    ensures Current(r) == Some(Song("c.mp3", "", "c", None, true))
  {
    var st := TwoPlaylists().(selection := [1]);
    assert Selection.SortIndices([1]) == [1];
    assert |r.selection| == 1 && UpRule(st, r, 0);
    OtherOfPair(SelectedSongs(r), Song("b.mp3", "", "b", None, true), Song("a.mp3", "", "a", None, true));
    assert r.playlists[1] == st.playlists[1];
  }

  /** J on row 0 of playlist 0 while song 1 of playlist 1 plays: as
      written, another song shows as playing; the corrected handler keeps
      the one that plays. */
  method DownOtherPlaylistMisdirects()
    returns (before: Option<Song>, asWritten: Option<Song>, corrected: Option<Song>)
    ensures before == Some(Song("d.mp3", "", "d", None, true))
    ensures asWritten == Some(Song("c.mp3", "", "c", None, true))
    ensures corrected == before
  {
    var st := TwoPlaylists();
    assert Valid(st) && MoveAllowed(st);
    before := Current(st);
    var r := MoveDownKeyAsWritten(st);
    DownAsWrittenMisdirects(r);
    asWritten := Current(r);
    var r1 := MoveDownKey(st);
    corrected := Current(r1);
  }

  /** The same for K, with row 1 of the shown playlist selected. */
  method UpOtherPlaylistMisdirects()
    returns (before: Option<Song>, asWritten: Option<Song>, corrected: Option<Song>)
    ensures before == Some(Song("d.mp3", "", "d", None, true))
    ensures asWritten == Some(Song("c.mp3", "", "c", None, true))
    ensures corrected == before
  {
    var st := TwoPlaylists().(selection := [1]);
    assert Valid(st) && MoveAllowed(st);
    before := Current(st);
    var r := MoveUpKeyAsWritten(st);
    UpAsWrittenMisdirects(r);
    asWritten := Current(r);
    var r1 := MoveUpKey(st);
    corrected := Current(r1);
  }

  /** A permutation of two distinct songs that holds one of them at some
      row holds the other at the other row. */
  lemma OtherOfPair(ys: seq<Song>, x: Song, y: Song)
    requires multiset(ys) == multiset([x, y]) && x != y
    ensures |ys| == 2 && (ys[0] == x <==> ys[1] == y) && (ys[1] == x <==> ys[0] == y)
    ensures ys[0] == x || ys[0] == y
  {
    assert |ys| == |multiset(ys)| == 2;
    assert ys == [ys[0], ys[1]];
    assert ys[0] in multiset(ys) && ys[1] in multiset(ys);
  }

  // ---------------------------------------------------------------------
  // Clicks on a row
  // ---------------------------------------------------------------------

  /** The modifier key held during a click. */
  datatype Modifier = Plain | ShiftKey | CtrlKey

  /** A left click on row `i` of the selected playlist. Shift extends the
      selection from its anchor, ctrl toggles the row; a plain click selects
      the row alone and, on a double click, plays it when its file exists. */
  function ClickRow(st: State, i: nat, modifier: Modifier, doubleClick: bool): (r: Actions.Outcome)
    requires Valid(st) && i < |SelectedSongs(st)|
    ensures Valid(r.state) && r.state.playlists == st.playlists && r.state.search == st.search
    ensures modifier == ShiftKey ==>
              && r.sent == None
              && (st.selection == [] ==> r.state.selection == [])
              && (st.selection != [] ==>
                    |r.state.selection| > 0 && r.state.selection[0] == st.selection[0]
                    && forall j :: j in r.state.selection <==>
                         (st.selection[0] <= j <= i || i <= j <= st.selection[0]))
    ensures modifier == CtrlKey ==>
              && r.sent == None
              && (i in r.state.selection <==> i !in st.selection)
              && (forall j :: j != i ==> (j in r.state.selection <==> j in st.selection))
    ensures modifier == Plain ==>
              && r.state.selection == [i]
              && (doubleClick && SelectedSongs(st)[i].fileExists ==>
                    && r.sent == Some(Player.Play(SelectedSongs(st)[i].path))
                    && Current(r.state) == Some(SelectedSongs(st)[i]))
              && (!(doubleClick && SelectedSongs(st)[i].fileExists) ==> r.sent == None)
  {
    match modifier
    case ShiftKey =>
      Selection.ShiftClickValid(st.selection, i, |SelectedSongs(st)|);
      Actions.Outcome(st.(selection := Selection.ShiftClick(st.selection, i)), None)
    case CtrlKey =>
      Selection.CtrlClickValid(st.selection, i, |SelectedSongs(st)|);
      Actions.Outcome(st.(selection := Selection.CtrlClick(st.selection, i)), None)
    case Plain =>
      var only := st.(selection := [i]);
      if doubleClick then Actions.Play(only, st.selectedPlaylist, i)
      else Actions.Outcome(only, None)
  }
}
