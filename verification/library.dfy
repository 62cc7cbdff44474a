/** Songs and playlists of `src/app.rs` and `src/actions.rs`: the song record
    and its file-stem parsing, the search match, the playlist sort comparator,
    and the M3U playlist format (`save_playlist` and the loader loop of
    `initialize`). */
module Library {
  import opened Wrappers
  import opened Text

  const AllPlaylistName: string := "All"
  const AllUnusedPlaylistName: string := "All Unused"

  /** `Song`; the duration is in milliseconds. */
  datatype Song = Song(path: string, name: string, artist: string, duration: Option<nat>, fileExists: bool)

  /** `Playlist`; the change-detection hash is not modelled. */
  datatype Playlist = Playlist(name: string, songs: seq<Song>)

  // ---------------------------------------------------------------------
  // Song::new and Song::is_matching
  // ---------------------------------------------------------------------

  /** `Song::new`: the artist is the trimmed file stem up to its first dash,
      the name the trimmed rest after that dash (empty without a dash).
      `stem` is the path's file stem, `path` the path relative to the music
      directory, and `fileExists` whether the file is there. */
  function NewSong(stem: string, path: string, duration: Option<nat>, fileExists: bool): (s: Song)
    ensures s.path == path && s.duration == duration && s.fileExists == fileExists
    ensures '-' !in s.artist
    ensures '-' !in stem ==> s.artist == Trim(stem) && s.name == ""
  {
    var parts := SplitOnce(stem, '-');
    var artist := if parts.Some? then parts.value.0 else stem;
    TrimKeepsAbsence(artist, '-');
    Song(path, if parts.Some? then Trim(parts.value.1) else "", Trim(artist), duration, fileExists)
  }

  lemma TrimKeepsAbsence(s: string, c: char)
    requires c !in s
    ensures c !in Trim(s)
  {
    var r := Trim(s);
    var a :| TrimmedAt(s, r, a);
  }

  /** `SplitOnce` cuts at the first occurrence, whichever way the text was put
      together. */
  lemma SplitOnceAtFirst(s: string, c: char, a: string, b: string)
    requires s == a + [c] + b && c !in a
    ensures SplitOnce(s, c) == Some((a, b))
  {
    assert s[|a|] == c;
    var i := FirstIndex(s, c);
    assert s[..|a|] == a;
    assert i == |a|;
    assert s[i + 1..] == b;
  }

  /** A stem made of an artist part, a dash and a rest gives the trimmed
      artist part and the trimmed rest, when the artist part has no dash. */
  lemma NewSongSplitsAtFirstDash(stem: string, a: string, b: string, path: string,
                                 duration: Option<nat>, fileExists: bool)
    requires stem == a + ['-'] + b && '-' !in a
    ensures var s := NewSong(stem, path, duration, fileExists);
            s.artist == Trim(a) && s.name == Trim(b)
  {
    SplitOnceAtFirst(stem, '-', a, b);
  }

  /** `Song::is_matching`: the search text, lower-cased, occurs in the
      lower-cased name or the lower-cased artist. */
  function IsMatching(song: Song, search: string): (r: bool)
    ensures r <==> Occurs(Lower(song.name), Lower(search)) || Occurs(Lower(song.artist), Lower(search))
  {
    var needle := Lower(search);
    ContainsIffOccurs(Lower(song.name), needle);
    ContainsIffOccurs(Lower(song.artist), needle);
    Contains(Lower(song.name), needle) || Contains(Lower(song.artist), needle)
  }

  /** An empty search text matches every song. */
  lemma EmptySearchMatchesAll(song: Song)
    ensures IsMatching(song, "")
  {
    assert OccursAt(Lower(song.name), Lower(""), 0);
  }

  /** Matching ignores letter case in the search text and in the song. */
  lemma MatchingIgnoresCase(song: Song, other: Song, search: string)
    requires Lower(song.name) == Lower(other.name) && Lower(song.artist) == Lower(other.artist)
    ensures IsMatching(song, search) == IsMatching(other, Lower(search))
  {
    LowerIdempotent(search);
  }

  /** A search text found verbatim in the name matches. */
  lemma MatchesSubstringOfName(song: Song, i: nat, j: nat)
    requires i <= j <= |song.name|
    ensures IsMatching(song, song.name[i..j])
  {
    var n := song.name[i..j];
    assert Lower(song.name)[i..i + |Lower(n)|] == Lower(n);
    assert OccursAt(Lower(song.name), Lower(n), i);
  }

  // ---------------------------------------------------------------------
  // The playlist sort comparator
  // ---------------------------------------------------------------------

  /** The comparator `State::sort_playlists` passes to `sort_by`, on the two
      playlist names. */
  function ComparePlaylists(a: string, b: string): Ordering {
    if a == AllPlaylistName then Less
    else if a == AllUnusedPlaylistName && b != AllPlaylistName then Less
    else if a != AllPlaylistName && b == AllUnusedPlaylistName then Greater
    else if '.' in a && '.' !in b then Greater
    else if '.' !in a && '.' in b then Less
    else CompareStrings(Lower(a), Lower(b))
  }

  predicate IsDefaultName(name: string) {
    name == AllPlaylistName || name == AllUnusedPlaylistName
  }

  /** What the comparator promises: "All" before anything, "All Unused" before
      anything but "All"; among the other names, names without a dot (plain
      playlists) before names with one (directory playlists), each group in
      case-insensitive order, and the order is antisymmetric there. */
  lemma ComparatorOrder(a: string, b: string)
    ensures a == "All" ==> ComparePlaylists(a, b) == Less
    ensures a == "All Unused" && b != "All" ==> ComparePlaylists(a, b) == Less
    ensures a != "All" && a != "All Unused" && b == "All Unused" ==> ComparePlaylists(a, b) == Greater
    ensures !IsDefaultName(a) && !IsDefaultName(b) ==>
              && ('.' in a && '.' !in b ==> ComparePlaylists(a, b) == Greater)
              && ('.' !in a && '.' in b ==> ComparePlaylists(a, b) == Less)
              && (('.' in a <==> '.' in b) ==> ComparePlaylists(a, b) == CompareStrings(Lower(a), Lower(b)))
              && ComparePlaylists(b, a) == ComparePlaylists(a, b).Reverse()
  {
    CompareStringsAntisymmetric(Lower(a), Lower(b));
  }

  /** As written the comparator is not antisymmetric when only the right name
      is "All": both orders of "Abc" and "All" compare `Less`. */
  lemma ComparatorNotAntisymmetric()
    ensures ComparePlaylists("Abc", "All") == Less
    ensures ComparePlaylists("All", "Abc") == Less
  {
    assert Lower("Abc") == "abc";
    assert Lower("All") == "all";
    assert CompareStrings("abc", "all") == CompareStrings("bc", "ll");
  }

  /** The sort group of a playlist name: "All", "All Unused", plain playlists,
      directory playlists. */
  function Rank(name: string): nat {
    if name == AllPlaylistName then 0
    else if name == AllUnusedPlaylistName then 1
    else if '.' !in name then 2
    else 3
  }

  /** The comparator with the "All" case made symmetric: groups by rank, and
      within the two open groups case-insensitively. */
  function CompareNames(a: string, b: string): (r: Ordering)
    ensures Rank(a) < Rank(b) ==> r == Less
    ensures Rank(a) > Rank(b) ==> r == Greater
  {
    if Rank(a) < Rank(b) then Less
    else if Rank(a) > Rank(b) then Greater
    else if Rank(a) <= 1 then Equal
    else CompareStrings(Lower(a), Lower(b))
  }

  /** The corrected comparator is antisymmetric on all names, and agrees with
      the original on distinct names unless the right one is "All". */
  lemma CompareNamesAntisymmetric(a: string, b: string)
    ensures CompareNames(b, a) == CompareNames(a, b).Reverse()
    ensures a != b && b != "All" ==> CompareNames(a, b) == ComparePlaylists(a, b)
  {
    CompareStringsAntisymmetric(Lower(a), Lower(b));
  }

  // ---------------------------------------------------------------------
  // The M3U playlist format
  // ---------------------------------------------------------------------

  const Header: string := "#EXTM3U"

  function DurationOrZero(song: Song): nat {
    if song.duration.Some? then song.duration.value else 0
  }

  /** The `#EXTINF` line of one song: whole seconds, artist and name. */
  function InfoLine(song: Song): string {
    "#EXTINF:" + NatToString(DurationOrZero(song) / 1000) + "," + song.artist + " - " + song.name
  }

  function SaveEntries(songs: seq<Song>): string {
    if songs == [] then ""
    else "\n" + InfoLine(songs[0]) + "\n" + songs[0].path + SaveEntries(songs[1..])
  }

  /** `save_playlist`'s file content: the header, then per song a line feed,
      its `#EXTINF` line, a line feed and its path. */
  function SavePlaylist(songs: seq<Song>): string {
    Header + SaveEntries(songs)
  }

  /** One entry as the loader reads it: duration in milliseconds and path. */
  datatype Entry = Entry(duration: nat, path: string)

  /** Where the loader would abort (the `unwrap` that fails), by line index. */
  datatype LoadError =
    | MissingColon(line: nat)
    | MissingComma(line: nat)
    | BadNumber(line: nat)
    | MissingPathLine(line: nat)

  const U64Limit: nat := 0x1_0000_0000_0000_0000

  /** Rust's `str::parse::<u64>`: an optional `+`, then one or more decimal
      digits, with a value that fits in 64 bits. */
  function ParseU64(s: string): (r: Option<nat>)
    ensures r.Some? ==> r.value < U64Limit
  {
    var digits := if |s| > 0 && s[0] == '+' then s[1..] else s;
    if |digits| >= 1 && AllDigits(digits) && DigitsValue(digits) < U64Limit then Some(DigitsValue(digits))
    else None
  }

  lemma ParseU64OfNatToString(n: nat)
    requires n < U64Limit
    ensures ParseU64(NatToString(n)) == Some(n)
  {
    NatToStringRoundTrip(n);
  }

  /** The duration of an `#EXTINF` line: the number between the first colon
      and the next comma, in milliseconds. */
  function InfoDuration(line: string, index: nat): (r: Result<nat, LoadError>)
    ensures r.Ok? ==> r.value % 1000 == 0 && r.value < U64Limit * 1000
    ensures r.Err? ==> r.error.line == index && !r.error.MissingPathLine?
  {
    match SplitOnce(line, ':')
    case None => Err(MissingColon(index))
    case Some(afterColon) =>
      match SplitOnce(afterColon.1, ',')
      case None => Err(MissingComma(index))
      case Some(beforeComma) =>
        match ParseU64(beforeComma.0)
        case None => Err(BadNumber(index))
        case Some(seconds) => WholeSeconds(seconds); Ok(seconds * 1000)
  }

  lemma WholeSeconds(seconds: nat)
    requires seconds < U64Limit
    ensures (seconds * 1000) % 1000 == 0 && seconds * 1000 < U64Limit * 1000
  {
  }

  /** Reads the duration of an information line; `InfoDuration` is the
      program's. */
  type InfoReader = (string, nat) -> Result<nat, LoadError>

  /** The loop of `initialize` over lines 1, 3, 5, ...: each entry is an
      information line, read by `info`, and the path on the line after it.
      The first failing line ends the load. */
  function LoadEntriesWith(info: InfoReader, lines: seq<string>, k: nat): Result<seq<Entry>, LoadError>
    decreases |lines| - k
  {
    if k >= |lines| then Ok([])
    else
      match info(lines[k], k)
      case Err(err) => Err(err)
      case Ok(duration) =>
        if k + 1 >= |lines| then Err(MissingPathLine(k + 1))
        else
          match LoadEntriesWith(info, lines, k + 2)
          case Err(err) => Err(err)
          case Ok(rest) => Ok([Entry(duration, lines[k + 1])] + rest)
  }

  /** The entries of a playlist file's content. The first line is skipped. */
  function LoadPlaylist(content: string): Result<seq<Entry>, LoadError> {
    LoadEntriesWith(InfoDuration, Lines(content), 1)
  }

  /** Entry `i` of a load from line `k` comes from lines `k + 2i` (read by
      `info`) and `k + 2i + 1` (the path). */
  predicate EntryFrom(info: InfoReader, lines: seq<string>, k: nat, entries: seq<Entry>, i: nat)
    requires i < |entries|
  {
    && k + 2 * i + 1 < |lines|
    && entries[i].path == lines[k + 2 * i + 1]
    && info(lines[k + 2 * i], k + 2 * i) == Ok(entries[i].duration)
  }

  /** The reader's own failures never claim a missing path line. */
  ghost predicate ReadsNoPaths(info: InfoReader) {
    forall line, index :: info(line, index).Err? ==> !info(line, index).error.MissingPathLine?
  }

  /** A successful load from line `k` consumes the remaining lines in pairs,
      an information line and a path each; a missing path line can only be
      the one past the end. */
  lemma {:induction false} LoadEntriesShape(info: InfoReader, lines: seq<string>, k: nat)
    ensures var r := LoadEntriesWith(info, lines, k);
            && (r.Ok? && k <= |lines| ==> |lines| - k == 2 * |r.value|)
            && (r.Ok? ==> forall i :: 0 <= i < |r.value| ==> EntryFrom(info, lines, k, r.value, i))
            && (ReadsNoPaths(info) && r.Err? && r.error.MissingPathLine? ==> r.error.line == |lines|)
    decreases |lines| - k
  {
    if k < |lines| && info(lines[k], k).Ok? && k + 1 >= |lines| {
      assert LoadEntriesWith(info, lines, k) == Err(MissingPathLine(k + 1));
    } else if k < |lines| && info(lines[k], k).Ok? {
      LoadEntriesShape(info, lines, k + 2);
      var r := LoadEntriesWith(info, lines, k);
      var rest := LoadEntriesWith(info, lines, k + 2);
      if rest.Ok? {
        assert r.value == [Entry(info(lines[k], k).value, lines[k + 1])] + rest.value;
        forall i | 0 <= i < |r.value| ensures EntryFrom(info, lines, k, r.value, i) {
          if i > 0 {
            assert EntryFrom(info, lines, k + 2, rest.value, i - 1);
          }
        }
      }
    }
  }

  /** Entry `i` of a loaded playlist file holds the path on line `2i + 2`,
      and a whole number of seconds; a file that ends on an information line
      fails on the line past the end. */
  lemma LoadPlaylistShape(content: string)
    ensures var r := LoadPlaylist(content);
            r.Ok? ==> forall i :: 0 <= i < |r.value| ==>
              && 2 * i + 2 < |Lines(content)|
              && r.value[i].path == Lines(content)[2 * i + 2]
              && r.value[i].duration % 1000 == 0
    ensures var r := LoadPlaylist(content);
            r.Err? && r.error.MissingPathLine? ==> r.error.line == |Lines(content)|
  {
    var r := LoadPlaylist(content);
    assert ReadsNoPaths(InfoDuration);
    LoadEntriesShape(InfoDuration, Lines(content), 1);
    if r.Ok? {
      forall i | 0 <= i < |r.value|
        ensures 2 * i + 2 < |Lines(content)| && r.value[i].path == Lines(content)[2 * i + 2]
        ensures r.value[i].duration % 1000 == 0
      {
        assert EntryFrom(InfoDuration, Lines(content), 1, r.value, i);
      }
    }
  }

  /** A song the format can carry: no line break in its fields, a non-empty
      path, and a duration that fits in 64 bits. */
  predicate Storable(song: Song) {
    && '\n' !in song.artist && '\r' !in song.artist
    && '\n' !in song.name && '\r' !in song.name
    && '\n' !in song.path && '\r' !in song.path && song.path != ""
    && DurationOrZero(song) < U64Limit
  }

  /** The lines `save_playlist` writes after the header. */
  function SaveLines(songs: seq<Song>): (r: seq<string>)
    ensures |r| == 2 * |songs|
  {
    if songs == [] then [] else [InfoLine(songs[0]), songs[0].path] + SaveLines(songs[1..])
  }

  lemma {:induction false} SaveEntriesJoin(head: string, songs: seq<Song>)
    ensures head + SaveEntries(songs) == Join([head] + SaveLines(songs), '\n')
    decreases |songs|
  {
    if songs == [] {
      assert [head] + SaveLines(songs) == [head];
    } else {
      SaveEntriesJoin(songs[0].path, songs[1..]);
      SaveEntriesJoinStep(head, songs);
    }
  }

  /** One song more: the joined lines gain its information line and path. */
  lemma {:induction false} SaveEntriesJoinStep(head: string, songs: seq<Song>)
    requires songs != []
    requires songs[0].path + SaveEntries(songs[1..]) == Join([songs[0].path] + SaveLines(songs[1..]), '\n')
    ensures head + SaveEntries(songs) == Join([head] + SaveLines(songs), '\n')
  {
    var info := InfoLine(songs[0]);
    var tail := [songs[0].path] + SaveLines(songs[1..]);
    var joined := songs[0].path + SaveEntries(songs[1..]);
    calc {
      head + SaveEntries(songs);
      { AppendAssoc("\n" + info + "\n", songs[0].path, SaveEntries(songs[1..])); }
      head + ("\n" + info + "\n" + joined);
      { JoinTwoMore(head, info, tail, joined); }
      Join([head] + ([info] + tail), '\n');
      { assert [head] + SaveLines(songs) == [head] + ([info] + tail); }
      Join([head] + SaveLines(songs), '\n');
    }
  }

  lemma {:induction false} SaveLinesAt(songs: seq<Song>, i: nat)
    requires i < |songs|
    ensures SaveLines(songs)[2 * i] == InfoLine(songs[i])
    ensures SaveLines(songs)[2 * i + 1] == songs[i].path
  {
    if i > 0 {
      SaveLinesAt(songs[1..], i - 1);
    }
  }

  lemma InfoLineDuration(song: Song, index: nat)
    requires Storable(song)
    ensures InfoDuration(InfoLine(song), index) == Ok(DurationOrZero(song) / 1000 * 1000)
  {
    var d := DurationOrZero(song) / 1000;
    var digits := NatToString(d);
    var rest := "," + song.artist + " - " + song.name;
    var afterColon := digits + rest;
    assert InfoLine(song) == "#EXTINF" + [':'] + afterColon;
    SplitOnceAtFirst(InfoLine(song), ':', "#EXTINF", afterColon);
    assert ',' !in digits;
    assert afterColon == digits + [','] + rest[1..];
    SplitOnceAtFirst(afterColon, ',', digits, rest[1..]);
    ParseU64OfNatToString(d);
  }

  /** What the loader should read back from a saved playlist: each song's path
      and its duration truncated to whole seconds (zero when unknown). */
  function Expected(songs: seq<Song>): (r: seq<Entry>)
    ensures |r| == |songs|
  {
    if songs == [] then []
    else [Entry(DurationOrZero(songs[0]) / 1000 * 1000, songs[0].path)] + Expected(songs[1..])
  }

  /** `lines` holds, after one header line, an information line from which
      `info` reads each song's whole-second duration, and then the song's
      path. */
  predicate LaidOut(info: InfoReader, lines: seq<string>, songs: seq<Song>) {
    && |lines| == 2 * |songs| + 1
    && forall j :: 0 <= j < |songs| ==>
         && info(lines[2 * j + 1], 2 * j + 1) == Ok(DurationOrZero(songs[j]) / 1000 * 1000)
         && lines[2 * j + 2] == songs[j].path
  }

  lemma {:induction false} LoadEntriesOfSaved(info: InfoReader, songs: seq<Song>, lines: seq<string>, i: nat, k: nat)
    requires LaidOut(info, lines, songs)
    requires i <= |songs| && k == 2 * i + 1
    ensures LoadEntriesWith(info, lines, k) == Ok(Expected(songs[i..]))
    decreases |songs| - i
  {
    if i < |songs| {
      LoadEntriesOfSaved(info, songs, lines, i + 1, k + 2);
      assert songs[i..][1..] == songs[i + 1..];
    }
  }

  /** Every saved line is free of line breaks, and the last is not empty. */
  lemma SavedLinesClean(songs: seq<Song>)
    requires forall j :: 0 <= j < |songs| ==> Storable(songs[j])
    ensures var lines := [Header] + SaveLines(songs);
            && (forall k :: 0 <= k < |lines| ==> '\n' !in lines[k] && StripCr(lines[k]) == lines[k])
            && lines[|lines| - 1] != ""
  {
    var lines := [Header] + SaveLines(songs);
    forall k | 0 <= k < |lines|
      ensures '\n' !in lines[k] && StripCr(lines[k]) == lines[k]
    {
      if k > 0 {
        var i := (k - 1) / 2;
        SaveLinesAt(songs, i);
        if k % 2 == 1 {
          assert lines[k] == InfoLine(songs[i]);
          InfoLineHasNoBreak(songs[i]);
        }
      }
    }
    if songs != [] {
      SaveLinesAt(songs, |songs| - 1);
    }
  }

  /** Splitting the saved file into lines gives back the header and the
      saved lines. */
  lemma SavedLines(songs: seq<Song>)
    requires forall j :: 0 <= j < |songs| ==> Storable(songs[j])
    ensures Lines(SavePlaylist(songs)) == [Header] + SaveLines(songs)
  {
    var lines := [Header] + SaveLines(songs);
    assert SavePlaylist(songs) == Join(lines, '\n') by {
      SaveEntriesJoin(Header, songs);
    }
    SavedLinesClean(songs);
    LinesOfJoin(lines);
  }

  lemma SavedLaidOut(songs: seq<Song>)
    requires forall j :: 0 <= j < |songs| ==> Storable(songs[j])
    ensures LaidOut(InfoDuration, [Header] + SaveLines(songs), songs)
  {
    var lines := [Header] + SaveLines(songs);
    forall j | 0 <= j < |songs|
      ensures InfoDuration(lines[2 * j + 1], 2 * j + 1) == Ok(DurationOrZero(songs[j]) / 1000 * 1000)
      ensures lines[2 * j + 2] == songs[j].path
    {
      SaveLinesAt(songs, j);
      assert lines[2 * j + 1] == SaveLines(songs)[2 * j] == InfoLine(songs[j]);
      assert lines[2 * j + 2] == SaveLines(songs)[2 * j + 1];
      InfoLineDuration(songs[j], 2 * j + 1);
    }
  }

  /** Loading what `save_playlist` wrote gives back every song's path and its
      duration in whole seconds, as long as no field holds a line break. */
  lemma SaveLoadRoundTrip(songs: seq<Song>)
    requires forall j :: 0 <= j < |songs| ==> Storable(songs[j])
    ensures LoadPlaylist(SavePlaylist(songs)) == Ok(Expected(songs))
  {
    SavedLines(songs);
    SavedLaidOut(songs);
    LoadEntriesOfSaved(InfoDuration, songs, [Header] + SaveLines(songs), 0, 1);
    assert songs[0..] == songs;
  }

  lemma InfoLineHasNoBreak(song: Song)
    requires Storable(song)
    ensures '\n' !in InfoLine(song) && '\r' !in InfoLine(song)
  {
    var digits := NatToString(DurationOrZero(song) / 1000);
    assert forall i :: 0 <= i < |digits| ==> IsDigit(digits[i]);
    assert '\n' !in digits && '\r' !in digits;
  }

  // ---------------------------------------------------------------------
  // Matching loaded entries against the scanned songs
  // ---------------------------------------------------------------------

  /** The index of the first song with `path`, or `|library|` when there is
      none: the song the loader's `find` picks. */
  function FirstWithPath(library: seq<Song>, path: string): (f: nat)
    ensures f <= |library|
    ensures f < |library| ==> library[f].path == path
    ensures forall j :: 0 <= j < f ==> library[j].path != path
    decreases |library|
  {
    if library == [] || library[0].path == path then 0
    else 1 + FirstWithPath(library[1..], path)
  }

  /** The rest of the loader's loop body: the first scanned song with the
      entry's path is used, and gets a duration if it had none (the entry's,
      or `probed`, the duration read from the file, when the entry says 0);
      a path that was not scanned gives a new song for it, built from `stem`
      and `fileExists`. Returns the scanned songs and the playlist's song. */
  function ResolveEntry(library: seq<Song>, entry: Entry, probed: nat, stem: string, fileExists: bool)
    : (r: (seq<Song>, Song))
    ensures r.1.path == entry.path
    ensures |r.0| == |library|
    ensures forall j :: 0 <= j < |library| ==>
              r.0[j] == library[j] || (r.0[j] == library[j].(duration := r.0[j].duration)
                                      && library[j].duration.None? && r.0[j] == r.1)
    ensures (forall j :: 0 <= j < |library| ==> library[j].path != entry.path) ==>
              r.0 == library && r.1 == NewSong(stem, entry.path, Some(entry.duration), fileExists)
    ensures r.1.duration.Some?
    decreases |library|
  {
    if library == [] then
      ([], NewSong(stem, entry.path, Some(entry.duration), fileExists))
    else if library[0].path == entry.path then
      var s := library[0];
      var s' := if s.duration.Some? then s
                else s.(duration := Some(if entry.duration == 0 then probed else entry.duration));
      ([s'] + library[1..], s')
    else
      var rest := ResolveEntry(library[1..], entry, probed, stem, fileExists);
      ([library[0]] + rest.0, rest.1)
  }

  /** The song picked is the first scanned one with the entry's path; when
      it has a duration it is kept as it is, and no scanned song changes. */
  lemma {:induction false} ResolveEntryKeepsTimed(library: seq<Song>, entry: Entry, probed: nat, stem: string,
                                                  fileExists: bool)
    requires FirstWithPath(library, entry.path) < |library|
    requires library[FirstWithPath(library, entry.path)].duration.Some?
    ensures var r := ResolveEntry(library, entry, probed, stem, fileExists);
            r.0 == library && r.1 == library[FirstWithPath(library, entry.path)]
    decreases |library|
  {
    if library[0].path != entry.path {
      var tail := library[1..];
      var f := FirstWithPath(library, entry.path);
      assert FirstWithPath(tail, entry.path) == f - 1;
      assert library[f] == tail[f - 1];
      ResolveEntryKeepsTimed(tail, entry, probed, stem, fileExists);
      var rest := ResolveEntry(tail, entry, probed, stem, fileExists);
      assert ResolveEntry(library, entry, probed, stem, fileExists) == ([library[0]] + rest.0, rest.1);
      assert library == [library[0]] + tail;
    }
  }

  /** When the first scanned song with the entry's path has no duration, it
      gains the entry's (or the one read from the file, when the entry says
      0), becomes the playlist's song, and every other scanned song is left
      alone. */
  lemma {:induction false} ResolveEntryFillsDuration(library: seq<Song>, entry: Entry, probed: nat, stem: string,
                                                     fileExists: bool)
    requires FirstWithPath(library, entry.path) < |library|
    requires library[FirstWithPath(library, entry.path)].duration.None?
    ensures var r := ResolveEntry(library, entry, probed, stem, fileExists);
            var f := FirstWithPath(library, entry.path);
            && r.1 == library[f].(duration := Some(if entry.duration == 0 then probed else entry.duration))
            && r.0 == library[f := r.1]
    decreases |library|
  {
    if library[0].path != entry.path {
      var tail := library[1..];
      var f := FirstWithPath(library, entry.path);
      assert FirstWithPath(tail, entry.path) == f - 1;
      assert library[f] == tail[f - 1];
      ResolveEntryFillsDuration(tail, entry, probed, stem, fileExists);
      var rest := ResolveEntry(tail, entry, probed, stem, fileExists);
      assert ResolveEntry(library, entry, probed, stem, fileExists) == ([library[0]] + rest.0, rest.1);
      ConsUpdate(library[0], tail, f - 1, rest.1);
      assert library == [library[0]] + tail;
    }
  }

  /** Updating the tail of a sequence updates the sequence one index on. */
  lemma ConsUpdate<T>(x: T, xs: seq<T>, i: nat, v: T)
    requires i < |xs|
    ensures [x] + xs[i := v] == ([x] + xs)[i + 1 := v]
  {
  }

  /** Loading the same entry again, whatever the file's duration reads this
      time, changes nothing: the song it picked already has a duration. */
  lemma {:induction false} ResolveEntryIdempotent(library: seq<Song>, entry: Entry, probed: nat, probedAgain: nat,
                                                  stem: string, fileExists: bool)
    ensures var r := ResolveEntry(library, entry, probed, stem, fileExists);
            ResolveEntry(r.0, entry, probedAgain, stem, fileExists) == r
    decreases |library|
  {
    if library != [] && library[0].path != entry.path {
      ResolveEntryIdempotent(library[1..], entry, probed, probedAgain, stem, fileExists);
      var r := ResolveEntry(library, entry, probed, stem, fileExists);
      assert r.0[1..] == ResolveEntry(library[1..], entry, probed, stem, fileExists).0;
    }
  }
}
