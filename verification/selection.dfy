/** The row bookkeeping behind the song list's selection in `src/app.rs`:
    sorting the selected rows, removing them (the Delete key and the context
    menu's "Remove"), moving them one row down (J) or up (K), and the shift-,
    ctrl- and ctrl-A selections. Everything here works on one playlist's
    rows, the selected row indices and the playing row. */
module Selection {
  import opened Wrappers
  import Library

  /** A row of the song list. */
  type Row = Library.Song

  // ---------------------------------------------------------------------
  // Index lists
  // ---------------------------------------------------------------------

  predicate Sorted(s: seq<nat>) {
    forall a, b :: 0 <= a < b < |s| ==> s[a] <= s[b]
  }

  predicate Increasing(s: seq<nat>) {
    forall a, b :: 0 <= a < b < |s| ==> s[a] < s[b]
  }

  predicate Distinct(s: seq<nat>) {
    forall a, b :: 0 <= a < b < |s| ==> s[a] != s[b]
  }

  /** Every index names a row of a playlist of `n` rows. */
  predicate Below(s: seq<nat>, n: nat) {
    forall k :: 0 <= k < |s| ==> s[k] < n
  }

  /** What the program keeps true of `selected_song_indices`: no row twice,
      and every row exists. */
  predicate ValidSelection(s: seq<nat>, n: nat) {
    Distinct(s) && Below(s, n)
  }

  // ---------------------------------------------------------------------
  // sort_unstable
  // ---------------------------------------------------------------------

  function Insert(x: nat, s: seq<nat>): (r: seq<nat>)
    requires Sorted(s)
    ensures Sorted(r)
    ensures multiset(r) == multiset(s) + multiset{x}
    ensures forall y :: y in r <==> y == x || y in s
    ensures Increasing(s) && x !in s ==> Increasing(r)
  {
    if s == [] || x <= s[0] then
      InsertFront(x, s);
      [x] + s
    else
      var rest := Insert(x, s[1..]);
      assert s == [s[0]] + s[1..];
      InsertBehind(x, s, rest);
      [s[0]] + rest
  }

  lemma InsertFront(x: nat, s: seq<nat>)
    requires Sorted(s) && (s == [] || x <= s[0])
    ensures Sorted([x] + s)
    ensures Increasing(s) && x !in s ==> Increasing([x] + s)
  {
    HeadIsLeast(s);
    Prepend(x, s);
  }

  lemma InsertBehind(x: nat, s: seq<nat>, rest: seq<nat>)
    requires Sorted(s) && s != [] && x > s[0]
    requires Sorted(rest) && forall y :: y in rest <==> y == x || y in s[1..]
    requires Increasing(s[1..]) && x !in s[1..] ==> Increasing(rest)
    ensures Sorted([s[0]] + rest)
    ensures Increasing(s) && x !in s ==> Increasing([s[0]] + rest)
  {
    HeadIsLeast(s);
    assert forall y :: y in s[1..] ==> y in s;
    if Increasing(s) && x !in s {
      assert Increasing(s[1..]) && x !in s[1..];
      assert s[0] !in s[1..];
    }
    Prepend(s[0], rest);
  }

  /** The first row of a sorted list is its least, and strictly so when the
      list is ascending. */
  lemma HeadIsLeast(s: seq<nat>)
    requires Sorted(s)
    ensures s != [] ==> forall y :: y in s ==> s[0] <= y
    ensures s != [] && Increasing(s) ==> forall y :: y in s[1..] ==> s[0] < y
  {
    if s != [] {
      forall y | y in s ensures s[0] <= y {
        var i :| 0 <= i < |s| && s[i] == y;
      }
      if Increasing(s) {
        forall y | y in s[1..] ensures s[0] < y {
          var i :| 0 <= i < |s[1..]| && s[1..][i] == y;
          assert s[i + 1] == y;
        }
      }
    }
  }

  /** Putting a row in front of a sorted list whose rows are all at least
      as large keeps it sorted, and ascending when the list is and the row
      is new. */
  lemma Prepend(a: nat, t: seq<nat>)
    requires Sorted(t) && forall y :: y in t ==> a <= y
    ensures Sorted([a] + t)
    ensures Increasing(t) && a !in t ==> Increasing([a] + t)
  {
    var r := [a] + t;
    forall i, j | 0 <= i < j < |r| ensures r[i] <= r[j] {
      if i == 0 {
        assert r[j] == t[j - 1] && t[j - 1] in t;
      } else {
        assert r[i] == t[i - 1] && r[j] == t[j - 1];
      }
    }
    if Increasing(t) && a !in t {
      forall i, j | 0 <= i < j < |r| ensures r[i] < r[j] {
        if i == 0 {
          assert r[j] == t[j - 1] && t[j - 1] in t;
        } else {
          assert r[i] == t[i - 1] && r[j] == t[j - 1];
        }
      }
    }
  }

  /** `sort_unstable` on the selected rows: the same rows in ascending
      order; strictly ascending when no row is selected twice. */
  function SortIndices(sel: seq<nat>): (r: seq<nat>)
    ensures Sorted(r) && multiset(r) == multiset(sel) && |r| == |sel|
    ensures forall y :: y in r <==> y in sel
    ensures Distinct(sel) ==> Increasing(r)
  {
    if sel == [] then []
    else
      var rest := SortIndices(sel[1..]);
      assert sel == [sel[0]] + sel[1..];
      assert Distinct(sel) ==> Distinct(sel[1..]) && sel[0] !in sel[1..];
      assert sel[0] in rest <==> sel[0] in sel[1..];
      Insert(sel[0], rest)
  }

  lemma SortedSelectionIsValid(sel: seq<nat>, n: nat)
    requires ValidSelection(sel, n)
    ensures Increasing(SortIndices(sel)) && Below(SortIndices(sel), n)
  {
    var r := SortIndices(sel);
    forall k | 0 <= k < |r|
      ensures r[k] < n
    {
      assert r[k] in sel;
    }
  }

  // ---------------------------------------------------------------------
  // Removing the selected rows
  // ---------------------------------------------------------------------

  /** How many of the indices lie below `p`. */
  function CountBelow(idx: seq<nat>, p: nat): (c: nat)
    ensures c <= |idx|
  {
    if idx == [] then 0
    else CountBelow(idx[..|idx| - 1], p) + (if idx[|idx| - 1] < p then 1 else 0)
  }

  /** The removal loop: the sorted selection is walked from its last row to
      its first and each row is removed with `Vec::remove`, so every removal
      leaves the rows still to remove where they were. */
  function RemoveRows(xs: seq<Row>, idx: seq<nat>): (r: seq<Row>)
    requires Increasing(idx) && Below(idx, |xs|)
    ensures |r| == |xs| - |idx|
    decreases |idx|
  {
    if idx == [] then xs
    else
      var i := idx[|idx| - 1];
      RemoveRows(xs[..i] + xs[i + 1..], idx[..|idx| - 1])
  }

  /** The rows whose index is not selected, in their order: what removing
      the selection is meant to leave. */
  function Unselected(xs: seq<Row>, idx: seq<nat>): seq<Row> {
    if xs == [] then []
    else Unselected(xs[..|xs| - 1], idx) + (if |xs| - 1 in idx then [] else [xs[|xs| - 1]])
  }

  lemma {:induction false} UnselectedAppend(a: seq<Row>, b: seq<Row>, idx: seq<nat>)
    requires forall k :: k in idx ==> k < |a|
    ensures Unselected(a + b, idx) == Unselected(a, idx) + b
    decreases |b|
  {
    if b != [] {
      var b' := b[..|b| - 1];
      assert (a + b)[..|a + b| - 1] == a + b';
      assert |a + b| - 1 !in idx;
      UnselectedAppend(a, b', idx);
      assert b == b' + [b[|b| - 1]];
    } else {
      assert a + b == a;
    }
  }

  lemma {:induction false} UnselectedSameBelow(a: seq<Row>, idx1: seq<nat>, idx2: seq<nat>)
    requires forall k :: 0 <= k < |a| ==> (k in idx1 <==> k in idx2)
    ensures Unselected(a, idx1) == Unselected(a, idx2)
    decreases |a|
  {
    if a != [] {
      UnselectedSameBelow(a[..|a| - 1], idx1, idx2);
    }
  }

  /** The removal loop leaves exactly the unselected rows, in order. */
  lemma {:induction false} RemoveRowsIsUnselected(xs: seq<Row>, idx: seq<nat>)
    requires Increasing(idx) && Below(idx, |xs|)
    ensures RemoveRows(xs, idx) == Unselected(xs, idx)
    decreases |idx|
  {
    if idx == [] {
      UnselectedAppend([], xs, idx);
      assert [] + xs == xs;
    } else {
      var i := idx[|idx| - 1];
      var rest := idx[..|idx| - 1];
      RemoveRowsIsUnselected(xs[..i] + xs[i + 1..], rest);
      assert forall k :: k in rest ==> k < i;
      assert xs == xs[..i] + [xs[i]] + xs[i + 1..];
      assert idx == rest + [i];
      UnselectedSkip(xs[..i], xs[i], xs[i + 1..], rest);
    }
  }

  /** Leaving out row `|a|` of `a + [x] + b` is what selecting it does. */
  lemma UnselectedSkip(a: seq<Row>, x: Row, b: seq<Row>, rest: seq<nat>)
    requires forall k :: k in rest ==> k < |a|
    ensures Unselected(a + b, rest) == Unselected(a + [x] + b, rest + [|a|])
  {
    var idx := rest + [|a|];
    UnselectedAppend(a, b, rest);
    UnselectedAppend(a + [x], b, idx);
    assert (a + [x])[..|a|] == a;
    assert Unselected(a + [x], idx) == Unselected(a, idx);
    UnselectedSameBelow(a, idx, rest);
  }

  lemma {:induction false} CountBelowStep(idx: seq<nat>, m: nat)
    requires Distinct(idx)
    ensures CountBelow(idx, m + 1) == CountBelow(idx, m) + (if m in idx then 1 else 0)
    decreases |idx|
  {
    if idx != [] {
      var rest := idx[..|idx| - 1];
      assert idx == rest + [idx[|idx| - 1]];
      CountBelowStep(rest, m);
    }
  }

  lemma {:induction false} UnselectedLength(xs: seq<Row>, idx: seq<nat>)
    requires Distinct(idx)
    ensures |Unselected(xs, idx)| == |xs| - CountBelow(idx, |xs|)
    decreases |xs|
  {
    if xs == [] {
      CountBelowZero(idx);
    } else {
      var init := xs[..|xs| - 1];
      UnselectedLength(init, idx);
      CountBelowStep(idx, |init|);
      assert |init| + 1 == |xs|;
      assert Unselected(xs, idx) == Unselected(init, idx) + (if |init| in idx then [] else [xs[|init|]]);
    }
  }

  /** No index lies below row 0. */
  lemma {:induction false} CountBelowZero(idx: seq<nat>)
    ensures CountBelow(idx, 0) == 0
    decreases |idx|
  {
    if idx != [] {
      CountBelowZero(idx[..|idx| - 1]);
    }
  }

  /** A row that is not selected lands after the unselected rows before it:
      `j` moves up by the number of selected rows below it. */
  lemma {:induction false} UnselectedAt(xs: seq<Row>, idx: seq<nat>, j: nat)
    requires Distinct(idx) && j < |xs| && j !in idx
    ensures CountBelow(idx, j) <= j
    ensures j - CountBelow(idx, j) < |Unselected(xs, idx)|
    ensures Unselected(xs, idx)[j - CountBelow(idx, j)] == xs[j]
    decreases |xs|
  {
    var init := xs[..|xs| - 1];
    UnselectedLength(init, idx);
    if j == |xs| - 1 {
      assert Unselected(xs, idx) == Unselected(init, idx) + [xs[j]];
    } else {
      UnselectedAt(init, idx, j);
    }
  }

  /** Every index lies below any bound above the last. */
  lemma {:induction false} CountBelowAll(idx: seq<nat>, q: nat)
    requires Below(idx, q)
    ensures CountBelow(idx, q) == |idx|
    decreases |idx|
  {
    if idx != [] {
      CountBelowAll(idx[..|idx| - 1], q);
    }
  }

  /** An ascending list of distinct rows below `m` has at most `m` rows. */
  lemma {:induction false} IncreasingBound(idx: seq<nat>, m: nat)
    requires Increasing(idx) && Below(idx, m)
    ensures |idx| <= m
    decreases |idx|
  {
    if idx != [] {
      var last := idx[|idx| - 1];
      IncreasingBound(idx[..|idx| - 1], last);
    }
  }

  /** One step of the loop's update of `playing_song_index` for a removed
      row `i`, as evidently meant by `0.max(p - 1)`: a row below `i` moves up
      one; the playing row itself moves to the row before it, and stays at 0
      when it is the first. */
  function Shift(p: nat, i: nat): nat {
    if p == i then (if p == 0 then 0 else p - 1)
    else if p > i then p - 1
    else p
  }

  /** The same step as written: `p - 1` on `usize` underflows when the
      playing row 0 is removed (`None`: a panic in a debug build, a wrapped
      index in a release build), before `0.max` can apply. */
  function ShiftAsWritten(p: nat, i: nat): Option<nat> {
    if p == i then (if p == 0 then None else Some(p - 1))
    else if p > i then Some(p - 1)
    else Some(p)
  }

  /** The playing row after the removal loop. */
  function PlayingAfterRemoval(p: nat, idx: seq<nat>): (r: nat)
    ensures r <= p
    decreases |idx|
  {
    if idx == [] then p
    else PlayingAfterRemoval(Shift(p, idx[|idx| - 1]), idx[..|idx| - 1])
  }

  function PlayingAfterRemovalAsWritten(p: nat, idx: seq<nat>): (r: Option<nat>)
    ensures r.Some? ==> r.value == PlayingAfterRemoval(p, idx)
    decreases |idx|
  {
    if idx == [] then Some(p)
    else
      match ShiftAsWritten(p, idx[|idx| - 1])
      case None => None
      case Some(q) => PlayingAfterRemovalAsWritten(q, idx[..|idx| - 1])
  }

  /** A playing row that is kept moves up by the number of removed rows
      below it. */
  lemma {:induction false} PlayingKept(p: nat, idx: seq<nat>)
    requires Increasing(idx) && p !in idx
    ensures CountBelow(idx, p) <= p
    ensures PlayingAfterRemoval(p, idx) == p - CountBelow(idx, p)
    decreases |idx|
  {
    if idx != [] {
      var i := idx[|idx| - 1];
      var rest := idx[..|idx| - 1];
      if p > i {
        assert Below(rest, p - 1);
        CountBelowAll(rest, p - 1);
        CountBelowAll(rest, p);
        PlayingKept(p - 1, rest);
      } else {
        PlayingKept(p, rest);
      }
    }
  }

  /** A removed playing row ends on the last kept row before it, or on row 0
      when every row before it was removed too. */
  lemma {:induction false} PlayingRemoved(p: nat, idx: seq<nat>)
    requires Increasing(idx) && p in idx
    ensures CountBelow(idx, p) <= p
    ensures PlayingAfterRemoval(p, idx)
              == if CountBelow(idx, p) < p then p - CountBelow(idx, p) - 1 else 0
    decreases |idx|
  {
    var i := idx[|idx| - 1];
    var rest := idx[..|idx| - 1];
    assert Below(rest, i);
    if p == i {
      CountBelowAll(rest, p);
      IncreasingBound(rest, p);
      if p > 0 {
        if p - 1 in rest {
          var last := rest[|rest| - 1];
          assert last == p - 1;
          CountBelowAll(rest[..|rest| - 1], p - 1);
          PlayingRemoved(p - 1, rest);
        } else {
          IncreasingBound(rest, p - 1) by {
            forall k | 0 <= k < |rest| ensures rest[k] < p - 1 {
              assert rest[k] != p - 1;
            }
          }
          CountBelowAll(rest, p - 1);
          PlayingKept(p - 1, rest);
        }
      }
    } else {
      assert p in rest;
      PlayingRemoved(p, rest);
    }
  }

  /** Removing the selection keeps the playing song playing when it is not
      itself removed: the adjusted row holds the same song. */
  lemma DeleteKeepsPlaying(xs: seq<Row>, idx: seq<nat>, p: nat)
    requires Increasing(idx) && Below(idx, |xs|)
    requires p < |xs| && p !in idx
    ensures PlayingAfterRemoval(p, idx) < |RemoveRows(xs, idx)|
    ensures RemoveRows(xs, idx)[PlayingAfterRemoval(p, idx)] == xs[p]
  {
    RemoveRowsIsUnselected(xs, idx);
    UnselectedAt(xs, idx, p);
    PlayingKept(p, idx);
  }

  /** The loop as written fails exactly when the playing row is removed
      together with every row before it; otherwise it agrees with the
      intended update. */
  lemma {:induction false} AsWrittenUnderflow(p: nat, idx: seq<nat>)
    requires Increasing(idx)
    ensures PlayingAfterRemovalAsWritten(p, idx)
              == if p in idx && CountBelow(idx, p) == p then None
                 else Some(PlayingAfterRemoval(p, idx))
    decreases |idx|, 1
  {
    if idx != [] {
      var i := idx[|idx| - 1];
      if p == i {
        AsWrittenAtLast(p, idx);
      } else if p > i {
        AsWrittenAbove(p, idx);
      } else {
        AsWrittenBelow(p, idx);
      }
    }
  }

  /** The last removed row is the playing one. */
  lemma {:induction false} AsWrittenAtLast(p: nat, idx: seq<nat>)
    requires Increasing(idx) && idx != [] && p == idx[|idx| - 1]
    ensures PlayingAfterRemovalAsWritten(p, idx)
              == if p in idx && CountBelow(idx, p) == p then None
                 else Some(PlayingAfterRemoval(p, idx))
    decreases |idx|, 0
  {
    var rest := idx[..|idx| - 1];
    assert Below(rest, p);
    CountBelowAll(rest, p);
    assert CountBelow(idx, p) == |rest|;
    if p == 0 {
      IncreasingBound(rest, p);
    } else {
      AsWrittenUnderflow(p - 1, rest);
      if p - 1 in rest {
        assert rest[|rest| - 1] == p - 1;
        CountBelowAll(rest[..|rest| - 1], p - 1);
      } else {
        IncreasingBound(rest, p - 1) by {
          forall k | 0 <= k < |rest| ensures rest[k] < p - 1 {
            assert rest[k] != p - 1;
          }
        }
      }
    }
  }

  /** The playing row lies below the last removed row. */
  lemma {:induction false} AsWrittenAbove(p: nat, idx: seq<nat>)
    requires Increasing(idx) && idx != [] && p > idx[|idx| - 1]
    ensures PlayingAfterRemovalAsWritten(p, idx)
              == if p in idx && CountBelow(idx, p) == p then None
                 else Some(PlayingAfterRemoval(p, idx))
    decreases |idx|, 0
  {
    var rest := idx[..|idx| - 1];
    assert Below(rest, idx[|idx| - 1]);
    assert p - 1 !in rest;
    assert p !in idx;
    AsWrittenUnderflow(p - 1, rest);
  }

  /** The playing row lies above the last removed row. */
  lemma {:induction false} AsWrittenBelow(p: nat, idx: seq<nat>)
    requires Increasing(idx) && idx != [] && p < idx[|idx| - 1]
    ensures PlayingAfterRemovalAsWritten(p, idx)
              == if p in idx && CountBelow(idx, p) == p then None
                 else Some(PlayingAfterRemoval(p, idx))
    decreases |idx|, 0
  {
    var rest := idx[..|idx| - 1];
    assert idx == rest + [idx[|idx| - 1]];
    assert p in idx <==> p in rest;
    AsWrittenUnderflow(p, rest);
  }

  /** Deleting the only row while it plays: `0.max(0 - 1)` underflows. */
  lemma DeleteFirstPlayingUnderflows()
    ensures PlayingAfterRemovalAsWritten(0, [0]) == None
    ensures PlayingAfterRemoval(0, [0]) == 0
  {
  }

  // ---------------------------------------------------------------------
  // Moving the selection one row down (J) or up (K)
  // ---------------------------------------------------------------------

  /** `Vec::swap`. */
  function Swap(xs: seq<Row>, a: nat, b: nat): (r: seq<Row>)
    requires a < |xs| && b < |xs|
    ensures |r| == |xs| && r[a] == xs[b] && r[b] == xs[a]
    ensures forall k :: 0 <= k < |xs| && k != a && k != b ==> r[k] == xs[k]
    ensures multiset(r) == multiset(xs)
  {
    xs[a := xs[b]][b := xs[a]]
  }

  /** The playing row after rows `a` and `b` were swapped. */
  function Follow(playing: Option<nat>, a: nat, b: nat): Option<nat> {
    if playing == Some(a) then Some(b)
    else if playing == Some(b) then Some(a)
    else playing
  }

  /** Following a swap keeps pointing at the same song. */
  lemma SwapFollow(xs: seq<Row>, a: nat, b: nat, p: nat)
    requires a < |xs| && b < |xs| && p < |xs|
    ensures Follow(Some(p), a, b).Some?
    ensures Follow(Some(p), a, b).value < |xs|
    ensures Swap(xs, a, b)[Follow(Some(p), a, b).value] == xs[p]
  {
  }

  /** The playing row, when it names a row, still names the same song. */
  predicate Tracks(xs: seq<Row>, ys: seq<Row>, playing: Option<nat>, now: Option<nat>) {
    && (playing.None? ==> now.None?)
    && (playing.Some? && playing.value < |xs| ==>
          now.Some? && now.value < |ys| && ys[now.value] == xs[playing.value])
    && (playing.Some? && playing.value >= |xs| ==> now == playing)
  }

  /** Move-down's loop state once the selected rows from `k` on were
      walked: rows not yet reached are untouched, each walked row holds its
      song one row lower or in place, it stayed exactly when it is the last
      row or the walked row right below it stayed there, and the playing row
      follows its song. */
  predicate DownInv(xs: seq<Row>, sel: seq<nat>, playing: Option<nat>, k: nat,
                    ys: seq<Row>, moved: seq<nat>, now: Option<nat>)
  {
    && DownFrame(xs, sel, k, moved)
    && DownRows(xs, sel, k, ys, moved)
    && DownBlocked(xs, sel, k, moved)
    && Tracks(xs, ys, playing, now)
  }

  /** Where the walked selected rows went. */
  predicate DownFrame(xs: seq<Row>, sel: seq<nat>, k: nat, moved: seq<nat>) {
    && k <= |sel| && Increasing(sel) && Below(sel, |xs|)
    && |moved| == |sel| && Increasing(moved)
    && (forall m :: 0 <= m < k ==> moved[m] == sel[m])
    && (forall m :: k <= m < |sel| ==> (moved[m] == sel[m] || moved[m] == sel[m] + 1) && moved[m] < |xs|)
  }

  /** The rows above the next selected row are untouched, and every walked
      selected song is where `moved` says. */
  predicate DownRows(xs: seq<Row>, sel: seq<nat>, k: nat, ys: seq<Row>, moved: seq<nat>)
    requires DownFrame(xs, sel, k, moved)
  {
    && |ys| == |xs|
    && (forall q :: 0 <= q < |xs| && (k == |sel| || q < sel[k]) ==> ys[q] == xs[q])
    && (forall m :: k <= m < |sel| ==> ys[moved[m]] == xs[sel[m]])
  }

  /** A walked row stayed exactly when it is the last row or the walked row
      right below it stayed directly under it. */
  predicate DownBlocked(xs: seq<Row>, sel: seq<nat>, k: nat, moved: seq<nat>)
    requires |moved| == |sel|
  {
    forall m :: k <= m < |sel| ==> DownStays(xs, sel, moved, m)
  }

  /** Walked row `m` of move-down stayed exactly when it is the last row or
      the walked row right below it stayed directly under it. */
  predicate DownStays(xs: seq<Row>, sel: seq<nat>, moved: seq<nat>, m: nat)
    requires m < |moved| == |sel|
  {
    moved[m] == sel[m] <==> sel[m] + 1 == |xs| || (m + 1 < |sel| && moved[m + 1] == sel[m] + 1)
  }

  lemma TracksSwap(xs: seq<Row>, ys: seq<Row>, playing: Option<nat>, now: Option<nat>, a: nat, b: nat)
    requires |ys| == |xs| && a < |xs| && b < |xs|
    requires Tracks(xs, ys, playing, now)
    ensures Tracks(xs, Swap(ys, a, b), playing, Follow(now, a, b))
  {
    if playing.Some? && playing.value < |xs| {
      SwapFollow(ys, a, b, now.value);
    }
  }

  lemma IncreasingUpdate(s: seq<nat>, k: nat, w: nat)
    requires Increasing(s) && k < |s|
    requires k == 0 || s[k - 1] < w
    requires k + 1 == |s| || w < s[k + 1]
    ensures Increasing(s[k := w])
  {
    var t := s[k := w];
    forall a, b | 0 <= a < b < |t| ensures t[a] < t[b] {
      if a == k {
        assert s[k + 1] <= s[b];
      } else if b == k {
        assert s[a] <= s[k - 1];
      }
    }
  }

  /** Whether the walk moves selected row `k` down: it is not the last row,
      and the previously walked selected row (the source's `last_index`,
      which is where that row ended up, `moved[k + 1]`) is not directly
      below it. */
  predicate DownMoves(xs: seq<Row>, sel: seq<nat>, k: nat, moved: seq<nat>)
    requires k < |sel| == |moved|
  {
    sel[k] + 1 < |xs| && (k + 1 == |sel| || moved[k + 1] > sel[k] + 1)
  }

  lemma DownMoveFrame(xs: seq<Row>, sel: seq<nat>, k: nat, moved: seq<nat>)
    requires k < |sel| && DownFrame(xs, sel, k + 1, moved) && DownMoves(xs, sel, k, moved)
    ensures DownFrame(xs, sel, k, moved[k := sel[k] + 1])
    ensures forall m :: k < m < |sel| ==> moved[m] > sel[k] + 1
  {
    assert k > 0 ==> moved[k - 1] == sel[k - 1] < sel[k];
    IncreasingUpdate(moved, k, sel[k] + 1);
    forall m | k < m < |sel| ensures moved[m] > sel[k] + 1 {
      assert moved[k + 1] <= moved[m];
    }
  }

  lemma DownMoveRows(xs: seq<Row>, sel: seq<nat>, k: nat, ys: seq<Row>, moved: seq<nat>)
    requires k < |sel| && DownFrame(xs, sel, k + 1, moved) && DownMoves(xs, sel, k, moved)
    requires DownRows(xs, sel, k + 1, ys, moved)
    ensures DownFrame(xs, sel, k, moved[k := sel[k] + 1])
    ensures DownRows(xs, sel, k, Swap(ys, sel[k], sel[k] + 1), moved[k := sel[k] + 1])
  {
    var v := sel[k];
    var ys', moved' := Swap(ys, v, v + 1), moved[k := v + 1];
    DownMoveFrame(xs, sel, k, moved);
    assert ys[v] == xs[v];
    forall q | 0 <= q < |xs| && q < v ensures ys'[q] == xs[q] {
      assert k + 1 == |sel| || q < sel[k + 1];
    }
    forall m | k <= m < |sel| ensures ys'[moved'[m]] == xs[sel[m]] {
      if m > k {
        assert moved'[m] == moved[m] > v + 1;
      }
    }
  }

  lemma DownMoveBlocked(xs: seq<Row>, sel: seq<nat>, k: nat, moved: seq<nat>)
    requires k < |sel| && DownFrame(xs, sel, k + 1, moved) && DownMoves(xs, sel, k, moved)
    requires DownBlocked(xs, sel, k + 1, moved)
    ensures |moved[k := sel[k] + 1]| == |sel|
    ensures DownBlocked(xs, sel, k, moved[k := sel[k] + 1])
  {
    var moved' := moved[k := sel[k] + 1];
    assert sel[k] + 1 < |xs| && (k + 1 == |sel| || moved[k + 1] > sel[k] + 1);
    forall m | k <= m < |sel|
      ensures DownStays(xs, sel, moved', m)
    {
      if m == k {
        assert k + 1 < |sel| ==> moved'[k + 1] == moved[k + 1] > sel[k] + 1;
      } else {
        assert moved'[m] == moved[m];
        assert m + 1 < |sel| ==> moved'[m + 1] == moved[m + 1];
        assert DownStays(xs, sel, moved, m);
      }
    }
    assert DownBlocked(xs, sel, k, moved');
  }

  /** A walked row that moves: it is not the last row and the walked row
      below it is not directly under it. */
  lemma DownMove(xs: seq<Row>, sel: seq<nat>, playing: Option<nat>, k: nat,
                 ys: seq<Row>, moved: seq<nat>, now: Option<nat>)
    requires k < |sel| && DownInv(xs, sel, playing, k + 1, ys, moved, now)
    requires DownMoves(xs, sel, k, moved)
    ensures DownInv(xs, sel, playing, k, Swap(ys, sel[k], sel[k] + 1),
                    moved[k := sel[k] + 1], Follow(now, sel[k], sel[k] + 1))
  {
    DownMoveRows(xs, sel, k, ys, moved);
    DownMoveBlocked(xs, sel, k, moved);
    TracksSwap(xs, ys, playing, now, sel[k], sel[k] + 1);
  }

  /** A walked row that stays: the last row, or right above a walked row
      that stayed. */
  lemma DownStay(xs: seq<Row>, sel: seq<nat>, playing: Option<nat>, k: nat,
                 ys: seq<Row>, moved: seq<nat>, now: Option<nat>)
    requires k < |sel| && DownInv(xs, sel, playing, k + 1, ys, moved, now)
    requires !DownMoves(xs, sel, k, moved)
    ensures DownInv(xs, sel, playing, k, ys, moved, now)
  {
    var v := sel[k];
    assert moved[k] == v;
    assert k + 1 < |sel| ==> sel[k + 1] > v;
    forall q | 0 <= q < |xs| && q < v ensures ys[q] == xs[q] {
      assert k + 1 == |sel| || q < sel[k + 1];
    }
    assert ys[v] == xs[v];
  }

  /** One turn of move-down's walk, at selected row `k`: swap it with the
      row below and follow the playing row, or leave everything as it is. */
  method DownStep(xs: seq<Row>, sel: seq<nat>, playing: Option<nat>, k: nat,
                  ys: seq<Row>, moved: seq<nat>, now: Option<nat>)
    returns (ys': seq<Row>, moved': seq<nat>, now': Option<nat>)
    requires k < |sel| && DownInv(xs, sel, playing, k + 1, ys, moved, now)
    ensures DownInv(xs, sel, playing, k, ys', moved', now')
    ensures multiset(ys') == multiset(ys)
  {
    var v := sel[k];
    if DownMoves(xs, sel, k, moved) {
      DownMove(xs, sel, playing, k, ys, moved, now);
      ys', now', moved' := Swap(ys, v, v + 1), Follow(now, v, v + 1), moved[k := v + 1];
    } else {
      DownStay(xs, sel, playing, k, ys, moved, now);
      ys', moved', now' := ys, moved, now;
    }
  }

  /** Move-down (J) on the sorted selection: walked from the last selected
      row to the first, a row moves one down unless it is the last row or
      the row below it is a selected row that could not move. */
  method MoveDown(xs: seq<Row>, sel: seq<nat>, playing: Option<nat>)
    returns (ys: seq<Row>, moved: seq<nat>, now: Option<nat>)
    requires Increasing(sel) && Below(sel, |xs|)
    ensures |ys| == |xs| && multiset(ys) == multiset(xs)
    ensures |moved| == |sel| && Increasing(moved) && Below(moved, |xs|)
    ensures forall j :: 0 <= j < |sel| ==> ys[moved[j]] == xs[sel[j]]
    ensures forall j :: 0 <= j < |sel| ==> moved[j] == sel[j] || moved[j] == sel[j] + 1
    ensures forall j :: 0 <= j < |sel| ==> DownStays(xs, sel, moved, j)
    ensures Tracks(xs, ys, playing, now)
  {
    ys, moved, now := xs, sel, playing;
    var k: nat := |sel|;
    while k > 0
      invariant DownInv(xs, sel, playing, k, ys, moved, now)
      invariant multiset(ys) == multiset(xs)
    {
      k := k - 1;
      ys, moved, now := DownStep(xs, sel, playing, k, ys, moved, now);
    }
    DownDone(xs, sel, playing, ys, moved, now);
  }

  /** The finished walk: every selected row was walked. */
  lemma DownDone(xs: seq<Row>, sel: seq<nat>, playing: Option<nat>,
                 ys: seq<Row>, moved: seq<nat>, now: Option<nat>)
    requires DownInv(xs, sel, playing, 0, ys, moved, now)
    ensures |moved| == |sel| && Below(moved, |xs|)
    ensures forall j :: 0 <= j < |sel| ==> ys[moved[j]] == xs[sel[j]]
    ensures forall j :: 0 <= j < |sel| ==> moved[j] == sel[j] || moved[j] == sel[j] + 1
    ensures forall j :: 0 <= j < |sel| ==> DownStays(xs, sel, moved, j)
  {
    assert DownBlocked(xs, sel, 0, moved);
  }

  /** Move-up's loop state once the selected rows before `k` were walked;
      the mirror image of `DownInv`. */
  predicate UpInv(xs: seq<Row>, sel: seq<nat>, playing: Option<nat>, k: nat,
                  ys: seq<Row>, moved: seq<nat>, now: Option<nat>)
  {
    && UpFrame(xs, sel, k, moved)
    && UpRows(xs, sel, k, ys, moved)
    && UpBlocked(xs, sel, k, moved)
    && Tracks(xs, ys, playing, now)
  }

  predicate UpFrame(xs: seq<Row>, sel: seq<nat>, k: nat, moved: seq<nat>) {
    && k <= |sel| && Increasing(sel) && Below(sel, |xs|)
    && |moved| == |sel| && Increasing(moved)
    && (forall m :: k <= m < |sel| ==> moved[m] == sel[m])
    && (forall m :: 0 <= m < k ==> (moved[m] == sel[m] || moved[m] + 1 == sel[m]) && moved[m] < |xs|)
  }

  predicate UpRows(xs: seq<Row>, sel: seq<nat>, k: nat, ys: seq<Row>, moved: seq<nat>)
    requires UpFrame(xs, sel, k, moved)
  {
    && |ys| == |xs|
    && (forall q :: 0 <= q < |xs| && (k == 0 || q > sel[k - 1]) ==> ys[q] == xs[q])
    && (forall m :: 0 <= m < k ==> ys[moved[m]] == xs[sel[m]])
  }

  predicate UpBlocked(xs: seq<Row>, sel: seq<nat>, k: nat, moved: seq<nat>)
    requires k <= |moved| == |sel|
  {
    forall m :: 0 <= m < k ==> UpStays(sel, moved, m)
  }

  /** Walked row `m` of move-up stayed exactly when it is row 0 or the
      walked row right above it stayed directly over it. */
  predicate UpStays(sel: seq<nat>, moved: seq<nat>, m: nat)
    requires m < |moved| == |sel|
  {
    moved[m] == sel[m] <==> sel[m] == 0 || (m > 0 && moved[m - 1] + 1 == sel[m])
  }

  /** Whether the walk moves selected row `k` up: it is not row 0, and the
      previously walked selected row (the source's `last_index`, which is
      where that row ended up, `moved[k - 1]`) is not directly above it. */
  predicate UpMoves(sel: seq<nat>, k: nat, moved: seq<nat>)
    requires k < |sel| == |moved|
  {
    sel[k] > 0 && (k == 0 || moved[k - 1] < sel[k] - 1)
  }

  lemma UpMoveFrame(xs: seq<Row>, sel: seq<nat>, k: nat, moved: seq<nat>)
    requires k < |sel| && UpFrame(xs, sel, k, moved) && UpMoves(sel, k, moved)
    ensures UpFrame(xs, sel, k + 1, moved[k := sel[k] - 1])
    ensures forall m :: 0 <= m < k ==> moved[m] < sel[k] - 1
  {
    assert k + 1 < |sel| ==> moved[k + 1] == sel[k + 1] > sel[k];
    IncreasingUpdate(moved, k, sel[k] - 1);
    forall m | 0 <= m < k ensures moved[m] < sel[k] - 1 {
      assert moved[m] <= moved[k - 1];
    }
  }

  lemma UpMoveRows(xs: seq<Row>, sel: seq<nat>, k: nat, ys: seq<Row>, moved: seq<nat>)
    requires k < |sel| && UpFrame(xs, sel, k, moved) && UpMoves(sel, k, moved)
    requires UpRows(xs, sel, k, ys, moved)
    ensures UpFrame(xs, sel, k + 1, moved[k := sel[k] - 1])
    ensures UpRows(xs, sel, k + 1, Swap(ys, sel[k], sel[k] - 1), moved[k := sel[k] - 1])
  {
    var v := sel[k];
    var ys', moved' := Swap(ys, v, v - 1), moved[k := v - 1];
    UpMoveFrame(xs, sel, k, moved);
    assert ys[v] == xs[v];
    forall q | 0 <= q < |xs| && q > v ensures ys'[q] == xs[q] {
    }
    forall m | 0 <= m < k + 1 ensures ys'[moved'[m]] == xs[sel[m]] {
      if m < k {
        assert moved'[m] == moved[m] < v - 1;
      }
    }
  }

  lemma UpMoveBlocked(xs: seq<Row>, sel: seq<nat>, k: nat, moved: seq<nat>)
    requires k < |sel| && UpFrame(xs, sel, k, moved) && UpMoves(sel, k, moved)
    requires UpBlocked(xs, sel, k, moved)
    ensures |moved[k := sel[k] - 1]| == |sel|
    ensures UpBlocked(xs, sel, k + 1, moved[k := sel[k] - 1])
  {
    var moved' := moved[k := sel[k] - 1];
    assert sel[k] > 0 && (k == 0 || moved[k - 1] < sel[k] - 1);
    forall m | 0 <= m < k + 1
      ensures UpStays(sel, moved', m)
    {
      if m == k {
        assert k > 0 ==> moved'[k - 1] == moved[k - 1] < sel[k] - 1;
      } else {
        assert moved'[m] == moved[m];
        assert m > 0 ==> moved'[m - 1] == moved[m - 1];
        assert UpStays(sel, moved, m);
      }
    }
    assert UpBlocked(xs, sel, k + 1, moved');
  }

  lemma UpMove(xs: seq<Row>, sel: seq<nat>, playing: Option<nat>, k: nat,
               ys: seq<Row>, moved: seq<nat>, now: Option<nat>)
    requires k < |sel| && UpInv(xs, sel, playing, k, ys, moved, now)
    requires UpMoves(sel, k, moved)
    ensures UpInv(xs, sel, playing, k + 1, Swap(ys, sel[k], sel[k] - 1),
                  moved[k := sel[k] - 1], Follow(now, sel[k], sel[k] - 1))
  {
    UpMoveRows(xs, sel, k, ys, moved);
    UpMoveBlocked(xs, sel, k, moved);
    TracksSwap(xs, ys, playing, now, sel[k], sel[k] - 1);
  }

  lemma UpStay(xs: seq<Row>, sel: seq<nat>, playing: Option<nat>, k: nat,
               ys: seq<Row>, moved: seq<nat>, now: Option<nat>)
    requires k < |sel| && UpInv(xs, sel, playing, k, ys, moved, now)
    requires !UpMoves(sel, k, moved)
    ensures UpInv(xs, sel, playing, k + 1, ys, moved, now)
  {
    var v := sel[k];
    assert moved[k] == v;
    assert k > 0 ==> sel[k - 1] < v;
    forall q | 0 <= q < |xs| && q > v ensures ys[q] == xs[q] {
      assert k == 0 || q > sel[k - 1];
    }
    assert ys[v] == xs[v];
  }

  lemma UpDone(xs: seq<Row>, sel: seq<nat>, playing: Option<nat>,
               ys: seq<Row>, moved: seq<nat>, now: Option<nat>)
    requires UpInv(xs, sel, playing, |sel|, ys, moved, now)
    ensures |moved| == |sel| && Below(moved, |xs|)
    ensures forall j :: 0 <= j < |sel| ==> ys[moved[j]] == xs[sel[j]]
    ensures forall j :: 0 <= j < |sel| ==> moved[j] == sel[j] || moved[j] + 1 == sel[j]
    ensures forall j :: 0 <= j < |sel| ==> UpStays(sel, moved, j)
  {
    assert UpBlocked(xs, sel, |sel|, moved);
  }

  /** One turn of move-up's walk, at selected row `k`. */
  method UpStep(xs: seq<Row>, sel: seq<nat>, playing: Option<nat>, k: nat,
                ys: seq<Row>, moved: seq<nat>, now: Option<nat>)
    returns (ys': seq<Row>, moved': seq<nat>, now': Option<nat>)
    requires k < |sel| && UpInv(xs, sel, playing, k, ys, moved, now)
    ensures UpInv(xs, sel, playing, k + 1, ys', moved', now')
    ensures multiset(ys') == multiset(ys)
  {
    var v := sel[k];
    if UpMoves(sel, k, moved) {
      UpMove(xs, sel, playing, k, ys, moved, now);
      ys', now', moved' := Swap(ys, v, v - 1), Follow(now, v, v - 1), moved[k := v - 1];
    } else {
      UpStay(xs, sel, playing, k, ys, moved, now);
      ys', moved', now' := ys, moved, now;
    }
  }

  /** Move-up (K), the mirror image: walked from the first selected row to
      the last, a row moves one up unless it is row 0 or the row above it is
      a selected row that could not move. */
  method MoveUp(xs: seq<Row>, sel: seq<nat>, playing: Option<nat>)
    returns (ys: seq<Row>, moved: seq<nat>, now: Option<nat>)
    requires Increasing(sel) && Below(sel, |xs|)
    ensures |ys| == |xs| && multiset(ys) == multiset(xs)
    ensures |moved| == |sel| && Increasing(moved) && Below(moved, |xs|)
    ensures forall j :: 0 <= j < |sel| ==> ys[moved[j]] == xs[sel[j]]
    ensures forall j :: 0 <= j < |sel| ==> moved[j] == sel[j] || moved[j] + 1 == sel[j]
    ensures forall j :: 0 <= j < |sel| ==> UpStays(sel, moved, j)
    ensures Tracks(xs, ys, playing, now)
  {
    ys, moved, now := xs, sel, playing;
    var k: nat := 0;
    while k < |sel|
      invariant k <= |sel|
      invariant UpInv(xs, sel, playing, k, ys, moved, now)
      invariant multiset(ys) == multiset(xs)
    {
      ys, moved, now := UpStep(xs, sel, playing, k, ys, moved, now);
      k := k + 1;
    }
    UpDone(xs, sel, playing, ys, moved, now);
  }

  // ---------------------------------------------------------------------
  // Clicks and ctrl-A
  // ---------------------------------------------------------------------

  /** The rows `lo`, `lo + 1`, ..., `hi - 1`. */
  function Range(lo: nat, hi: nat): (r: seq<nat>)
    ensures |r| == if lo <= hi then hi - lo else 0
    ensures forall k :: 0 <= k < |r| ==> r[k] == lo + k
    ensures forall j :: j in r <==> lo <= j < hi
    decreases hi - lo
  {
    if lo >= hi then [] else [lo] + Range(lo + 1, hi)
  }

  /** Shift-click on row `i`: the first selected row stays as the anchor and
      the rows from it to `i` follow it; nothing happens on an empty
      selection. */
  function ShiftClick(sel: seq<nat>, i: nat): (r: seq<nat>)
    ensures sel == [] ==> r == []
    ensures sel != [] ==> |r| >= 1 && r[0] == sel[0]
    ensures sel != [] ==> forall j :: j in r <==> (sel[0] <= j <= i || i <= j <= sel[0])
    ensures sel != [] ==> Distinct(r)
  {
    if sel == [] then sel
    else
      var first := sel[0];
      [first] + (if first <= i then Range(first + 1, i + 1) else Range(i, first))
  }

  lemma ShiftClickValid(sel: seq<nat>, i: nat, n: nat)
    requires ValidSelection(sel, n) && i < n
    ensures ValidSelection(ShiftClick(sel, i), n)
  {
    var r := ShiftClick(sel, i);
    if sel != [] {
      forall k | 0 <= k < |r| ensures r[k] < n {
        assert r[k] in r;
      }
    }
  }

  function IndexOf(sel: seq<nat>, i: nat): (k: nat)
    requires i in sel
    ensures k < |sel| && sel[k] == i && i !in sel[..k]
  {
    if sel[0] == i then 0 else IndexOf(sel[1..], i) + 1
  }

  /** Ctrl-click on row `i`: deselects it when selected, appends it
      otherwise. */
  function CtrlClick(sel: seq<nat>, i: nat): (r: seq<nat>)
    ensures Distinct(sel) ==> Distinct(r)
    ensures Distinct(sel) ==> (i in r <==> i !in sel)
    ensures forall j :: j != i ==> (j in r <==> j in sel)
  {
    if i in sel then
      var k := IndexOf(sel, i);
      var r := sel[..k] + sel[k + 1..];
      assert sel == sel[..k] + [i] + sel[k + 1..];
      assert Distinct(sel) ==> i !in sel[k + 1..];
      r
    else sel + [i]
  }

  /** Two ctrl-clicks on a row give back the same set of selected rows. */
  lemma CtrlClickTwice(sel: seq<nat>, i: nat)
    requires Distinct(sel)
    ensures forall j :: j in CtrlClick(CtrlClick(sel, i), i) <==> j in sel
  {
    var once := CtrlClick(sel, i);
    assert i in CtrlClick(once, i) <==> i in sel;
  }

  lemma CtrlClickValid(sel: seq<nat>, i: nat, n: nat)
    requires ValidSelection(sel, n) && i < n
    ensures ValidSelection(CtrlClick(sel, i), n)
  {
    var r := CtrlClick(sel, i);
    forall k | 0 <= k < |r| ensures r[k] < n {
      assert r[k] in r;
      if r[k] != i {
        assert r[k] in sel;
      }
    }
  }

  /** Ctrl-A from row `k` on: every row the search shows, in order. */
  function SelectAllFrom(songs: seq<Library.Song>, search: string, k: nat): (r: seq<nat>)
    requires k <= |songs|
    ensures Increasing(r) && Below(r, |songs|)
    ensures forall j :: j in r <==> k <= j < |songs| && (search == [] || Library.IsMatching(songs[j], search))
    decreases |songs| - k
  {
    if k == |songs| then []
    else
      var rest := SelectAllFrom(songs, search, k + 1);
      assert forall a :: 0 <= a < |rest| ==> k < rest[a] by {
        forall a | 0 <= a < |rest| ensures k < rest[a] {
          assert rest[a] in rest;
        }
      }
      (if search == [] || Library.IsMatching(songs[k], search) then [k] else []) + rest
  }

  /** Ctrl-A: the selection becomes every row the search shows. */
  function SelectAll(songs: seq<Library.Song>, search: string): (r: seq<nat>)
    ensures ValidSelection(r, |songs|)
    ensures forall j :: j in r <==> 0 <= j < |songs| && (search == [] || Library.IsMatching(songs[j], search))
  {
    SelectAllFrom(songs, search, 0)
  }
}
