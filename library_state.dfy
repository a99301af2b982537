/** The renderer's library state as a value, and every operation on it as a
    function from the state before to the state after. The `App` class of
    module `Renderer` keeps the same fields and its methods are proved to
    follow these functions; the invariants and the laws of the operations
    are proved here, on values.

    The selection is a JavaScript `Set`, whose iteration order is insertion
    order; it is modelled as a duplicate-free sequence in that order, so the
    snapshots that `Array.from(App.selectedVideos)` takes are determined.
    The results of the main process (trash, move, convert, rename, read) are
    parameters: a function from path to outcome. */
module LibraryState {
  import opened Seqs
  import opened MediaTypes
  import NameRules
  import FileOps
  import Id3Tags

  /** `App`, less the view mode and the two re-entrancy flags. */
  datatype AppState = AppState(
    videos: seq<string>,
    currentIndex: int,
    selection: seq<string>,
    thumbCache: map<string, string>,
    coverArtCache: map<string, string>)

  /** The state the window opens with. */
  const Initial: AppState := AppState([], -1, [], map[], map[])

  /** The index is -1 or names a file of the library. */
  predicate IndexOk(s: AppState) {
    s.currentIndex == -1 || 0 <= s.currentIndex < |s.videos|
  }

  /** What every operation keeps: a proper index and a set-like selection. */
  predicate Valid(s: AppState) {
    IndexOk(s) && Distinct(s.selection)
  }

  /** Every selected path is in the library. */
  predicate SelectionInLibrary(s: AppState) {
    forall p :: p in s.selection ==> p in s.videos
  }

  /** Every cache key is in the library. */
  predicate CachesInLibrary(s: AppState) {
    (forall p :: p in s.thumbCache ==> p in s.videos)
    && (forall p :: p in s.coverArtCache ==> p in s.videos)
  }

  /** Selection and caches speak only of library paths. */
  predicate Coherent(s: AppState) {
    SelectionInLibrary(s) && CachesInLibrary(s)
  }

  lemma InitialIsValid()
    ensures Valid(Initial) && Coherent(Initial)
  {
  }

  // ----- Loading -----

  /** `loadFiles`: the library becomes `files`, the selection and both caches
      are emptied, and the first file is shown when there is one (through
      `loadVideo(0)`); an empty list leaves the index as it was. */
  function LoadFiles(s: AppState, files: seq<string>): AppState {
    AppState(files, if |files| > 0 then 0 else s.currentIndex, [], map[], map[])
  }

  /** Loading a non-empty list gives a valid, coherent state showing its
      first file, whatever came before. */
  lemma LoadFilesValid(s: AppState, files: seq<string>)
    requires files != []
    ensures var r := LoadFiles(s, files);
      Valid(r) && Coherent(r) && r.videos == files && r.videos[r.currentIndex] == files[0]
      && r.currentIndex == 0 && r.selection == [] && r.thumbCache == map[] && r.coverArtCache == map[]
  {
  }

  /** Loading an empty list (an empty folder, a folder dropped without media)
      after a non-empty one keeps the old index, which then names no file. */
  lemma LoadEmptyKeepsStaleIndex(s: AppState)
    requires s.currentIndex >= 0
    ensures var r := LoadFiles(s, []);
      r.videos == [] && r.currentIndex == s.currentIndex && !IndexOk(r)
  {
  }

  /** `loadVideo(idx)`, its index part: out-of-range requests are ignored. */
  function LoadVideo(s: AppState, idx: int): AppState {
    if idx < 0 || idx >= |s.videos| then s else s.(currentIndex := idx)
  }

  /** Showing a file changes only the index, and only to a file of the library;
      the previous/next buttons stop at either end. */
  lemma LoadVideoLaws(s: AppState, idx: int)
    ensures var r := LoadVideo(s, idx);
      r.videos == s.videos && r.selection == s.selection
      && r.thumbCache == s.thumbCache && r.coverArtCache == s.coverArtCache
      && (0 <= idx < |s.videos| <==> r.currentIndex == idx && 0 <= r.currentIndex < |r.videos|)
      && (!(0 <= idx < |s.videos|) ==> r == s)
      && (Valid(s) ==> Valid(r)) && (Coherent(s) ==> Coherent(r))
  {
  }

  // ----- Selection -----

  /** `toggleSelection(p)` on the selection: `p` leaves if present, else joins
      at the end. Library membership is not checked. */
  function Toggle(sel: seq<string>, p: string): (r: seq<string>)
    ensures p in sel <==> p !in r
    ensures forall q :: q != p ==> (q in r <==> q in sel)
    ensures Distinct(sel) ==> Distinct(r)
  {
    if p in sel then Without(sel, p) else sel + [p]
  }

  /** Toggling twice gives back the same selected paths; if `p` was not
      selected, the very same sequence. */
  lemma ToggleTwice(sel: seq<string>, p: string)
    requires Distinct(sel)
    ensures forall q :: q in Toggle(Toggle(sel, p), p) <==> q in sel
    ensures p !in sel ==> Toggle(Toggle(sel, p), p) == sel
  {
    if p !in sel {
      WithoutOfSnoc(sel, p);
    }
  }

  /** Removing the element just appended to a sequence that lacked it gives
      the sequence back. */
  lemma WithoutOfSnoc(s: seq<string>, x: string)
    requires x !in s
    ensures Without(s + [x], x) == s
  {
    assert (s + [x])[..|s|] == s;
  }

  /** `toggleSelection` on the state. */
  function ToggleSelection(s: AppState, p: string): AppState {
    s.(selection := Toggle(s.selection, p))
  }

  /** Toggling keeps the state valid, and toggling a library path keeps it
      coherent. */
  lemma ToggleSelectionKeeps(s: AppState, p: string)
    requires Valid(s)
    ensures Valid(ToggleSelection(s, p))
    ensures Coherent(s) && p in s.videos ==> Coherent(ToggleSelection(s, p))
  {
  }

  /** Toggling a path outside the library puts it in the selection: the
      rule that every selected path is in the library is not enforced. */
  lemma ToggleForeignPath(s: AppState, p: string)
    requires p !in s.videos && p !in s.selection
    ensures !SelectionInLibrary(ToggleSelection(s, p))
  {
  }

  /** `selectAll`: the selection cleared, then every library path added in
      order; a repeated path is added once. */
  function SelectAllOf(videos: seq<string>): (r: seq<string>)
    ensures Distinct(r)
    ensures forall p :: p in r <==> p in videos
    ensures |r| <= |videos|
  {
    if videos == [] then []
    else
      var init := videos[..|videos| - 1];
      assert videos == init + [videos[|videos| - 1]];
      Add(SelectAllOf(init), videos[|videos| - 1])
  }

  /** On a library without repeats, `selectAll` selects every file in order. */
  lemma {:induction false} SelectAllOfDistinct(videos: seq<string>)
    requires Distinct(videos)
    ensures SelectAllOf(videos) == videos
  {
    if videos != [] {
      var init := videos[..|videos| - 1];
      assert Distinct(init);
      SelectAllOfDistinct(init);
      assert videos[|videos| - 1] !in init;
      assert videos == init + [videos[|videos| - 1]];
    }
  }

  /** `selectAll` on the state. */
  function SelectAll(s: AppState): AppState {
    s.(selection := SelectAllOf(s.videos))
  }

  /** `selectNone` on the state. */
  function SelectNone(s: AppState): AppState {
    s.(selection := [])
  }

  /** `selectAll` selects exactly the library and `selectNone` nothing; both
      keep the state valid and coherent. */
  lemma SelectAllNone(s: AppState)
    ensures forall p :: p in SelectAll(s).selection <==> p in s.videos
    ensures SelectNone(s).selection == []
    ensures Valid(s) ==> Valid(SelectAll(s)) && Valid(SelectNone(s))
    ensures Coherent(s) ==> Coherent(SelectAll(s)) && Coherent(SelectNone(s))
  {
  }

  /** `clearAll`: library and selection emptied, index -1; the caches are
      kept. */
  function ClearAll(s: AppState): AppState {
    s.(videos := [], selection := [], currentIndex := -1)
  }

  // ----- Delete and move -----

  /** An element of the batch snapshot: a path, or `undefined` when the
      index names no file. */
  datatype Target = Item(path: string) | Undefined

  /** The selection's paths as snapshot elements, in order. */
  function Items(sel: seq<string>): (r: seq<Target>)
    ensures |r| == |sel| && forall i :: 0 <= i < |sel| ==> r[i] == Item(sel[i])
  {
    seq(|sel|, i requires 0 <= i < |sel| => Item(sel[i]))
  }

  /** What a delete or move acts on: the selection if any, else the file
      shown, else nothing. */
  function Snapshot(s: AppState): seq<Target> {
    if |s.selection| > 0 then Items(s.selection)
    else if s.currentIndex >= 0 then
      [if s.currentIndex < |s.videos| then Item(s.videos[s.currentIndex]) else Undefined]
    else []
  }

  /** On a valid, coherent state the snapshot is empty exactly when nothing is
      selected or shown, and it names library files only. */
  lemma SnapshotOfValid(s: AppState)
    requires Valid(s) && Coherent(s)
    ensures Snapshot(s) == [] <==> s.selection == [] && s.currentIndex == -1
    ensures forall t :: t in Snapshot(s) ==> t.Item? && t.path in s.videos
  {
  }

  /** Whether the main process reports success for a snapshot element:
      `trashFile(undefined)` and `moveFile(undefined, …)` always fail. */
  predicate Succeeds(t: Target, ok: string -> bool) {
    t.Item? && ok(t.path)
  }

  /** `-1 <= currentIndex <= |videos|`, what holds in the middle of a batch. */
  predicate IndexNear(s: AppState) {
    -1 <= s.currentIndex <= |s.videos|
  }

  /** The success branch for one path: its first occurrence spliced out of
      the library, the index moved down when an earlier file went, the path
      dropped from the selection and from both caches. */
  function RemovePath(s: AppState, p: string): (r: AppState)
    ensures p in s.videos ==> multiset(r.videos) == multiset(s.videos) - multiset{p}
    ensures p !in s.videos ==> r.videos == s.videos && r.currentIndex == s.currentIndex
    ensures forall q :: q in r.selection <==> q in s.selection && q != p
    ensures r.thumbCache.Keys == s.thumbCache.Keys - {p}
    ensures r.coverArtCache.Keys == s.coverArtCache.Keys - {p}
    ensures forall q :: q in r.thumbCache ==> r.thumbCache[q] == s.thumbCache[q]
    ensures forall q :: q in r.coverArtCache ==> r.coverArtCache[q] == s.coverArtCache[q]
    ensures Distinct(s.selection) ==> Distinct(r.selection)
    ensures IndexNear(s) ==> IndexNear(r)
  {
    var idx := IndexOf(s.videos, p);
    if idx >= 0 then
      assert s.videos == s.videos[..idx] + [p] + s.videos[idx + 1..];
      assert RemoveAt(s.videos, idx) == s.videos[..idx] + s.videos[idx + 1..];
      AppState(RemoveAt(s.videos, idx),
        if idx < s.currentIndex then s.currentIndex - 1 else s.currentIndex,
        Without(s.selection, p), s.thumbCache - {p}, s.coverArtCache - {p})
    else
      AppState(s.videos, s.currentIndex,
        Without(s.selection, p), s.thumbCache - {p}, s.coverArtCache - {p})
  }

  /** Removing a library path splices out its first occurrence and keeps the
      rest in order; the index moves down by one exactly when that occurrence
      came strictly before it. */
  lemma RemovePathSplices(s: AppState, p: string)
    requires p in s.videos
    ensures var i := IndexOf(s.videos, p);
      var r := RemovePath(s, p);
      0 <= i < |s.videos| && s.videos[i] == p && p !in s.videos[..i]
      && r.videos == s.videos[..i] + s.videos[i + 1..]
      && r.currentIndex == (if i < s.currentIndex then s.currentIndex - 1 else s.currentIndex)
  {
  }

  /** Removing a file other than the one shown keeps the same file shown:
      the index moves down exactly when the removed file came before it. */
  lemma RemoveKeepsCurrentFile(s: AppState, p: string)
    requires 0 <= s.currentIndex < |s.videos|
    requires IndexOf(s.videos, p) != s.currentIndex
    ensures var r := RemovePath(s, p);
      0 <= r.currentIndex < |r.videos| && r.videos[r.currentIndex] == s.videos[s.currentIndex]
  {
    var idx := IndexOf(s.videos, p);
    if idx >= 0 {
      var r := RemovePath(s, p);
      assert r.videos == RemoveAt(s.videos, idx);
      if idx < s.currentIndex {
        assert r.videos[s.currentIndex - 1] == s.videos[s.currentIndex];
      } else {
        assert r.videos[s.currentIndex] == s.videos[s.currentIndex];
      }
    }
  }

  /** Removing the file shown moves the index to the file after it (or one
      past the end, which the final clamp brings back). */
  lemma RemoveCurrentFile(s: AppState)
    requires 0 <= s.currentIndex < |s.videos|
    requires IndexOf(s.videos, s.videos[s.currentIndex]) == s.currentIndex
    ensures var r := RemovePath(s, s.videos[s.currentIndex]);
      r.currentIndex == s.currentIndex
      && (s.currentIndex + 1 < |s.videos| ==> r.videos[r.currentIndex] == s.videos[s.currentIndex + 1])
  {
  }

  /** One iteration of the batch loop. */
  function RemoveStep(s: AppState, t: Target, ok: string -> bool): AppState {
    if Succeeds(t, ok) then RemovePath(s, t.path) else s
  }

  /** The batch loop over `items`, in order. */
  function RemoveAll(s: AppState, items: seq<Target>, ok: string -> bool): AppState {
    if items == [] then s
    else RemoveStep(RemoveAll(s, items[..|items| - 1], ok), items[|items| - 1], ok)
  }

  /** The number of elements the main process reports done. */
  function SuccessCount(items: seq<Target>, ok: string -> bool): (n: nat)
    ensures n <= |items|
  {
    if items == [] then 0
    else SuccessCount(items[..|items| - 1], ok) + (if Succeeds(items[|items| - 1], ok) then 1 else 0)
  }

  /** When nothing succeeds, the batch changes nothing. */
  lemma {:induction false} NoSuccessNoChange(s: AppState, items: seq<Target>, ok: string -> bool)
    requires forall i :: 0 <= i < |items| ==> !Succeeds(items[i], ok)
    ensures RemoveAll(s, items, ok) == s
    ensures SuccessCount(items, ok) == 0
  {
    if items != [] {
      NoSuccessNoChange(s, items[..|items| - 1], ok);
    }
  }

  /** The batch keeps the mid-batch index bound, a set-like selection, and
      coherence. */
  lemma {:induction false} RemoveAllKeeps(s: AppState, items: seq<Target>, ok: string -> bool)
    ensures IndexNear(s) ==> IndexNear(RemoveAll(s, items, ok))
    ensures Distinct(s.selection) ==> Distinct(RemoveAll(s, items, ok).selection)
    ensures Coherent(s) ==> Coherent(RemoveAll(s, items, ok))
  {
    if items != [] {
      var mid := RemoveAll(s, items[..|items| - 1], ok);
      RemoveAllKeeps(s, items[..|items| - 1], ok);
      RemoveStepCoherent(mid, items[|items| - 1], ok);
    }
  }

  /** One step keeps coherence. */
  lemma RemoveStepCoherent(s: AppState, t: Target, ok: string -> bool)
    ensures Coherent(s) ==> Coherent(RemoveStep(s, t, ok))
  {
    if Coherent(s) && Succeeds(t, ok) {
      var r := RemovePath(s, t.path);
      forall q | q in s.videos && q != t.path ensures q in r.videos {
        if t.path in s.videos {
          assert q in multiset(s.videos) - multiset{t.path};
        }
      }
    }
  }

  /** A path the main process removed is gone from the selection and from
      both caches at the end of the batch, and from the library too when the
      library held it once. */
  lemma {:induction false} RemoveAllDropsSucceeded(s: AppState, items: seq<Target>, ok: string -> bool,
                                                   i: nat)
    requires i < |items| && Succeeds(items[i], ok)
    ensures var r := RemoveAll(s, items, ok);
      items[i].path !in r.selection && items[i].path !in r.thumbCache
      && items[i].path !in r.coverArtCache
      && (multiset(s.videos)[items[i].path] <= 1 ==> items[i].path !in r.videos)
  {
    var p := items[i].path;
    var init := items[..|items| - 1];
    var mid := RemoveAll(s, init, ok);
    RemoveAllShrinks(s, init, ok);
    if i < |items| - 1 {
      assert init[i] == items[i];
      RemoveAllDropsSucceeded(s, init, ok, i);
    } else if p in mid.videos {
      assert multiset(RemovePath(mid, p).videos) == multiset(mid.videos) - multiset{p};
    }
  }

  /** The batch only ever removes: each path occurs in the library no more
      often than before. */
  lemma {:induction false} RemoveAllShrinks(s: AppState, items: seq<Target>, ok: string -> bool)
    ensures multiset(RemoveAll(s, items, ok).videos) <= multiset(s.videos)
  {
    if items != [] {
      RemoveAllShrinks(s, items[..|items| - 1], ok);
    }
  }

  /** A library file that no successful element names stays in the library. */
  lemma {:induction false} RemoveAllKeepsOthers(s: AppState, items: seq<Target>, ok: string -> bool,
                                                q: string)
    requires q in s.videos
    requires forall i :: 0 <= i < |items| ==> !(Succeeds(items[i], ok) && items[i].path == q)
    ensures q in RemoveAll(s, items, ok).videos
  {
    if items != [] {
      var init := items[..|items| - 1];
      RemoveAllKeepsOthers(s, init, ok, q);
      var mid := RemoveAll(s, init, ok);
      var t := items[|items| - 1];
      if Succeeds(t, ok) && t.path in mid.videos {
        assert q in multiset(mid.videos) - multiset{t.path};
      }
    }
  }

  /** After the loop: a non-empty library gets its index clamped into range
      and the file there shown; an empty one is cleared. */
  function Settle(s: AppState): (r: AppState)
    ensures |s.videos| > 0 ==> (0 <= r.currentIndex < |r.videos| && r.videos == s.videos
      && r.selection == s.selection && r.thumbCache == s.thumbCache && r.coverArtCache == s.coverArtCache)
    ensures |s.videos| > 0 && 0 <= s.currentIndex < |s.videos| ==> r == s
    ensures |s.videos| > 0 && s.currentIndex >= |s.videos| ==> r.currentIndex == |s.videos| - 1
    ensures |s.videos| > 0 && s.currentIndex < 0 ==> r.currentIndex == 0
    ensures |s.videos| == 0 ==> r == ClearAll(s)
  {
    if |s.videos| > 0 then
      var c := if s.currentIndex >= |s.videos| then |s.videos| - 1 else s.currentIndex;
      s.(currentIndex := if c < 0 then 0 else c)
    else ClearAll(s)
  }

  /** The result of a delete or move: the new state and the two counts. */
  datatype BatchOutcome = BatchOutcome(state: AppState, successes: nat, failures: nat)

  /** The loop and the settling, on a non-empty snapshot. */
  function RemoveBatch(s: AppState, items: seq<Target>, ok: string -> bool): BatchOutcome
  {
    BatchOutcome(Settle(RemoveAll(s, items, ok)), SuccessCount(items, ok),
      |items| - SuccessCount(items, ok))
  }

  /** `deleteVideo`, the confirmation taken as given; `ok(p)` is whether
      `trashFile(p)` succeeds. */
  function Delete(s: AppState, ok: string -> bool): BatchOutcome {
    if Snapshot(s) == [] then BatchOutcome(s, 0, 0) else RemoveBatch(s, Snapshot(s), ok)
  }

  /** `moveVideo`: `dest` is the folder chosen (`None` when the dialog is
      cancelled) and `ok(p)` whether `moveFile(p, dest)` succeeds. */
  function Move(s: AppState, dest: Option<string>, ok: string -> bool): BatchOutcome {
    if Snapshot(s) == [] || dest.None? || dest.value == "" then BatchOutcome(s, 0, 0)
    else RemoveBatch(s, Snapshot(s), ok)
  }

  /** A batch leaves a valid state, coherent if it was, whose counts add up
      to the snapshot length; a failed element changes nothing. */
  lemma RemoveBatchLaws(s: AppState, items: seq<Target>, ok: string -> bool)
    requires Valid(s)
    ensures var o := RemoveBatch(s, items, ok);
      Valid(o.state) && (Coherent(s) ==> Coherent(o.state))
      && o.successes + o.failures == |items|
      && ((forall i :: 0 <= i < |items| ==> !Succeeds(items[i], ok)) ==> o.state == Settle(s))
  {
    RemoveAllKeeps(s, items, ok);
    var r := RemoveAll(s, items, ok);
    if Coherent(r) && |r.videos| == 0 {
      assert Coherent(ClearAll(r));
    }
    if forall i :: 0 <= i < |items| ==> !Succeeds(items[i], ok) {
      NoSuccessNoChange(s, items, ok);
    }
  }

  /** Delete and move keep the state valid, and coherent if it was. */
  lemma DeleteMoveKeep(s: AppState, dest: Option<string>, ok: string -> bool)
    requires Valid(s)
    ensures Valid(Delete(s, ok).state) && Valid(Move(s, dest, ok).state)
    ensures Coherent(s) ==> Coherent(Delete(s, ok).state) && Coherent(Move(s, dest, ok).state)
  {
    RemoveBatchLaws(s, Snapshot(s), ok);
  }

  /** Deleting with an empty library after an empty load (the stale index)
      tries one `undefined` path, reports it failed, and clears the state. */
  lemma DeleteAfterStaleIndex(s: AppState, ok: string -> bool)
    requires s.videos == [] && s.selection == [] && s.currentIndex >= 0
    ensures Delete(s, ok) == BatchOutcome(ClearAll(s), 0, 1)
  {
    assert Snapshot(s) == [Undefined];
    assert [Undefined][..0] == [];
    assert RemoveAll(s, [Undefined], ok) == s;
    assert SuccessCount([Undefined], ok) == 0;
  }

  // ----- Replace in place: convert and rename -----

  /** The success branch of the convert and rename loops: the old path's slot
      overwritten in place, and in the selection the old path deleted and the
      new one added. The caches are not touched. */
  function ReplacePath(s: AppState, from: string, to: string): (r: AppState)
    ensures |r.videos| == |s.videos| && r.currentIndex == s.currentIndex
    ensures r.thumbCache == s.thumbCache && r.coverArtCache == s.coverArtCache
    ensures forall j :: 0 <= j < |s.videos| && s.videos[j] != from ==> r.videos[j] == s.videos[j]
    ensures forall j :: 0 <= j < |s.videos| && j != IndexOf(s.videos, from) ==> r.videos[j] == s.videos[j]
    ensures from in s.videos ==> r.videos[IndexOf(s.videos, from)] == to
    ensures from !in s.videos ==> r.videos == s.videos
    ensures forall q :: q in r.selection <==> q == to || (q in s.selection && q != from)
    ensures Distinct(s.selection) ==> Distinct(r.selection)
  {
    var idx := IndexOf(s.videos, from);
    s.(videos := if idx >= 0 then s.videos[idx := to] else s.videos,
       selection := Add(Without(s.selection, from), to))
  }

  /** One iteration of a replace loop: `reply(p)` is the new path when the
      main process succeeds. */
  function ReplaceStep(s: AppState, p: string, reply: string -> Option<string>): AppState {
    match reply(p)
    case None => s
    case Some(q) => ReplacePath(s, p, q)
  }

  /** A replace loop over `items`, in order. */
  function ReplaceAll(s: AppState, items: seq<string>, reply: string -> Option<string>): AppState {
    if items == [] then s
    else ReplaceStep(ReplaceAll(s, items[..|items| - 1], reply), items[|items| - 1], reply)
  }

  /** A replace loop keeps the library's length, the index and both caches,
      keeps the state valid, leaves every slot whose path was not an item as
      it was, and changes nothing when every call fails. */
  lemma {:induction false} ReplaceAllLaws(s: AppState, items: seq<string>, reply: string -> Option<string>)
    ensures var r := ReplaceAll(s, items, reply);
      |r.videos| == |s.videos| && r.currentIndex == s.currentIndex
      && r.thumbCache == s.thumbCache && r.coverArtCache == s.coverArtCache
      && (Valid(s) ==> Valid(r))
      && (forall j :: 0 <= j < |s.videos| && s.videos[j] !in items ==> r.videos[j] == s.videos[j])
      && ((forall i :: 0 <= i < |items| ==> reply(items[i]).None?) ==> r == s)
  {
    if items != [] {
      var init := items[..|items| - 1];
      ReplaceAllLaws(s, init, reply);
      var mid := ReplaceAll(s, init, reply);
      var p := items[|items| - 1];
      forall j | 0 <= j < |s.videos| && s.videos[j] !in items
        ensures ReplaceAll(s, items, reply).videos[j] == s.videos[j]
      {
        assert s.videos[j] !in init;
        assert mid.videos[j] == s.videos[j];
      }
      if forall i :: 0 <= i < |items| ==> reply(items[i]).None? {
        assert forall i :: 0 <= i < |init| ==> init[i] == items[i];
        assert reply(items[|items| - 1]).None?;
      }
    }
  }

  /** The replace branch leaves the old path's cache entries behind: once a
      cached path that the library held once is replaced by a different one,
      the caches name a path outside the library. */
  lemma ReplaceLeavesStaleCache(s: AppState, from: string, to: string)
    requires from in s.thumbCache && from != to
    requires multiset(s.videos)[from] == 1
    ensures var r := ReplacePath(s, from, to);
      from !in r.videos && from in r.thumbCache && !CachesInLibrary(r)
  {
    var idx := IndexOf(s.videos, from);
    var r := ReplacePath(s, from, to);
    assert r.videos == s.videos[idx := to];
    forall j | 0 <= j < |r.videos| ensures r.videos[j] != from {
      if j != idx && s.videos[j] == from {
        MultisetTwice(s.videos, idx, j);
      }
    }
  }

  /** Two positions holding the same element make it occur twice. */
  lemma MultisetTwice(s: seq<string>, i: nat, j: nat)
    requires i < |s| && j < |s| && i != j && s[i] == s[j]
    ensures multiset(s)[s[i]] >= 2
  {
    var lo, hi := if i < j then i else j, if i < j then j else i;
    assert s == s[..lo] + [s[lo]] + s[lo + 1..hi] + [s[hi]] + s[hi + 1..];
  }

  /** The reply function of the convert loop: `ok(p)` is whether ffmpeg
      succeeds on `p`, and the new path is the main process's output path. */
  function ConvertReplies(ok: string -> bool): string -> Option<string> {
    p => if ok(p) then Some(FileOps.ConvertOutputPath(p)) else None
  }

  /** `convertSelectedToMp3` with the status line at renderer-main.js:615
      left out: every selected `.wav` path (ignoring case), in selection
      order, replaced by its `.mp3` when the conversion succeeds. */
  function ConvertSelected(s: AppState, ok: string -> bool): AppState {
    if |s.selection| == 0 then s
    else
      var wavFiles := Filter(s.selection, IsWav);
      if |wavFiles| == 0 then s else ReplaceAll(s, wavFiles, ConvertReplies(ok))
  }

  /** Batch conversion touches only the slots of selected `.wav` files, and
      each of those that succeeds now holds an `.mp3` path. */
  lemma ConvertSelectedLaws(s: AppState, ok: string -> bool)
    ensures var r := ConvertSelected(s, ok);
      |r.videos| == |s.videos| && r.currentIndex == s.currentIndex
      && r.thumbCache == s.thumbCache && r.coverArtCache == s.coverArtCache
      && (Valid(s) ==> Valid(r))
      && (forall j :: 0 <= j < |s.videos| && !(s.videos[j] in s.selection && IsWav(s.videos[j]))
            ==> r.videos[j] == s.videos[j])
  {
    ReplaceAllLaws(s, Filter(s.selection, IsWav), ConvertReplies(ok));
  }

  /** A single selected `.wav` file that converts is replaced by its `.mp3`
      in the library and in the selection. */
  lemma ConvertOneSelected(s: AppState, p: string, ok: string -> bool)
    requires s.selection == [p] && IsWav(p) && ok(p) && p in s.videos
    ensures var r := ConvertSelected(s, ok);
      var q := FileOps.ConvertOutputPath(p);
      r.videos == s.videos[IndexOf(s.videos, p) := q] && r.selection == [q] && p !in r.selection
  {
    FileOps.ConvertOutputIsMp3(p);
    assert Filter([p], IsWav) == [p] by {
      FilterSnoc([], p, IsWav);
    }
    var q := FileOps.ConvertOutputPath(p);
    assert ReplaceAll(s, [p], ConvertReplies(ok)) == ReplacePath(s, p, q) by {
      assert [p][..0] == [];
    }
    assert Without([p], p) == [];
  }

  /** How `convertSelectedToMp3` ends as the source stands. */
  datatype Run = Completed(state: AppState) | Threw(state: AppState)

  /** `convertSelectedToMp3` as written: with no selection or no `.wav` in it
      the call returns after its alert, and otherwise the first iteration
      evaluates `path.basename`, where `path` is not defined in the renderer,
      and throws before the first conversion starts. */
  function ConvertSelectedAsWritten(s: AppState, ok: string -> bool): (r: Run)
    ensures r.state == s
    ensures r.Threw? <==> exists p :: p in s.selection && IsWav(p)
  {
    if |s.selection| == 0 then Completed(s)
    else if |Filter(s.selection, IsWav)| == 0 then Completed(s)
    else
      assert Filter(s.selection, IsWav)[0] in Filter(s.selection, IsWav);
      Threw(s)
  }

  /** As written, selecting one `.wav` file and converting it leaves the
      library as it was even when ffmpeg would succeed; the corrected loop
      replaces the file. */
  lemma ConvertSelectedThrows(s: AppState, p: string, ok: string -> bool)
    requires s.selection == [p] && IsWav(p) && ok(p) && p in s.videos
    ensures ConvertSelectedAsWritten(s, ok) == Threw(s)
    ensures ConvertSelected(s, ok).videos != s.videos
  {
    ConvertOneSelected(s, p, ok);
    FileOps.ConvertOutputIsMp3(p);
    var idx := IndexOf(s.videos, p);
    assert ConvertSelected(s, ok).videos[idx] != s.videos[idx];
  }

  /** The reply function of the rename loop: the new path of a successful
      `aiRenameFile`. */
  function RenameReplies(rename: string -> FileOps.RenameReply): string -> Option<string> {
    p => if rename(p).Renamed? then Some(rename(p).newPath) else None
  }

  /** `aiBatchRename`, its confirmations taken as given: nothing without a
      selection or a running Ollama; otherwise every selected duplicate
      candidate, in selection order, replaced by the path its rename gives. */
  function AiBatchRename(s: AppState, ollamaRunning: bool, rename: string -> FileOps.RenameReply): AppState {
    if |s.selection| == 0 || !ollamaRunning then s
    else
      var duplicates := NameRules.DuplicateCandidates(s.selection);
      if |duplicates| == 0 then s else ReplaceAll(s, duplicates, RenameReplies(rename))
  }

  /** Batch rename touches only the slots of selected duplicate candidates. */
  lemma AiBatchRenameLaws(s: AppState, ollamaRunning: bool, rename: string -> FileOps.RenameReply)
    ensures var r := AiBatchRename(s, ollamaRunning, rename);
      |r.videos| == |s.videos| && r.currentIndex == s.currentIndex
      && r.thumbCache == s.thumbCache && r.coverArtCache == s.coverArtCache
      && (Valid(s) ==> Valid(r))
      && (forall j :: 0 <= j < |s.videos|
            && !(s.videos[j] in s.selection && NameRules.IsDuplicateCandidate(s.videos[j]))
            ==> r.videos[j] == s.videos[j])
      && (!ollamaRunning ==> r == s)
  {
    ReplaceAllLaws(s, NameRules.DuplicateCandidates(s.selection), RenameReplies(rename));
  }

  /** `convertWavToMp3` for the file shown: when it is a `.wav` and the
      conversion succeeds, its slot gets the `.mp3` path; the selection is
      left alone. A stale index (no file there) makes the handler throw. */
  function ConvertCurrent(s: AppState, ok: string -> bool): AppState {
    if s.currentIndex < 0 || s.currentIndex >= |s.videos| then s
    else
      var p := s.videos[s.currentIndex];
      if !IsWav(p) || !ok(p) then s
      else s.(videos := s.videos[s.currentIndex := FileOps.ConvertOutputPath(p)])
  }

  /** Converting the file shown keeps the library's length, the index and the
      selection; if that file was selected and not repeated, the selection
      then names a path outside the library. */
  lemma ConvertCurrentLaws(s: AppState, ok: string -> bool)
    ensures var r := ConvertCurrent(s, ok);
      |r.videos| == |s.videos| && r.currentIndex == s.currentIndex && r.selection == s.selection
      && r.thumbCache == s.thumbCache && r.coverArtCache == s.coverArtCache
      && (Valid(s) ==> Valid(r))
      && (forall j :: 0 <= j < |s.videos| && j != s.currentIndex ==> r.videos[j] == s.videos[j])
      && (0 <= s.currentIndex < |s.videos| ==>
            var p := s.videos[s.currentIndex];
            r.videos[s.currentIndex] == (if IsWav(p) && ok(p) then FileOps.ConvertOutputPath(p) else p))
      && ((!(0 <= s.currentIndex < |s.videos|) || !IsWav(s.videos[s.currentIndex])
            || !ok(s.videos[s.currentIndex])) ==> r == s)
  {
  }

  /** The selection is not updated by a single conversion. */
  lemma ConvertCurrentLeavesSelection(s: AppState, ok: string -> bool)
    requires 0 <= s.currentIndex < |s.videos|
    requires var p := s.videos[s.currentIndex];
      IsWav(p) && ok(p) && p in s.selection && multiset(s.videos)[p] == 1
    ensures !SelectionInLibrary(ConvertCurrent(s, ok))
  {
    var p := s.videos[s.currentIndex];
    var r := ConvertCurrent(s, ok);
    FileOps.ConvertOutputIsMp3(p);
    forall j | 0 <= j < |r.videos| ensures r.videos[j] != p {
      if j != s.currentIndex && s.videos[j] == p {
        MultisetTwice(s.videos, s.currentIndex, j);
      }
    }
  }

  // ----- Caches -----

  /** `m[p]` is truthy: present and not the empty string. */
  predicate Cached(m: map<string, string>, p: string) {
    p in m && m[p] != ""
  }

  /** The cover of a read reply, when it is truthy. */
  function CoverOfReply(read: Id3Tags.ReadReply): Option<string> {
    if read.Read? && read.meta.coverArt.Some? && read.meta.coverArt.value != "" then read.meta.coverArt
    else None
  }

  /** The answer of `generateThumbnail` and the state after it. */
  datatype Thumb = Thumb(src: string, state: AppState)

  /** `generateThumbnail(p)`: the thumbnail cache first, then the cover-art
      cache (copied into the thumbnail cache), then, for an `.mp3`, the cover
      read from the file (stored in both), and last the picture the main
      process renders (stored in the thumbnail cache). `read` is what
      `readMetadata(p)` gives and `rendered` what `getThumbnail(p)` gives. */
  function GenerateThumbnail(s: AppState, p: string, read: Id3Tags.ReadReply, rendered: string): Thumb {
    if Cached(s.thumbCache, p) then Thumb(s.thumbCache[p], s)
    else if Cached(s.coverArtCache, p) then
      Thumb(s.coverArtCache[p], s.(thumbCache := s.thumbCache[p := s.coverArtCache[p]]))
    else if IsMp3(p) && CoverOfReply(read).Some? then
      var c := CoverOfReply(read).value;
      Thumb(c, s.(thumbCache := s.thumbCache[p := c], coverArtCache := s.coverArtCache[p := c]))
    else Thumb(rendered, s.(thumbCache := s.thumbCache[p := rendered]))
  }

  /** The answer is cached for `p` afterwards; nothing but `p`'s cache
      entries changes; a cached cover wins over reading the file; and a
      second call with a non-empty answer returns the same answer from the
      cache, whatever the main process would now say. */
  lemma GenerateThumbnailLaws(s: AppState, p: string, read: Id3Tags.ReadReply, rendered: string,
                              read2: Id3Tags.ReadReply, rendered2: string)
    ensures var t := GenerateThumbnail(s, p, read, rendered);
      p in t.state.thumbCache && t.state.thumbCache[p] == t.src
      && t.state.videos == s.videos && t.state.selection == s.selection
      && t.state.currentIndex == s.currentIndex
      && (forall q :: q != p ==> (q in t.state.thumbCache <==> q in s.thumbCache))
      && (forall q :: q != p && q in s.thumbCache ==> t.state.thumbCache[q] == s.thumbCache[q])
      && (forall q :: q != p ==> (q in t.state.coverArtCache <==> q in s.coverArtCache))
      && (!Cached(s.thumbCache, p) && Cached(s.coverArtCache, p) ==> t.src == s.coverArtCache[p])
      && (t.src != "" ==> GenerateThumbnail(t.state, p, read2, rendered2) == t)
      && (p in s.videos && CachesInLibrary(s) ==> CachesInLibrary(t.state))
  {
  }

  /** The cover-art cache write of `loadMetadataFields` and `saveMetadata`:
      `p`'s entry becomes the cover the file reads back with, if it has one. */
  function CacheCover(s: AppState, p: string, read: Id3Tags.ReadReply): AppState {
    match CoverOfReply(read)
    case Some(c) => s.(coverArtCache := s.coverArtCache[p := c])
    case None => s
  }

  /** `saveMetadata`, its state part: after a successful write of the file
      shown, its cover is cached from the re-read. `writeOk` is whether
      `writeMetadata` succeeds and `reread` what the `readMetadata` after it
      gives. */
  function SaveMetadata(s: AppState, writeOk: bool, reread: Id3Tags.ReadReply): AppState {
    if s.currentIndex < 0 || s.currentIndex >= |s.videos| || !writeOk then s
    else CacheCover(s, s.videos[s.currentIndex], reread)
  }

  /** Saving a new cover and reading the file back puts the new cover's data
      URL in the cover-art cache of the file shown. */
  lemma SaveCachesNewCover(s: AppState, existing: Id3Tags.TagRead, e: Id3Tags.Edits,
                           sub: string, payload: string)
    requires 0 <= s.currentIndex < |s.videos|
    requires !existing.ReadThrows?
    requires Id3Tags.IsSubtype(sub) && Id3Tags.IsPayload(payload)
    requires e.coverArt == Some(Id3Tags.DataUrl("image/" + sub, payload))
    ensures var reread := Id3Tags.ReadMetadata(Id3Tags.Tagged(Id3Tags.TagsToWrite(existing, e).tags));
      var r := SaveMetadata(s, true, reread);
      s.videos[s.currentIndex] in r.coverArtCache
      && r.coverArtCache[s.videos[s.currentIndex]] == e.coverArt.value
  {
    Id3Tags.CoverSurvivesReadWrite(existing, e, sub, payload);
    NonEmptyUrl(e.coverArt.value, sub, payload);
    SaveNewCoverStep(s, Id3Tags.TagsToWrite(existing, e).tags, e.coverArt.value);
  }

  /** The step from the re-read tags to the cache. */
  lemma SaveNewCoverStep(s: AppState, tags: Id3Tags.Tags, c: string)
    requires 0 <= s.currentIndex < |s.videos|
    requires Id3Tags.ReadMetadata(Id3Tags.Tagged(tags)).meta.coverArt == Some(c) && c != ""
    ensures var r := SaveMetadata(s, true, Id3Tags.ReadMetadata(Id3Tags.Tagged(tags)));
      s.videos[s.currentIndex] in r.coverArtCache && r.coverArtCache[s.videos[s.currentIndex]] == c
  {
    SaveCachesCover(s, Id3Tags.ReadMetadata(Id3Tags.Tagged(tags)), c);
  }

  /** A data URL is never empty. */
  lemma NonEmptyUrl(u: string, sub: string, payload: string)
    requires u == Id3Tags.DataUrl("image/" + sub, payload)
    ensures u != ""
  {
    assert u[0] == 'd';
  }

  /** A successful save whose re-read carries a cover caches that cover for
      the file shown. */
  lemma SaveCachesCover(s: AppState, reread: Id3Tags.ReadReply, c: string)
    requires 0 <= s.currentIndex < |s.videos|
    requires reread.Read? && reread.meta.coverArt == Some(c) && c != ""
    ensures var r := SaveMetadata(s, true, reread);
      r.coverArtCache[s.videos[s.currentIndex]] == c
      && r.videos == s.videos && r.selection == s.selection && r.thumbCache == s.thumbCache
  {
  }

  /** Saving keeps the library, the index, the selection and the thumbnail
      cache, changes at most the shown file's cover entry, and keeps the
      state coherent. */
  lemma SaveMetadataLaws(s: AppState, writeOk: bool, reread: Id3Tags.ReadReply)
    ensures var r := SaveMetadata(s, writeOk, reread);
      r.videos == s.videos && r.currentIndex == s.currentIndex && r.selection == s.selection
      && r.thumbCache == s.thumbCache
      && (forall q :: q in s.coverArtCache ==> q in r.coverArtCache)
      && (Coherent(s) ==> Coherent(r))
      && (!writeOk ==> r == s)
  {
  }

  /** `loadMetadataFields(p)`, its state part: `p`'s cover is cached when the
      file has one. */
  function LoadMetadataFields(s: AppState, p: string, read: Id3Tags.ReadReply): AppState {
    CacheCover(s, p, read)
  }

  /** Loading the tag fields of a library file caches exactly its cover, and
      keeps the state coherent. */
  lemma LoadMetadataFieldsLaws(s: AppState, p: string, read: Id3Tags.ReadReply)
    ensures var r := LoadMetadataFields(s, p, read);
      r.videos == s.videos && r.selection == s.selection && r.thumbCache == s.thumbCache
      && (CoverOfReply(read).Some? ==> r.coverArtCache == s.coverArtCache[p := CoverOfReply(read).value])
      && (CoverOfReply(read).None? ==> r == s)
      && (p in s.videos && Coherent(s) ==> Coherent(r))
  {
  }
}
