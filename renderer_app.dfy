/** The renderer's `App` record as an object whose fields its handlers update
    in place. Each method does what its handler does to the fields, with the
    handler's loops, and is proved to produce the state that the matching
    function of `LibraryState` gives. */
module Renderer {
  import opened Seqs
  import opened MediaTypes
  import NameRules
  import FileOps
  import Id3Tags
  import opened LibraryState

  class App {
    var videos: seq<string>
    var currentIndex: int
    var selection: seq<string>
    var thumbCache: map<string, string>
    var coverArtCache: map<string, string>

    /** The fields as a value. */
    function State(): AppState
      reads this
    {
      AppState(videos, currentIndex, selection, thumbCache, coverArtCache)
    }

    /** The record the window starts with. */
    constructor()
      ensures State() == Initial
    {
      videos, currentIndex, selection := [], -1, [];
      thumbCache, coverArtCache := map[], map[];
    }

    /** `SharedLogic.loadFiles`. */
    method LoadFiles(files: seq<string>)
      modifies this
      ensures State() == LibraryState.LoadFiles(old(State()), files)
    {
      videos := files;
      selection := [];
      coverArtCache := map[];
      thumbCache := map[];
      if |videos| > 0 {
        LoadVideo(0);
      }
    }

    /** `SharedLogic.loadVideo`, its index part. */
    method LoadVideo(idx: int)
      modifies this
      ensures State() == LibraryState.LoadVideo(old(State()), idx)
    {
      if idx < 0 || idx >= |videos| {
        return;
      }
      currentIndex := idx;
    }

    /** `SharedLogic.toggleSelection`. */
    method ToggleSelection(p: string)
      modifies this
      ensures State() == LibraryState.ToggleSelection(old(State()), p)
    {
      if p in selection {
        selection := Without(selection, p);
      } else {
        selection := selection + [p];
      }
    }

    /** `SharedLogic.selectAll`: clear, then add every library path in order. */
    method SelectAll()
      modifies this
      ensures State() == LibraryState.SelectAll(old(State()))
    {
      selection := [];
      var i := 0;
      while i < |videos|
        invariant 0 <= i <= |videos|
        invariant selection == SelectAllOf(videos[..i])
        invariant unchanged(`videos) && unchanged(`currentIndex)
        invariant unchanged(`thumbCache) && unchanged(`coverArtCache)
      {
        assert videos[..i + 1][..i] == videos[..i];
        selection := Add(selection, videos[i]);
        i := i + 1;
      }
      assert videos[..i] == videos;
    }

    /** `SharedLogic.selectNone`. */
    method SelectNone()
      modifies this
      ensures State() == LibraryState.SelectNone(old(State()))
    {
      selection := [];
    }

    /** `SharedLogic.clearAll`. */
    method ClearAll()
      modifies this
      ensures State() == LibraryState.ClearAll(old(State()))
    {
      videos := [];
      selection := [];
      currentIndex := -1;
    }

    /** The delete/move loop over a snapshot: each element the main process
        reports done is spliced out of the library (the index moved down when
        an earlier file goes) and dropped from the selection and the caches;
        the others are counted as failures. */
    method RemoveEach(items: seq<Target>, ok: string -> bool) returns (successCount: nat, errorCount: nat)
      modifies this
      ensures State() == RemoveAll(old(State()), items, ok)
      ensures successCount == SuccessCount(items, ok)
      ensures successCount + errorCount == |items|
    {
      successCount, errorCount := 0, 0;
      var i := 0;
      while i < |items|
        invariant 0 <= i <= |items|
        invariant State() == RemoveAll(old(State()), items[..i], ok)
        invariant successCount == SuccessCount(items[..i], ok)
        invariant successCount + errorCount == i
      {
        assert items[..i + 1][..i] == items[..i];
        var t := items[i];
        if !Succeeds(t, ok) {
          errorCount := errorCount + 1;
        } else {
          successCount := successCount + 1;
          var p := t.path;
          var idx := IndexOf(videos, p);
          if idx != -1 {
            videos := RemoveAt(videos, idx);
            if idx < currentIndex {
              currentIndex := currentIndex - 1;
            }
          }
          selection := Without(selection, p);
          coverArtCache := coverArtCache - {p};
          thumbCache := thumbCache - {p};
        }
        i := i + 1;
      }
      assert items[..i] == items;
    }

    /** The end of `deleteVideo` and `moveVideo`: clamp and show, or clear. */
    method SettleIndex()
      modifies this
      ensures State() == Settle(old(State()))
    {
      if |videos| > 0 {
        if currentIndex >= |videos| {
          currentIndex := |videos| - 1;
        }
        if currentIndex < 0 {
          currentIndex := 0;
        }
        LoadVideo(currentIndex);
      } else {
        ClearAll();
      }
    }

    /** What a delete or move acts on, as `Array.from` of the selection or the
        file shown. */
    method TakeSnapshot() returns (items: seq<Target>)
      ensures items == Snapshot(State())
    {
      if |selection| > 0 {
        items := Items(selection);
      } else if currentIndex >= 0 {
        items := [if currentIndex < |videos| then Item(videos[currentIndex]) else Undefined];
      } else {
        items := [];
      }
    }

    /** `SharedLogic.deleteVideo`; `ok(p)` is whether `trashFile(p)` succeeds. */
    method DeleteVideo(ok: string -> bool) returns (successCount: nat, errorCount: nat)
      modifies this
      ensures var o := Delete(old(State()), ok);
        State() == o.state && successCount == o.successes && errorCount == o.failures
    {
      var items := TakeSnapshot();
      if |items| == 0 {
        return 0, 0;
      }
      successCount, errorCount := RemoveEach(items, ok);
      SettleIndex();
    }

    /** `SharedLogic.moveVideo`; `dest` is the folder chosen and `ok(p)`
        whether `moveFile(p, dest)` succeeds. */
    method MoveVideo(dest: Option<string>, ok: string -> bool) returns (successCount: nat, errorCount: nat)
      modifies this
      ensures var o := Move(old(State()), dest, ok);
        State() == o.state && successCount == o.successes && errorCount == o.failures
    {
      var items := TakeSnapshot();
      if |items| == 0 {
        return 0, 0;
      }
      if dest.None? || dest.value == "" {
        return 0, 0;
      }
      successCount, errorCount := RemoveEach(items, ok);
      SettleIndex();
    }

    /** The success branch of the convert and rename loops. */
    method ReplaceInPlace(from: string, to: string)
      modifies this
      ensures State() == ReplacePath(old(State()), from, to)
    {
      var index := IndexOf(videos, from);
      if index != -1 {
        videos := videos[index := to];
      }
      selection := Without(selection, from);
      selection := Add(selection, to);
    }

    /** A replace loop over `items`: `reply(p)` is the new path of `p` when
        the main process succeeds. */
    method ReplaceEach(items: seq<string>, reply: string -> Option<string>)
      modifies this
      ensures State() == ReplaceAll(old(State()), items, reply)
    {
      var i := 0;
      while i < |items|
        invariant 0 <= i <= |items|
        invariant State() == ReplaceAll(old(State()), items[..i], reply)
      {
        assert items[..i + 1][..i] == items[..i];
        var filepath := items[i];
        var result := reply(filepath);
        if result.Some? {
          ReplaceInPlace(filepath, result.value);
        }
        i := i + 1;
      }
      assert items[..i] == items;
    }

    /** `BatchLogic.convertSelectedToMp3` without its status line; `ok(p)` is
        whether ffmpeg converts `p`. It returns the `.wav` paths it tried. */
    method ConvertSelectedToMp3(ok: string -> bool) returns (attempted: seq<string>)
      modifies this
      ensures State() == ConvertSelected(old(State()), ok)
      ensures attempted == Filter(old(selection), IsWav)
    {
      attempted := Filter(selection, IsWav);
      if |selection| == 0 {
        return;
      }
      var wavFiles := Filter(selection, IsWav);
      if |wavFiles| == 0 {
        return;
      }
      ReplaceEach(wavFiles, ConvertReplies(ok));
    }

    /** `BatchLogic.aiBatchRename`; `rename(p)` is what `aiRenameFile` gives
        for `p`. It returns the duplicate candidates it tried. */
    method AiBatchRename(ollamaRunning: bool, rename: string -> FileOps.RenameReply)
      returns (attempted: seq<string>)
      modifies this
      ensures State() == LibraryState.AiBatchRename(old(State()), ollamaRunning, rename)
      ensures attempted == (if ollamaRunning then NameRules.DuplicateCandidates(old(selection)) else [])
    {
      attempted := [];
      if |selection| == 0 {
        return;
      }
      if !ollamaRunning {
        return;
      }
      var duplicateFiles := NameRules.DuplicateCandidates(selection);
      attempted := duplicateFiles;
      if |duplicateFiles| == 0 {
        return;
      }
      ReplaceEach(duplicateFiles, RenameReplies(rename));
    }

    /** `AudioPlayer.convertWavToMp3` for the file shown; `ok(p)` is whether
        ffmpeg converts `p`. */
    method ConvertWavToMp3(ok: string -> bool)
      modifies this
      ensures State() == ConvertCurrent(old(State()), ok)
    {
      if currentIndex < 0 || currentIndex >= |videos| {
        return;
      }
      var filepath := videos[currentIndex];
      if !IsWav(filepath) {
        return;
      }
      if ok(filepath) {
        videos := videos[currentIndex := FileOps.ConvertOutputPath(filepath)];
        LoadVideo(currentIndex);
      }
    }

    /** `SharedLogic.generateThumbnail(p)`; `read` is what `readMetadata(p)`
        gives and `rendered` what `getThumbnail(p)` gives. */
    method GenerateThumbnail(p: string, read: Id3Tags.ReadReply, rendered: string) returns (src: string)
      modifies this
      ensures var t := LibraryState.GenerateThumbnail(old(State()), p, read, rendered);
        src == t.src && State() == t.state
    {
      if Cached(thumbCache, p) {
        return thumbCache[p];
      }
      if Cached(coverArtCache, p) {
        thumbCache := thumbCache[p := coverArtCache[p]];
        return coverArtCache[p];
      }
      if IsMp3(p) {
        var cover := CoverOfReply(read);
        if cover.Some? {
          coverArtCache := coverArtCache[p := cover.value];
          thumbCache := thumbCache[p := cover.value];
          return cover.value;
        }
      }
      src := rendered;
      thumbCache := thumbCache[p := src];
    }

    /** `AudioPlayer.loadMetadataFields(p)`, its cache write. */
    method LoadMetadataFields(p: string, read: Id3Tags.ReadReply)
      modifies this
      ensures State() == LibraryState.LoadMetadataFields(old(State()), p, read)
    {
      var cover := CoverOfReply(read);
      if cover.Some? {
        coverArtCache := coverArtCache[p := cover.value];
      }
    }

    /** `AudioPlayer.saveMetadata`, its state part; `writeOk` is whether the
        write succeeds and `reread` what the verifying read gives. */
    method SaveMetadata(writeOk: bool, reread: Id3Tags.ReadReply)
      modifies this
      ensures State() == LibraryState.SaveMetadata(old(State()), writeOk, reread)
    {
      if currentIndex < 0 || currentIndex >= |videos| {
        return;
      }
      var filepath := videos[currentIndex];
      if !writeOk {
        return;
      }
      var cover := CoverOfReply(reread);
      if cover.Some? {
        coverArtCache := coverArtCache[filepath := cover.value];
      }
    }
  }
}
