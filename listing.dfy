/** The main process's library sources: `fs:loadFolder` lists the media files
    of a folder, and `fs:handleDroppedPaths` classifies what was dropped on the
    window. The file system is two functions, the kind of a path (what
    `lstat` says, or its failure) and the entries of a folder (what `readdir`
    says, or its failure); the locale comparison of the sort is an abstract
    total preorder on lower-cased basenames. */
module Listing {
  import opened Seqs
  import opened Text
  import opened PathNames
  import opened MediaTypes

  /** What `lstat` tells about a path. */
  datatype EntryKind = Directory | File | StatFailed(message: string)

  /** What `readdir` gives for a folder. */
  datatype DirRead = Entries(names: seq<string>) | ReadDirFailed(message: string)

  /** The sort key: the lower-cased basename. */
  function SortKey(p: string): string {
    Lower(Basename(p))
  }

  /** A comparison that orders everything and chains. */
  ghost predicate IsTotalPreorder<T(!new)>(le: (T, T) -> bool) {
    (forall a, b :: le(a, b) || le(b, a))
    && (forall a, b, c :: le(a, b) && le(b, c) ==> le(a, c))
  }

  /** Every element is `le` every later one. */
  ghost predicate Sorted<T>(s: seq<T>, le: (T, T) -> bool) {
    forall i, j :: 0 <= i < j < |s| ==> le(s[i], s[j])
  }

  /** Puts `x` before the first element that is not `le` it, so after every
      element it ties with: inserting in input order keeps ties in input
      order, as the stable `Array.prototype.sort` does. */
  function InsertBy<T>(x: T, s: seq<T>, le: (T, T) -> bool): (r: seq<T>)
    ensures multiset(r) == multiset(s) + multiset{x}
  {
    if s == [] then [x]
    else if !le(s[0], x) then
      assert s == [s[0]] + s[1..];
      [x] + s
    else
      assert s == [s[0]] + s[1..];
      [s[0]] + InsertBy(x, s[1..], le)
  }

  /** Inserting into a sorted sequence keeps it sorted. */
  lemma {:induction false} InsertSorted<T(!new)>(x: T, s: seq<T>, le: (T, T) -> bool)
    requires IsTotalPreorder(le) && Sorted(s, le)
    ensures Sorted(InsertBy(x, s, le), le)
  {
    if s != [] {
      var r := InsertBy(x, s, le);
      if !le(s[0], x) {
        assert le(x, s[0]);
        assert r == [x] + s;
        forall j | 1 < j < |r| ensures le(x, r[j]) {
          assert le(s[0], s[j - 1]);
        }
      } else {
        var rest := InsertBy(x, s[1..], le);
        assert r == [s[0]] + rest;
        assert Sorted(s[1..], le);
        InsertSorted(x, s[1..], le);
        forall j | 0 <= j < |rest| ensures le(s[0], rest[j]) {
          assert rest[j] in multiset(rest);
          if rest[j] != x {
            assert rest[j] in multiset(s[1..]);
            var k :| 0 <= k < |s[1..]| && s[1..][k] == rest[j];
            assert s[k + 1] == rest[j];
          }
        }
      }
    }
  }

  /** `le` chains. */
  ghost predicate Transitive<T(!new)>(le: (T, T) -> bool) {
    forall a, b, c :: le(a, b) && le(b, c) ==> le(a, c)
  }

  /** A group of elements that all tie under `le`, such as the paths with
      one sort key. */
  ghost predicate Ties<T(!new)>(tie: T -> bool, le: (T, T) -> bool) {
    forall a, b :: tie(a) && tie(b) ==> le(a, b)
  }

  /** A filter that keeps nothing is empty. */
  lemma {:induction false} FilterNone<T(!new)>(s: seq<T>, f: T -> bool)
    requires forall k :: 0 <= k < |s| ==> !f(s[k])
    ensures Filter(s, f) == []
    decreases |s|
  {
    if s != [] {
      FilterNone(s[..|s| - 1], f);
    }
  }

  /** In a sorted sequence whose head is above `x`, nothing ties with `x`. */
  lemma NoTiesAbove<T(!new)>(x: T, s: seq<T>, le: (T, T) -> bool, tie: T -> bool)
    requires Transitive(le) && Sorted(s, le) && Ties(tie, le)
    requires s != [] && !le(s[0], x) && tie(x)
    ensures Filter(s, tie) == []
  {
    forall k | 0 <= k < |s| ensures !tie(s[k]) {
      if k > 0 {
        assert le(s[0], s[k]);
      }
    }
    FilterNone(s, tie);
  }

  /** Inserting into a sorted sequence puts `x` after the elements it ties
      with. */
  lemma {:induction false} InsertKeepsTies<T(!new)>(x: T, s: seq<T>, le: (T, T) -> bool, tie: T -> bool)
    requires Transitive(le) && Sorted(s, le) && Ties(tie, le)
    ensures Filter(InsertBy(x, s, le), tie) == Filter(s, tie) + (if tie(x) then [x] else [])
  {
    if s == [] {
      FilterOne(x, tie);
    } else if !le(s[0], x) {
      InsertBeforeHead(x, s, le, tie);
    } else {
      assert Sorted(s[1..], le);
      InsertKeepsTies(x, s[1..], le, tie);
      assert InsertBy(x, s, le) == [s[0]] + InsertBy(x, s[1..], le);
      assert s == [s[0]] + s[1..];
      FilterConsShift(s[0], s[1..], InsertBy(x, s[1..], le), if tie(x) then [x] else [], tie);
    }
  }

  /** The case of `InsertKeepsTies` where `x` goes in front. */
  lemma InsertBeforeHead<T(!new)>(x: T, s: seq<T>, le: (T, T) -> bool, tie: T -> bool)
    requires Transitive(le) && Sorted(s, le) && Ties(tie, le)
    requires s != [] && !le(s[0], x)
    ensures Filter(InsertBy(x, s, le), tie) == Filter(s, tie) + (if tie(x) then [x] else [])
  {
    if tie(x) {
      NoTiesAbove(x, s, le, tie);
    }
    assert InsertBy(x, s, le) == [x] + s;
    FilterFront(x, s, tie);
  }

  /** An element in front of a sequence whose filter is empty when the
      element passes comes out last. */
  lemma FilterFront<T(!new)>(x: T, s: seq<T>, f: T -> bool)
    requires f(x) ==> Filter(s, f) == []
    ensures Filter([x] + s, f) == Filter(s, f) + (if f(x) then [x] else [])
  {
    var rest := Filter(s, f);
    FilterAppend([x], s, f);
    FilterOne(x, f);
    if f(x) {
      calc {
        Filter([x] + s, f);
        [x] + rest;
        rest + [x];
      }
    } else {
      assert Filter([x] + s, f) == [] + rest;
    }
  }

  /** Putting the same element in front of two sequences keeps what their
      filters have in common. */
  lemma FilterConsShift<T(!new)>(h: T, t: seq<T>, t': seq<T>, tail: seq<T>, f: T -> bool)
    requires Filter(t', f) == Filter(t, f) + tail
    ensures Filter([h] + t', f) == Filter([h] + t, f) + tail
  {
    var head, rest, rest' := Filter([h], f), Filter(t, f), Filter(t', f);
    calc {
      Filter([h] + t', f);
      { FilterAppend([h], t', f); }
      head + rest';
      head + (rest + tail);
      (head + rest) + tail;
      { FilterAppend([h], t, f); }
      Filter([h] + t, f) + tail;
    }
  }

  /** Insertion sort. */
  function SortBy<T>(s: seq<T>, le: (T, T) -> bool): (r: seq<T>)
    ensures multiset(r) == multiset(s)
  {
    if s == [] then []
    else
      var init := s[..|s| - 1];
      assert s == init + [s[|s| - 1]];
      InsertBy(s[|s| - 1], SortBy(init, le), le)
  }

  /** The insertion sort orders by any total preorder. */
  lemma {:induction false} SortBySorted<T(!new)>(s: seq<T>, le: (T, T) -> bool)
    ensures IsTotalPreorder(le) ==> Sorted(SortBy(s, le), le)
  {
    if s != [] && IsTotalPreorder(le) {
      var init := s[..|s| - 1];
      SortBySorted(init, le);
      InsertSorted(s[|s| - 1], SortBy(init, le), le);
    }
  }

  /** The insertion sort is stable: the elements of a group that ties under
      a total preorder come out in their input order. */
  lemma {:induction false} SortByKeepsTies<T(!new)>(s: seq<T>, le: (T, T) -> bool, tie: T -> bool)
    requires IsTotalPreorder(le) && Ties(tie, le)
    ensures Filter(SortBy(s, le), tie) == Filter(s, tie)
  {
    if s != [] {
      var init, last := s[..|s| - 1], s[|s| - 1];
      assert s == init + [last];
      SortBySorted(init, le);
      SortByKeepsTies(init, le, tie);
      InsertKeepsTies(last, SortBy(init, le), le, tie);
      FilterSnoc(init, last, tie);
    }
  }

  /** The listing's comparator on paths: `le` on their sort keys. */
  function ByKey(le: (string, string) -> bool): (string, string) -> bool {
    (a, b) => le(SortKey(a), SortKey(b))
  }

  /** Comparing by key is a total preorder when `le` is one. */
  lemma ByKeyPreorder(le: (string, string) -> bool)
    requires IsTotalPreorder(le)
    ensures IsTotalPreorder(ByKey(le))
  {
    var k := ByKey(le);
    forall a, b ensures k(a, b) || k(b, a) {
      assert le(SortKey(a), SortKey(b)) || le(SortKey(b), SortKey(a));
    }
    forall a, b, c | k(a, b) && k(b, c) ensures k(a, c) {
      assert le(SortKey(a), SortKey(b)) && le(SortKey(b), SortKey(c));
    }
  }

  /** Ordered by sort key. */
  ghost predicate SortedByName(s: seq<string>, le: (string, string) -> bool) {
    forall i, j :: 0 <= i < j < |s| ==> le(SortKey(s[i]), SortKey(s[j]))
  }

  /** Sorting by key orders by sort key. */
  lemma ByKeyOrders(s: seq<string>, le: (string, string) -> bool)
    ensures IsTotalPreorder(le) ==> SortedByName(SortBy(s, ByKey(le)), le)
  {
    if IsTotalPreorder(le) {
      ByKeyPreorder(le);
      SortBySorted(s, ByKey(le));
      var r := SortBy(s, ByKey(le));
      forall i, j | 0 <= i < j < |r| ensures le(SortKey(r[i]), SortKey(r[j])) {
        assert ByKey(le)(r[i], r[j]);
      }
    }
  }

  /** The listing's `.sort(...)` by `localeCompare` on lower-cased basenames:
      a permutation of its input, which a total preorder leaves in order. */
  function SortByName(s: seq<string>, le: (string, string) -> bool): (r: seq<string>)
    ensures multiset(r) == multiset(s)
    ensures |r| == |s|
    ensures IsTotalPreorder(le) ==> SortedByName(r, le)
  {
    var r := SortBy(s, ByKey(le));
    assert |r| == |multiset(r)| == |multiset(s)| == |s|;
    SortBySorted(s, ByKey(le));
    ByKeyOrders(s, le);
    r
  }

  /** The paths whose sort key ties with `key` under `le`. */
  function SameKey(le: (string, string) -> bool, key: string): string -> bool {
    p => le(SortKey(p), key) && le(key, SortKey(p))
  }

  /** The listing's sort is stable: paths whose names tie come out in the
      order they were given. */
  lemma SortByNameStable(s: seq<string>, le: (string, string) -> bool, key: string)
    requires IsTotalPreorder(le)
    ensures Filter(SortByName(s, le), SameKey(le, key)) == Filter(s, SameKey(le, key))
  {
    ByKeyPreorder(le);
    var tie := SameKey(le, key);
    forall a, b | tie(a) && tie(b) ensures ByKey(le)(a, b) {
      assert le(SortKey(a), key) && le(key, SortKey(b));
    }
    SortByKeepsTies(s, ByKey(le), tie);
  }

  /** Two paths already in order stay in that order, ties included. */
  lemma SortByNameOfTwo(a: string, b: string, le: (string, string) -> bool)
    requires le(SortKey(a), SortKey(b))
    ensures SortByName([a, b], le) == [a, b]
  {
    assert [a, b][..1] == [a];
    assert [a][..0] == [];
    assert SortBy([a], ByKey(le)) == [a];
  }

  /** `/x/Song.mp3` and `/y/Song.mp3` have the same name, so a total
      preorder keeps them in the order given. */
  lemma SortByNameKeepsSameNames(le: (string, string) -> bool)
    requires IsTotalPreorder(le)
    ensures SortByName(["/x/Song.mp3", "/y/Song.mp3"], le) == ["/x/Song.mp3", "/y/Song.mp3"]
  {
    assert Join("/x", "Song.mp3") == "/x/Song.mp3";
    assert Join("/y", "Song.mp3") == "/y/Song.mp3";
    BasenameOfJoin("/x", "Song.mp3");
    BasenameOfJoin("/y", "Song.mp3");
    assert le(SortKey("/x/Song.mp3"), SortKey("/y/Song.mp3"));
    SortByNameOfTwo("/x/Song.mp3", "/y/Song.mp3", le);
  }

  /** The first path, in order, whose `lstat` fails, with the failure. */
  function FirstStatFailure(paths: seq<string>, kind: string -> EntryKind): (r: Option<(string, string)>)
    ensures r.None? <==> forall i :: 0 <= i < |paths| ==> !kind(paths[i]).StatFailed?
    ensures r.Some? ==> exists i :: (0 <= i < |paths| && r.value.0 == paths[i]
      && kind(paths[i]) == StatFailed(r.value.1)
      && forall j :: 0 <= j < i ==> !kind(paths[j]).StatFailed?)
  {
    if paths == [] then None
    else
      var init := paths[..|paths| - 1];
      var last := paths[|paths| - 1];
      var earlier := FirstStatFailure(init, kind);
      assert forall i :: 0 <= i < |init| ==> init[i] == paths[i];
      if earlier.Some? then
        earlier
      else if kind(last).StatFailed? then
        Some((last, kind(last).message))
      else None
  }

  /** The paths that `lstat` calls directories, in order. */
  function DirsOf(paths: seq<string>, kind: string -> EntryKind): (r: seq<string>)
    ensures forall p :: p in r <==> p in paths && kind(p).Directory?
  {
    if paths == [] then []
    else
      var init := paths[..|paths| - 1];
      var last := paths[|paths| - 1];
      assert paths == init + [last];
      DirsOf(init, kind) + (if kind(last).Directory? then [last] else [])
  }

  /** The paths that `lstat` calls files and that carry a media extension, in order. */
  function MediaFilesOf(paths: seq<string>, kind: string -> EntryKind): (r: seq<string>)
    ensures forall p :: p in r <==> p in paths && kind(p).File? && IsMedia(p)
    ensures |r| <= |paths|
  {
    if paths == [] then []
    else
      var init := paths[..|paths| - 1];
      var last := paths[|paths| - 1];
      assert paths == init + [last];
      MediaFilesOf(init, kind) + (if kind(last).File? && IsMedia(last) then [last] else [])
  }

  /** What `fs:loadFolder` returns: the sorted media files, or `{ error }`. */
  datatype FolderListing = Listed(files: seq<string>) | ListError(message: string)

  /** `readdirSync(folder).map(f => path.join(folder, f))`. */
  function JoinAll(folder: string, names: seq<string>): (r: seq<string>)
    ensures |r| == |names| && forall i :: 0 <= i < |names| ==> r[i] == Join(folder, names[i])
  {
    seq(|names|, i requires 0 <= i < |names| => Join(folder, names[i]))
  }

  /** `fs:loadFolder`: every entry joined to the folder, directories dropped
      (a failing `lstat` fails the whole listing), media extensions kept,
      sorted by sort key. */
  function ListFolder(folder: string, read: DirRead, kind: string -> EntryKind,
                      le: (string, string) -> bool): (r: FolderListing)
    ensures read.ReadDirFailed? ==> r == ListError(read.message)
    ensures read.Entries? ==>
      (r.ListError? <==> exists i :: 0 <= i < |read.names| && kind(JoinAll(folder, read.names)[i]).StatFailed?)
    ensures r.Listed? ==> (read.Entries?
      && (forall p :: p in r.files <==> p in JoinAll(folder, read.names) && kind(p).File? && IsMedia(p))
      && (IsTotalPreorder(le) ==> SortedByName(r.files, le)))
    ensures r.Listed? ==> multiset(r.files) == multiset(MediaFilesOf(JoinAll(folder, read.names), kind))
  {
    match read
    case ReadDirFailed(msg) => ListError(msg)
    case Entries(names) =>
      var paths := JoinAll(folder, names);
      match FirstStatFailure(paths, kind)
      case Some(failure) => ListError(failure.1)
      case None =>
        var media := MediaFilesOf(paths, kind);
        var files := SortByName(media, le);
        assert forall p :: p in files <==> p in media by {
          forall p ensures p in files <==> p in media {
            assert p in files <==> p in multiset(files);
            assert p in media <==> p in multiset(media);
          }
        }
        Listed(files)
  }

  /** Files whose names tie keep the order `readdir` gave them. */
  lemma ListFolderStable(folder: string, read: DirRead, kind: string -> EntryKind,
                         le: (string, string) -> bool, key: string)
    requires IsTotalPreorder(le)
    ensures ListFolder(folder, read, kind, le).Listed? ==>
      var media := MediaFilesOf(JoinAll(folder, read.names), kind);
      Filter(ListFolder(folder, read, kind, le).files, SameKey(le, key)) == Filter(media, SameKey(le, key))
  {
    if ListFolder(folder, read, kind, le).Listed? {
      SortByNameStable(MediaFilesOf(JoinAll(folder, read.names), kind), le, key);
    }
  }

  /** A value of the dropped list: only strings are paths. */
  datatype JsValue = JsString(s: string) | JsOther

  /** The argument of `fs:handleDroppedPaths`. */
  datatype DropInput = NotAnArray | AnArray(items: seq<JsValue>)

  /** The reply of `fs:handleDroppedPaths`. */
  datatype DropResult =
    | DroppedFolder(videos: seq<string>, name: string)
    | DroppedFiles(videos: seq<string>, name: string)
    | DropError(message: string)

  /** `paths.filter(p => typeof p === 'string' && p)`. */
  function ValidPaths(items: seq<JsValue>): (r: seq<string>)
    ensures forall p :: p in r <==> JsString(p) in items && p != ""
  {
    if items == [] then []
    else
      var init := items[..|items| - 1];
      var last := items[|items| - 1];
      assert items == init + [last];
      ValidPaths(init) + (if last.JsString? && last.s != "" then [last.s] else [])
  }

  /** The valid paths of a concatenation are those of each part, in order. */
  lemma {:induction false} ValidPathsAppend(a: seq<JsValue>, b: seq<JsValue>)
    ensures ValidPaths(a + b) == ValidPaths(a) + ValidPaths(b)
    decreases |b|
  {
    if b == [] {
      assert a + b == a;
    } else {
      var init, last := b[..|b| - 1], b[|b| - 1];
      var tail := if last.JsString? && last.s != "" then [last.s] else [];
      assert (a + b)[..|a + b| - 1] == a + init;
      assert (a + b)[|a + b| - 1] == last;
      assert ValidPaths(a + b) == ValidPaths(a + init) + tail;
      ValidPathsAppend(a, init);
      assert (ValidPaths(a) + ValidPaths(init)) + tail == ValidPaths(a) + (ValidPaths(init) + tail);
    }
  }

  /** One value is kept exactly when it is a non-empty string; with
      `ValidPathsAppend` this fixes the order of the paths, and so which
      folder comes first. */
  lemma ValidPathsOne(x: JsValue)
    ensures ValidPaths([x]) == if x.JsString? && x.s != "" then [x.s] else []
  {
    assert [x][..0] == [];
  }

  /** The error text for a path whose `lstat` fails. */
  function UnreadableMessage(p: string, message: string): string {
    "File not found or unreadable: " + p + ". Error: " + message
  }

  /** `fs:handleDroppedPaths` as a whole. A non-array is refused; the first
      path that cannot be inspected fails the drop; if any path is a folder,
      the first one is listed and the dropped files are ignored; otherwise
      the dropped media files are the library, sorted, named `<n> files`. */
  function DropOutcome(input: DropInput, kind: string -> EntryKind, readDir: string -> DirRead,
                       le: (string, string) -> bool): (r: DropResult)
    ensures input.NotAnArray? ==> r == DropError("Invalid paths")
    ensures input.AnArray? && FirstStatFailure(ValidPaths(input.items), kind).Some? ==>
      var f := FirstStatFailure(ValidPaths(input.items), kind).value;
      r == DropError(UnreadableMessage(f.0, f.1))
    ensures input.AnArray? && FirstStatFailure(ValidPaths(input.items), kind).None? ==>
      var dirs := DirsOf(ValidPaths(input.items), kind);
      (dirs != [] ==> r == match ListFolder(dirs[0], readDir(dirs[0]), kind, le)
                           case Listed(v) => DroppedFolder(v, dirs[0])
                           case ListError(m) => DropError(m))
      && (dirs == [] ==> r.DroppedFiles?)
    ensures r.DroppedFolder? ==> (input.AnArray?
      && var dirs := DirsOf(ValidPaths(input.items), kind);
      dirs != [] && r.name == dirs[0]
      && ListFolder(dirs[0], readDir(dirs[0]), kind, le) == Listed(r.videos))
    ensures r.DroppedFiles? ==> (input.AnArray?
      && var valid := ValidPaths(input.items);
      DirsOf(valid, kind) == []
      && r.videos == SortByName(MediaFilesOf(valid, kind), le)
      && multiset(r.videos) == multiset(MediaFilesOf(valid, kind))
      && (IsTotalPreorder(le) ==> SortedByName(r.videos, le))
      && r.name == NatToString(|r.videos|) + " files")
  {
    match input
    case NotAnArray => DropError("Invalid paths")
    case AnArray(items) =>
      var valid := ValidPaths(items);
      match FirstStatFailure(valid, kind)
      case Some(f) => DropError(UnreadableMessage(f.0, f.1))
      case None =>
        var dirs := DirsOf(valid, kind);
        if dirs != [] then
          match ListFolder(dirs[0], readDir(dirs[0]), kind, le)
          case Listed(videos) => DroppedFolder(videos, dirs[0])
          case ListError(msg) => DropError(msg)
        else
          var media := MediaFilesOf(valid, kind);
          DroppedFiles(SortByName(media, le), NatToString(|media|) + " files")
  }

  /** Dropped files whose names tie keep the order they were dropped in. */
  lemma DropOutcomeStable(input: DropInput, kind: string -> EntryKind, readDir: string -> DirRead,
                          le: (string, string) -> bool, key: string)
    requires IsTotalPreorder(le)
    ensures var r := DropOutcome(input, kind, readDir, le);
      r.DroppedFiles? ==>
        var media := MediaFilesOf(ValidPaths(input.items), kind);
        Filter(r.videos, SameKey(le, key)) == Filter(media, SameKey(le, key))
  {
    var r := DropOutcome(input, kind, readDir, le);
    if r.DroppedFiles? {
      SortByNameStable(MediaFilesOf(ValidPaths(input.items), kind), le, key);
    }
  }

  /** The handler's loop over the valid paths: stops at the first path whose
      `lstat` fails, and otherwise collects the folders and the media files
      in order. */
  method ClassifyPaths(valid: seq<string>, kind: string -> EntryKind)
    returns (failure: Option<(string, string)>, dirs: seq<string>, mediaFiles: seq<string>)
    ensures failure == FirstStatFailure(valid, kind)
    ensures failure.None? ==> dirs == DirsOf(valid, kind) && mediaFiles == MediaFilesOf(valid, kind)
  {
    dirs, mediaFiles := [], [];
    var i := 0;
    while i < |valid|
      invariant 0 <= i <= |valid|
      invariant FirstStatFailure(valid[..i], kind).None?
      invariant dirs == DirsOf(valid[..i], kind)
      invariant mediaFiles == MediaFilesOf(valid[..i], kind)
    {
      var p := valid[i];
      assert valid[..i + 1][..i] == valid[..i];
      match kind(p) {
        case StatFailed(msg) =>
          FirstFailureExtends(valid, i, kind);
          return Some((p, msg)), dirs, mediaFiles;
        case Directory =>
          dirs := dirs + [p];
        case File =>
          if IsMedia(p) {
            mediaFiles := mediaFiles + [p];
          }
      }
      i := i + 1;
    }
    assert valid[..i] == valid;
    failure := None;
  }

  /** Once a prefix has no failure, the first failure of the whole sequence
      is at the first failing position after it. */
  lemma {:induction false} FirstFailureExtends(s: seq<string>, i: nat, kind: string -> EntryKind)
    requires i < |s|
    requires FirstStatFailure(s[..i], kind).None?
    requires kind(s[i]).StatFailed?
    ensures FirstStatFailure(s, kind) == Some((s[i], kind(s[i]).message))
    decreases |s| - i
  {
    assert s[..i + 1][..i] == s[..i];
    if i + 1 < |s| {
      FirstFailureSome(s, i + 1, kind);
    } else {
      assert s[..i + 1] == s;
    }
  }

  /** A failure found in a prefix is the failure of every extension of it. */
  lemma {:induction false} FirstFailureSome(s: seq<string>, n: nat, kind: string -> EntryKind)
    requires n <= |s|
    requires FirstStatFailure(s[..n], kind).Some?
    ensures FirstStatFailure(s, kind) == FirstStatFailure(s[..n], kind)
    decreases |s| - n
  {
    if n < |s| {
      assert s[..n + 1][..n] == s[..n];
      FirstFailureSome(s, n + 1, kind);
    } else {
      assert s[..n] == s;
    }
  }

  /** `fs:handleDroppedPaths`, with its loop; it returns what `DropOutcome` says. */
  method HandleDroppedPaths(input: DropInput, kind: string -> EntryKind, readDir: string -> DirRead,
                            le: (string, string) -> bool)
    returns (r: DropResult)
    ensures r == DropOutcome(input, kind, readDir, le)
  {
    if input.NotAnArray? {
      return DropError("Invalid paths");
    }
    var validPaths := ValidPaths(input.items);
    var failure, dirs, mediaFiles := ClassifyPaths(validPaths, kind);
    if failure.Some? {
      return DropError(UnreadableMessage(failure.value.0, failure.value.1));
    }
    if |dirs| > 0 {
      var folder := dirs[0];
      match ListFolder(folder, readDir(folder), kind, le)
      case Listed(videos) =>
        r := DroppedFolder(videos, folder);
      case ListError(msg) =>
        r := DropError(msg);
    } else {
      r := DroppedFiles(SortByName(mediaFiles, le), NatToString(|mediaFiles|) + " files");
    }
  }
}
