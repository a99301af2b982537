# Kraken Kurator Pro — a Dafny model of its library core

Kraken Kurator Pro is an Electron desktop tool for curating folders of video,
audio and image files. This project models two parts of it and proves
properties about them.

The first part is the renderer's in-memory library engine, the `App` record
of `renderer-main.js`, which holds:

- the ordered library of paths (`videos`);
- the index of the file shown (`currentIndex`, -1 when none);
- the selection (`selectedVideos`, a JavaScript `Set`);
- two path-keyed caches, one for thumbnails and one for cover art.

The model covers the handlers that change this record:

- load, show, toggle, select all and select none, and clear;
- the delete and move batch loops;
- the convert and AI-rename loops, which replace paths in place;
- the single-file convert;
- the thumbnail cache lookup, and the cover-art cache writes of the tag panel.

The second part is the main process's rules (`main.js`), together with the
pure string helpers the renderer shares with them:

- media categories by extension;
- basenames, and titles parsed from file names;
- the duplicate-marker filter;
- the ID3 read normalisation and the write merge;
- the collision-free destination names for trash, move and AI rename;
- the WAV→MP3 output path and quality map;
- folder listing and the classification of dropped paths.

## Layout

| file | module | what it holds |
|---|---|---|
| seqs.dfy | `Seqs` | `Option`, `IndexOf`, `RemoveAt` (splice), `Filter`, `Without`/`Add` (a `Set` as an insertion-ordered sequence), `LeadingCount`, `MapIndexed` |
| text.dfy | `Text` | ASCII `toLowerCase`, `startsWith`/`endsWith`, the ECMAScript `\s` class and `trim`, quote removal, decimal numerals |
| path_names.dfy | `PathNames` | the renderer's basename expression, and POSIX `path.basename`, `dirname`, `extname` and `join` |
| media_types.dfy | `MediaTypes` | the extension lists and the category tests |
| name_rules.dfy | `NameRules` | title parsing and the duplicate filter |
| id3_tags.dfy | `Id3Tags` | tag objects, `metadata:read`, `metadata:write`, cover data URLs (section 3 of RFC 2397) |
| batch_metadata.dfy | `BatchMetadata` | the batch tag editor's record and loop |
| file_ops.dfy | `FileOps` | the collision loops of trash, move and rename; normalising the rename reply; the convert path |
| listing.dfy | `Listing` | `fs:loadFolder` and `fs:handleDroppedPaths` |
| library_state.dfy | `LibraryState` | the `App` record as a value, every handler as a function on it, and the invariants and laws |
| renderer_app.dfy | `Renderer` | class `App`, whose methods update its fields as the handlers do, each proved to match its `LibraryState` function |

The file system, ffmpeg, NodeID3, the language model and the dialogs are
parameters:

- the kind of a path (`lstat`) and the entries of a folder (`readdir`) are functions;
- the set of existing paths is a `set<string>`;
- the outcome of trash, move, convert and rename is a function from path to result;
- a tag read is a `TagRead` value.

The `localeCompare` sort is an abstract total preorder on lower-cased basenames.

The state invariants proved in `LibraryState` are:

- `Valid`: the index is -1 or in range, and the selection has no repeats;
- `Coherent`: every selected path and every cache key is a library path.

Delete and move keep both invariants. Load, show, select and the cache writes
keep them under the conditions their lemmas name. The operations that break
one (see below) do so as the source is written, and each break has a lemma
that exhibits it.

### Behaviour of the code worth noting

The model follows the code in each of these cases:

- **Duplicate marker.** `(digits)` anywhere in the basename makes a rename
  candidate (`"Mix (2) live.wav"` is one), not only just before the extension.
- **Index decrement.** `currentIndex` is decremented only when the removed
  index is strictly smaller. Removing the file shown keeps the index, which
  then names the next file (`RemoveCurrentFile`).
- **Toggle.** `toggleSelection` does not check library membership
  (`ToggleForeignPath`).
- **Convert and rename.** These neither re-key nor drop cache entries, so a
  stale entry stays under the old path (`ReplaceLeavesStaleCache`).
- **Single-file convert.** This does not move selection membership
  (`ConvertCurrentLeavesSelection`).
- **Loading an empty list.** This keeps the previous `currentIndex`, which
  then names no file (`LoadEmptyKeepsStaleIndex`). A later delete then tries
  to trash `undefined`, counts one failure, and clears the state
  (`DeleteAfterStaleIndex`).
- **Tag write.** `metadata:write` writes `''` into every listed field the
  caller leaves empty (`WriteBlanksOmittedFields`).
- **Duplicate paths.** The library may hold one path twice. A removal splices
  only the first one, so the laws about removal say so where it matters.

## Model

| member | source | states |
|---|---|---|
| `Text.Trim` | renderer-main.js:488 | `trim` keeps a middle slice, cuts only white space (the exact `\s` set) on both sides, and leaves no white space at either end |
| `Text.TrimIdempotent` | renderer-main.js:488 | trimming a trimmed string changes nothing |
| `Text.TrimOfPadded` | main.js:502 | trimming white space padded around a string that neither begins nor ends with white space gives that string back |
| `Text.RemoveQuotes` | main.js:505 | a character occurs in the result iff it occurs in the input and is neither `'` nor `"` |
| `Text.RemoveQuotesAppend` | main.js:505 | quotes are removed piece by piece: the result of a concatenation is the results of its parts, in order |
| `Text.RemoveQuotesOne` | main.js:505 | one character is dropped iff it is `'` or `"`, otherwise kept; with the previous row this fixes the result of every string |
| `Text.DecimalRoundTrip` | renderer-main.js:694 | reading `String(n)` back as a decimal numeral gives `n` |
| `Text.NatToStringInjective` | renderer-main.js:694 | different numbers give different numerals |
| `PathNames.DisplayName` | renderer-main.js:150 | the renderer's basename is a suffix of the path: after the last `/` if there is one, else after the last `\`, else the whole path |
| `PathNames.Basename` | main.js:264 | `path.basename` is a suffix of the path with no `/`: exactly what follows the last `/` when there is one, and the whole path when there is none |
| `PathNames.ExtensionOf` | main.js:267 | the extension of a name is empty or a dot followed by no dot and is a proper suffix of the name; it is empty iff the name is `..` or has no dot after its first character |
| `PathNames.Extname` | main.js:267 | `path.extname` is empty or a dot followed by no dot, and is a proper suffix of the basename; it is empty iff the basename is `..` or has no dot after its first character |
| `PathNames.StemAndExtension` | main.js:267-268 | the stem and the extension put back together give the basename |
| `PathNames.JoinInjective` | main.js:263 | joining distinct names to one folder gives distinct paths |
| `PathNames.BasenameOfJoin` | main.js:264 | the basename of a name joined to a folder is the name |
| `MediaTypes.MediaIsSomeCategory` | main.js:14-17 | a path has a media extension iff it is an image, a video or an audio file |
| `MediaTypes.HasExtensionAppend` | main.js:17 | matching the concatenated list means matching one of its parts |
| `MediaTypes.CategoriesIgnoreCase` | renderer-main.js:99-101 | every category test gives the same answer on the lower-cased path |
| `MediaTypes.WavAndMp3AreAudio` | renderer-main.js:95-101 | a `.wav` or `.mp3` path (any case) is an audio file |
| `NameRules.StripExtension` | renderer-main.js:486 | the result is a prefix; when the string has a `.` that is not its last character and no later `.`, exactly that dot and what follows are cut, and otherwise nothing is cut |
| `NameRules.StripExtensionOf` | renderer-main.js:486 | `x.e`, where `e` is a non-empty run without dots, loses exactly `.e` |
| `NameRules.StripTrackNumber` | renderer-main.js:487 | the result is a suffix; a cut removes one or more leading digits and then every separator (`.`, `-`, white space) after them |
| `NameRules.StripTrackNumberOf` | renderer-main.js:487 | digits, then separators, then a title that does not start with one, gives the title |
| `NameRules.StripTrackNumberNoDigit` | renderer-main.js:487 | a string that does not start with a digit is left alone |
| `NameRules.TitleFromFilename` | renderer-main.js:485-488 | the title never starts or ends with white space |
| `NameRules.TitleOfNumberedName` | renderer-main.js:684-690 | `<digits><separators><title>.<ext>` gives `<title>` |
| `NameRules.TitleOfNumberedSong` | renderer-main.js:485 | `"01. My Song.mp3"` gives `"My Song"` |
| `NameRules.TitleOfUnnumberedName` | renderer-main.js:485-488 | a name that does not start with a digit keeps its whole stem as its title |
| `NameRules.TitleOfPlainName` | renderer-main.js:486 | `"Track.mp3"` gives `"Track"` |
| `NameRules.TitleOfNumberOnly` | renderer-main.js:486-487 | a name made only of digits keeps them, since no separator follows |
| `NameRules.TitleOfBareNumber` | renderer-main.js:486-487 | `"2024.mp3"` gives `"2024"` |
| `NameRules.HasParenNumber` | renderer-main.js:726 | the test succeeds iff the name has `(`, one or more digits, `)` somewhere |
| `NameRules.ParenNumberAtSpec` | renderer-main.js:726 | the match attempt at a `(` succeeds iff one or more digits and then `)` follow it |
| `NameRules.ParenNumberFromSpec` | renderer-main.js:726 | the scan from position `i` finds a marker iff one starts at or after `i` |
| `NameRules.DuplicateCandidates` | renderer-main.js:724-727 | a path is a candidate iff it is in the selection and its basename holds a marker; a selection without repeats gives candidates without repeats |
| `NameRules.DuplicateCandidatesAppend` | renderer-main.js:724-727 | the candidates of a concatenation are those of each part, in order |
| `NameRules.DuplicateCandidatesOne` | renderer-main.js:724-727 | one path is kept iff its basename holds a marker; with the previous row this fixes the order and count of the candidates |
| `NameRules.MarkerIn` | renderer-main.js:726 | any text with `(digits)` inside it matches |
| `NameRules.NoMarkerWithoutParen` | renderer-main.js:726 | text without `(` never matches |
| `NameRules.MarkedNameIsCandidate` | renderer-main.js:724-727 | a file name with a marker anywhere is a candidate |
| `NameRules.UnmarkedNameIsNoCandidate` | renderer-main.js:724-727 | a file name without `(` is not a candidate |
| `NameRules.SongIsCandidate` | renderer-main.js:724-727 | `Song(1).mp3` is a candidate |
| `NameRules.MixIsCandidate` | renderer-main.js:724-727 | `Mix (2) live.wav` is a candidate: the marker need not sit before the extension |
| `NameRules.CandidatesOfThree` | renderer-main.js:724-727 | the filter keeps the marked paths in their order |
| `NameRules.DuplicateCandidatesExample` | renderer-main.js:724-727 | `["Song.mp3", "Song(1).mp3", "Mix (2) live.wav"]` gives `["Song(1).mp3", "Mix (2) live.wav"]` |
| `Id3Tags.FirstText` | main.js:412 | `a \|\| b \|\| … \|\| ''` gives the first non-empty value in key order, and `''` iff all are empty |
| `Id3Tags.ReadMetadata` | main.js:400-421 | an untagged file reads as all fields `''` with no cover; a throwing read gives the error reply with the exception's message; a tagged file's title, artist and album are its text frames or `''`, its comment is the comment frame's text or `''`, and its cover is its picture as a data URL |
| `Id3Tags.GenreFallback` | main.js:412 | genre is `genre`, else `TCON`, else `TCO`, else `''` |
| `Id3Tags.TrackNumberFallback` | main.js:420 | track number is `trackNumber`, else `TRCK`, else `''` |
| `Id3Tags.ParseImageUrl` | main.js:448 | a match yields a `\w+` subtype and a non-empty, line-terminator-free payload that rebuild the URL |
| `Id3Tags.ParseImageUrlOf` | main.js:448 | `data:image/X;base64,B` parses back to `X` and `B` |
| `Id3Tags.ReadCoverParses` | main.js:405-408 | the data URL that read builds for an `image/X` picture parses back to `X` and its payload |
| `Id3Tags.CoverFrame` | main.js:447-457 | a frame is made exactly when a cover URL is given and parses as an image data URL; it has type id 3, mime `image/<subtype>` and the payload as data, both taken from that URL |
| `Id3Tags.Spread` | main.js:431-445 | the written tags hold every existing key plus the listed ones; unlisted keys keep their values; listed fields get the supplied text, genre in three keys, track number in two, comment as `eng` |
| `Id3Tags.TagsToWrite` | main.js:429-457 | a throwing read gives an error; otherwise the keys are the existing ones, the listed ones and `image` when a cover parses, and no existing value outside them changes |
| `Id3Tags.ReadOfWrittenFields` | main.js:431-445 | tags holding the listed fields as the write sets them (genre under three keys, track number under two, comment as a comment frame) read back as exactly those fields |
| `Id3Tags.ReadAfterWrite` | main.js:429-445 | reading the written tags gives back every supplied text field |
| `Id3Tags.CoverSurvivesReadWrite` | main.js:447-457 | a cover that was read and sent back unchanged reads back the same |
| `Id3Tags.WriteKeepsPicture` | main.js:447-457 | without an image data URL the existing picture stays exactly as it was |
| `Id3Tags.WriteBlanksOmittedFields` | main.js:433-440 | a field left empty is blanked, even when the file had a value |
| `BatchMetadata.BatchRecord` | renderer-main.js:674-695 | artist, album and genre take the batch value if non-empty, else the existing value; title and track number keep the existing value unless their box is checked; no cover is sent |
| `BatchMetadata.AutoNumberIsPosition` | renderer-main.js:692-694 | with auto-numbering the `i`-th file's track number is a numeral of value `i + 1` |
| `BatchMetadata.AutoNumbersDiffer` | renderer-main.js:692-694 | with auto-numbering no two files of a batch share a track number |
| `BatchMetadata.BatchWritePreserves` | renderer-main.js:674-698 | writing the record keeps the picture and comment, and every field the batch leaves open reads back as before |
| `BatchMetadata.ApplyBatchMetadata` | renderer-main.js:638-700 | the loop writes one record per selected audio file, in selection order, each built from that file's own read |
| `FileOps.CandidateInjective` | main.js:266-268 | distinct counters give distinct numbered names |
| `FileOps.FirstFree` | main.js:265-270 | the collision loop ends on a name not in `existing`; every earlier candidate exists |
| `FileOps.MoveCandidateShape` | main.js:278-284 | every name tried lies in the target folder, and the numbered ones keep the extension |
| `FileOps.TrashFirstCandidateKeepsName` | main.js:262-264 | the first trash name keeps the file's basename |
| `FileOps.TrashDestination` | main.js:260-270 | the trash name lies in `dirname(p)/_CuratorTrash`, is free, and is the first free name in order: the basename, then `base__1.ext`, `base__2.ext`, … |
| `FileOps.MoveDestination` | main.js:276-284 | the move name is free and the first free one in the same order, in the chosen folder |
| `FileOps.WithExtension` | main.js:508-511 | the result ends with the extension (ignoring case); what precedes the extension is a prefix of the name; a name that already ends with the extension is kept |
| `FileOps.NormalizeReply` | main.js:502-511 | the new name ends with the old extension (ignoring case) and has no quote before it; what precedes the extension is a prefix of the trimmed, quote-free reply, and that reply is the name when it already ends with the extension |
| `FileOps.NormalizeQuotedReply` | main.js:502-505 | a quote-free reply wrapped in `"` or `'` and padded with white space gives the same name as the bare reply, and the reply itself when it ends with the old extension |
| `FileOps.RemoveQuotesOfQuoted` | main.js:505 | a quote-free string in one pair of quotes loses exactly the two quotes |
| `FileOps.NormalizeCleanReply` | main.js:502-511 | a clean reply that already ends with the extension is kept as is |
| `FileOps.RemoveQuotesOfClean` | main.js:505 | removing quotes from a quote-free string changes nothing |
| `FileOps.NormalizeSwapsExtension` | main.js:508-511 | a reply with another extension has that extension swapped for the old one |
| `FileOps.RenameFile` | main.js:488-527 | a failed request or rename gives an error; success gives a free path, the first free one of `name`, `stem 1.ext`, `stem 2.ext`, …, with its basename as the new name |
| `FileOps.RenameCandidateKeepsExtension` | main.js:517-523 | numbered rename candidates end with the old extension |
| `FileOps.ConvertOutputPath` | main.js:467 | a `.wav` path (any case) keeps everything but its last four characters, which become `.mp3`; any other path is unchanged |
| `FileOps.ConvertOutputIsMp3` | main.js:467 | the output of a `.wav` is an `.mp3`, differs from the input, and maps to itself |
| `FileOps.QualityArg` | main.js:468 | the quality map is defined exactly for 0, 2 and 4, which map to their numerals |
| `Listing.SortByName` | main.js:203 | the sort is a permutation, and under a total preorder it orders by lower-cased basenames |
| `Listing.SortByNameStable` | main.js:203 | under a total preorder the sort is stable: the paths whose names tie with any given key keep their input order |
| `Listing.SortByNameOfTwo` | main.js:203 | two paths already in order, ties included, stay in order |
| `Listing.SortByNameKeepsSameNames` | main.js:203 | `/x/Song.mp3` and `/y/Song.mp3` stay in the order given |
| `Listing.SortByKeepsTies` | main.js:203 | the insertion sort keeps every group of elements that tie with each other in input order |
| `Listing.InsertKeepsTies` | main.js:203 | inserting into a sorted sequence puts the new element after every element it ties with |
| `Listing.InsertSorted` | main.js:203 | inserting into a sorted sequence keeps it sorted |
| `Listing.SortBySorted` | main.js:203 | insertion sort orders by any total preorder |
| `Listing.FirstStatFailure` | main.js:217-236 | none iff no path's `lstat` fails; otherwise the first failing path and its message |
| `Listing.DirsOf` | main.js:222-225 | exactly the paths that are directories |
| `Listing.MediaFilesOf` | main.js:226-228 | exactly the non-directory paths with a media extension |
| `Listing.ListFolder` | main.js:197-205 | a failed `readdir` or `lstat` gives an error; otherwise the listing is a permutation of the joined entries that are files with a media extension, sorted |
| `Listing.ListFolderStable` | main.js:199-203 | in a listing, files whose names tie keep the order `readdir` gave them |
| `Listing.ValidPaths` | main.js:212 | exactly the non-empty string entries |
| `Listing.ValidPathsAppend` | main.js:212 | the valid paths of a concatenation are those of each part, in order |
| `Listing.ValidPathsOne` | main.js:212 | one entry is kept iff it is a non-empty string; with the previous row this fixes the order of the paths |
| `Listing.DropOutcome` | main.js:210-257 | a non-array is refused; the first unreadable path fails the drop with its message; when every path is readable and one is a folder, the reply is the listing of the first folder named after it, or that listing's error; when none is a folder, the reply is the dropped media files sorted by name (a permutation, ordered under a total preorder), named `<n> files` |
| `Listing.DropOutcomeStable` | main.js:254 | dropped files whose names tie keep the order they were dropped in |
| `Listing.ClassifyPaths` | main.js:217-237 | the loop stops at the first failing `lstat` and otherwise collects the folders and media files in order |
| `Listing.FirstFailureExtends` | main.js:233-236 | the first failure past a failure-free prefix is the one the loop stops at |
| `Listing.HandleDroppedPaths` | main.js:210-257 | the handler returns what `DropOutcome` specifies |
| `LibraryState.InitialIsValid` | renderer-main.js:4-13 | the opening state satisfies both invariants |
| `LibraryState.LoadFilesValid` | renderer-main.js:103-111 | loading a non-empty list installs it, empties selection and both caches, sets the index to 0 so its first file is shown, and gives a valid, coherent state |
| `LibraryState.LoadEmptyKeepsStaleIndex` | renderer-main.js:109 | loading an empty list keeps the old index, which then names no file |
| `LibraryState.LoadVideoLaws` | renderer-main.js:113-115 | showing a file changes only the index, to `idx` exactly when `idx` is in range; an out-of-range request leaves the whole state unchanged; both invariants are kept |
| `LibraryState.Toggle` | renderer-main.js:214-219 | `p` leaves if present, else joins; no other path changes; no repeats arise |
| `LibraryState.ToggleTwice` | renderer-main.js:214-219 | toggling twice restores the selected set, and the very sequence when `p` was not selected |
| `LibraryState.ToggleSelectionKeeps` | renderer-main.js:214-220 | toggling keeps the state valid, and coherent when the path is in the library |
| `LibraryState.ToggleForeignPath` | renderer-main.js:214-219 | toggling a path outside the library selects it anyway |
| `LibraryState.SelectAllOf` | renderer-main.js:222-226 | select-all gives exactly the library's paths, once each |
| `LibraryState.SelectAllOfDistinct` | renderer-main.js:222-226 | on a library without repeats, select-all selects the library in order |
| `LibraryState.SelectAllNone` | renderer-main.js:222-232 | select-all selects exactly the library, select-none nothing; both keep both invariants |
| `LibraryState.SnapshotOfValid` | renderer-main.js:256-258 | the snapshot is empty iff nothing is selected or shown, and names only library files |
| `LibraryState.RemovePath` | renderer-main.js:276-283 | one occurrence leaves the library, the path leaves selection and both caches, other entries keep their values, and the index stays within `[-1, length]` |
| `LibraryState.RemovePathSplices` | renderer-main.js:276-279 | the first occurrence of the path is the one spliced out, the others keep their order, and the index drops by one exactly when that occurrence lay before it |
| `LibraryState.RemoveKeepsCurrentFile` | renderer-main.js:277-279 | removing any other file keeps the same file shown |
| `LibraryState.RemoveCurrentFile` | renderer-main.js:277-279 | removing the file shown keeps the index, which then names the next file |
| `LibraryState.NoSuccessNoChange` | renderer-main.js:272 | if every item fails, the loop changes nothing and counts no success |
| `LibraryState.RemoveAllKeeps` | renderer-main.js:270-285 | the loop keeps the index within `[-1, length]`, the selection free of repeats, and coherence |
| `LibraryState.RemoveAllDropsSucceeded` | renderer-main.js:270-285 | a path the main process removed is gone from the selection, both caches and (if it occurred once) the library |
| `LibraryState.RemoveAllShrinks` | renderer-main.js:270-285 | the loop only removes library entries |
| `LibraryState.RemoveAllKeepsOthers` | renderer-main.js:270-285 | a library file no successful item names stays |
| `LibraryState.Settle` | renderer-main.js:287-291 | a non-empty library keeps an index in range, an index past the end becomes `length - 1`, and a negative one becomes 0, with nothing else changed; an empty one is cleared (index -1, no selection) |
| `LibraryState.RemoveBatchLaws` | renderer-main.js:270-291 | a batch leaves a valid state, coherent if it was; successes plus failures equal the snapshot length; an all-failed batch only settles |
| `LibraryState.DeleteMoveKeep` | renderer-main.js:254-338 | delete and move keep both invariants |
| `LibraryState.DeleteAfterStaleIndex` | renderer-main.js:256-291 | after an empty load with a stale index, delete counts one failure and clears the state |
| `LibraryState.ReplacePath` | renderer-main.js:619-626 | the old path's first slot gets the new path and no other slot changes, later copies of the old path included; the selection loses the old path and gains the new; index and caches are untouched |
| `LibraryState.ReplaceAllLaws` | renderer-main.js:610-628 | a replace loop keeps length, index and caches, keeps validity, leaves slots of non-items alone, and changes nothing when all calls fail |
| `LibraryState.ReplaceLeavesStaleCache` | renderer-main.js:619-626 | a cached path replaced by another leaves its cache entry under a path no longer in the library |
| `LibraryState.ConvertSelectedLaws` | renderer-main.js:593-636 | batch convert touches only slots of selected `.wav` files (any case), and keeps length, index, caches and validity |
| `LibraryState.ConvertOneSelected` | renderer-main.js:600-626 | one selected `.wav` that converts is replaced by its `.mp3` in place and in the selection |
| `LibraryState.ConvertSelectedAsWritten` | renderer-main.js:613-615 | as written, the call throws exactly when a `.wav` is selected, and never changes the state |
| `LibraryState.ConvertSelectedThrows` | renderer-main.js:615 | as written, a selected convertible `.wav` stays unconverted, while the corrected loop converts it |
| `LibraryState.AiBatchRenameLaws` | renderer-main.js:707-769 | batch rename touches only the slots of selected duplicate candidates, keeps length, index, caches and validity, and does nothing when Ollama is down |
| `LibraryState.ConvertCurrentLaws` | renderer-main.js:556-573 | single convert keeps length, index, selection, caches and validity; the shown file's slot becomes its `.mp3` output path when it is a `.wav` that converts, and otherwise (nothing shown, not a `.wav`, or a failed conversion) nothing changes |
| `LibraryState.ConvertCurrentLeavesSelection` | renderer-main.js:568 | a selected file converted alone stays selected under its old path, outside the library |
| `LibraryState.GenerateThumbnailLaws` | renderer-main.js:188-207 | the answer is cached afterwards; only `p`'s cache entries change; a cached cover beats reading; a second call answers from the cache |
| `LibraryState.SaveCachesNewCover` | renderer-main.js:509-533 | saving a new cover and re-reading caches that cover's data URL for the file shown |
| `LibraryState.SaveCachesCover` | renderer-main.js:531-533 | a re-read that carries a cover caches it for the file shown |
| `LibraryState.SaveMetadataLaws` | renderer-main.js:495-552 | saving leaves library, index, selection and thumbnail cache alone, keeps every cover key, keeps coherence, and does nothing on a failed write |
| `LibraryState.LoadMetadataFieldsLaws` | renderer-main.js:463-466 | loading the tag panel caches exactly the file's cover, if any |
| `Renderer.App.constructor` | renderer-main.js:4-13 | the record starts empty, with index -1 |
| `Renderer.App.LoadFiles` | renderer-main.js:103-111 | the fields become what `LoadFiles` specifies |
| `Renderer.App.LoadVideo` | renderer-main.js:113-115 | the fields become what `LoadVideo` specifies |
| `Renderer.App.ToggleSelection` | renderer-main.js:214-220 | the selection is toggled as `Toggle` specifies, and nothing else changes |
| `Renderer.App.SelectAll` | renderer-main.js:222-226 | the loop builds the selection `SelectAllOf` specifies |
| `Renderer.App.SelectNone` | renderer-main.js:228-231 | the selection is emptied |
| `Renderer.App.ClearAll` | renderer-main.js:340-343 | library and selection are emptied and the index is -1; the caches stay |
| `Renderer.App.TakeSnapshot` | renderer-main.js:256-258 | the snapshot is the one `Snapshot` specifies |
| `Renderer.App.RemoveEach` | renderer-main.js:270-285 | the loop produces the state `RemoveAll` specifies, and its counts sum to the snapshot length |
| `Renderer.App.SettleIndex` | renderer-main.js:287-291 | the clamp-or-clear produces what `Settle` specifies |
| `Renderer.App.DeleteVideo` | renderer-main.js:254-294 | state and counts are those of `Delete` |
| `Renderer.App.MoveVideo` | renderer-main.js:296-338 | state and counts are those of `Move` |
| `Renderer.App.ReplaceInPlace` | renderer-main.js:619-626 | the fields become what `ReplacePath` specifies |
| `Renderer.App.ReplaceEach` | renderer-main.js:610-628 | the loop produces what `ReplaceAll` specifies |
| `Renderer.App.ConvertSelectedToMp3` | renderer-main.js:593-636 | the corrected loop produces `ConvertSelected` and tries exactly the selected `.wav` paths |
| `Renderer.App.AiBatchRename` | renderer-main.js:707-769 | the loop produces `AiBatchRename` and tries exactly the selected duplicate candidates |
| `Renderer.App.ConvertWavToMp3` | renderer-main.js:556-573 | the fields become what `ConvertCurrent` specifies |
| `Renderer.App.GenerateThumbnail` | renderer-main.js:188-207 | the answer and the caches are those of `GenerateThumbnail` |
| `Renderer.App.LoadMetadataFields` | renderer-main.js:463-466 | the cover-art cache write of `LoadMetadataFields` |
| `Renderer.App.SaveMetadata` | renderer-main.js:495-552 | the cover-art cache write of `SaveMetadata` |

## Left out

- DOM rendering and wiring are not modelled: `refreshViews`, `updateSelection`, `updateSelectionCount`, `toggleView`, the players, event listeners, the drag counter, the resizer and the keyboard shortcuts. They change no field of the model, with one exception: `refreshViews` starts `generateThumbnail` for every file, whose cache writes are asynchronous. That lookup is modelled as its own operation and is not sequenced into the handlers that refresh.
- `alert` and `confirm` are left out: every confirmation is taken as accepted.
- The `isDeleting`/`isMoving` re-entrancy flags, the 100 ms pause and every `await` interleaving are left out, because they are timing. Each handler is modelled as running to completion without interruption.
- ffmpeg, ffprobe, NodeID3, base64, the file system and the Ollama HTTP calls are parameters. A cover's payload is kept as its base64 text, and decoding and re-encoding it is taken as the identity.
- The streamed reply assembly and the regular-expression scrape in `aiSuggestMetadata`, and the `getMetadata` text with its floating-point formatting, are left out as parsing of external output.
- `localeCompare` is left out: the sort is modelled over an abstract comparator. Its order and its stability are proved when the comparator is a total preorder.
- `Text.Lower` folds ASCII letters only; JavaScript's `toLowerCase` also folds non-ASCII letters.
- `PathNames` uses POSIX semantics without normalising `..` or repeated separators. Windows separators and drive letters as `path` treats them are not modelled.
- `FileOps.RenameFile`'s reply covers only the model's answer and the final rename. Network and JSON failures are all one `None`.
- The `EXDEV` copy-and-unlink fallback of `fs:moveFile` is left out: a move is one success or failure.
- `Id3Tags`: values of tag keys that are not text frames read as absent. The `imageBuffer` check of `metadata:read` is taken as always true for a picture frame.
- `FileOps.QualityArg`: `parseInt` of the select's value and a `NaN` quality are not modelled; the model takes an integer.
- The completion messages of the batch loops, which report the total count whatever failed, are display only and not modelled.
- In `fs:handleDroppedPaths` the folder listing's sort comparator is modelled as the same abstract one as in `fs:loadFolder`.
- `Listing.SortByName`: states sortedness only when the comparator is a total preorder, because `localeCompare` is not modelled.
- `FileOps.RenameFile`: the stem is cut with a case-sensitive `path.basename(newName, ext)`, as written. A reply `"Rose.MP3"` for `x.mp3` therefore keeps its own extension too (`Rose.MP3 1.mp3`); the contract states the candidate sequence and not a cleaner name.

## Findings

| source | as written | input that shows it | evidently intended | confidence | as-written member | corrected member |
|---|---|---|---|---|---|---|
| renderer-main.js:615 | the batch convert loop sets its status text with `path.basename(filepath)`, but `path` is not defined in the context-isolated renderer, so the first iteration throws before any conversion starts | a selection holding one `.wav` file, e.g. `["/m/a.wav"]`, with ffmpeg able to convert it | every selected `.wav` is converted and replaced in place by its `.mp3` in the library and the selection | not executed | `LibraryState.ConvertSelectedAsWritten` | `LibraryState.ConvertSelected` |

For this finding, `LibraryState.ConvertSelectedThrows` proves both halves on
the same input: the as-written call leaves the library unchanged, and the
corrected loop changes it. `ConvertOneSelected` and `ConvertSelectedLaws`
prove the intended behaviour of the corrected loop. `Renderer.App` models
the corrected loop.
