/** The renderer's batch tag editor: for every selected audio file it reads
    the file's tags, builds one record from them and the batch fields, and
    writes that record back. */
module BatchMetadata {
  import opened Seqs
  import opened Text
  import opened PathNames
  import opened MediaTypes
  import opened NameRules
  import opened Id3Tags

  /** JavaScript's `a || b` on strings: `a` unless it is empty. */
  function Or(a: string, b: string): string {
    if a != "" then a else b
  }

  /** What the renderer sees of a read reply: the record, or (for `{ error }`)
      a record whose fields are all `undefined`, which `|| ''` turns into `''`. */
  function Seen(existing: ReadReply): Metadata {
    if existing.Read? then existing.meta else Untagged
  }

  /** The batch fields the user typed and the two check boxes. */
  datatype BatchFields = BatchFields(
    artist: string, album: string, genre: string, getTitle: bool, autoNumber: bool)

  /** The record written for the `i`-th audio file (0-based), named `filename`. */
  function BatchRecord(existing: ReadReply, b: BatchFields, filename: string, i: nat): (r: Edits)
    ensures r.coverArt.None?
    ensures r.artist == (if b.artist != "" then b.artist else Seen(existing).artist)
    ensures r.album == (if b.album != "" then b.album else Seen(existing).album)
    ensures r.genre == (if b.genre != "" then b.genre else Seen(existing).genre)
    ensures r.comment == Seen(existing).comment
    ensures r.title == (if b.getTitle then TitleFromFilename(filename) else Seen(existing).title)
    ensures b.autoNumber ==> r.trackNumber == NatToString(i + 1)
    ensures !b.autoNumber ==> r.trackNumber == Seen(existing).trackNumber
  {
    var prev := Seen(existing);
    var title := if b.getTitle then TitleFromFilename(filename) else Or(prev.title, "");
    var track := if b.autoNumber then NatToString(i + 1) else Or(prev.trackNumber, "");
    Edits(title, Or(b.artist, Or(prev.artist, "")), Or(b.album, Or(prev.album, "")),
      Or(b.genre, Or(prev.genre, "")), Or(prev.comment, ""), track, None)
  }

  /** With auto-numbering, the `i`-th file's track number is the numeral of `i + 1`. */
  lemma AutoNumberIsPosition(existing: ReadReply, b: BatchFields, filename: string, i: nat)
    requires b.autoNumber
    ensures var t := BatchRecord(existing, b, filename, i).trackNumber;
      (forall k :: 0 <= k < |t| ==> IsDigit(t[k])) && DecimalValue(t) == i + 1
  {
    DecimalRoundTrip(i + 1);
  }

  /** With auto-numbering, two files of one batch never get the same track
      number. */
  lemma AutoNumbersDiffer(e1: ReadReply, e2: ReadReply, b: BatchFields, f1: string, f2: string, i: nat, j: nat)
    requires b.autoNumber && i != j
    ensures BatchRecord(e1, b, f1, i).trackNumber != BatchRecord(e2, b, f2, j).trackNumber
  {
    if NatToString(i + 1) == NatToString(j + 1) {
      NatToStringInjective(i + 1, j + 1);
    }
  }

  /** Writing a batch record into a file whose tags read back as `existing`
      keeps the file's picture, and the fields the batch does not set read
      back as they were. */
  lemma BatchWritePreserves(tags: TagRead, b: BatchFields, filename: string, i: nat)
    requires tags.Tagged?
    ensures var existing := ReadMetadata(tags);
      var m := ReadMetadata(Tagged(TagsToWrite(tags, BatchRecord(existing, b, filename, i)).tags)).meta;
      m.coverArt == Seen(existing).coverArt
      && m.comment == Seen(existing).comment
      && (b.artist == "" ==> m.artist == Seen(existing).artist)
      && (b.album == "" ==> m.album == Seen(existing).album)
      && (b.genre == "" ==> m.genre == Seen(existing).genre)
      && (!b.getTitle ==> m.title == Seen(existing).title)
      && (!b.autoNumber ==> m.trackNumber == Seen(existing).trackNumber)
  {
    var existing := ReadMetadata(tags);
    ReadAfterWrite(tags, BatchRecord(existing, b, filename, i));
  }

  /** The batch loop: the selected audio files, in selection order, each
      paired with the record written to it. `readTags` stands for the
      `readMetadata` call on each file. */
  method ApplyBatchMetadata(selection: seq<string>, b: BatchFields, readTags: string -> ReadReply)
    returns (writes: seq<(string, Edits)>)
    ensures var audio := Filter(selection, IsAudio);
      |writes| == |audio|
      && forall i :: 0 <= i < |writes| ==>
        writes[i] == (audio[i], BatchRecord(readTags(audio[i]), b, DisplayName(audio[i]), i))
  {
    writes := [];
    if |selection| == 0 {
      return;
    }
    var audioFiles := Filter(selection, IsAudio);
    if |audioFiles| == 0 {
      return;
    }
    ghost var write := (p: string, k: nat) => (p, BatchRecord(readTags(p), b, DisplayName(p), k));
    var i := 0;
    while i < |audioFiles|
      invariant 0 <= i <= |audioFiles|
      invariant writes == MapIndexed(audioFiles, write, i)
    {
      var filepath := audioFiles[i];
      var filename := DisplayName(filepath);
      var existing := readTags(filepath);
      var metadata := BatchRecord(existing, b, filename, i);
      assert (filepath, metadata) == write(audioFiles[i], i);
      writes := writes + [(filepath, metadata)];
      i := i + 1;
    }
    forall k | 0 <= k < |writes|
      ensures writes[k] == (audioFiles[k], BatchRecord(readTags(audioFiles[k]), b, DisplayName(audioFiles[k]), k))
    {
      MapIndexedAt(audioFiles, write, |audioFiles|, k);
    }
  }
}
