/** The main process's tag handlers: `metadata:read` turns the ID3 frames of a
    file into the flat record the renderer shows, and `metadata:write` merges
    the renderer's record into the frames already in the file. The ID3 codec
    itself is abstract: a read yields no tags, a frame map, or an exception. */
module Id3Tags {
  import opened Seqs
  import opened Text

  /** One value of the codec's tag object. A picture keeps its image bytes as
      their base64 text. */
  datatype Frame =
    | TextFrame(text: string)
    | CommentFrame(language: string, text: string)
    | PictureFrame(mime: string, typeId: int, typeName: string, description: string, data: string)
    | OtherFrame(raw: string)

  /** The keys of the codec's tag object that the handlers name; every other
      key is `Named`. */
  datatype TagKey =
    | Title | Artist | Album | Genre | TCON | TCO | TrackNumber | TRCK | Comment | Image
    | Named(name: string)

  /** The codec's tag object, by key. */
  type Tags = map<TagKey, Frame>

  /** What reading a file's tags can give. */
  datatype TagRead = NoTags | Tagged(tags: Tags) | ReadThrows(message: string)

  /** The record the renderer receives from `metadata:read`. */
  datatype Metadata = Metadata(
    title: string, artist: string, album: string, genre: string,
    comment: string, trackNumber: string, coverArt: Option<string>)

  /** The reply of `metadata:read`: the record, or `{ error }`. */
  datatype ReadReply = Read(meta: Metadata) | ReadError(message: string)

  /** The record a file without tags reads as. */
  const Untagged := Metadata("", "", "", "", "", "", None)

  /** `tags[key] || ''` for a key that holds text. */
  function TextValue(tags: Tags, key: TagKey): string {
    if key in tags && tags[key].TextFrame? then tags[key].text else ""
  }

  /** `tags[k0] || tags[k1] || ... || ''`: the first non-empty text. */
  function FirstText(tags: Tags, keys: seq<TagKey>): (r: string)
    ensures r == "" <==> forall i :: 0 <= i < |keys| ==> TextValue(tags, keys[i]) == ""
    ensures r != "" ==> exists i :: (0 <= i < |keys| && r == TextValue(tags, keys[i])
      && forall j :: 0 <= j < i ==> TextValue(tags, keys[j]) == "")
  {
    if keys == [] then ""
    else if TextValue(tags, keys[0]) != "" then
      TextValue(tags, keys[0])
    else
      var r := FirstText(tags, keys[1..]);
      assert forall i :: 1 <= i < |keys| ==> keys[i] == keys[1..][i - 1];
      if r != "" then
        var i :| 0 <= i < |keys[1..]| && r == TextValue(tags, keys[1..][i])
          && forall j :: 0 <= j < i ==> TextValue(tags, keys[1..][j]) == "";
        assert forall j :: 0 <= j < i + 1 ==> TextValue(tags, keys[j]) == "" by {
          forall j | 0 <= j < i + 1 ensures TextValue(tags, keys[j]) == "" {
            if j > 0 { assert keys[j] == keys[1..][j - 1]; }
          }
        }
        r
      else r
  }

  /** One step of the `||` chain. */
  lemma FirstTextStep(tags: Tags, keys: seq<TagKey>)
    requires keys != []
    ensures FirstText(tags, keys)
      == if TextValue(tags, keys[0]) != "" then TextValue(tags, keys[0]) else FirstText(tags, keys[1..])
  {
  }

  /** The keys the genre is looked up under, in order. */
  const GenreKeys: seq<TagKey> := [Genre, TCON, TCO]

  /** The keys the track number is looked up under, in order. */
  const TrackKeys: seq<TagKey> := [TrackNumber, TRCK]

  /** `data:<mime>;base64,<payload>`, the URL form a picture crosses to the
      renderer in (section 3 of RFC 2397). */
  function DataUrl(mime: string, payload: string): string {
    "data:" + mime + ";base64," + payload
  }

  /** The cover of a tag object: its picture as a data URL, if it has one. */
  function CoverArtOf(tags: Tags): Option<string> {
    if Image in tags && tags[Image].PictureFrame? then
      Some(DataUrl(tags[Image].mime, tags[Image].data))
    else None
  }

  /** `tags.comment.text || ''`. */
  function CommentOf(tags: Tags): string {
    if Comment in tags && tags[Comment].CommentFrame? then tags[Comment].text else ""
  }

  /** `metadata:read`. */
  function ReadMetadata(r: TagRead): (m: ReadReply)
    ensures r.NoTags? ==> m == Read(Untagged)
    ensures r.ReadThrows? <==> m.ReadError?
    ensures r.ReadThrows? ==> m == ReadError(r.message)
    ensures r.Tagged? ==> m.Read? && m.meta.coverArt == CoverArtOf(r.tags)
    ensures r.Tagged? ==> (m.meta.title == TextValue(r.tags, Title)
      && m.meta.artist == TextValue(r.tags, Artist) && m.meta.album == TextValue(r.tags, Album))
    ensures r.Tagged? ==> (m.meta.comment ==
      if Comment in r.tags && r.tags[Comment].CommentFrame? then r.tags[Comment].text else "")
  {
    match r
    case NoTags => Read(Untagged)
    case ReadThrows(msg) => ReadError(msg)
    case Tagged(tags) =>
      Read(Metadata(
        TextValue(tags, Title), TextValue(tags, Artist), TextValue(tags, Album),
        FirstText(tags, GenreKeys), CommentOf(tags), FirstText(tags, TrackKeys),
        CoverArtOf(tags)))
  }

  /** The genre read is the first non-empty of `genre`, `TCON`, `TCO`. */
  lemma GenreFallback(tags: Tags)
    ensures var g := ReadMetadata(Tagged(tags)).meta.genre;
      g == (if TextValue(tags, Genre) != "" then TextValue(tags, Genre)
            else if TextValue(tags, TCON) != "" then TextValue(tags, TCON)
            else TextValue(tags, TCO))
  {
    FirstTextStep(tags, GenreKeys);
    assert GenreKeys[1..] == [TCON, TCO];
    FirstTextStep(tags, [TCON, TCO]);
    assert [TCON, TCO][1..] == [TCO];
    FirstTextStep(tags, [TCO]);
    assert [TCO][1..] == [];
  }

  /** The track number read is `trackNumber` if non-empty, else `TRCK`. */
  lemma TrackNumberFallback(tags: Tags)
    ensures var t := ReadMetadata(Tagged(tags)).meta.trackNumber;
      t == (if TextValue(tags, TrackNumber) != "" then TextValue(tags, TrackNumber)
            else TextValue(tags, TRCK))
  {
    FirstTextStep(tags, TrackKeys);
    assert TrackKeys[1..] == [TRCK];
    FirstTextStep(tags, [TRCK]);
    assert [TRCK][1..] == [];
  }

  /** The regular-expression `\w+` captured as the image subtype. */
  predicate IsSubtype(s: string) {
    s != [] && forall k :: 0 <= k < |s| ==> IsWordChar(s[k])
  }

  /** The regular-expression `.+` captured as the payload. */
  predicate IsPayload(s: string) {
    s != [] && forall k :: 0 <= k < |s| ==> !IsLineTerminator(s[k])
  }

  const ImageUrlPrefix := "data:image/"
  const Base64Marker := ";base64,"

  /** `u.match(/^data:image\/(\w+);base64,(.+)$/)`: the subtype and the
      payload, when `u` has that shape. */
  function ParseImageUrl(u: string): (r: Option<(string, string)>)
    ensures r.Some? ==> (IsSubtype(r.value.0) && IsPayload(r.value.1)
      && u == ImageUrlPrefix + r.value.0 + Base64Marker + r.value.1)
  {
    if !StartsWith(u, ImageUrlPrefix) then None
    else
      var rest := u[|ImageUrlPrefix|..];
      var n := LeadingCount(rest, IsWordChar);
      var tail := rest[n..];
      if n >= 1 && StartsWith(tail, Base64Marker) && IsPayload(tail[|Base64Marker|..]) then
        assert u == ImageUrlPrefix + rest;
        assert rest == rest[..n] + Base64Marker + tail[|Base64Marker|..];
        Some((rest[..n], tail[|Base64Marker|..]))
      else None
  }

  /** Every URL of that shape parses back into its parts. */
  lemma ParseImageUrlOf(sub: string, payload: string)
    requires IsSubtype(sub) && IsPayload(payload)
    ensures ParseImageUrl(ImageUrlPrefix + sub + Base64Marker + payload) == Some((sub, payload))
  {
    var u := ImageUrlPrefix + sub + Base64Marker + payload;
    assert StartsWith(u, ImageUrlPrefix);
    var rest := u[|ImageUrlPrefix|..];
    assert rest == sub + (Base64Marker + payload);
    assert (Base64Marker + payload)[0] == ';';
    LeadingCountOfPrefix(rest, IsWordChar, |sub|);
    assert rest[..|sub|] == sub;
    assert rest[|sub|..] == Base64Marker + payload;
    assert (Base64Marker + payload)[|Base64Marker|..] == payload;
  }

  /** The cover URL that `metadata:read` builds for a picture of MIME type
      `image/<subtype>` is one that `metadata:write` accepts back, with the
      same subtype and payload. */
  lemma ReadCoverParses(sub: string, payload: string)
    requires IsSubtype(sub) && IsPayload(payload)
    ensures ParseImageUrl(DataUrl("image/" + sub, payload)) == Some((sub, payload))
  {
    assert DataUrl("image/" + sub, payload) == ImageUrlPrefix + sub + Base64Marker + payload;
    ParseImageUrlOf(sub, payload);
  }

  /** The record `metadata:write` receives; a field the caller left out is `''`. */
  datatype Edits = Edits(
    title: string, artist: string, album: string, genre: string,
    comment: string, trackNumber: string, coverArt: Option<string>)

  /** The picture frame written for a cover URL, if the URL is an image data URL. */
  function CoverFrame(coverArt: Option<string>): (r: Option<Frame>)
    ensures r.Some? ==> (r.value.PictureFrame? && r.value.typeId == 3
      && exists sub :: IsSubtype(sub) && r.value.mime == "image/" + sub)
    ensures r.Some? <==> (coverArt.Some? && ParseImageUrl(coverArt.value).Some?)
    ensures r.Some? ==> (var parsed := ParseImageUrl(coverArt.value).value;
      r.value.mime == "image/" + parsed.0 && r.value.data == parsed.1)
  {
    match coverArt
    case None => None
    case Some(u) =>
      match ParseImageUrl(u)
      case None => None
      case Some((sub, payload)) =>
        assert ("image/" + sub)[6..] == sub;
        Some(PictureFrame("image/" + sub, 3, "front cover", "Cover", payload))
  }

  /** The keys `metadata:write` always sets. */
  const WrittenKeys: set<TagKey> :=
    {Title, Artist, Album, Genre, TCON, TCO, TrackNumber, TRCK, Comment}

  /** The existing tags a write starts from: `NodeID3.read(filePath) || {}`. */
  function Existing(r: TagRead): Tags {
    if r.Tagged? then r.tags else map[]
  }

  /** `tagsToWrite` of `metadata:write`, or the error when reading the file threw. */
  datatype WritePlan = Plan(tags: Tags) | PlanError(message: string)

  /** The spread `{...existingTags, title: ..., comment: {...}}`: every listed
      field set from the edits, every other key as it was. */
  function Spread(base: Tags, e: Edits): (r: Tags)
    ensures r.Keys == base.Keys + WrittenKeys
    ensures forall k :: k in base && k !in WrittenKeys ==> r[k] == base[k]
    ensures r[Title] == TextFrame(e.title) && r[Artist] == TextFrame(e.artist)
      && r[Album] == TextFrame(e.album)
    ensures r[Genre] == TextFrame(e.genre) && r[TCON] == TextFrame(e.genre)
      && r[TCO] == TextFrame(e.genre)
    ensures r[TrackNumber] == TextFrame(e.trackNumber) && r[TRCK] == TextFrame(e.trackNumber)
    ensures r[Comment] == CommentFrame("eng", e.comment)
  {
    base[
      Title := TextFrame(e.title)][
      Artist := TextFrame(e.artist)][
      Album := TextFrame(e.album)][
      Genre := TextFrame(e.genre)][
      TCON := TextFrame(e.genre)][
      TCO := TextFrame(e.genre)][
      TrackNumber := TextFrame(e.trackNumber)][
      TRCK := TextFrame(e.trackNumber)][
      Comment := CommentFrame("eng", e.comment)]
  }

  /** `metadata:write`'s merge: the existing frames, overridden by the listed
      fields (genre under three keys, track number under two, the comment as
      an English comment frame) and by a new picture when the cover parses. */
  function TagsToWrite(existing: TagRead, e: Edits): (r: WritePlan)
    ensures existing.ReadThrows? <==> r.PlanError?
    ensures r.Plan? ==> (r.tags.Keys == Existing(existing).Keys + WrittenKeys
      + (if CoverFrame(e.coverArt).Some? then {Image} else {}))
    ensures r.Plan? ==> forall k :: k in Existing(existing) ==>
      (k !in WrittenKeys && !(k == Image && CoverFrame(e.coverArt).Some?) ==> r.tags[k] == Existing(existing)[k])
  {
    if existing.ReadThrows? then PlanError(existing.message)
    else
      var merged := Spread(Existing(existing), e);
      match CoverFrame(e.coverArt)
      case None => Plan(merged)
      case Some(f) => Plan(merged[Image := f])
  }

  /** Tags holding the listed fields as `metadata:write` sets them read back
      as those fields. */
  lemma ReadOfWrittenFields(t: Tags, e: Edits)
    requires WrittenKeys <= t.Keys
    requires t[Title] == TextFrame(e.title) && t[Artist] == TextFrame(e.artist)
      && t[Album] == TextFrame(e.album)
    requires t[Genre] == TextFrame(e.genre) && t[TCON] == TextFrame(e.genre)
      && t[TCO] == TextFrame(e.genre)
    requires t[TrackNumber] == TextFrame(e.trackNumber) && t[TRCK] == TextFrame(e.trackNumber)
    requires t[Comment] == CommentFrame("eng", e.comment)
    ensures var m := ReadMetadata(Tagged(t)).meta;
      m.title == e.title && m.artist == e.artist && m.album == e.album
      && m.genre == e.genre && m.comment == e.comment && m.trackNumber == e.trackNumber
  {
    GenreFallback(t);
    TrackNumberFallback(t);
  }

  /** Reading back what `metadata:write` wrote gives the written fields
      exactly, and the new cover or else the one the file already had. */
  lemma ReadAfterWrite(existing: TagRead, e: Edits)
    requires !existing.ReadThrows?
    ensures var m := ReadMetadata(Tagged(TagsToWrite(existing, e).tags)).meta;
      m.title == e.title && m.artist == e.artist && m.album == e.album
      && m.genre == e.genre && m.comment == e.comment && m.trackNumber == e.trackNumber
      && m.coverArt == (match CoverFrame(e.coverArt)
                        case Some(f) => Some(DataUrl(f.mime, f.data))
                        case None => CoverArtOf(Existing(existing)))
  {
    var merged := Spread(Existing(existing), e);
    match CoverFrame(e.coverArt)
    case None =>
      assert TagsToWrite(existing, e) == Plan(merged);
      ReadOfWrittenFields(merged, e);
    case Some(f) =>
      var t := merged[Image := f];
      assert TagsToWrite(existing, e) == Plan(t);
      assert Image !in WrittenKeys;
      ReadOfWrittenFields(t, e);
  }

  /** A cover that was read from a file (a picture of MIME type
      `image/<subtype>`) and sent back unchanged is written back as the same
      picture data. */
  lemma CoverSurvivesReadWrite(existing: TagRead, e: Edits, sub: string, payload: string)
    requires !existing.ReadThrows?
    requires IsSubtype(sub) && IsPayload(payload)
    requires e.coverArt == Some(DataUrl("image/" + sub, payload))
    ensures ReadMetadata(Tagged(TagsToWrite(existing, e).tags)).meta.coverArt == e.coverArt
  {
    ReadCoverParses(sub, payload);
    ReadAfterWrite(existing, e);
  }

  /** A write that does not carry an image data URL keeps the file's picture. */
  lemma WriteKeepsPicture(existing: TagRead, e: Edits)
    requires !existing.ReadThrows?
    requires e.coverArt.None? || ParseImageUrl(e.coverArt.value).None?
    ensures var t := TagsToWrite(existing, e).tags;
      (Image in t <==> Image in Existing(existing))
      && (Image in t ==> t[Image] == Existing(existing)[Image])
  {
  }

  /** A field the caller leaves empty is blanked in the file, even when the
      file had a value for it: writing only an artist erases the title. */
  lemma WriteBlanksOmittedFields(artist: string)
    ensures var existing := Tagged(map[Title := TextFrame("Old title"), Artist := TextFrame("Old artist")]);
      var m := ReadMetadata(Tagged(TagsToWrite(existing, Edits("", artist, "", "", "", "", None)).tags)).meta;
      m.title == "" && m.artist == artist
  {
    var existing := Tagged(map[Title := TextFrame("Old title"), Artist := TextFrame("Old artist")]);
    ReadAfterWrite(existing, Edits("", artist, "", "", "", "", None));
  }
}
