/** The three extension lists and the category tests on a path
    (case-insensitive suffix match), shared by the renderer and the main
    process. */
module MediaTypes {
  import opened Text

  const ImageExts: seq<string> := [".jpg", ".jpeg", ".png", ".gif", ".webp", ".bmp", ".tiff", ".tif"]
  const VideoExts: seq<string> := [".mp4", ".avi", ".mov", ".mkv", ".webm", ".flv", ".wmv", ".mpg", ".mpeg", ".m4v"]
  const AudioExts: seq<string> := [".mp3", ".wav", ".flac", ".ogg", ".m4a", ".aac", ".wma", ".opus", ".aiff"]

  /** The main process's combined list, videos first, then images, then audio. */
  const MediaExts: seq<string> := VideoExts + ImageExts + AudioExts

  /** `exts.some(ext => p.toLowerCase().endsWith(ext))`. */
  predicate HasExtension(p: string, exts: seq<string>) {
    exists i :: 0 <= i < |exts| && EndsWith(Lower(p), exts[i])
  }

  predicate IsImage(p: string) { HasExtension(p, ImageExts) }
  predicate IsVideo(p: string) { HasExtension(p, VideoExts) }
  predicate IsAudio(p: string) { HasExtension(p, AudioExts) }
  predicate IsMedia(p: string) { HasExtension(p, MediaExts) }

  /** `p.toLowerCase().endsWith('.wav')`, the test for a convertible file. */
  predicate IsWav(p: string) { EndsWith(Lower(p), ".wav") }

  /** `p.toLowerCase().endsWith('.mp3')`, the test for a file whose tags may hold cover art. */
  predicate IsMp3(p: string) { EndsWith(Lower(p), ".mp3") }

  /** Matching the concatenated list is matching one of its parts. */
  lemma HasExtensionAppend(p: string, a: seq<string>, b: seq<string>)
    ensures HasExtension(p, a + b) <==> HasExtension(p, a) || HasExtension(p, b)
  {
    if HasExtension(p, a + b) {
      var i :| 0 <= i < |a + b| && EndsWith(Lower(p), (a + b)[i]);
      if i >= |a| {
        assert (a + b)[i] == b[i - |a|];
      }
    }
    if HasExtension(p, b) {
      var i :| 0 <= i < |b| && EndsWith(Lower(p), b[i]);
      assert (a + b)[|a| + i] == b[i];
    }
    if HasExtension(p, a) {
      var i :| 0 <= i < |a| && EndsWith(Lower(p), a[i]);
      assert (a + b)[i] == a[i];
    }
  }

  /** The main process's media filter accepts exactly what the renderer
      classifies as image, video or audio. */
  lemma MediaIsSomeCategory(p: string)
    ensures IsMedia(p) <==> IsImage(p) || IsVideo(p) || IsAudio(p)
  {
    HasExtensionAppend(p, VideoExts + ImageExts, AudioExts);
    HasExtensionAppend(p, VideoExts, ImageExts);
  }

  /** A WAV file is an audio file; an MP3 file is an audio file. */
  lemma WavAndMp3AreAudio(p: string)
    ensures IsWav(p) ==> IsAudio(p)
    ensures IsMp3(p) ==> IsAudio(p)
  {
    assert AudioExts[1] == ".wav";
    assert AudioExts[0] == ".mp3";
  }

  /** The category tests ignore case: a path and its lower-cased form fall in
      the same categories. */
  lemma CategoriesIgnoreCase(p: string)
    ensures IsImage(p) == IsImage(Lower(p))
    ensures IsVideo(p) == IsVideo(Lower(p))
    ensures IsAudio(p) == IsAudio(Lower(p))
    ensures IsMedia(p) == IsMedia(Lower(p))
    ensures IsWav(p) == IsWav(Lower(p))
  {
    LowerIdempotent(p);
  }
}
