/** The media classifier `getMediaType`: a file name is an image, a video
    or an audio file according to its lower-cased last extension. */
module Media {
  import opened Text
  import opened Normalize

  datatype MediaType = Image | Video | Audio | Unknown

  /** The extension lists, checked in this order. */
  const ImageExtensions: seq<string> := ["jpg", "jpeg", "png", "gif", "webp"]
  const VideoExtensions: seq<string> := ["mp4", "webm", "ogg"]
  const AudioExtensions: seq<string> := ["mp3", "wav", "aac", "ogg"]

  /** The type an already lower-cased extension stands for. */
  function Classify(ext: string): (t: MediaType)
    ensures t == Image <==> ext in ImageExtensions
    ensures t == Video <==> ext in VideoExtensions
    ensures t == Audio <==> ext in AudioExtensions && ext !in VideoExtensions
  {
    if ext in ImageExtensions then Image
    else if ext in VideoExtensions then Video
    else if ext in AudioExtensions then Audio
    else Unknown
  }

  /** The text after the last dot, or the whole name when it has none. */
  function Extension(filename: string): string
  {
    var parts := Split(filename, '.');
    parts[|parts| - 1]
  }

  /** `getMediaType` (script.js), with the host's `toLowerCase` given by
      `f.lower`. */
  function GetMediaType(f: CharFolding, filename: string): (r: MediaType)
    ensures '.' !in filename ==> r == Unknown
    ensures r == Image <==> '.' in filename && Lowered(f, Extension(filename)) in ImageExtensions
    ensures r == Video <==> '.' in filename && Lowered(f, Extension(filename)) in VideoExtensions
    ensures r == Audio <==> ('.' in filename && Lowered(f, Extension(filename)) in AudioExtensions
      && Lowered(f, Extension(filename)) !in VideoExtensions)
  {
    if filename == [] || '.' !in filename then Unknown
    else Classify(Lowered(f, Extension(filename)))
  }

  /** Only the text after the last dot decides, so `a.mp3.png` is an image
      and `x.png.ogg` a video. */
  lemma LastExtensionDecides(f: CharFolding, stem: string, ext: string)
    requires '.' !in ext
    ensures GetMediaType(f, stem + "." + ext) == Classify(Lowered(f, ext))
  {
    var name := stem + "." + ext;
    assert name[|stem|] == '.';
    SplitLast(stem, ext, '.');
  }

  /** `ogg` is listed both as video and as audio; the video test comes
      first, so an `.ogg` file is never audio. */
  lemma OggIsVideo(f: CharFolding, stem: string)
    requires f.lower('o') == 'o' && f.lower('g') == 'g'
    ensures GetMediaType(f, stem + ".ogg") == Video
  {
    LastExtensionDecides(f, stem, "ogg");
    assert stem + ".ogg" == stem + "." + "ogg";
    var low := Lowered(f, "ogg");
    assert low[0] == 'o' && low[1] == 'g' && low[2] == 'g';
    assert low == "ogg";
    assert VideoExtensions[2] == "ogg";
  }
}
