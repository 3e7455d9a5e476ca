/** The fixed extension tables and the media-type lookup of `src/media_types.rs`. */
module MediaTypes {
  import opened Wrappers
  import opened Text
  import opened Paths

  datatype MediaType = Image | Video | Audio

  /** `extension` is the upper-case form used for directory names. */
  datatype MediaInfo = MediaInfo(mediaType: MediaType, extension: string)

  const ImageExtensions: set<string> := {
    "jpg", "jpeg", "png", "gif", "tiff", "tif", "bmp", "webp", "heic", "heif",
    "nef", "nrw", "cr2", "cr3", "crw", "arw", "srf", "sr2", "dng", "orf",
    "pef", "raf", "rw2", "3fr", "iiq", "mef", "mos", "erf", "k25", "kdc", "dcr", "dcs"
  }

  const VideoExtensions: set<string> := {
    "mp4", "m4v", "mov", "qt", "avi", "mkv", "webm", "wmv", "flv", "f4v",
    "mts", "m2ts", "3gp", "3g2", "mpg", "mpeg", "mpe", "mpv", "ogv", "vob"
  }

  const AudioExtensions: set<string> := {
    "flac", "wav", "aiff", "alac", "ape", "mp3", "aac", "m4a", "ogg", "oga",
    "opus", "wma", "m4b", "amr"
  }

  /** The table each media type is looked up in. */
  function Table(t: MediaType): set<string> {
    match t
    case Image => ImageExtensions
    case Video => VideoExtensions
    case Audio => AudioExtensions
  }

  /** The tables match literal strings: an upper-case extension is not recognised. */
  predicate IsImageExtension(ext: string) { ext in ImageExtensions }
  predicate IsVideoExtension(ext: string) { ext in VideoExtensions }
  predicate IsAudioExtension(ext: string) { ext in AudioExtensions }

  /** Called from `src/main.rs` but not defined in `src/media_types.rs`: the union
      of the three tables. */
  predicate IsMediaExtension(ext: string) {
    IsImageExtension(ext) || IsVideoExtension(ext) || IsAudioExtension(ext)
  }

  /** Every table entry is lower-case letters and digits. */
  lemma TablesLowerAlnum(ext: string)
    requires IsMediaExtension(ext)
    ensures IsLowerAlnum(ext) && |ext| > 0
  {
  }

  /** Lower-casing leaves every table entry as it is. */
  lemma TableEntryLower(ext: string)
    requires IsMediaExtension(ext)
    ensures ToLower(ext) == ext
  {
    TablesLowerAlnum(ext);
    LowerOfLower(ext);
  }

  /** No extension is in two tables, so the image-video-audio order of the lookup
      never hides a type. */
  lemma TablesDisjoint()
    ensures ImageExtensions !! VideoExtensions
    ensures ImageExtensions !! AudioExtensions
    ensures VideoExtensions !! AudioExtensions
  {
    forall e | e in ImageExtensions ensures e !in VideoExtensions { ImageNotVideo(e); }
    forall e | e in ImageExtensions ensures e !in AudioExtensions { ImageNotAudio(e); }
    forall e | e in VideoExtensions ensures e !in AudioExtensions { VideoNotAudio(e); }
  }

  lemma ImageNotVideo(e: string)
    requires e in ImageExtensions
    ensures e !in VideoExtensions
  {
  }

  lemma ImageNotAudio(e: string)
    requires e in ImageExtensions
    ensures e !in AudioExtensions
  {
  }

  lemma VideoNotAudio(e: string)
    requires e in VideoExtensions
    ensures e !in AudioExtensions
  {
  }

  /** The lookup lower-cases the path's extension, tries image, video, audio in that
      order, and reports the upper-cased extension. */
  function GetMediaInfo(path: Path): (r: Option<MediaInfo>)
    ensures r.None? <==> Extension(path).None? || !IsMediaExtension(ToLower(Extension(path).value))
    ensures r.Some? ==>
      var ext := ToLower(Extension(path).value);
      && (forall t :: ext in Table(t) <==> t == r.value.mediaType)
      && IsUpperAlnum(r.value.extension) && |r.value.extension| > 0
      && ToLower(r.value.extension) == ext
  {
    match Extension(path)
    case None => None
    case Some(raw) =>
      var ext := ToLower(raw);
      if IsImageExtension(ext) then
        TablesDisjoint(); TablesLowerAlnum(ext); LowerOfUpper(ext);
        Some(MediaInfo(Image, ToUpper(ext)))
      else if IsVideoExtension(ext) then
        TablesDisjoint(); TablesLowerAlnum(ext); LowerOfUpper(ext);
        Some(MediaInfo(Video, ToUpper(ext)))
      else if IsAudioExtension(ext) then
        TablesDisjoint(); TablesLowerAlnum(ext); LowerOfUpper(ext);
        Some(MediaInfo(Audio, ToUpper(ext)))
      else None
  }

  /** The unit tests of `src/media_types.rs`. */
  lemma TableExamples()
    ensures IsImageExtension("jpg") && IsImageExtension("nef") && IsImageExtension("cr2")
    ensures !IsImageExtension("mp4")
    ensures IsVideoExtension("mp4") && IsVideoExtension("mov") && !IsVideoExtension("jpg")
    ensures IsAudioExtension("mp3") && IsAudioExtension("flac") && !IsAudioExtension("jpg")
    ensures !IsImageExtension("JPG") && !IsMediaExtension("MP4")
  {
  }
}
