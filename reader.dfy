/**
 * The metadata reader `get_current_exif`: the Artist text and the
 * DateTimeOriginal text of an image, each falling back to a default on its own.
 */
module Reader {
  import opened Wrappers
  import opened Utf8
  import opened PyText
  import opened ExifRecord

  /** The dictionary the reader gets to look at, if opening and loading succeed. */
  function LoadedDict(f: ImageFile): (r: Option<ExifDict>)
    ensures r.Some? <==> f.ExifLoads?
  {
    match f
    case ExifLoads(d) => Some(d)
    case _ => None
  }

  /**
   * The text of one tag: None when the tag is absent, holds no byte string, or its
   * bytes are not valid UTF-8 (the cases in which `.decode('utf-8')` is not reached
   * or raises).
   */
  function TagText(ifd: Ifd, tag: Tag): (r: Option<string>)
    ensures r.Some? ==> tag in ifd && ifd[tag] == TextValue(r.value)
  {
    if tag in ifd && ifd[tag].ByteString? then
      var r := Decode(ifd[tag].bytes);
      EncodeDecode(ifd[tag].bytes);
      r
    else None
  }

  /** The artist the reader reports: the decoded Artist tag without trailing NULs, or "". */
  function ReadArtist(d: Option<ExifDict>): string {
    match d
    case Some(dict) => (
      match TagText(dict.zeroth, ArtistTag)
      case Some(t) => StripTrailingNul(t)
      case None => "")
    case None => ""
  }

  /** The date the reader reports: the decoded DateTimeOriginal tag unless it is missing, undecodable or empty; then `now`. */
  function ReadDate(d: Option<ExifDict>, now: string): string {
    match d
    case Some(dict) => (
      match TagText(dict.exif, DateTimeOriginalTag)
      case Some(t) => if t == "" then now else t
      case None => now)
    case None => now
  }

  /**
   * `get_current_exif(file_path)` with `datetime.now().strftime(...)` passed in as
   * `now`: both results start empty and are filled in step by step, each
   * tag guarded separately, the date falling back to `now` at the end.
   */
  method GetCurrentExif(f: ImageFile, now: string) returns (artist: string, dateStr: string)
    ensures artist == ReadArtist(LoadedDict(f))
    ensures dateStr == ReadDate(LoadedDict(f), now)
  {
    artist := "";
    dateStr := "";
    if f.ExifLoads? {
      var dict := f.dict;
      if ArtistTag in dict.zeroth {
        var v := dict.zeroth[ArtistTag];
        if v.ByteString? {
          var text := Decode(v.bytes);
          if text.Some? {
            artist := StripTrailingNul(text.value);
          }
        }
      }
      if DateTimeOriginalTag in dict.exif {
        var v := dict.exif[DateTimeOriginalTag];
        if v.ByteString? {
          var text := Decode(v.bytes);
          if text.Some? {
            dateStr := text.value;
          }
        }
      }
    }
    if dateStr == "" {
      dateStr := now;
    }
  }

  /** Without a loaded EXIF dictionary the reader reports an empty artist and the current time. */
  lemma ReadWithoutExif(f: ImageFile, now: string)
    requires !f.ExifLoads?
    ensures ReadArtist(LoadedDict(f)) == "" && ReadDate(LoadedDict(f), now) == now
  {
  }

  /**
   * The Artist fallback: "" exactly when the tag is missing or undecodable; otherwise
   * the decoded text with its trailing NULs removed (and no NUL left at the end).
   */
  lemma ArtistFallback(d: ExifDict)
    ensures var a := ReadArtist(Some(d));
            && (TagText(d.zeroth, ArtistTag).None? ==> a == "")
            && (TagText(d.zeroth, ArtistTag).Some? ==>
                  var t := TagText(d.zeroth, ArtistTag).value;
                  a == t[..|a|] && (a == [] || a[|a| - 1] != '\0')
                  && forall i :: |a| <= i < |t| ==> t[i] == '\0')
  {
  }

  /** The date fallback: `now` exactly when DateTimeOriginal is missing, undecodable or decodes to "". */
  lemma DateFallback(d: ExifDict, now: string)
    requires now != ""
    ensures ReadDate(Some(d), now) == now
            <==> TagText(d.exif, DateTimeOriginalTag) in {None, Some(""), Some(now)}
  {
  }

  /** The reported date is never empty when `now` is not. */
  lemma DateNeverEmpty(d: Option<ExifDict>, now: string)
    requires now != ""
    ensures ReadDate(d, now) != ""
  {
  }

  /**
   * The two fields fail independently: the artist depends only on the Artist entry
   * of "0th", the date only on the DateTimeOriginal entry of "Exif".
   */
  lemma FieldsIndependent(d1: ExifDict, d2: ExifDict, now: string)
    ensures (ArtistTag in d1.zeroth <==> ArtistTag in d2.zeroth)
            && (ArtistTag in d1.zeroth ==> d1.zeroth[ArtistTag] == d2.zeroth[ArtistTag])
            ==> ReadArtist(Some(d1)) == ReadArtist(Some(d2))
    ensures (DateTimeOriginalTag in d1.exif <==> DateTimeOriginalTag in d2.exif)
            && (DateTimeOriginalTag in d1.exif ==> d1.exif[DateTimeOriginalTag] == d2.exif[DateTimeOriginalTag])
            ==> ReadDate(Some(d1), now) == ReadDate(Some(d2), now)
  {
  }

  /**
   * Reading back an edited dictionary gives the edit: the artist written (up to
   * trailing NULs, which the reader strips) and the date written, unless that date
   * was empty.
   */
  lemma ReadUpdated(d: ExifDict, artist: string, datetime: string, now: string)
    ensures ReadArtist(Some(Updated(d, artist, datetime))) == StripTrailingNul(artist)
    ensures ReadDate(Some(Updated(d, artist, datetime)), now) == if datetime == "" then now else datetime
  {
    DecodeEncode(artist);
    DecodeEncode(datetime);
  }
}
