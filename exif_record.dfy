/**
 * The EXIF dictionary as piexif loads and dumps it: one tag-to-value map per
 * image file directory ("0th", "Exif", "GPS", "Interop", "1st") and an optional
 * thumbnail, together with the edit that the writer applies to it.
 */
module ExifRecord {
  import opened Wrappers
  import opened Utf8

  /** A 16-bit TIFF tag number. */
  type Tag = t: int | 0 <= t < 0x1_0000

  // Tag numbers piexif names ImageIFD.Artist, ImageIFD.Software, ImageIFD.DateTime
  // (in "0th") and ExifIFD.DateTimeOriginal, ExifIFD.DateTimeDigitized (in "Exif").
  const ArtistTag: Tag := 0x013B
  const SoftwareTag: Tag := 0x0131
  const DateTimeTag: Tag := 0x0132
  const DateTimeOriginalTag: Tag := 0x9003
  const DateTimeDigitizedTag: Tag := 0x9004

  /** The name the writer records in the Software tag. */
  const SoftwareName: string := "Python Exif Editor"

  /**
   * A tag's value as piexif hands it over: a byte string for ASCII and UNDEFINED
   * tags, integers (or rational pairs, flattened) for the numeric ones.
   */
  datatype Value = ByteString(bytes: Bytes) | Numbers(numbers: seq<int>)

  type Ifd = map<Tag, Value>

  datatype ExifDict = ExifDict(
    zeroth: Ifd,
    exif: Ifd,
    gps: Ifd,
    /** None when the dictionary has no "Interop" entry at all. */
    interop: Option<Ifd>,
    first: Ifd,
    thumbnail: Option<Bytes>)

  /** The dictionary the writer starts from when the image carries no EXIF block. */
  const Empty: ExifDict := ExifDict(map[], map[], map[], None, map[], None)

  /**
   * What opening an image and loading its EXIF block yields: Image.open raises,
   * the image has no "exif" entry in its info, piexif.load raises, or the loaded
   * dictionary.
   */
  datatype ImageFile =
    | OpenFails(openError: string)
    | NoExif
    | ExifFails(loadError: string)
    | ExifLoads(dict: ExifDict)

  /** The text a tag holds after the edit: its UTF-8 bytes. */
  function TextValue(s: string): Value {
    ByteString(Encode(s))
  }

  /**
   * The value stored under the Software tag, spelled as bytes so that the verifier
   * does not evaluate the encoder on a literal; SoftwareValueIsEncodedName shows it
   * is `SoftwareName.encode('utf-8')`.
   */
  const SoftwareValue: Value := ByteString([0x50, 0x79, 0x74, 0x68, 0x6F, 0x6E, 0x20, 0x45, 0x78,
                                            0x69, 0x66, 0x20, 0x45, 0x64, 0x69, 0x74, 0x6F, 0x72])

  lemma SoftwareValueIsEncodedName()
    ensures SoftwareValue == TextValue(SoftwareName)
  {
    EncodeAscii(SoftwareName, SoftwareValue.bytes);
  }

  /**
   * The five keyed assignments of the writer: Artist, Software and DateTime in
   * "0th", DateTimeOriginal and DateTimeDigitized in "Exif". Every other entry of
   * the dictionary is kept.
   */
  function Updated(d: ExifDict, artist: string, datetime: string): (u: ExifDict)
    ensures u.zeroth.Keys == d.zeroth.Keys + {ArtistTag, SoftwareTag, DateTimeTag}
    ensures u.exif.Keys == d.exif.Keys + {DateTimeOriginalTag, DateTimeDigitizedTag}
    ensures u.zeroth[ArtistTag] == TextValue(artist)
    ensures u.zeroth[SoftwareTag] == SoftwareValue
    ensures u.zeroth[DateTimeTag] == TextValue(datetime)
    ensures u.exif[DateTimeOriginalTag] == TextValue(datetime)
    ensures u.exif[DateTimeDigitizedTag] == TextValue(datetime)
    ensures u.gps == d.gps && u.interop == d.interop && u.first == d.first && u.thumbnail == d.thumbnail
  {
    ExifDict(
      d.zeroth + map[ArtistTag := TextValue(artist), SoftwareTag := SoftwareValue, DateTimeTag := TextValue(datetime)],
      d.exif + map[DateTimeOriginalTag := TextValue(datetime), DateTimeDigitizedTag := TextValue(datetime)],
      d.gps, d.interop, d.first, d.thumbnail)
  }

  /** Nothing but the five edited tags changes: all other tags, and GPS, Interop, 1st and the thumbnail, are kept. */
  lemma UpdatedKeepsOtherEntries(d: ExifDict, artist: string, datetime: string, t: Tag)
    ensures var u := Updated(d, artist, datetime);
            && u.gps == d.gps && u.interop == d.interop && u.first == d.first && u.thumbnail == d.thumbnail
            && (t !in {ArtistTag, SoftwareTag, DateTimeTag} ==>
                  (t in u.zeroth <==> t in d.zeroth) && (t in d.zeroth ==> u.zeroth[t] == d.zeroth[t]))
            && (t !in {DateTimeOriginalTag, DateTimeDigitizedTag} ==>
                  (t in u.exif <==> t in d.exif) && (t in d.exif ==> u.exif[t] == d.exif[t]))
  {
  }

  /** Starting from the empty dictionary, "0th" ends with exactly three tags and "Exif" with exactly two. */
  lemma UpdatedEmpty(artist: string, datetime: string)
    ensures var u := Updated(Empty, artist, datetime);
            && |u.zeroth| == 3 && |u.exif| == 2
            && u.gps == map[] && u.first == map[] && u.interop == None && u.thumbnail == None
  {
    var u := Updated(Empty, artist, datetime);
    assert u.zeroth.Keys == {ArtistTag, SoftwareTag, DateTimeTag};
    assert u.exif.Keys == {DateTimeOriginalTag, DateTimeDigitizedTag};
  }

  /** A second edit overrides the first completely: only the last artist and date survive. */
  lemma UpdatedTwice(d: ExifDict, a1: string, t1: string, a2: string, t2: string)
    ensures Updated(Updated(d, a1, t1), a2, t2) == Updated(d, a2, t2)
  {
  }

  /** Repeating the same edit changes nothing. */
  lemma UpdatedIdempotent(d: ExifDict, artist: string, datetime: string)
    ensures Updated(Updated(d, artist, datetime), artist, datetime) == Updated(d, artist, datetime)
  {
    UpdatedTwice(d, artist, datetime, artist, datetime);
  }

  /** Different edits give different dictionaries: the artist and the date can be told apart afterwards. */
  lemma UpdatedInjective(d: ExifDict, a1: string, t1: string, a2: string, t2: string)
    requires Updated(d, a1, t1) == Updated(d, a2, t2)
    ensures a1 == a2 && t1 == t2
  {
    var u1, u2 := Updated(d, a1, t1), Updated(d, a2, t2);
    assert u1.zeroth[ArtistTag] == u2.zeroth[ArtistTag];
    EncodeInjective(a1, a2);
    assert u1.zeroth[DateTimeTag] == u2.zeroth[DateTimeTag];
    EncodeInjective(t1, t2);
  }
}
