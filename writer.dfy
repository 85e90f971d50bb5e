/**
 * The metadata writer `save_new_exif_smart`: build the edited EXIF dictionary,
 * then either inject it into a (copied) JPEG or re-encode the image with it,
 * turning every exception into `(False, str(e))`.
 */
module Writer {
  import opened Wrappers
  import opened PyText
  import opened ExifRecord

  /** How the edited dictionary reaches the output file; ReEncodedSave keeps the lower-cased extension. */
  datatype Strategy = JpegInjection | ReEncodedSave(ext: string)

  /** Chosen from the lower-cased extension of the output path. */
  function SelectStrategy(outputPath: string): (s: Strategy)
    ensures s.JpegInjection? <==> Lower(Splitext(outputPath).1) in [".jpg", ".jpeg"]
    ensures s.ReEncodedSave? ==> s.ext == Lower(Splitext(outputPath).1)
  {
    var ext := Lower(Splitext(outputPath).1);
    if ext in [".jpg", ".jpeg"] then JpegInjection else ReEncodedSave(ext)
  }

  /** The success message of each strategy; the re-encoding one names the upper-cased extension. */
  function SuccessMessage(s: Strategy): string {
    match s
    case JpegInjection => "保存成功（JPEG注入モード）"
    case ReEncodedSave(ext) => "保存成功（" + Upper(ext) + "保存モード）"
  }

  /**
   * Which of the foreign calls raise, and with what text: piexif.dump,
   * shutil.copy2, piexif.insert and Image.save. None means the call returns.
   */
  datatype Faults = Faults(dump: Option<string>, copy: Option<string>, insert: Option<string>, save: Option<string>)

  /** A change the writer makes to the file system; the dictionary stands for its dumped bytes. */
  datatype Effect =
    | CopyFile(src: string, dst: string)
    | InjectExif(block: ExifDict, path: string)
    | SaveWithExif(path: string, block: ExifDict)

  /** The pair `(success, message)` the writer returns, and the changes it made. */
  datatype SaveReply = SaveReply(success: bool, message: string, effects: seq<Effect>)

  /** The dictionary the edit starts from: the loaded one, the empty one, or the exception raised on the way. */
  function BaseDict(f: ImageFile): (r: Result<ExifDict>)
    ensures f.NoExif? ==> r == Success(Empty)
    ensures f.ExifLoads? ==> r == Success(f.dict)
    ensures f.OpenFails? ==> r == Failure(f.openError)
    ensures f.ExifFails? ==> r == Failure(f.loadError)
  {
    match f
    case OpenFails(e) => Failure(e)
    case NoExif => Success(Empty)
    case ExifFails(e) => Failure(e)
    case ExifLoads(d) => Success(d)
  }

  /** Whether the JPEG strategy copies the input first: only when the absolute paths differ. */
  predicate NeedsCopy(inputPath: string, outputPath: string, abspath: string -> string) {
    abspath(inputPath) != abspath(outputPath)
  }

  /**
   * What each foreign call on the writer's path does, in program order: the open
   * and load, `piexif.dump`, then `shutil.copy2` (only when the absolute paths
   * differ) and `piexif.insert` for a JPEG, or `img.save` otherwise. `Some(text)`
   * is a call that raises.
   */
  function CallOutcomes(f: ImageFile, inputPath: string, outputPath: string, abspath: string -> string,
                        faults: Faults): seq<Option<string>>
  {
    var load := if BaseDict(f).Failure? then Some(BaseDict(f).error) else None;
    var branch := if SelectStrategy(outputPath).JpegInjection? then
                    (if NeedsCopy(inputPath, outputPath, abspath) then [faults.copy] else []) + [faults.insert]
                  else [faults.save];
    [load, faults.dump] + branch
  }

  /** The text of the first call that raises, if any: the exception `except Exception as e` catches. */
  function FirstRaised(outcomes: seq<Option<string>>): (r: Option<string>)
    ensures r.None? <==> forall i :: 0 <= i < |outcomes| ==> outcomes[i].None?
    ensures r.Some? ==> exists i :: 0 <= i < |outcomes| && outcomes[i] == r && forall j :: 0 <= j < i ==> outcomes[j].None?
  {
    if outcomes == [] then None
    else if outcomes[0].Some? then
      assert outcomes[0] == outcomes[0];
      outcomes[0]
    else
      var r := FirstRaised(outcomes[1..]);
      assert forall i :: 1 <= i < |outcomes| ==> outcomes[i] == outcomes[1..][i - 1];
      if r.Some? then
        var i :| 0 <= i < |outcomes[1..]| && outcomes[1..][i] == r && forall j :: 0 <= j < i ==> outcomes[1..][j].None?;
        assert outcomes[i + 1] == r;
        r
      else r
  }

  /**
   * The branch by extension (the part of the writer after `piexif.dump`): how the
   * dumped `block` reaches `outputPath`, with `abspath` standing for
   * `os.path.abspath` and `faults` for the foreign calls that raise.
   */
  function Write(block: ExifDict, inputPath: string, outputPath: string, abspath: string -> string, faults: Faults): SaveReply
  {
    match SelectStrategy(outputPath)
    case JpegInjection =>
      var copied := if NeedsCopy(inputPath, outputPath, abspath) then [CopyFile(inputPath, outputPath)] else [];
      if copied != [] && faults.copy.Some? then SaveReply(false, faults.copy.value, [])
      else if faults.insert.Some? then SaveReply(false, faults.insert.value, copied)
      else SaveReply(true, SuccessMessage(JpegInjection), copied + [InjectExif(block, outputPath)])
    case ReEncodedSave(ext) =>
      if faults.save.Some? then SaveReply(false, faults.save.value, [])
      else SaveReply(true, SuccessMessage(ReEncodedSave(ext)), [SaveWithExif(outputPath, block)])
  }

  /** What the writer does for an input image `f` at `inputPath`. */
  function Save(f: ImageFile, inputPath: string, outputPath: string, newArtist: string, newDatetime: string,
                abspath: string -> string, faults: Faults): SaveReply
  {
    match BaseDict(f)
    case Failure(e) => SaveReply(false, e, [])
    case Success(base) =>
      if faults.dump.Some? then SaveReply(false, faults.dump.value, [])
      else Write(Updated(base, newArtist, newDatetime), inputPath, outputPath, abspath, faults)
  }

  /**
   * The five keyed assignments that edit the dictionary in place, in the source's
   * order: Artist, Software, DateTimeOriginal, DateTimeDigitized, DateTime.
   */
  method ApplyEdits(d: ExifDict, newArtist: string, newDatetime: string) returns (exifDict: ExifDict)
    ensures exifDict == Updated(d, newArtist, newDatetime)
  {
    var zeroth := d.zeroth[ArtistTag := TextValue(newArtist)];
    zeroth := zeroth[SoftwareTag := SoftwareValue];
    var exif := d.exif[DateTimeOriginalTag := TextValue(newDatetime)];
    exif := exif[DateTimeDigitizedTag := TextValue(newDatetime)];
    zeroth := zeroth[DateTimeTag := TextValue(newDatetime)];
    var u := Updated(d, newArtist, newDatetime);
    assert zeroth == u.zeroth by {
      assert zeroth.Keys == u.zeroth.Keys;
      forall t | t in zeroth ensures zeroth[t] == u.zeroth[t] { }
    }
    assert exif == u.exif by {
      assert exif.Keys == u.exif.Keys;
      forall t | t in exif ensures exif[t] == u.exif[t] { }
    }
    exifDict := d.(zeroth := zeroth, exif := exif);
  }

  /**
   * `save_new_exif_smart(input_path, output_path, new_artist, new_datetime)`: the
   * dictionary is edited in place, dumped, and written by the strategy the
   * extension selects; each `raise` inside the `try` becomes an early
   * `(False, text)` return.
   */
  method SaveNewExifSmart(f: ImageFile, inputPath: string, outputPath: string, newArtist: string,
                          newDatetime: string, abspath: string -> string, faults: Faults)
    returns (reply: SaveReply)
    ensures reply == Save(f, inputPath, outputPath, newArtist, newDatetime, abspath, faults)
  {
    var exifDict: ExifDict;
    match f {
      case OpenFails(e) => return SaveReply(false, e, []);
      case ExifFails(e) => return SaveReply(false, e, []);
      case NoExif => exifDict := Empty;
      case ExifLoads(d) => exifDict := d;
    }
    exifDict := ApplyEdits(exifDict, newArtist, newDatetime);
    if faults.dump.Some? {
      return SaveReply(false, faults.dump.value, []);
    }
    reply := WriteByExtension(exifDict, inputPath, outputPath, abspath, faults);
  }

  /** The branch by extension: copy and inject for JPEG, re-encode with the block otherwise. */
  method WriteByExtension(block: ExifDict, inputPath: string, outputPath: string, abspath: string -> string, faults: Faults)
    returns (reply: SaveReply)
    ensures reply == Write(block, inputPath, outputPath, abspath, faults)
  {
    var ext := Lower(Splitext(outputPath).1);
    if ext in [".jpg", ".jpeg"] {
      var effects := [];
      if abspath(inputPath) != abspath(outputPath) {
        if faults.copy.Some? {
          return SaveReply(false, faults.copy.value, []);
        }
        effects := effects + [CopyFile(inputPath, outputPath)];
      }
      if faults.insert.Some? {
        return SaveReply(false, faults.insert.value, effects);
      }
      effects := effects + [InjectExif(block, outputPath)];
      reply := SaveReply(true, "保存成功（JPEG注入モード）", effects);
    } else {
      if faults.save.Some? {
        return SaveReply(false, faults.save.value, []);
      }
      reply := SaveReply(true, "保存成功（" + Upper(ext) + "保存モード）", [SaveWithExif(outputPath, block)]);
    }
  }

  /** Which extensions inject: `.jpg` and `.jpeg` in any letter case, given a file name before them. */
  lemma StrategyOfExtension(dir: string, name: string, ext: string)
    requires '/' !in name && '/' !in ext
    requires dir == [] || dir[|dir| - 1] == '/'
    requires HasNonDot(name, 0, |name|)
    requires |ext| > 0 && ext[0] == '.' && '.' !in ext[1..]
    ensures SelectStrategy(dir + name + ext) == if Lower(ext) in [".jpg", ".jpeg"] then JpegInjection else ReEncodedSave(Lower(ext))
  {
    SplitextOfNamedFile(dir, name, ext);
  }

  /** An upper-case `.JPG` is injected. */
  lemma UpperCaseJpgIsInjected()
    ensures SelectStrategy("OUT.JPG") == JpegInjection
  {
    assert HasNonDot("OUT", 0, 3) by { assert "OUT"[0] != '.'; }
    SplitextOfFileName("OUT", ".JPG");
    assert "OUT" + ".JPG" == "OUT.JPG";
    assert Lower(".JPG") == ".jpg";
  }

  /** `.jpeg` is injected. */
  lemma JpegIsInjected()
    ensures SelectStrategy("out.jpeg") == JpegInjection
  {
    assert HasNonDot("out", 0, 3) by { assert "out"[0] != '.'; }
    SplitextOfFileName("out", ".jpeg");
    assert "out" + ".jpeg" == "out.jpeg";
    assert Lower(".jpeg") == ".jpeg";
  }

  /** `.png` is re-encoded. */
  lemma PngIsReEncoded()
    ensures SelectStrategy("out.png") == ReEncodedSave(".png")
  {
    assert HasNonDot("out", 0, 3) by { assert "out"[0] != '.'; }
    SplitextOfFileName("out", ".png");
    assert "out" + ".png" == "out.png";
    assert Lower(".png") == ".png";
    assert ".png" !in [".jpg", ".jpeg"] by { assert ".png"[1] != ".jpg"[1]; assert |".png"| != |".jpeg"|; }
  }

  /** The message of a re-encoded `.png` save names the format in upper case. */
  lemma PngMessageNamesFormat()
    ensures SuccessMessage(ReEncodedSave(".png")) == "保存成功（.PNG保存モード）"
  {
    assert Upper(".png") == ".PNG";
  }

  /** `.webp` is re-encoded. */
  lemma WebpIsReEncoded()
    ensures SelectStrategy("out.webp") == ReEncodedSave(".webp")
  {
    assert HasNonDot("out", 0, 3) by { assert "out"[0] != '.'; }
    SplitextOfFileName("out", ".webp");
    assert "out" + ".webp" == "out.webp";
    assert Lower(".webp") == ".webp";
    assert ".webp" !in [".jpg", ".jpeg"] by { assert ".webp"[1] != ".jpeg"[1]; assert |".webp"| != |".jpg"|; }
  }

  /**
   * The writer succeeds exactly when the dictionary is obtained, dump returns and
   * the chosen strategy's calls return (the copy only counting when it happens).
   */
  lemma SaveSucceedsIff(f: ImageFile, inputPath: string, outputPath: string, newArtist: string, newDatetime: string,
                        abspath: string -> string, faults: Faults)
    ensures Save(f, inputPath, outputPath, newArtist, newDatetime, abspath, faults).success
            <==> (&& BaseDict(f).Success?
                  && faults.dump.None?
                  && (if SelectStrategy(outputPath).JpegInjection?
                      then (NeedsCopy(inputPath, outputPath, abspath) ==> faults.copy.None?) && faults.insert.None?
                      else faults.save.None?))
  {
  }

  /**
   * A failure carries the text of the first exception raised along the calls the
   * chosen strategy makes, in program order, and leaves no metadata written: at
   * most the copy of the input has happened. Success means no call raised.
   */
  lemma SaveFailureReportsRaisedText(f: ImageFile, inputPath: string, outputPath: string, newArtist: string,
                                     newDatetime: string, abspath: string -> string, faults: Faults)
    ensures var r := Save(f, inputPath, outputPath, newArtist, newDatetime, abspath, faults);
            var raised := FirstRaised(CallOutcomes(f, inputPath, outputPath, abspath, faults));
            && (r.success <==> raised.None?)
            && (!r.success ==> raised == Some(r.message) && forall e :: e in r.effects ==> e.CopyFile?)
  {
    FirstRaisedOfCalls(f, inputPath, outputPath, abspath, faults);
  }

  /** The first raise along the writer's calls, case by case. */
  lemma FirstRaisedOfCalls(f: ImageFile, inputPath: string, outputPath: string, abspath: string -> string, faults: Faults)
    ensures FirstRaised(CallOutcomes(f, inputPath, outputPath, abspath, faults))
            == if BaseDict(f).Failure? then Some(BaseDict(f).error)
               else if faults.dump.Some? then faults.dump
               else if SelectStrategy(outputPath).JpegInjection? then
                 (if NeedsCopy(inputPath, outputPath, abspath) && faults.copy.Some? then faults.copy else faults.insert)
               else faults.save
  {
    var outcomes := CallOutcomes(f, inputPath, outputPath, abspath, faults);
    var load := outcomes[0];
    var branch := outcomes[2..];
    FirstRaisedCons(load, [faults.dump] + branch);
    assert outcomes == [load] + ([faults.dump] + branch);
    FirstRaisedCons(faults.dump, branch);
    if SelectStrategy(outputPath).JpegInjection? {
      if NeedsCopy(inputPath, outputPath, abspath) {
        assert branch == [faults.copy] + [faults.insert];
        FirstRaisedCons(faults.copy, [faults.insert]);
      }
      FirstRaisedCons(faults.insert, []);
    } else {
      FirstRaisedCons(faults.save, []);
    }
  }

  /** The first raise of a call list is the head's, or else the first raise among the rest. */
  lemma FirstRaisedCons(head: Option<string>, rest: seq<Option<string>>)
    ensures FirstRaised([head] + rest) == if head.Some? then head else FirstRaised(rest)
  {
    assert ([head] + rest)[1..] == rest;
  }

  /**
   * The input is copied only for the JPEG strategy and only when the absolute
   * paths differ; a successful JPEG save between different paths always copies first.
   */
  lemma SaveCopiesOnlyBetweenDistinctPaths(f: ImageFile, inputPath: string, outputPath: string, newArtist: string,
                                           newDatetime: string, abspath: string -> string, faults: Faults)
    ensures var r := Save(f, inputPath, outputPath, newArtist, newDatetime, abspath, faults);
            && (forall e :: e in r.effects && e.CopyFile? ==>
                  e == CopyFile(inputPath, outputPath) && SelectStrategy(outputPath).JpegInjection?
                  && abspath(inputPath) != abspath(outputPath))
            && (r.success && SelectStrategy(outputPath).JpegInjection? && abspath(inputPath) != abspath(outputPath)
                ==> |r.effects| == 2 && r.effects[0] == CopyFile(inputPath, outputPath))
  {
    var r := Save(f, inputPath, outputPath, newArtist, newDatetime, abspath, faults);
    if BaseDict(f).Success? && faults.dump.None? {
      var block := Updated(BaseDict(f).value, newArtist, newDatetime);
      assert r == Write(block, inputPath, outputPath, abspath, faults);
      if SelectStrategy(outputPath).JpegInjection? && NeedsCopy(inputPath, outputPath, abspath) {
        assert r.effects == [] || r.effects == [CopyFile(inputPath, outputPath)]
               || r.effects == [CopyFile(inputPath, outputPath), InjectExif(block, outputPath)];
      } else if SelectStrategy(outputPath).JpegInjection? {
        assert r.effects == [] || r.effects == [InjectExif(block, outputPath)];
      } else {
        assert r.effects == [] || r.effects == [SaveWithExif(outputPath, block)];
      }
    }
  }

  /**
   * On success the edited dictionary is written to the output path, by injection
   * exactly for `.jpg`/`.jpeg`, and the message names the strategy used.
   */
  lemma SaveWritesEditedDict(f: ImageFile, inputPath: string, outputPath: string, newArtist: string,
                             newDatetime: string, abspath: string -> string, faults: Faults)
    ensures var r := Save(f, inputPath, outputPath, newArtist, newDatetime, abspath, faults);
            r.success ==>
              && BaseDict(f).Success?
              && |r.effects| > 0
              && var block := Updated(BaseDict(f).value, newArtist, newDatetime);
              && r.message == SuccessMessage(SelectStrategy(outputPath))
              && r.effects[|r.effects| - 1] == (if SelectStrategy(outputPath).JpegInjection?
                                                then InjectExif(block, outputPath)
                                                else SaveWithExif(outputPath, block))
  {
  }
}
