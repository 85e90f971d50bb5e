/**
 * The non-GUI logic of the save button (`on_save_click`): the timestamp, the
 * suggested output name, the save, the read-back and the three-way verdict.
 */
module Editor {
  import opened Wrappers
  import opened PyText
  import opened ExifRecord
  import opened Reader
  import opened Writer
  import opened DateTime

  /** The suggested output name: the input's file name with `_edited` before its extension. */
  function DefaultOutputName(inputPath: string): string {
    var (base, ext) := Splitext(Basename(inputPath));
    base + "_edited" + ext
  }

  /** Appending a stem without dots or slashes to a path that has no extension leaves it without one. */
  lemma {:induction false} NoExtensionAfterStem(base: string, stem: string)
    requires '/' !in base && '/' !in stem && '.' !in stem
    requires Splitext(base).1 == []
    ensures Splitext(base + stem) == (base + stem, "")
  {
    var out := base + stem;
    RFindAppend(base, stem, '.');
    RFindAppend(base, stem, '/');
    assert RFind(base, '/') == -1 && RFind(out, '/') == -1;
    var dot := RFind(base, '.');
    assert RFind(out, '.') == dot;
    if dot >= 0 {
      assert !HasNonDot(base, 0, dot);
      assert !HasNonDot(out, 0, dot) by {
        forall i | 0 <= i < dot ensures out[i] == base[i] { }
      }
    }
  }

  /** Inserting `_edited` between the two halves of a split file name keeps the extension. */
  lemma EditedNameSplits(base: string, ext: string)
    requires '/' !in base && '/' !in ext
    requires Splitext(base + ext) == (base, ext)
    ensures Splitext(base + "_edited" + ext) == (base + "_edited", ext)
  {
    var stem := base + "_edited";
    assert '.' !in "_edited" && '/' !in "_edited";
    if ext != [] {
      assert HasNonDot(stem, 0, |stem|) by { assert stem[|stem| - 1] == 'd'; }
      SplitextOfFileName(stem, ext);
    } else {
      assert base + ext == base;
      NoExtensionAfterStem(base, "_edited");
      assert stem + ext == stem;
    }
  }

  /** The suggested name is a bare file name that splits into the input's base plus `_edited`, and the input's extension. */
  lemma DefaultNameKeepsExtension(inputPath: string)
    ensures '/' !in DefaultOutputName(inputPath)
    ensures Splitext(DefaultOutputName(inputPath))
            == (Splitext(Basename(inputPath)).0 + "_edited", Splitext(Basename(inputPath)).1)
  {
    var name := Basename(inputPath);
    var split := Splitext(name);
    assert name == split.0 + split.1;
    assert '/' !in split.0 + "_edited" + split.1;
    EditedNameSplits(split.0, split.1);
  }

  /** Saving under the suggested name, in any directory, selects the same strategy as the input's own extension. */
  lemma DefaultNameKeepsStrategy(dir: string, inputPath: string)
    requires dir == [] || dir[|dir| - 1] == '/'
    ensures SelectStrategy(dir + DefaultOutputName(inputPath)) == SelectStrategy(inputPath)
  {
    DefaultNameKeepsExtension(inputPath);
    ExtOfLastComponent(dir, DefaultOutputName(inputPath));
    var name := Basename(inputPath);
    var prefix := inputPath[..|inputPath| - |name|];
    ExtOfLastComponent(prefix, name);
    assert prefix + name == inputPath;
  }

  /** What the user is shown after pressing save. */
  datatype SaveReport =
    | Cancelled                                           // the save dialog returned no path
    | Failed(message: string)                             // the writer returned False
    | Verified(date: string, artist: string, path: string)  // the date read back is the one requested
    | Unverified(expected: string, actual: string)        // saved, but the date read back differs

  /**
   * The verdict: an error exactly when the save failed, a warning exactly when it
   * succeeded but the date read back differs from the requested one, success
   * otherwise; nothing when no output path was chosen.
   */
  function Classify(outputPath: string, success: bool, message: string,
                    readArtist: string, readDate: string, requested: string): (r: SaveReport)
    ensures r.Cancelled? <==> outputPath == ""
    ensures r.Failed? <==> outputPath != "" && !success
    ensures r.Unverified? <==> outputPath != "" && success && readDate != requested
    ensures r.Verified? <==> outputPath != "" && success && readDate == requested
    ensures r.Failed? ==> r.message == message
    ensures r.Verified? ==> r == Verified(requested, readArtist, outputPath)
    ensures r.Unverified? ==> r == Unverified(requested, readDate)
  {
    if outputPath == "" then Cancelled
    else if !success then Failed(message)
    else if readDate == requested then Verified(readDate, readArtist, outputPath)
    else Unverified(requested, readDate)
  }

  /**
   * `on_save_click` without the widgets: the artist and the date and time come
   * from the form, `askSaveAs` is the save dialog (given the suggested name,
   * returning "" when cancelled), `readBack` is what the reader finds at the
   * output path after the save, and `now` is the reader's clock.
   */
  method OnSaveClick(inputPath: string, source: ImageFile, newArtist: string,
                     year: int, month: int, day: int, hour: int, minute: int, second: int,
                     askSaveAs: string -> string, abspath: string -> string, faults: Faults,
                     readBack: ImageFile, now: string)
    returns (report: SaveReport)
    ensures var requested := Timestamp(year, month, day, hour, minute, second);
            var outputPath := askSaveAs(DefaultOutputName(inputPath));
            var saved := Save(source, inputPath, outputPath, newArtist, requested, abspath, faults);
            report == Classify(outputPath, saved.success, saved.message,
                               ReadArtist(LoadedDict(readBack)), ReadDate(LoadedDict(readBack), now), requested)
  {
    var newDateStr := Timestamp(year, month, day, hour, minute, second);
    var defaultOutput := DefaultOutputName(inputPath);
    var outputPath := askSaveAs(defaultOutput);
    if outputPath == "" {
      return Cancelled;
    }
    var saved := SaveNewExifSmart(source, inputPath, outputPath, newArtist, newDateStr, abspath, faults);
    if saved.success {
      var verifiedArtist, verifiedDate := GetCurrentExif(readBack, now);
      if verifiedDate == newDateStr {
        report := Verified(verifiedDate, verifiedArtist, outputPath);
      } else {
        report := Unverified(newDateStr, verifiedDate);
      }
    } else {
      report := Failed(saved.message);
    }
  }

  /**
   * The whole round trip: when the save succeeds and the output file carries the
   * dictionary that was written, the read-back confirms the requested date and
   * reports the requested artist (without trailing NULs), whatever numbers the
   * form held.
   */
  lemma EditIsVerified(source: ImageFile, inputPath: string, outputPath: string, newArtist: string,
                       year: int, month: int, day: int, hour: int, minute: int, second: int,
                       abspath: string -> string, faults: Faults, now: string)
    requires outputPath != ""
    requires Save(source, inputPath, outputPath, newArtist, Timestamp(year, month, day, hour, minute, second), abspath, faults).success
    ensures BaseDict(source).Success?
    ensures var requested := Timestamp(year, month, day, hour, minute, second);
            var readBack := ExifLoads(Updated(BaseDict(source).value, newArtist, requested));
            var saved := Save(source, inputPath, outputPath, newArtist, requested, abspath, faults);
            Classify(outputPath, saved.success, saved.message,
                     ReadArtist(LoadedDict(readBack)), ReadDate(LoadedDict(readBack), now), requested)
              == Verified(requested, StripTrailingNul(newArtist), outputPath)
  {
    var requested := Timestamp(year, month, day, hour, minute, second);
    SaveSucceedsIff(source, inputPath, outputPath, newArtist, requested, abspath, faults);
    assert |requested| >= 5;
    ReadUpdated(BaseDict(source).value, newArtist, requested, now);
  }

  /**
   * The read-back compares text only: a typed hour of 100 writes a date outside
   * the EXIF grammar, and the save is still reported as verified.
   */
  lemma MalformedDateIsVerified(source: ImageFile, inputPath: string, outputPath: string, newArtist: string,
                                abspath: string -> string, faults: Faults, now: string)
    requires outputPath != ""
    requires Save(source, inputPath, outputPath, newArtist, Timestamp(2024, 1, 1, 100, 0, 0), abspath, faults).success
    ensures !IsExifTimestamp(Timestamp(2024, 1, 1, 100, 0, 0))
    ensures var requested := Timestamp(2024, 1, 1, 100, 0, 0);
            var readBack := ExifLoads(Updated(BaseDict(source).value, newArtist, requested));
            var saved := Save(source, inputPath, outputPath, newArtist, requested, abspath, faults);
            Classify(outputPath, saved.success, saved.message,
                     ReadArtist(LoadedDict(readBack)), ReadDate(LoadedDict(readBack), now), requested).Verified?
  {
    HourOutOfRangeBreaksGrammar();
    EditIsVerified(source, inputPath, outputPath, newArtist, 2024, 1, 1, 100, 0, 0, abspath, faults, now);
  }

  /**
   * The warning path: when the save succeeds but the output file carries no EXIF
   * block, the reader falls back to `now`, and the user is warned unless `now`
   * happens to be the requested date.
   */
  lemma LostMetadataIsWarned(source: ImageFile, inputPath: string, outputPath: string, newArtist: string,
                             requested: string, abspath: string -> string, faults: Faults, now: string)
    requires outputPath != "" && now != requested
    requires Save(source, inputPath, outputPath, newArtist, requested, abspath, faults).success
    ensures var saved := Save(source, inputPath, outputPath, newArtist, requested, abspath, faults);
            Classify(outputPath, saved.success, saved.message,
                     ReadArtist(LoadedDict(NoExif)), ReadDate(LoadedDict(NoExif), now), requested)
              == Unverified(requested, now)
  {
  }
}
