# EXIF editor core in Dafny

A model of the non-GUI core of `exif.py`, a small desktop tool that rewrites the
photographer (Artist) and the capture date of an image's EXIF metadata:

- **the reader** `get_current_exif` reports the Artist text (UTF-8, trailing NULs
  stripped) and the DateTimeOriginal text, falling back to "" and to the current
  time on its own for each field;
- **the writer** `save_new_exif_smart` starts from the loaded EXIF dictionary (or an
  empty one), sets Artist, Software, DateTime, DateTimeOriginal and
  DateTimeDigitized, and writes the block either by injecting it into a copy of the
  file (`.jpg`/`.jpeg`, any letter case) or by re-encoding the image (any other
  extension), turning every exception into `(False, str(e))`;
- **the save button** `on_save_click` formats the chosen date and time as
  `YYYY:MM:DD HH:MM:SS`, suggests `<name>_edited<ext>` as the output name, saves,
  reads the output back and reports success, a warning (the date did not persist)
  or an error.

Modules, one per file:

| file | module | contents |
|---|---|---|
| `wrappers.dfy` | `Wrappers` | `Option`, `Result` |
| `utf8.dfy` | `Utf8` | strict UTF-8 `Encode`/`Decode` (Python's `str.encode`/`bytes.decode`) with both round trips |
| `pytext.dfy` | `PyText` | the Python string and path built-ins used: `rfind`, `os.path.splitext`, the tail of `os.path.split`, `lower`, `upper`, `rstrip('\x00')` |
| `exif_record.dfy` | `ExifRecord` | the piexif dictionary (`0th`, `Exif`, `GPS`, `Interop`, `1st`, `thumbnail`), the tags used, the edit `Updated`, and `ImageFile`, the outcome of opening and loading an image |
| `reader.dfy` | `Reader` | `get_current_exif` as a method and as the specification functions `ReadArtist`/`ReadDate` |
| `writer.dfy` | `Writer` | the strategy choice, the writer as the specification function `Save`, and as methods |
| `timestamp.dfy` | `DateTime` | the zero-padded f-string timestamp, its grammar and its parse-back |
| `editor.dfy` | `Editor` | the suggested output name, the verdict, `on_save_click` as a method, and the end-to-end round trip |

Calls into PIL, piexif, `shutil`, the file dialogs and the clock are not modelled as
code. Their outcomes are parameters instead:

- `ImageFile` is what `Image.open` plus `piexif.load` yield: the open raises; no EXIF
  block; the load raises; or a dictionary.
- `Faults` says which of `piexif.dump`, `shutil.copy2`, `piexif.insert` and `img.save`
  raise, and with what text.
- `abspath` stands for `os.path.abspath`.
- `askSaveAs` is the save dialog. It is given the suggested name and returns "" when cancelled.
- `readBack` is what the reader finds at the output path after the save.
- `now` is `datetime.now().strftime(...)`.

The writer returns its file-system changes as a trace of `Effect`s: copy, inject, or
save with EXIF.

## Model

| member | source | states |
|---|---|---|
| Utf8.EncodeChar | exif.py:59 | one character becomes 1 to 4 bytes; exactly one byte for ASCII; every byte after the first is a continuation byte |
| Utf8.Encode | exif.py:59-64 | a string's encoding has at least one and at most four bytes per character |
| Utf8.DecodeFirst | exif.py:27 | a successful strict decode of the first character consumed exactly that character's encoding |
| Utf8.DecodeEncode | exif.py:27 | decoding what `.encode('utf-8')` produced gives the string back |
| Utf8.EncodeDecode | exif.py:34 | whatever `Decode` accepts re-encodes to the same bytes, so `.decode('utf-8')` succeeds only on the encoding of its result |
| Utf8.EncodeAscii | exif.py:60 | an ASCII string encodes to its code points byte for byte |
| Utf8.EncodeInjective | exif.py:59 | different strings never encode to the same bytes |
| PyText.RFind | exif.py:70 | the last index of the character, -1 exactly when it does not occur |
| PyText.Splitext | exif.py:70 | the root and the extension concatenate to the path; a nonempty extension is one dot followed by no dot and no `/` |
| PyText.Basename | exif.py:190 | the tail has no `/`, is a suffix of the path, and follows its last `/` |
| PyText.Lower | exif.py:71 | per-character ASCII lower case, same length |
| PyText.Upper | exif.py:82 | per-character ASCII upper case, same length |
| PyText.UpperOfLower | exif.py:71-82 | upper-casing the lower-cased extension equals upper-casing the original |
| PyText.StripTrailingNul | exif.py:27 | the result is a prefix that does not end in NUL, and everything cut off is NUL |
| PyText.StripTrailingNulIdempotent | exif.py:27 | stripping twice equals stripping once |
| PyText.RFindAppend | exif.py:70 | the last occurrence in `a + b` is in `b` if `b` has one, otherwise in `a` |
| PyText.ExtOfLastComponent | exif.py:70 | a path's extension is that of its last component |
| PyText.SplitextOfNamedFile | exif.py:70 | a name with a non-dot, followed by `.ext`, splits at that dot |
| PyText.SplitextOfFileName | exif.py:191 | the same for a bare file name |
| ExifRecord.SoftwareValueIsEncodedName | exif.py:60 | the Software value is the UTF-8 encoding of "Python Exif Editor" |
| ExifRecord.Updated | exif.py:59-64 | the edit adds Artist, Software and DateTime to `0th` and DateTimeOriginal and DateTimeDigitized to `Exif`, with these values; it adds no other key and leaves GPS, Interop, 1st and the thumbnail alone |
| ExifRecord.UpdatedKeepsOtherEntries | exif.py:59-64 | every entry other than the five edited tags is unchanged |
| ExifRecord.UpdatedEmpty | exif.py:56-64 | editing the empty dictionary gives exactly three `0th` entries and two `Exif` entries |
| ExifRecord.UpdatedTwice | exif.py:59-64 | a second edit overrides the first completely |
| ExifRecord.UpdatedIdempotent | exif.py:59-64 | repeating an edit changes nothing |
| ExifRecord.UpdatedInjective | exif.py:59-64 | different artists or dates give different dictionaries |
| Reader.LoadedDict | exif.py:19-22 | a dictionary is read exactly when open and load both succeed |
| Reader.TagText | exif.py:25-36 | a decoded tag text is the text whose encoding is stored under the tag |
| Reader.GetCurrentExif | exif.py:12-44 | the step-by-step reader returns `ReadArtist` and `ReadDate` of the loaded dictionary |
| Reader.ReadWithoutExif | exif.py:37-42 | without a loadable EXIF block, the artist is "" and the date is the current time |
| Reader.ArtistFallback | exif.py:25-29 | the artist is "" when the tag is missing or undecodable, otherwise the decoded text with exactly its trailing NULs removed |
| Reader.DateFallback | exif.py:32-42 | the current time is reported exactly when DateTimeOriginal is missing, undecodable, empty, or equal to it |
| Reader.DateNeverEmpty | exif.py:41-42 | the reported date is never empty |
| Reader.FieldsIndependent | exif.py:24-36 | the artist depends only on the Artist entry and the date only on the DateTimeOriginal entry |
| Reader.ReadUpdated | exif.py:27-34 | reading an edited dictionary gives the artist without trailing NULs, and the date written (or the current time if it was "") |
| Writer.SelectStrategy | exif.py:70-73 | injection exactly for a lower-cased extension of `.jpg` or `.jpeg`; otherwise re-encoding, keeping the lower-cased extension |
| Writer.BaseDict | exif.py:52-56 | the edit starts from the loaded dictionary or from the empty one, or fails with the text of the open or load exception |
| Writer.ApplyEdits | exif.py:59-64 | the five in-place assignments produce `Updated` |
| Writer.SaveNewExifSmart | exif.py:46-85 | the step-by-step writer returns what `Save` specifies |
| Writer.WriteByExtension | exif.py:70-82 | the branch by extension returns what `Write` specifies |
| Writer.StrategyOfExtension | exif.py:70-73 | for `dir/name.ext`, the strategy depends on the extension alone |
| Writer.UpperCaseJpgIsInjected | exif.py:71-73 | `OUT.JPG` is injected |
| Writer.JpegIsInjected | exif.py:73 | `out.jpeg` is injected |
| Writer.PngIsReEncoded | exif.py:80-81 | `out.png` is re-encoded |
| Writer.PngMessageNamesFormat | exif.py:82 | the message for `.png` is "保存成功（.PNG保存モード）" |
| Writer.WebpIsReEncoded | exif.py:80-81 | `out.webp` is re-encoded |
| Writer.SaveSucceedsIff | exif.py:50-85 | success exactly when the dictionary is obtained, dump returns, and the chosen strategy's calls return; the copy counts only when it happens |
| Writer.FirstRaised | exif.py:84-85 | nothing is raised exactly when every call returns; otherwise the text is that of a call all of whose predecessors returned |
| Writer.FirstRaisedCons | exif.py:84-85 | the first raise is the head's if it raises, else the first among the rest |
| Writer.FirstRaisedOfCalls | exif.py:50-85 | along the calls the writer makes in order (open and load, dump, then copy if the paths differ and insert, or save), the first raise is named case by case |
| Writer.SaveFailureReportsRaisedText | exif.py:50-85 | the writer succeeds exactly when none of the calls on its path raises; a failure's message is the text of the first one that raises, in program order, and at most the copy has happened |
| Writer.SaveCopiesOnlyBetweenDistinctPaths | exif.py:73-77 | the input is copied only for injection and only between different absolute paths; a successful injection between different paths copies first |
| Writer.SaveWritesEditedDict | exif.py:73-82 | on success the last change writes the edited dictionary to the output path, by injection exactly for JPEG, and the message names the strategy |
| DateTime.Digits | exif.py:188 | `str(n)`: nonempty decimal digits without a leading zero that denote `n` |
| DateTime.DigitsLength | exif.py:188 | a number below 10^w has at most w digits |
| DateTime.LeadingZeros | exif.py:188 | zero padding does not change the value |
| DateTime.ZeroPad | exif.py:188 | padding yields the requested width unless the text is already wider |
| DateTime.FormatFixedWidth | exif.py:188 | `{n:0wd}` of a number with at most w digits is exactly w digits that read back as `n` |
| DateTime.Assembled | exif.py:188 | six fixed-width digit fields joined by `:` and a space form the EXIF grammar and can be cut apart again |
| DateTime.TimestampWellFormed | exif.py:188 | within the four-digit year and two-digit field ranges, the timestamp has the EXIF grammar and parses back to the six numbers |
| DateTime.HourOutOfRangeBreaksGrammar | exif.py:184-188 | a typed hour of 100 produces a timestamp outside the grammar |
| Editor.NoExtensionAfterStem | exif.py:191-192 | appending a dot-free stem to an extension-less name leaves it extension-less |
| Editor.EditedNameSplits | exif.py:191-192 | inserting `_edited` between root and extension keeps the extension |
| Editor.DefaultNameKeepsExtension | exif.py:190-192 | the suggested name has no `/`, and it splits into the input's root plus `_edited` and the input's extension |
| Editor.DefaultNameKeepsStrategy | exif.py:190-203 | saving under the suggested name, in any directory, selects the same strategy as the input path |
| Editor.Classify | exif.py:202-219 | nothing when no path was chosen; an error with the writer's message exactly when the save failed; success exactly when the date read back equals the requested one; otherwise a warning with both dates |
| Editor.OnSaveClick | exif.py:180-219 | the handler's verdict is `Classify` of the dialog's path, the writer's reply, and the read-back of the output |
| Editor.EditIsVerified | exif.py:181-214 | for any numbers the form holds, when the save succeeds and the output holds the written dictionary, the verdict is success, with the requested date and the artist without trailing NULs |
| Editor.MalformedDateIsVerified | exif.py:184-214 | a typed hour of 100 writes a date outside the EXIF grammar, and the read-back still reports success, since it compares text only |
| Editor.LostMetadataIsWarned | exif.py:205-217 | when the save succeeds but the output holds no EXIF block, the verdict is a warning that pairs the requested date with the current time |

## Left out

- PIL and piexif themselves are not part of this model. This covers opening and decoding images, piexif's binary EXIF serialization, and the pixel re-encoding of `img.save`. Their outcomes enter as `ImageFile`, `Faults` and the read-back file.
- Whether a given format keeps EXIF after `img.save`, for example PNG, is a property of PIL and is not modelled. The read-back is a parameter, and `Editor.LostMetadataIsWarned` covers the case where the metadata is lost.
- Partial writes are not modelled: the file a failed `copy2`, `insert` or `save` may leave behind, and the effect of `copy2` on file times.
- The Tk GUI is not modelled: the windows, the calendar and spinbox widgets, the message boxes and `root.destroy()`. The form values enter as parameters.
- `int(spin.get())` on text that is not a number raises inside the Tk callback. That is not modelled; the hour, minute and second enter as integers.
- The `initialdir`, `defaultextension` and `filetypes` arguments of the save dialog are not modelled. Only the suggested file name reaches `askSaveAs`.
- `datetime.now()` and `strftime` are not modelled; the current time is the parameter `now`.
- The messages of the three dialogs are not modelled as text. The verdict carries their data: the date and the artist read back, the path, and the expected and actual dates.
- Path handling follows POSIX rules: only `/` separates components. Windows `ntpath` rules, where `\` and drive letters also count, are not modelled.
- `PyText.Lower` and `PyText.Upper` map ASCII letters only. Python's full Unicode case mapping is not modelled. Lower-casing cannot change the strategy: only U+0130 and U+212A lower-case to ASCII letters ("i̇" and "k"), and neither yields `.jpg` or `.jpeg`. Upper-casing can change the re-encode message for a non-ASCII extension ("ß" becomes "SS" in Python).
- Python strings may hold lone surrogates, which `.encode('utf-8')` rejects. Dafny characters are Unicode scalar values, so that exception cannot arise in the model.
- The values of EXIF tags other than the five edited ones are kept opaque: a byte string or a list of numbers.
