# OCR batch pipeline — Dafny model

This project models the batch OCR pipeline of a small repository. The repository has two entry points.

The Streamlit web app `ocr_app.py` handles a press of "Run OCR":
- it clears the session's per-image dictionary `images_text` and its `combined_text`;
- it builds a queue of images from the uploaded files and from the image entries of an uploaded ZIP archive, opening each image as it is queued;
- it recognises the images one by one with the options string chosen in the sidebar;
- for each image it stores the raw text under the image's name and appends a section `"\n--- name ---\n" + text.strip() + "\n"` to `combined_text`;
- it then reports "Done!" or "No text found." depending on whether `combined_text` holds non-whitespace.

The loop has no exception handler, so the first image whose recognition raises ends the run. The updates made before that failure stay in the session.

The same module also models three small rules applied to the session's text:
- the search highlight;
- the choice of text for speech synthesis;
- the history tab's two counters.

The script `ocr_1.py` defines `run_ocr_on_folder`:
- it rejects a path that is not a directory;
- it goes through `os.listdir` in order and keeps names with an image extension;
- under a per-image `try`/`except`, it recognises each kept image with `--oem 3 --psm 6`;
- it writes the text to `splitext(path)[0] + ".txt"` and appends an unstripped section to an accumulator;
- at the end it writes the accumulator to `output_combined.txt`.

A failing image contributes nothing and the loop goes on.

Modules:
- `Strings`: Python's `str.isspace`, `strip`, `lower`, `endswith`, `replace` and `rfind`.
- `Paths`: POSIX `os.path.join` and `os.path.splitext`.
- `Batch`: what both entry points share — the outcome of one recognition, the extension filter and the section layout.
- `TessConfig`: the sidebar's label-to-option mapping.
- `OcrApp`: the web app. The session is a class whose fields the run updates in place.
- `OcrFolder`: the folder script. It is a method producing the ordered trace of its file effects and the resulting file map.

Recognition is an opaque function parameter. For one image and one options string it returns `Recognized(text)` or `Failed`. In the web app, failure stands for any exception raised while preprocessing or recognising an image. In the folder script, it also covers an image that `Image.open` or `cv2.imread` cannot read, because there the image is opened inside the per-image `try`.

The web app opens every image while it builds the queue (ocr_app.py:83, 93), before any image is processed. Whether `Image.open` can identify an image is a second parameter, `opens`. If an image does not open, the press raises at that image before anything is processed, and the cleared dictionary and combined text stay empty. The directory listing, the ZIP listing, the result of `os.path.isdir` and the files already present are also parameters.

How the two entry points treat a failing image:
- Unlike the folder script, which catches each failure (ocr_1.py:35, 68-69), the web app has no exception handler. One failing image ends the whole run, and the script's own status update (ocr_app.py:111-116) is skipped.
- The web app's temporary extraction directory (ocr_app.py:108-109) is not removed when a run raises.
- The folder script keeps no record of a failed image beyond a printed message (ocr_1.py:68-69). A failure leaves no trace in the effects.

## Model

| member | source | states |
|---|---|---|
| TessConfig.Config | ocr_app.py:51-53 | The options string for two sidebar labels reads back as exactly the two numbers the label dictionaries `OemValues` and `PsmValues` (ocr_app.py:51-52) give them |
| TessConfig.ConfigRange | ocr_app.py:46-53 | Every selectable pair of labels yields an engine mode in {3, 1, 0} and a segmentation mode in {6, 3, 4, 7} |
| TessConfig.ConfigInjective | ocr_app.py:51-53 | Different label pairs give different options strings |
| TessConfig.FolderConfigIsDefault | ocr_1.py:51 | The folder script's fixed options `FolderConfig` (ocr_1.py:51) equal the web app's default selection |
| OcrApp.UploadItems | ocr_app.py:81-84 | Defines the uploads' queue items: one per upload, in upload order, each referring to its upload position |
| OcrApp.ZipItems | ocr_app.py:92-93 | Defines the archive entries' queue items, each opened from `os.path.join(temp_dir, name)` |
| OcrApp.KeptEntries | ocr_app.py:86-91 | Defines the archive entries that are queued: none without a ZIP upload, otherwise the listing's names that pass the extension test |
| OcrApp.Queue | ocr_app.py:80-94 | Defines the queue: the uploads in order, then the archive entries kept by the filter. Its properties are in `OcrApp.QueueShape` and `OcrApp.QueueZipMembership` |
| OcrApp.FirstUnopened | ocr_app.py:80-94 | The position it reports, if any, lies inside the queue. `OcrApp.FirstUnopenedSpec` characterises it |
| OcrApp.FirstUnopenedSpec | ocr_app.py:80-94 | No position is reported if and only if every queued image opens. A reported position holds an image that does not open, and every image before it opens |
| OcrApp.FirstUnopenedAfter | ocr_app.py:80-94 | After images that all open, the first image that does not open is the one reported |
| OcrApp.UnopenedName | ocr_app.py:80-94 | Defines the name of the first queued item whose image does not open, which is the item where queue building raises |
| OcrApp.QueuePrefixAt | ocr_app.py:90-94 | When the loop reaches an image entry, the queue built so far, then that entry, then the rest, make up the whole queue |
| OcrApp.ZipItemsAppend | ocr_app.py:90-94 | The queue items of consecutive runs of archive entries are those of each run |
| OcrApp.UploadItemsPrefix | ocr_app.py:81-84 | The items of the first `i` uploads, the `i`-th upload, and the remaining upload items make up all upload items |
| OcrApp.BuildQueue | ocr_app.py:80-94 | The two appending loops open each image as they queue it. They report the first image that does not open, in queue order. When every image opens, they build exactly the queue function |
| OcrApp.QueueShape | ocr_app.py:80-94 | The queue holds each upload at its upload position, then each kept archive entry, in listing order, opened from its path inside the extraction directory; its length is the sum of the two counts |
| OcrApp.QueueZipMembership | ocr_app.py:90-94 | An archive entry is queued if and only if it is listed and has an image extension |
| OcrApp.ZipItemsMembership | ocr_app.py:90-94 | An entry name has a queue item if and only if it is among the kept names |
| OcrApp.Session.constructor | ocr_app.py:22-30 | A new session starts with every key at its default |
| OcrApp.Session.RunOcr | ocr_app.py:74-106 | After a press of "Run OCR" where some image does not open, the dictionary and the combined text stay cleared, and the outcome names that image. Otherwise both are those of the items processed before the first failed recognition, or of the whole queue, and the outcome is the status or the failing item's name. No other session key changes |
| OcrApp.Session.ProcessQueue | ocr_app.py:97-106 | On top of anything already there, the dictionary and the combined text gain exactly the entries and sections of the processed prefix. The loop stops at the first failure |
| OcrApp.RunProgress | ocr_app.py:97-106 | Defines how far the loop gets: every item in order, or up to the first failing one. Its properties are in `OcrApp.RunProgressShape` |
| OcrApp.AppSection | ocr_app.py:105 | Defines the section of one processed item, with its text stripped |
| OcrApp.CombinedText | ocr_app.py:75-105 | Defines `combined_text` after the processed items: their sections appended, in order, to `""` |
| OcrApp.TextsOf | ocr_app.py:74-104 | Defines `images_text` after the processed items, each setting its name to its raw text |
| OcrApp.RunProgressShape | ocr_app.py:97-106 | The processed items are a prefix of the queue, with the texts their recognitions returned. A finished run covers the whole queue. A stopped run stops at the first failing item and reports it |
| OcrApp.RunFinishesIff | ocr_app.py:97-106 | A run finishes if and only if every queued item is recognised |
| OcrApp.RunProgressStep | ocr_app.py:97-106 | One more item is either added with its text or stops the run at that item |
| OcrApp.StoppedStaysStopped | ocr_app.py:97-106 | Once an item has failed, later items are never processed and do not change the outcome |
| OcrApp.CombinedAfter | ocr_app.py:105 | Appending one more section to any text followed by the combined text gives that text followed by the longer combined text |
| OcrApp.CombinedTextSnoc | ocr_app.py:105 | Each processed item appends exactly its section, with header and stripped text, to the combined text |
| OcrApp.CombinedTextAppend | ocr_app.py:105 | The combined text of consecutive runs of items is the concatenation of theirs |
| OcrApp.CombinedNotBlankIff | ocr_app.py:105-111 | The combined text has a non-whitespace character if and only if at least one item was processed |
| OcrApp.TextsOfAfter | ocr_app.py:104 | Recording one more item on top of earlier dictionary contents gives those contents overridden by the longer record |
| OcrApp.TextsOfSnoc | ocr_app.py:104 | Each processed item sets its name's entry to its raw text |
| OcrApp.TextsOfKeys | ocr_app.py:74-104 | The dictionary's keys are exactly the processed names |
| OcrApp.TextsOfLastWins | ocr_app.py:104 | Each name maps to the raw text of the last processed item with that name |
| OcrApp.ImagesProcessedCount | ocr_app.py:192 | "Images processed" is at most the number of processed items, and equal to it when the names are distinct |
| OcrApp.SectionChars | ocr_app.py:193 | Defines the sum, over processed items, of 11 layout characters, the name and the stripped text |
| OcrApp.OcrCharactersCount | ocr_app.py:193 | "OCR characters" is the sum over processed items of 11 layout characters, the name and the stripped text, so at least 11 per item |
| OcrApp.StatusOf | ocr_app.py:111-116 | Defines the status: "Done!" when the stripped combined text is not empty, "No text found." otherwise. Its property is in `OcrApp.FinishedStatus` |
| OcrApp.FinishedStatus | ocr_app.py:111-116 | A run that reaches its end reports "Done!" if and only if the queue was not empty |
| OcrApp.Highlight | ocr_app.py:123-127 | Defines the displayed text: the combined text as it is, or every occurrence of the search term wrapped in `**`. Its properties are in `OcrApp.HighlightUnchanged` and `OcrApp.HighlightLeftmost` |
| OcrApp.HighlightUnchanged | ocr_app.py:123-127 | An empty search term, or one that does not occur, leaves the displayed text unchanged |
| OcrApp.HighlightLeftmost | ocr_app.py:123-127 | The leftmost occurrence is wrapped in `**`. The text before it is unchanged, and highlighting resumes after the occurrence, so matches do not overlap |
| OcrApp.SpeechText | ocr_app.py:171 | Defines `translated_text or combined_text`. Its properties are in `OcrApp.SpeechFallback` |
| OcrApp.SpeechFallback | ocr_app.py:171-172 | Speech uses the translation when there is one. Otherwise it uses the combined text, which is non-blank if and only if an item was processed |
| TessConfig.Parse | ocr_app.py:53 | Defines the reading-back of an options string of the shape `--oem D --psm D`, used to state `TessConfig.Config` |
| Batch.HasImageExtension | ocr_1.py:34 | Defines the extension test on the lower-cased name. Its properties are in `Batch.HasImageExtensionIgnoresCase` and `Batch.ExtensionExamples` |
| Batch.FilterImages | ocr_app.py:90-91 | Defines the names of a listing that pass the extension test, in listing order. Its properties are in the `Batch.FilterImages…` lemmas |
| Batch.FilterImagesAround | ocr_app.py:90-91 | Around a kept name, the filter keeps what it keeps before it, the name, and what it keeps after it |
| Batch.FilterImagesKept | ocr_app.py:90-91 | A kept name between two runs of names stays between what is kept of them |
| Batch.FilterImagesMembership | ocr_1.py:33-34 | A name is kept if and only if it is listed and has a recognised extension |
| Batch.FilterImagesAppend | ocr_app.py:90-91 | Filtering a concatenated listing is concatenating the filtered parts, so listing order is kept |
| Batch.FilterImagesSingle | ocr_app.py:91 | A single name is kept alone or dropped |
| Batch.FilterImagesLength | ocr_1.py:33-34 | The filter never adds names. It keeps all of them if and only if every name has an image extension |
| Batch.HasImageExtensionIgnoresCase | ocr_1.py:34 | The extension test ignores letter case |
| Batch.ExtensionExamples | ocr_app.py:91 | `scan.PNG` passes the test, `notes.docx` does not, and filtering the two keeps only the first |
| Batch.Section | ocr_app.py:105 | Defines the section layout `"\n--- name ---\n" + body + "\n"` shared by both entry points (also ocr_1.py:63) |
| Batch.Sections | ocr_1.py:30-63 | Defines repeated `+=` of sections on an accumulator that starts at `""` |
| Batch.SectionNotBlank | ocr_app.py:105 | Every section holds non-whitespace (its header dashes), whatever the name and text |
| Batch.SectionsAppend | ocr_1.py:63 | Accumulating sections over consecutive runs of entries concatenates their accumulations |
| Strings.IsSpace | ocr_app.py:105-111 | Defines the characters `str.isspace` accepts, which `strip()` removes |
| Strings.IsBlank | ocr_app.py:111 | Defines a text made only of whitespace, which is a text whose `strip()` is empty and so falsy (also ocr_app.py:172); `Strings.StripSpec` proves the equivalence |
| Strings.EndsWith | ocr_1.py:34 | Defines `str.endswith` for one suffix (also ocr_app.py:91) |
| Strings.Strip | ocr_app.py:105 | Defines `str.strip()`. Its properties are in `Strings.StripSpec` |
| Strings.StripSpec | ocr_app.py:105 | `strip` returns a contiguous slice with only whitespace cut off both ends. A non-empty result begins and ends with non-whitespace. The result is empty if and only if the input is all whitespace |
| Strings.Lower | ocr_1.py:34 | Defines `str.lower()` on ASCII letters |
| Strings.ReplaceAll | ocr_app.py:127 | Defines `str.replace`, scanning left to right over non-overlapping occurrences. Its properties are in `Strings.ReplaceAbsent` and `Strings.ReplaceLeftmost` |
| Strings.ReplaceAbsent | ocr_app.py:127 | `replace` of a pattern that does not occur returns the input |
| Strings.ReplaceLeftmost | ocr_app.py:127 | `replace` keeps the text before the leftmost occurrence, substitutes it, and continues after it |
| Strings.RFind | ocr_1.py:58 | The result is the last index holding the character, or -1 when the character does not occur |
| Strings.RFindAt | ocr_1.py:58 | A position holding the character with no occurrence after it is the one reported |
| Strings.RFindAppend | ocr_1.py:58 | The last occurrence in a concatenation is in the second part if that part has one, else in the first |
| Paths.Join | ocr_1.py:38 | Defines POSIX two-argument `os.path.join`. Its properties are in `Paths.JoinSpec` |
| Paths.JoinSpec | ocr_1.py:38 | `join` returns an absolute second part unchanged. Otherwise it ends with the second part, preceded by the first with one `/` in between unless the first is empty or ends in `/` |
| Paths.SplitExt | ocr_1.py:58 | Defines POSIX `os.path.splitext`. Its properties are in `Paths.SplitExtSpec` |
| Paths.SplitExtSpec | ocr_1.py:58 | `splitext` splits the path into root and extension, and together they give the path back. The extension is empty or a dot followed by no dot or separator. The extension is non-empty if and only if the last component has a dot after a non-dot character. A non-empty extension starts at the last dot |
| Paths.TxtPath | ocr_1.py:58 | Defines `os.path.splitext(p)[0] + ".txt"`. Its properties are in `Paths.TxtPathSpec` |
| Paths.TxtPathSpec | ocr_1.py:58 | The derived path ends in `.txt`, and putting the extension back in place of `.txt` gives the image path |
| Paths.SplitExtAfterDirectory | ocr_1.py:38-58 | For a file name joined under a directory, `splitext` leaves the directory part alone |
| OcrFolder.CombinedPath | ocr_1.py:73 | Defines the combined output's path, `os.path.join(folder_path, "output_combined.txt")` |
| OcrFolder.FolderSection | ocr_1.py:63 | Defines the section of one success, with its text not stripped |
| OcrFolder.ImageEffects | ocr_1.py:35-69 | Defines the steps for one image: on success, the `.txt` write and then the append of its section; on failure, none |
| OcrFolder.ListingEffects | ocr_1.py:33-69 | Defines the loop's steps over a listing. Names without an image extension contribute none |
| OcrFolder.ImagesEffects | ocr_1.py:35-69 | Defines the steps for names that are all attempted, used to state `OcrFolder.ListingEffectsFiltered` |
| OcrFolder.Accumulated | ocr_1.py:30-63 | Defines the accumulator after a trace of steps: the appended sections, in order |
| OcrFolder.ApplyWrites | ocr_1.py:59-74 | Defines the files after a trace of steps, each write replacing the file's content |
| OcrFolder.FolderEffects | ocr_1.py:24-76 | Defines all steps of a call: none for a path that is not a directory, otherwise the loop's steps followed by the write of `output_combined.txt` |
| OcrFolder.Successes | ocr_1.py:33-63 | Defines the listed images whose recognition succeeds, with their texts, in listing order. Its properties are in `OcrFolder.SuccessesAreRecognized`, `OcrFolder.SuccessesComplete` and `OcrFolder.SuccessesAppend` |
| OcrFolder.SuccessText | ocr_1.py:63 | Defines the unstripped sections of the successes, appended in order |
| OcrFolder.RunOcrOnFolder | ocr_1.py:24-76 | The status, the ordered effect trace and the resulting files are those of the specification functions. A path that is not a directory yields no effect |
| OcrFolder.InvalidFolderWritesNothing | ocr_1.py:25-27 | A path that is not a directory writes nothing and leaves the files as they were |
| OcrFolder.ListingEffectsFiltered | ocr_1.py:33-34 | Only the names with an image extension contribute effects |
| OcrFolder.ListingEffectsAppend | ocr_1.py:33-69 | The effects of a listing are those of its parts in order, so each name's contribution does not depend on the others |
| OcrFolder.FailureIsolation | ocr_1.py:35-69 | A failing image contributes nothing, and the images before and after it contribute exactly what they would without it |
| OcrFolder.ListingEffectsShape | ocr_1.py:58-63 | The loop's effects alternate: a `.txt` write, then the append of that image's section |
| OcrFolder.WriteBeforeAppend | ocr_1.py:58-63 | Each success writes its `.txt` file, holding its raw text, immediately before its section is appended |
| OcrFolder.SuccessesAreRecognized | ocr_1.py:33-63 | Each success is a listed image with an image extension whose recognition returned exactly its text |
| OcrFolder.SuccessesComplete | ocr_1.py:33-63 | Every listed image with an image extension whose recognition succeeds is among the successes, with its text |
| OcrFolder.SuccessesAppend | ocr_1.py:33-63 | The successes of a concatenated listing are those of its parts in order, so successes keep listing order |
| OcrFolder.CombinedOfSuccesses | ocr_1.py:30-63 | The accumulator is the ordered concatenation of the successes' unstripped sections. Failed images are excluded |
| OcrFolder.CombinedEmptyIff | ocr_1.py:30-63 | The combined output is empty if and only if no image succeeded |
| OcrFolder.FolderFrame | ocr_1.py:24-76 | For a directory, every path other than the successes' `.txt` files and `output_combined.txt` keeps its presence and its content |
| OcrFolder.CombinedFileContent | ocr_1.py:72-74 | For a directory, `output_combined.txt` is always written and holds the successes' sections, or `""` when there are none |
| OcrFolder.ItemFileContent | ocr_1.py:58-60 | A success's `.txt` file ends up holding exactly its text, unless a later success or the combined output targets the same path |
| OcrFolder.NoLaterWrite | ocr_1.py:58-74 | Under the same conditions, no step after success k's write targets that path again |
| OcrFolder.LowerSuffix | ocr_1.py:34 | A suffix of the lower-cased name is the lower-cased suffix of the name, with dots where the name has them |
| OcrFolder.ExtensionAtLastDot | ocr_1.py:34-58 | A lower-cased suffix of a dot followed by non-dots begins at the name's last dot |
| OcrFolder.ImageExtensionAtLastDot | ocr_1.py:34-58 | The extension an image name passed the test with begins at its last dot |
| OcrFolder.TxtPathOfImage | ocr_1.py:38-58 | For an image file name, the last dot starts its image extension. The `.txt` path replaces that extension, or appends `.txt` when everything before the dot is dots |

## Left out

- The Streamlit user interface is not modelled: widgets, download buttons, toasts, the progress messages and `st.status`. The search box (ocr_app.py:121) and the "(no text)" display are presentation only.
- The image work of OpenCV, PIL and Tesseract is folded into the opaque recognizer. This includes the folder script's first recognition on ocr_1.py:39, whose result is discarded.
- A ZIP upload that `zipfile` cannot read (ocr_app.py:87-89) is not modelled. The model always receives a listing of the extracted entries.
- ZIP extraction, `tempfile.mkdtemp` and the removal of the temporary directory (ocr_app.py:87-89, 108-109) are file-system I/O. The extracted listing and the directory name are parameters.
- Translation (googletrans), speech synthesis (gTTS), and the translated-text and audio state (ocr_app.py:145-188) are external services. Only the choice of the speech text is modelled.
- File writes in the folder script always succeed, and printed output is not modelled.
- OcrFolder.FolderEffects: a directory whose `os.listdir` raises (ocr_1.py:33, outside the `try`) is not modelled; the call then raises and writes nothing. The listing is always given, so "always written" in OcrFolder.CombinedFileContent assumes a readable directory.
- The top-level `input()` call in ocr_1.py is not modelled; the folder path is a parameter.
- Strings.Lower maps only ASCII letters, whereas Python's `str.lower` covers all of Unicode.
- Paths.Join and Paths.SplitExt follow POSIX `posixpath`. The scripts' Windows Tesseract path suggests Windows use, where `ntpath` also treats `\` and drive letters as separators. For the same reason, OcrFolder.ItemFileContent and OcrFolder.CombinedFileContent hold exactly on POSIX only. On Windows, `open(..., "w")` (ocr_1.py:59, 73) writes each `\n` as `\r\n`.
- The order of `os.listdir` is unspecified in Python, so the listing is a parameter taken in the order given.
- OcrApp.TextsOf is a `map` and does not keep the insertion order of a Python `dict`. Only the keys and values are modelled.
