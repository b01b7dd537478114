/** The bookkeeping of the web app: building the queue of images from the uploads and
    an extracted zip archive, running recognition over it while the session's per-image
    dictionary and combined text are updated, the status shown afterwards, and the small
    rules of the text, search and speech tabs. */
module OcrApp {
  import opened Wrappers
  import opened Strings
  import opened Paths
  import opened Batch
  import TessConfig

  /** Where the image of a queued item comes from: the upload at a position of the
      upload list, or a file of the extracted archive. */
  datatype ImageRef = Uploaded(index: nat) | Extracted(path: string)

  /** One entry of `to_process`: the name shown for it and its image. */
  datatype Item = Item(name: string, image: ImageRef)

  /** Preprocessing plus Tesseract for one image under an options string. */
  type Recognizer = (ImageRef, string) -> Recognition

  /** The uploads, one item each, in upload order. */
  function UploadItems(uploads: seq<string>): seq<Item> {
    seq(|uploads|, i requires 0 <= i < |uploads| => Item(uploads[i], Uploaded(i)))
  }

  /** The kept archive entries, each opened from its path inside the extraction directory. */
  function ZipItems(tempDir: string, names: seq<string>): seq<Item> {
    seq(|names|, i requires 0 <= i < |names| => Item(names[i], Extracted(Join(tempDir, names[i]))))
  }

  /** The image entries of the archive's listing, in listing order; none without an archive. */
  function KeptEntries(zipListing: Option<seq<string>>): seq<string> {
    match zipListing
    case None => []
    case Some(listing) => FilterImages(listing)
  }

  /** The whole queue: all uploads first, then the kept archive entries. */
  function Queue(uploads: seq<string>, zipListing: Option<seq<string>>, tempDir: string): seq<Item> {
    UploadItems(uploads) + ZipItems(tempDir, KeptEntries(zipListing))
  }

  /** Whether `Image.open` identifies an image. The web app opens each image as it
      queues it, so an image that cannot be opened raises before any is processed. */
  type Opener = ImageRef -> bool

  /** The position of the first queued item whose image cannot be opened, if any. */
  function FirstUnopened(queue: seq<Item>, opens: Opener): (r: Option<nat>)
    ensures r.Some? ==> r.value < |queue|
  {
    if queue == [] then None
    else if !opens(queue[0].image) then Some(0)
    else
      match FirstUnopened(queue[1..], opens)
      case None => None
      case Some(k) => Some(k + 1)
  }

  /** The name of the first queued item whose image cannot be opened, if any. */
  function UnopenedName(queue: seq<Item>, opens: Opener): Option<string> {
    match FirstUnopened(queue, opens)
    case None => None
    case Some(k) => Some(queue[k].name)
  }

  /** No position is reported exactly when every image opens; a reported position
      holds an image that does not open, and every image before it opens. */
  lemma {:induction false} FirstUnopenedSpec(queue: seq<Item>, opens: Opener)
    ensures FirstUnopened(queue, opens).None? <==> forall i :: 0 <= i < |queue| ==> opens(queue[i].image)
    ensures FirstUnopened(queue, opens).Some? ==>
      && !opens(queue[FirstUnopened(queue, opens).value].image)
      && forall i :: 0 <= i < FirstUnopened(queue, opens).value ==> opens(queue[i].image)
  {
    if queue != [] && opens(queue[0].image) {
      var rest := queue[1..];
      FirstUnopenedSpec(rest, opens);
      assert forall i :: 1 <= i < |queue| ==> queue[i] == rest[i - 1];
      if forall i :: 0 <= i < |rest| ==> opens(rest[i].image) {
        assert forall i :: 0 <= i < |queue| ==> opens(queue[i].image) by {
          forall i | 0 <= i < |queue| ensures opens(queue[i].image) {
            if i > 0 { assert queue[i] == rest[i - 1]; }
          }
        }
      } else {
        var k := FirstUnopened(rest, opens).value;
        assert queue[k + 1] == rest[k];
      }
    }
  }

  /** After images that all open, the first one that does not is the one reported. */
  lemma {:induction false} FirstUnopenedAfter(a: seq<Item>, x: Item, b: seq<Item>, opens: Opener)
    requires forall i :: 0 <= i < |a| ==> opens(a[i].image)
    requires !opens(x.image)
    ensures FirstUnopened(a + [x] + b, opens) == Some(|a|)
  {
    var q := a + [x] + b;
    FirstUnopenedSpec(q, opens);
    assert q[|a|] == x;
    assert forall i :: 0 <= i < |a| ==> q[i] == a[i];
  }

  /** The uploads and the kept archive entries before listing position `j`. */
  function QueuePrefix(uploads: seq<string>, listing: seq<string>, tempDir: string, j: nat): seq<Item>
    requires j <= |listing|
  {
    UploadItems(uploads) + ZipItems(tempDir, FilterImages(listing[..j]))
  }

  /** The items of consecutive runs of archive entries are those of each run. */
  lemma {:induction false} ZipItemsAppend(tempDir: string, a: seq<string>, b: seq<string>)
    ensures ZipItems(tempDir, a + b) == ZipItems(tempDir, a) + ZipItems(tempDir, b)
  {
    var l := ZipItems(tempDir, a + b);
    var r := ZipItems(tempDir, a) + ZipItems(tempDir, b);
    assert |l| == |r|;
    forall k | 0 <= k < |l| ensures l[k] == r[k] {
      if k >= |a| { assert (a + b)[k] == b[k - |a|]; }
    }
  }

  /** The items of the first `i` uploads are the first `i` upload items. */
  lemma {:induction false} UploadItemsPrefix(uploads: seq<string>, i: nat)
    requires i < |uploads|
    ensures UploadItems(uploads) == UploadItems(uploads[..i]) + [Item(uploads[i], Uploaded(i))] + UploadItems(uploads)[i + 1..]
  {
    var l := UploadItems(uploads);
    var r := UploadItems(uploads[..i]) + [Item(uploads[i], Uploaded(i))] + l[i + 1..];
    assert |l| == |r|;
    forall k | 0 <= k < |l| ensures l[k] == r[k] {
      if k < i { assert uploads[..i][k] == uploads[k]; }
    }
  }

  /** Around an image entry of the listing: the queue built before it, then that entry,
      then the rest. */
  lemma {:induction false} QueuePrefixAt(uploads: seq<string>, listing: seq<string>, tempDir: string, j: nat)
    requires j < |listing| && HasImageExtension(listing[j])
    ensures Queue(uploads, Some(listing), tempDir)
            == QueuePrefix(uploads, listing, tempDir, j) + [Item(listing[j], Extracted(Join(tempDir, listing[j])))]
               + ZipItems(tempDir, FilterImages(listing[j + 1..]))
  {
    var f := FilterImages(listing[..j]);
    var r := FilterImages(listing[j + 1..]);
    var x := listing[j];
    var item := Item(x, Extracted(Join(tempDir, x)));
    FilterImagesAround(listing, j);
    ZipItemsAppend(tempDir, f + [x], r);
    ZipItemsAppend(tempDir, f, [x]);
    assert ZipItems(tempDir, [x]) == [item];
    assert ZipItems(tempDir, KeptEntries(Some(listing))) == ZipItems(tempDir, f) + [item] + ZipItems(tempDir, r);
  }

  /** Builds `to_process` by appending, as the script's two loops do, opening each
      image as it is queued; the first image that does not open raises. */
  method BuildQueue(uploads: seq<string>, zipListing: Option<seq<string>>, tempDir: string, opens: Opener)
    returns (queue: seq<Item>, unopened: Option<string>)
    ensures unopened == UnopenedName(Queue(uploads, zipListing, tempDir), opens)
    ensures unopened.None? ==> queue == Queue(uploads, zipListing, tempDir)
  {
    queue := [];
    var i := 0;
    while i < |uploads|
      invariant 0 <= i <= |uploads|
      invariant queue == UploadItems(uploads[..i])
      invariant forall k :: 0 <= k < |queue| ==> opens(queue[k].image)
    {
      var item := Item(uploads[i], Uploaded(i));
      if !opens(item.image) {
        UploadItemsPrefix(uploads, i);
        var rest := UploadItems(uploads)[i + 1..] + ZipItems(tempDir, KeptEntries(zipListing));
        assert Queue(uploads, zipListing, tempDir) == queue + [item] + rest;
        FirstUnopenedAfter(queue, item, rest, opens);
        return queue, Some(uploads[i]);
      }
      queue := queue + [item];
      i := i + 1;
    }
    assert uploads[..i] == uploads;
    if zipListing.Some? {
      var listing := zipListing.value;
      var j := 0;
      while j < |listing|
        invariant 0 <= j <= |listing|
        invariant queue == QueuePrefix(uploads, listing, tempDir, j)
        invariant forall k :: 0 <= k < |queue| ==> opens(queue[k].image)
      {
        var name := listing[j];
        assert listing[..j + 1][..j] == listing[..j];
        if HasImageExtension(name) {
          var item := Item(name, Extracted(Join(tempDir, name)));
          if !opens(item.image) {
            QueuePrefixAt(uploads, listing, tempDir, j);
            FirstUnopenedAfter(queue, item, ZipItems(tempDir, FilterImages(listing[j + 1..])), opens);
            return queue, Some(name);
          }
          queue := queue + [item];
        }
        j := j + 1;
      }
      assert listing[..j] == listing;
    } else {
      assert ZipItems(tempDir, KeptEntries(zipListing)) == [];
    }
    assert queue == Queue(uploads, zipListing, tempDir);
    FirstUnopenedSpec(queue, opens);
    unopened := None;
  }

  /** The queue holds every upload, in upload order, followed by exactly the image
      entries of the archive listing, in listing order. */
  lemma QueueShape(uploads: seq<string>, zipListing: Option<seq<string>>, tempDir: string)
    ensures |Queue(uploads, zipListing, tempDir)| == |uploads| + |KeptEntries(zipListing)|
    ensures forall i :: 0 <= i < |uploads| ==> Queue(uploads, zipListing, tempDir)[i] == Item(uploads[i], Uploaded(i))
    ensures forall j :: 0 <= j < |KeptEntries(zipListing)| ==>
      Queue(uploads, zipListing, tempDir)[|uploads| + j]
        == Item(KeptEntries(zipListing)[j], Extracted(Join(tempDir, KeptEntries(zipListing)[j])))
  {
    var u := UploadItems(uploads);
    var kept := KeptEntries(zipListing);
    var z := ZipItems(tempDir, kept);
    var q: seq<Item> := u + z;
    forall i | 0 <= i < |uploads| ensures q[i] == Item(uploads[i], Uploaded(i)) {
      assert q[i] == u[i];
    }
    forall j | 0 <= j < |kept| ensures q[|u| + j] == Item(kept[j], Extracted(Join(tempDir, kept[j]))) {
      assert q[|u| + j] == z[j];
    }
  }

  /** An archive entry is queued exactly when it is listed and has an image extension. */
  lemma QueueZipMembership(uploads: seq<string>, listing: seq<string>, tempDir: string, name: string)
    ensures Item(name, Extracted(Join(tempDir, name))) in Queue(uploads, Some(listing), tempDir)
        <==> name in listing && HasImageExtension(name)
  {
    var x := Item(name, Extracted(Join(tempDir, name)));
    var kept := FilterImages(listing);
    FilterImagesMembership(listing, name);
    assert x !in UploadItems(uploads);
    ZipItemsMembership(tempDir, kept, name);
  }

  lemma ZipItemsMembership(tempDir: string, names: seq<string>, name: string)
    ensures Item(name, Extracted(Join(tempDir, name))) in ZipItems(tempDir, names) <==> name in names
  {
    var z := ZipItems(tempDir, names);
    if name in names {
      var k :| 0 <= k < |names| && names[k] == name;
      assert z[k] == Item(name, Extracted(Join(tempDir, name)));
    }
  }

  /** How far a run got: every item so far recognised (`Running`), or stopped at the
      first failing item, whose exception ends the run. `done` pairs each processed
      name with its unstripped text, in queue order. */
  datatype Progress = Running(done: seq<(string, string)>) | Stopped(done: seq<(string, string)>, failedItem: string)

  /** The processing loop over a queue, one item at a time, with no exception handler. */
  function RunProgress(queue: seq<Item>, config: string, recognize: Recognizer): Progress {
    if queue == [] then Running([])
    else
      var item := queue[|queue| - 1];
      match RunProgress(queue[..|queue| - 1], config, recognize)
      case Stopped(done, failed) => Stopped(done, failed)
      case Running(done) =>
        match recognize(item.image, config)
        case Recognized(text) => Running(done + [(item.name, text)])
        case Failed => Stopped(done, item.name)
  }

  /** The section the web app appends for one processed item: its text is stripped. */
  function AppSection(entry: (string, string)): string {
    Section(entry.0, Strip(entry.1))
  }

  /** `combined_text` after the given items, starting from `""`. */
  function CombinedText(done: seq<(string, string)>): string {
    Sections(done, AppSection)
  }

  /** `images_text` after the given items, starting from the cleared dictionary. */
  function TextsOf(done: seq<(string, string)>): map<string, string> {
    if done == [] then map[]
    else
      var last := done[|done| - 1];
      TextsOf(done[..|done| - 1])[last.0 := last.1]
  }

  /** The processed items are a prefix of the queue, each with the text its recognition
      returned. A finished run processed the whole queue; a stopped run processed every
      item before the first failing one, and that item is the one reported. */
  lemma {:induction false} RunProgressShape(queue: seq<Item>, config: string, recognize: Recognizer)
    ensures var p := RunProgress(queue, config, recognize);
      && |p.done| <= |queue|
      && (forall i :: 0 <= i < |p.done| ==>
            recognize(queue[i].image, config).Recognized?
            && p.done[i] == (queue[i].name, recognize(queue[i].image, config).text))
      && (p.Running? ==> |p.done| == |queue|)
      && (p.Stopped? ==>
            && |p.done| < |queue|
            && recognize(queue[|p.done|].image, config).Failed?
            && p.failedItem == queue[|p.done|].name)
  {
    if queue != [] {
      var init := queue[..|queue| - 1];
      RunProgressShape(init, config, recognize);
      assert forall i :: 0 <= i < |init| ==> init[i] == queue[i];
    }
  }

  /** The run finishes exactly when every queued item is recognised. */
  lemma RunFinishesIff(queue: seq<Item>, config: string, recognize: Recognizer)
    ensures RunProgress(queue, config, recognize).Running?
        <==> forall i :: 0 <= i < |queue| ==> recognize(queue[i].image, config).Recognized?
  {
    RunProgressShape(queue, config, recognize);
  }

  /** One more item of the queue: it is added to the processed ones, or the run stops at it. */
  lemma RunProgressStep(queue: seq<Item>, i: nat, config: string, recognize: Recognizer,
                        done: seq<(string, string)>)
    requires i < |queue| && RunProgress(queue[..i], config, recognize) == Running(done)
    ensures RunProgress(queue[..i + 1], config, recognize)
            == match recognize(queue[i].image, config)
               case Recognized(text) => Running(done + [(queue[i].name, text)])
               case Failed => Stopped(done, queue[i].name)
  {
    assert queue[..i + 1][..i] == queue[..i];
  }

  /** Once an item has failed, the items after it are never looked at. */
  lemma {:induction false} StoppedStaysStopped(queue: seq<Item>, k: nat, config: string, recognize: Recognizer)
    requires k <= |queue|
    requires RunProgress(queue[..k], config, recognize).Stopped?
    ensures RunProgress(queue, config, recognize) == RunProgress(queue[..k], config, recognize)
    decreases |queue| - k
  {
    if k < |queue| {
      assert queue[..k + 1][..k] == queue[..k];
      StoppedStaysStopped(queue, k + 1, config, recognize);
    } else {
      assert queue[..k] == queue;
    }
  }

  /** The combined text of a run grows by one section per processed item. */
  lemma CombinedTextSnoc(done: seq<(string, string)>, entry: (string, string))
    ensures CombinedText(done + [entry]) == CombinedText(done) + AppSection(entry)
  {
    assert (done + [entry])[..|done|] == done;
  }

  /** The combined text of consecutive runs of items is the concatenation of theirs. */
  lemma CombinedTextAppend(a: seq<(string, string)>, b: seq<(string, string)>)
    ensures CombinedText(a + b) == CombinedText(a) + CombinedText(b)
  {
    SectionsAppend(a, b, AppSection);
  }

  /** The combined text has something besides whitespace exactly when an item was processed. */
  lemma CombinedNotBlankIff(done: seq<(string, string)>)
    ensures Strip(CombinedText(done)) != "" <==> |done| > 0
  {
    if done != [] {
      var prefix := Sections(done[..|done| - 1], AppSection);
      var last := AppSection(done[|done| - 1]);
      assert last[1] == '-';
      assert (prefix + last)[|prefix| + 1] == '-';
    }
    StripSpec(CombinedText(done));
  }

  /** One more processed item updates its name's entry. */
  lemma TextsOfSnoc(done: seq<(string, string)>, entry: (string, string))
    ensures TextsOf(done + [entry]) == TextsOf(done)[entry.0 := entry.1]
  {
    assert (done + [entry])[..|done|] == done;
  }

  /** Appending one more item's section to a text ending in the combined text. */
  lemma {:induction false} CombinedAfter(c: string, done: seq<(string, string)>, entry: (string, string))
    ensures c + CombinedText(done) + AppSection(entry) == c + CombinedText(done + [entry])
  {
    CombinedTextSnoc(done, entry);
  }

  /** Recording one more item on top of earlier contents updates its name's entry. */
  lemma {:induction false} TextsOfAfter(m: map<string, string>, done: seq<(string, string)>, entry: (string, string))
    ensures (m + TextsOf(done))[entry.0 := entry.1] == m + TextsOf(done + [entry])
  {
    TextsOfSnoc(done, entry);
  }

  /** `images_text` holds the processed names and no other key. */
  lemma {:induction false} TextsOfKeys(done: seq<(string, string)>)
    ensures TextsOf(done).Keys == set i | 0 <= i < |done| :: done[i].0
  {
    if done != [] {
      var init := done[..|done| - 1];
      TextsOfKeys(init);
      var names := set i | 0 <= i < |done| :: done[i].0;
      var initNames := set i | 0 <= i < |init| :: init[i].0;
      forall n | n in names ensures n in initNames + {done[|done| - 1].0} {
        var i :| 0 <= i < |done| && done[i].0 == n;
        if i < |init| { assert init[i].0 == n; }
      }
      forall n | n in initNames ensures n in names {
        var i :| 0 <= i < |init| && init[i].0 == n;
        assert done[i].0 == n;
      }
      assert names == initNames + {done[|done| - 1].0};
    }
  }

  /** Each processed name maps to the text of the last item that carried it (a later
      item overwrites an earlier one). */
  lemma {:induction false} TextsOfLastWins(done: seq<(string, string)>)
    ensures forall i :: 0 <= i < |done| && (forall j :: i < j < |done| ==> done[j].0 != done[i].0)
              ==> done[i].0 in TextsOf(done) && TextsOf(done)[done[i].0] == done[i].1
  {
    if done != [] {
      var init := done[..|done| - 1];
      TextsOfLastWins(init);
      forall i | 0 <= i < |done| - 1 && (forall j :: i < j < |done| ==> done[j].0 != done[i].0)
        ensures done[i].0 in TextsOf(done) && TextsOf(done)[done[i].0] == done[i].1
      {
        assert init[i] == done[i];
        assert forall j :: i < j < |init| ==> init[j] == done[j];
      }
    }
  }

  /** The history tab's image count never exceeds the number of processed items, and
      equals it when the names are distinct. */
  lemma {:induction false} ImagesProcessedCount(done: seq<(string, string)>)
    ensures |TextsOf(done)| <= |done|
    ensures (forall i, j :: 0 <= i < j < |done| ==> done[i].0 != done[j].0) ==> |TextsOf(done)| == |done|
  {
    if done != [] {
      var init := done[..|done| - 1];
      var last := done[|done| - 1];
      ImagesProcessedCount(init);
      TextsOfKeys(init);
      if forall i, j :: 0 <= i < j < |done| ==> done[i].0 != done[j].0 {
        assert forall i, j :: 0 <= i < j < |init| ==> init[i].0 != init[j].0 by {
          assert forall i :: 0 <= i < |init| ==> init[i] == done[i];
        }
        forall i | 0 <= i < |init| ensures init[i].0 != last.0 {
          assert init[i] == done[i];
        }
        assert last.0 !in TextsOf(init);
      }
    }
  }

  /** The characters a run's sections add up to: eleven of layout per item (the header's
      dashes, spaces and newlines and the closing newline), its name and its stripped text. */
  function SectionChars(done: seq<(string, string)>): nat {
    if done == [] then 0
    else
      var last := done[|done| - 1];
      SectionChars(done[..|done| - 1]) + |last.0| + |Strip(last.1)| + 11
  }

  /** The history tab's character count is the sum over the processed items, so it is
      at least eleven per item. */
  lemma {:induction false} OcrCharactersCount(done: seq<(string, string)>)
    ensures |CombinedText(done)| == SectionChars(done)
    ensures |CombinedText(done)| >= 11 * |done|
  {
    if done != [] {
      OcrCharactersCount(done[..|done| - 1]);
    }
  }

  /** The status box after a run. */
  datatype Status = Complete | NoText

  /** "Done!" when `combined_text.strip()` is non-empty, "No text found." otherwise. */
  function StatusOf(combined: string): Status {
    if Strip(combined) != "" then Complete else NoText
  }

  /** What a press of "Run OCR" ends with: the status, or the exception of the first
      item whose recognition failed. */
  datatype RunOutcome = Finished(status: Status) | Raised(failedItem: string)

  /** A run that reaches its end reports "complete" exactly when the queue was not empty. */
  lemma FinishedStatus(queue: seq<Item>, config: string, recognize: Recognizer)
    requires RunProgress(queue, config, recognize).Running?
    ensures StatusOf(CombinedText(RunProgress(queue, config, recognize).done)) == Complete <==> |queue| > 0
  {
    RunProgressShape(queue, config, recognize);
    CombinedNotBlankIff(RunProgress(queue, config, recognize).done);
  }

  /** The text shown in the OCR output box: with a non-empty search term, every
      occurrence of it (left to right, non-overlapping) is wrapped in `**`. */
  function Highlight(text: string, term: string): string {
    if term == "" then text else ReplaceAll(text, term, "**" + term + "**")
  }

  /** An empty search term, or one that does not occur, leaves the text as it is. */
  lemma HighlightUnchanged(text: string, term: string)
    ensures term == "" ==> Highlight(text, term) == text
    ensures term != "" && (forall i :: !OccursAt(text, term, i)) ==> Highlight(text, term) == text
  {
    if term != "" && forall i :: !OccursAt(text, term, i) {
      ReplaceAbsent(text, term, "**" + term + "**");
    }
  }

  /** The first occurrence of the term is wrapped, the text before it is shown as is,
      and highlighting goes on after the occurrence. */
  lemma HighlightLeftmost(text: string, term: string, k: int)
    requires term != ""
    requires OccursAt(text, term, k)
    requires forall i :: 0 <= i < k ==> !OccursAt(text, term, i)
    ensures Highlight(text, term) == text[..k] + "**" + term + "**" + Highlight(text[k + |term|..], term)
  {
    var rep := "**" + term + "**";
    ReplaceLeftmost(text, term, rep, k);
    var after := ReplaceAll(text[k + |term|..], term, rep);
    assert text[..k] + rep + after == text[..k] + "**" + term + "**" + after;
  }

  /** `translated_text or combined_text`: the text handed to speech synthesis. */
  function SpeechText(translated: string, combined: string): string {
    if translated != "" then translated else combined
  }

  /** Speech uses the translation whenever there is one. Without one it falls back to
      the combined text, and there is then something to speak exactly when the run
      processed an item. */
  lemma SpeechFallback(translated: string, done: seq<(string, string)>)
    ensures translated != "" ==> SpeechText(translated, CombinedText(done)) == translated
    ensures translated == "" ==> SpeechText(translated, CombinedText(done)) == CombinedText(done)
    ensures translated == "" ==> (Strip(SpeechText(translated, CombinedText(done))) != "" <==> |done| > 0)
  {
    CombinedNotBlankIff(done);
  }

  /** The per-session state the OCR pipeline reads and writes (`st.session_state`). */
  class Session {
    var imagesText: map<string, string>
    var combinedText: string
    var translatedText: string
    var lastAudioPath: string
    var searchTerm: string

    /** A new session starts with every key at its default. */
    constructor ()
      ensures imagesText == map[] && combinedText == "" && translatedText == ""
      ensures lastAudioPath == "" && searchTerm == ""
    {
      imagesText := map[];
      combinedText := "";
      translatedText := "";
      lastAudioPath := "";
      searchTerm := "";
    }

    /** A press of "Run OCR" with the sidebar's two labels, the uploaded file names, the
        listing of the extracted archive (if one was uploaded) and its directory. The
        dictionary and the combined text are cleared first. An image that does not open
        raises while the queue is built, leaving them cleared; otherwise they are updated
        item by item, and a failed recognition raises and leaves the updates made so far. */
    method RunOcr(oem: string, psm: string, uploads: seq<string>, zipListing: Option<seq<string>>,
                  tempDir: string, opens: Opener, recognize: Recognizer) returns (outcome: RunOutcome)
      requires oem in TessConfig.OemValues && psm in TessConfig.PsmValues
      modifies this
      ensures UnopenedName(Queue(uploads, zipListing, tempDir), opens).Some? ==>
        && imagesText == map[] && combinedText == ""
        && outcome == Raised(UnopenedName(Queue(uploads, zipListing, tempDir), opens).value)
      ensures UnopenedName(Queue(uploads, zipListing, tempDir), opens).None? ==>
        var p := RunProgress(Queue(uploads, zipListing, tempDir), TessConfig.Config(oem, psm), recognize);
        && imagesText == TextsOf(p.done)
        && combinedText == CombinedText(p.done)
        && outcome == (if p.Running? then Finished(StatusOf(combinedText)) else Raised(p.failedItem))
      ensures translatedText == old(translatedText) && lastAudioPath == old(lastAudioPath)
      ensures searchTerm == old(searchTerm)
    {
      imagesText := map[];
      combinedText := "";
      var config := TessConfig.Config(oem, psm);
      var queue, unopened := BuildQueue(uploads, zipListing, tempDir, opens);
      if unopened.Some? {
        return Raised(unopened.value);
      }
      outcome := ProcessQueue(queue, config, recognize);
      assert map[] + TextsOf(RunProgress(queue, config, recognize).done) == TextsOf(RunProgress(queue, config, recognize).done);
    }

    /** The processing loop: records each item in turn in the dictionary and the combined
        text; the first failed recognition raises and ends the loop. */
    method ProcessQueue(queue: seq<Item>, config: string, recognize: Recognizer) returns (outcome: RunOutcome)
      modifies this
      ensures var p := RunProgress(queue, config, recognize);
        && imagesText == old(imagesText) + TextsOf(p.done)
        && combinedText == old(combinedText) + CombinedText(p.done)
        && outcome == (if p.Running? then Finished(StatusOf(combinedText)) else Raised(p.failedItem))
      ensures translatedText == old(translatedText) && lastAudioPath == old(lastAudioPath)
      ensures searchTerm == old(searchTerm)
    {
      ghost var texts0, combined0 := imagesText, combinedText;
      ghost var done: seq<(string, string)> := [];
      assert texts0 + TextsOf(done) == texts0;
      var i := 0;
      while i < |queue|
        invariant 0 <= i <= |queue|
        invariant RunProgress(queue[..i], config, recognize) == Running(done)
        invariant imagesText == texts0 + TextsOf(done)
        invariant combinedText == combined0 + CombinedText(done)
        invariant translatedText == old(translatedText) && lastAudioPath == old(lastAudioPath)
        invariant searchTerm == old(searchTerm)
      {
        var item := queue[i];
        var result := recognize(item.image, config);
        RunProgressStep(queue, i, config, recognize, done);
        if result.Failed? {
          StoppedStaysStopped(queue, i + 1, config, recognize);
          return Raised(item.name);
        }
        imagesText := imagesText[item.name := result.text];
        combinedText := combinedText + AppSection((item.name, result.text));
        CombinedAfter(combined0, done, (item.name, result.text));
        TextsOfAfter(texts0, done, (item.name, result.text));
        done := done + [(item.name, result.text)];
        i := i + 1;
      }
      assert queue[..i] == queue;
      outcome := Finished(StatusOf(combinedText));
    }
  }
}
