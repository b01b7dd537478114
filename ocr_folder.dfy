/** The folder script's `run_ocr_on_folder`: every image of a directory listing is
    recognised under its own exception handler; each success is written to a `.txt`
    file beside the image and appended to a combined text, which is written to
    `output_combined.txt` in the folder at the end. The file system is a map from path
    to content, and the steps the function takes are recorded as a trace of effects. */
module OcrFolder {
  import opened Strings
  import opened Paths
  import opened Batch
  import TessConfig

  /** Image reading, preprocessing and Tesseract for one image path under an options string. */
  type FolderRecognizer = (string, string) -> Recognition

  /** One observable step of a run: a file written with its whole content, or a section
      appended to the combined text. */
  datatype Effect = WriteFile(path: string, content: string) | AppendSection(name: string, text: string)

  /** The printed verdict of a call: the folder check failed, or the run went through. */
  datatype FolderStatus = InvalidFolderPath | Completed

  const CombinedName: string := "output_combined.txt"

  /** Where the combined text is written. */
  function CombinedPath(folder: string): string {
    Join(folder, CombinedName)
  }

  /** The steps for one file that passed the extension test: on success the `.txt`
      file is written and then the section is appended; a failure leaves no trace. */
  function ImageEffects(folder: string, name: string, recognize: FolderRecognizer): seq<Effect> {
    var imagePath := Join(folder, name);
    match recognize(imagePath, TessConfig.FolderConfig)
    case Recognized(text) => [WriteFile(TxtPath(imagePath), text), AppendSection(name, text)]
    case Failed => []
  }

  /** The steps of the loop over a listing: names without an image extension are skipped. */
  function ListingEffects(folder: string, names: seq<string>, recognize: FolderRecognizer): seq<Effect> {
    if names == [] then []
    else
      var last := names[|names| - 1];
      ListingEffects(folder, names[..|names| - 1], recognize)
        + (if HasImageExtension(last) then ImageEffects(folder, last, recognize) else [])
  }

  /** The steps for a sequence of names that are all attempted. */
  function ImagesEffects(folder: string, images: seq<string>, recognize: FolderRecognizer): seq<Effect> {
    if images == [] then []
    else ImagesEffects(folder, images[..|images| - 1], recognize) + ImageEffects(folder, images[|images| - 1], recognize)
  }

  /** The combined text after the given steps, starting from `""`. */
  function Accumulated(effects: seq<Effect>): string {
    if effects == [] then ""
    else
      var prefix := Accumulated(effects[..|effects| - 1]);
      match effects[|effects| - 1]
      case AppendSection(name, text) => prefix + Section(name, text)
      case WriteFile(_, _) => prefix
  }

  /** The file system after the given steps, each write replacing the file's content. */
  function ApplyWrites(files: map<string, string>, effects: seq<Effect>): map<string, string> {
    if effects == [] then files
    else
      var before := ApplyWrites(files, effects[..|effects| - 1]);
      match effects[|effects| - 1]
      case WriteFile(path, content) => before[path := content]
      case AppendSection(_, _) => before
  }

  /** All steps of a call: nothing for a path that is not a directory; otherwise the
      loop's steps followed by the write of the combined text. */
  function FolderEffects(isDir: bool, folder: string, listing: seq<string>, recognize: FolderRecognizer): seq<Effect> {
    if !isDir then []
    else
      var loop := ListingEffects(folder, listing, recognize);
      loop + [WriteFile(CombinedPath(folder), Accumulated(loop))]
  }

  /** The loop's steps grow by the steps of the next listed name. */
  lemma ListingEffectsStep(folder: string, listing: seq<string>, i: nat, recognize: FolderRecognizer)
    requires i < |listing|
    ensures ListingEffects(folder, listing[..i + 1], recognize)
         == ListingEffects(folder, listing[..i], recognize)
            + (if HasImageExtension(listing[i]) then ImageEffects(folder, listing[i], recognize) else [])
  {
    assert listing[..i + 1][..i] == listing[..i];
  }

  lemma AccumulatedSnoc(effects: seq<Effect>, x: Effect)
    ensures Accumulated(effects + [x]) == Accumulated(effects) + (if x.AppendSection? then Section(x.name, x.text) else "")
  {
    assert (effects + [x])[..|effects|] == effects;
  }

  lemma ApplyWritesSnoc(files: map<string, string>, effects: seq<Effect>, x: Effect)
    ensures ApplyWrites(files, effects + [x])
         == if x.WriteFile? then ApplyWrites(files, effects)[x.path := x.content] else ApplyWrites(files, effects)
  {
    assert (effects + [x])[..|effects|] == effects;
  }

  /** `run_ocr_on_folder(folder_path)`, given whether the path is a directory, its
      `os.listdir` listing and the files present before the call. */
  method RunOcrOnFolder(files: map<string, string>, isDir: bool, folder: string, listing: seq<string>,
                        recognize: FolderRecognizer)
    returns (status: FolderStatus, effects: seq<Effect>, written: map<string, string>)
    ensures status == (if isDir then Completed else InvalidFolderPath)
    ensures effects == FolderEffects(isDir, folder, listing, recognize)
    ensures written == ApplyWrites(files, effects)
  {
    if !isDir {
      return InvalidFolderPath, [], files;
    }
    var combined := "";
    effects := [];
    written := files;
    var i := 0;
    while i < |listing|
      invariant 0 <= i <= |listing|
      invariant effects == ListingEffects(folder, listing[..i], recognize)
      invariant combined == Accumulated(effects)
      invariant written == ApplyWrites(files, effects)
    {
      var filename := listing[i];
      ListingEffectsStep(folder, listing, i, recognize);
      if HasImageExtension(filename) {
        var imagePath := Join(folder, filename);
        var result := recognize(imagePath, TessConfig.FolderConfig);
        if result.Recognized? {
          var txtPath := TxtPath(imagePath);
          var write := WriteFile(txtPath, result.text);
          var append := AppendSection(filename, result.text);
          written := written[txtPath := result.text];
          AccumulatedSnoc(effects, write);
          ApplyWritesSnoc(files, effects, write);
          effects := effects + [write];
          combined := combined + Section(filename, result.text);
          AccumulatedSnoc(effects, append);
          ApplyWritesSnoc(files, effects, append);
          effects := effects + [append];
        }
      }
      i := i + 1;
    }
    assert listing[..i] == listing;
    var finalWrite := WriteFile(CombinedPath(folder), combined);
    written := written[CombinedPath(folder) := combined];
    ApplyWritesSnoc(files, effects, finalWrite);
    effects := effects + [finalWrite];
    status := Completed;
  }

  /** The successfully recognised images of a listing, with their texts, in listing order. */
  function Successes(folder: string, names: seq<string>, recognize: FolderRecognizer): seq<(string, string)> {
    if names == [] then []
    else
      var last := names[|names| - 1];
      var rest := Successes(folder, names[..|names| - 1], recognize);
      if HasImageExtension(last) && recognize(Join(folder, last), TessConfig.FolderConfig).Recognized?
      then rest + [(last, recognize(Join(folder, last), TessConfig.FolderConfig).text)]
      else rest
  }

  /** The section the folder script appends for one success: its text is not stripped. */
  function FolderSection(entry: (string, string)): string {
    Section(entry.0, entry.1)
  }

  /** The combined text of the given successes. */
  function SuccessText(successes: seq<(string, string)>): string {
    Sections(successes, FolderSection)
  }

  /** A listing's steps are its parts' steps concatenated: what happens for a file
      depends on that file alone, not on how the files before it fared. */
  lemma {:induction false} ListingEffectsAppend(folder: string, a: seq<string>, b: seq<string>, recognize: FolderRecognizer)
    ensures ListingEffects(folder, a + b, recognize) == ListingEffects(folder, a, recognize) + ListingEffects(folder, b, recognize)
    decreases |b|
  {
    if b == [] {
      assert a + b == a;
    } else {
      var init := b[..|b| - 1];
      assert (a + b)[..|a + b| - 1] == a + init;
      ListingEffectsAppend(folder, a, init, recognize);
    }
  }

  /** A file that is skipped or whose recognition fails can be taken out of the listing
      without changing anything the run does for the other files. */
  lemma FailureIsolation(folder: string, a: seq<string>, x: string, b: seq<string>, recognize: FolderRecognizer)
    requires !HasImageExtension(x) || recognize(Join(folder, x), TessConfig.FolderConfig).Failed?
    ensures ListingEffects(folder, a + [x] + b, recognize) == ListingEffects(folder, a + b, recognize)
  {
    ListingEffectsAppend(folder, a + [x], b, recognize);
    ListingEffectsAppend(folder, a, [x], recognize);
    ListingEffectsAppend(folder, a, b, recognize);
    assert [x][..0] == [];
    assert ListingEffects(folder, [x], recognize) == [];
  }

  /** Only the names passing the extension test are attempted, in listing order: the
      loop does what attempting exactly the filtered names would do. */
  lemma {:induction false} ListingEffectsFiltered(folder: string, names: seq<string>, recognize: FolderRecognizer)
    ensures ListingEffects(folder, names, recognize) == ImagesEffects(folder, FilterImages(names), recognize)
  {
    if names != [] {
      var init := names[..|names| - 1];
      var last := names[|names| - 1];
      ListingEffectsFiltered(folder, init, recognize);
      var kept := FilterImages(init);
      if HasImageExtension(last) {
        assert (kept + [last])[..|kept|] == kept;
      } else {
        assert FilterImages(names) == kept;
      }
    }
  }

  /** The two steps of each success, in order. */
  function SuccessEffects(folder: string, successes: seq<(string, string)>): seq<Effect> {
    if successes == [] then []
    else
      var last := successes[|successes| - 1];
      SuccessEffects(folder, successes[..|successes| - 1])
        + [WriteFile(TxtPath(Join(folder, last.0)), last.1), AppendSection(last.0, last.1)]
  }

  /** The loop's steps are exactly the two steps of each success, nothing for the rest. */
  lemma {:induction false} ListingIsSuccessEffects(folder: string, names: seq<string>, recognize: FolderRecognizer)
    ensures ListingEffects(folder, names, recognize) == SuccessEffects(folder, Successes(folder, names, recognize))
  {
    if names != [] {
      var init := names[..|names| - 1];
      var last := names[|names| - 1];
      ListingIsSuccessEffects(folder, init, recognize);
      var s0 := Successes(folder, init, recognize);
      if HasImageExtension(last) && recognize(Join(folder, last), TessConfig.FolderConfig).Recognized? {
        var text := recognize(Join(folder, last), TessConfig.FolderConfig).text;
        assert (s0 + [(last, text)])[..|s0|] == s0;
      } else {
        assert ListingEffects(folder, init, recognize) + [] == ListingEffects(folder, init, recognize);
      }
    }
  }

  /** Success `k` owns steps `2k` (its `.txt` write) and `2k + 1` (its section). */
  lemma {:induction false} SuccessEffectsAt(folder: string, s: seq<(string, string)>)
    ensures var e := SuccessEffects(folder, s);
      && |e| == 2 * |s|
      && forall k :: 0 <= k < |s| ==>
           && e[2 * k] == WriteFile(TxtPath(Join(folder, s[k].0)), s[k].1)
           && e[2 * k + 1] == AppendSection(s[k].0, s[k].1)
  {
    if s != [] {
      var init := s[..|s| - 1];
      SuccessEffectsAt(folder, init);
      var e0 := SuccessEffects(folder, init);
      var e := SuccessEffects(folder, s);
      var last := s[|s| - 1];
      var pair := [WriteFile(TxtPath(Join(folder, last.0)), last.1), AppendSection(last.0, last.1)];
      assert e == e0 + pair;
      forall k | 0 <= k < |s|
        ensures e[2 * k] == WriteFile(TxtPath(Join(folder, s[k].0)), s[k].1)
        ensures e[2 * k + 1] == AppendSection(s[k].0, s[k].1)
      {
        if k < |init| {
          assert e[2 * k] == e0[2 * k] && e[2 * k + 1] == e0[2 * k + 1];
          assert s[k] == init[k];
        } else {
          assert 2 * k == |e0|;
          assert e[2 * k] == pair[0] && e[2 * k + 1] == pair[1];
        }
      }
    }
  }

  /** The loop's steps come in pairs, one pair per success in listing order: the write
      of the image's `.txt` file with exactly its text, then the append of its section. */
  lemma ListingEffectsShape(folder: string, names: seq<string>, recognize: FolderRecognizer)
    ensures var e := ListingEffects(folder, names, recognize);
      var s := Successes(folder, names, recognize);
      && |e| == 2 * |s|
      && forall k :: 0 <= k < |s| ==>
           && e[2 * k] == WriteFile(TxtPath(Join(folder, s[k].0)), s[k].1)
           && e[2 * k + 1] == AppendSection(s[k].0, s[k].1)
  {
    ListingIsSuccessEffects(folder, names, recognize);
    SuccessEffectsAt(folder, Successes(folder, names, recognize));
  }

  /** Every section is appended right after the `.txt` file of the same image has been
      written with the same text. */
  lemma WriteBeforeAppend(folder: string, names: seq<string>, recognize: FolderRecognizer)
    ensures var e := ListingEffects(folder, names, recognize);
      forall i :: 0 <= i < |e| && e[i].AppendSection? ==>
        0 < i && e[i - 1] == WriteFile(TxtPath(Join(folder, e[i].name)), e[i].text)
  {
    ListingEffectsShape(folder, names, recognize);
    var e := ListingEffects(folder, names, recognize);
    var s := Successes(folder, names, recognize);
    forall i | 0 <= i < |e| && e[i].AppendSection?
      ensures 0 < i && e[i - 1] == WriteFile(TxtPath(Join(folder, e[i].name)), e[i].text)
    {
      var k := i / 2;
      assert i == 2 * k || i == 2 * k + 1;
      assert k < |s|;
      assert i != 2 * k;
    }
  }

  /** Each success is an image of the listing together with the text recognised for it. */
  lemma {:induction false} SuccessesAreRecognized(folder: string, names: seq<string>, recognize: FolderRecognizer)
    ensures forall k :: 0 <= k < |Successes(folder, names, recognize)| ==>
      var entry := Successes(folder, names, recognize)[k];
      && entry.0 in names
      && HasImageExtension(entry.0)
      && recognize(Join(folder, entry.0), TessConfig.FolderConfig) == Recognized(entry.1)
  {
    if names != [] {
      var init := names[..|names| - 1];
      var last := names[|names| - 1];
      SuccessesAreRecognized(folder, init, recognize);
      var s0 := Successes(folder, init, recognize);
      var s := Successes(folder, names, recognize);
      forall k | 0 <= k < |s|
        ensures s[k].0 in names
        ensures HasImageExtension(s[k].0)
        ensures recognize(Join(folder, s[k].0), TessConfig.FolderConfig) == Recognized(s[k].1)
      {
        if k < |s0| {
          assert s[k] == s0[k];
          assert s0[k].0 in init;
          var i :| 0 <= i < |init| && init[i] == s0[k].0;
          assert names[i] == init[i];
        } else {
          assert s[k] == (last, recognize(Join(folder, last), TessConfig.FolderConfig).text);
        }
      }
    }
  }

  /** Every listed image whose recognition succeeds is among the successes, with its text. */
  lemma {:induction false} SuccessesComplete(folder: string, names: seq<string>, recognize: FolderRecognizer)
    ensures forall i :: 0 <= i < |names| && HasImageExtension(names[i])
                        && recognize(Join(folder, names[i]), TessConfig.FolderConfig).Recognized? ==>
      (names[i], recognize(Join(folder, names[i]), TessConfig.FolderConfig).text) in Successes(folder, names, recognize)
  {
    if names != [] {
      var init := names[..|names| - 1];
      SuccessesComplete(folder, init, recognize);
      forall i | 0 <= i < |names| && HasImageExtension(names[i])
                 && recognize(Join(folder, names[i]), TessConfig.FolderConfig).Recognized?
        ensures (names[i], recognize(Join(folder, names[i]), TessConfig.FolderConfig).text)
                  in Successes(folder, names, recognize)
      {
        if i < |init| {
          assert init[i] == names[i];
        }
      }
    }
  }

  /** The successes of a listing are those of its parts in order: successes keep their
      listing order. */
  lemma {:induction false} SuccessesAppend(folder: string, a: seq<string>, b: seq<string>, recognize: FolderRecognizer)
    ensures Successes(folder, a + b, recognize) == Successes(folder, a, recognize) + Successes(folder, b, recognize)
    decreases |b|
  {
    if b == [] {
      assert a + b == a;
    } else {
      var init := b[..|b| - 1];
      assert (a + b)[..|a + b| - 1] == a + init;
      SuccessesAppend(folder, a, init, recognize);
    }
  }

  /** The combined text is made of the sections of the successes only, in order. */
  lemma CombinedOfSuccesses(folder: string, names: seq<string>, recognize: FolderRecognizer)
    ensures Accumulated(ListingEffects(folder, names, recognize)) == SuccessText(Successes(folder, names, recognize))
  {
    ListingIsSuccessEffects(folder, names, recognize);
    AccumulatedSuccessEffects(folder, Successes(folder, names, recognize));
  }

  /** Each success's write adds nothing to the combined text and its append adds its section. */
  lemma {:induction false} AccumulatedSuccessEffects(folder: string, s: seq<(string, string)>)
    ensures Accumulated(SuccessEffects(folder, s)) == SuccessText(s)
  {
    if s != [] {
      var init := s[..|s| - 1];
      var last := s[|s| - 1];
      AccumulatedSuccessEffects(folder, init);
      var e0 := SuccessEffects(folder, init);
      var w := WriteFile(TxtPath(Join(folder, last.0)), last.1);
      var a := AppendSection(last.0, last.1);
      assert SuccessEffects(folder, s) == (e0 + [w]) + [a];
      AccumulatedSnoc(e0 + [w], a);
      AccumulatedSnoc(e0, w);
    }
  }

  /** The combined text is empty exactly when no image was recognised. */
  lemma CombinedEmptyIff(folder: string, names: seq<string>, recognize: FolderRecognizer)
    ensures Accumulated(ListingEffects(folder, names, recognize)) == "" <==> Successes(folder, names, recognize) == []
  {
    CombinedOfSuccesses(folder, names, recognize);
    var s := Successes(folder, names, recognize);
    if s != [] {
      assert |FolderSection(s[|s| - 1])| > 0;
    }
  }

  /** `WriteFile(p, _)` effects. */
  predicate WritesTo(e: Effect, p: string) {
    e.WriteFile? && e.path == p
  }

  /** A path that no step writes keeps its state. */
  lemma {:induction false} ApplyWritesUntouched(files: map<string, string>, effects: seq<Effect>, p: string)
    requires forall i :: 0 <= i < |effects| ==> !WritesTo(effects[i], p)
    ensures p in ApplyWrites(files, effects) <==> p in files
    ensures p in files ==> ApplyWrites(files, effects)[p] == files[p]
  {
    if effects != [] {
      var init := effects[..|effects| - 1];
      assert forall i :: 0 <= i < |init| ==> init[i] == effects[i];
      ApplyWritesUntouched(files, init, p);
      ApplyWritesSnoc(files, init, effects[|effects| - 1]);
      assert init + [effects[|effects| - 1]] == effects;
    }
  }

  /** For a directory, every path other than the successes' `.txt` files and
      `output_combined.txt` keeps its presence and its content. */
  lemma {:induction false} FolderFrame(files: map<string, string>, folder: string, listing: seq<string>, recognize: FolderRecognizer,
                    p: string)
    requires p != CombinedPath(folder)
    requires forall k :: 0 <= k < |Successes(folder, listing, recognize)| ==>
      TxtPath(Join(folder, Successes(folder, listing, recognize)[k].0)) != p
    ensures p in ApplyWrites(files, FolderEffects(true, folder, listing, recognize)) <==> p in files
    ensures p in files ==> ApplyWrites(files, FolderEffects(true, folder, listing, recognize))[p] == files[p]
  {
    var s := Successes(folder, listing, recognize);
    var loop := ListingEffects(folder, listing, recognize);
    var e := FolderEffects(true, folder, listing, recognize);
    ListingEffectsShape(folder, listing, recognize);
    forall i | 0 <= i < |e| ensures !WritesTo(e[i], p) {
      if i < |loop| {
        var k := i / 2;
        assert e[i] == loop[i];
        if i == 2 * k {
          assert loop[2 * k] == WriteFile(TxtPath(Join(folder, s[k].0)), s[k].1);
        } else {
          assert loop[2 * k + 1] == AppendSection(s[k].0, s[k].1);
        }
      }
    }
    ApplyWritesUntouched(files, e, p);
  }

  /** A written path holds the content of its last write. */
  lemma {:induction false} ApplyWritesLast(files: map<string, string>, effects: seq<Effect>, p: string, i: nat)
    requires i < |effects| && WritesTo(effects[i], p)
    requires forall j :: i < j < |effects| ==> !WritesTo(effects[j], p)
    ensures p in ApplyWrites(files, effects) && ApplyWrites(files, effects)[p] == effects[i].content
    decreases |effects|
  {
    var init := effects[..|effects| - 1];
    var last := effects[|effects| - 1];
    assert init + [last] == effects;
    ApplyWritesSnoc(files, init, last);
    if i < |init| {
      assert forall j :: i < j < |init| ==> init[j] == effects[j];
      ApplyWritesLast(files, init, p, i);
    }
  }

  /** A call on a path that is not a directory writes nothing. */
  lemma InvalidFolderWritesNothing(files: map<string, string>, folder: string, listing: seq<string>, recognize: FolderRecognizer)
    ensures FolderEffects(false, folder, listing, recognize) == []
    ensures ApplyWrites(files, FolderEffects(false, folder, listing, recognize)) == files
  {
  }

  /** For a directory, `output_combined.txt` is always written, last, and holds the
      sections of the successes; with no success at all it holds `""`. */
  lemma CombinedFileContent(files: map<string, string>, folder: string, listing: seq<string>, recognize: FolderRecognizer)
    ensures var after := ApplyWrites(files, FolderEffects(true, folder, listing, recognize));
      && CombinedPath(folder) in after
      && after[CombinedPath(folder)] == SuccessText(Successes(folder, listing, recognize))
      && (Successes(folder, listing, recognize) == [] ==> after[CombinedPath(folder)] == "")
  {
    var loop := ListingEffects(folder, listing, recognize);
    var e := FolderEffects(true, folder, listing, recognize);
    assert e[..|e| - 1] == loop;
    CombinedOfSuccesses(folder, listing, recognize);
  }

  /** A success's `.txt` file ends up holding exactly that image's text, unless a later
      success or the combined output writes the same path. */
  lemma ItemFileContent(files: map<string, string>, folder: string, listing: seq<string>, recognize: FolderRecognizer, k: nat)
    requires k < |Successes(folder, listing, recognize)|
    requires TxtPath(Join(folder, Successes(folder, listing, recognize)[k].0)) != CombinedPath(folder)
    requires forall j :: k < j < |Successes(folder, listing, recognize)| ==>
      TxtPath(Join(folder, Successes(folder, listing, recognize)[j].0))
        != TxtPath(Join(folder, Successes(folder, listing, recognize)[k].0))
    ensures TxtPath(Join(folder, Successes(folder, listing, recognize)[k].0))
              in ApplyWrites(files, FolderEffects(true, folder, listing, recognize))
    ensures ApplyWrites(files, FolderEffects(true, folder, listing, recognize))
              [TxtPath(Join(folder, Successes(folder, listing, recognize)[k].0))]
            == Successes(folder, listing, recognize)[k].1
  {
    var s := Successes(folder, listing, recognize);
    var p := TxtPath(Join(folder, s[k].0));
    var e := FolderEffects(true, folder, listing, recognize);
    NoLaterWrite(folder, listing, recognize, k);
    ApplyWritesLast(files, e, p, 2 * k);
  }

  /** Step `2k` writes success `k`'s `.txt` file and, under the conditions of
      `ItemFileContent`, no later step of the call writes that path again. */
  lemma NoLaterWrite(folder: string, listing: seq<string>, recognize: FolderRecognizer, k: nat)
    requires k < |Successes(folder, listing, recognize)|
    requires TxtPath(Join(folder, Successes(folder, listing, recognize)[k].0)) != CombinedPath(folder)
    requires forall j :: k < j < |Successes(folder, listing, recognize)| ==>
      TxtPath(Join(folder, Successes(folder, listing, recognize)[j].0))
        != TxtPath(Join(folder, Successes(folder, listing, recognize)[k].0))
    ensures 2 * k < |FolderEffects(true, folder, listing, recognize)|
    ensures FolderEffects(true, folder, listing, recognize)[2 * k]
            == WriteFile(TxtPath(Join(folder, Successes(folder, listing, recognize)[k].0)),
                         Successes(folder, listing, recognize)[k].1)
    ensures forall j :: 2 * k < j < |FolderEffects(true, folder, listing, recognize)| ==>
      !WritesTo(FolderEffects(true, folder, listing, recognize)[j],
                TxtPath(Join(folder, Successes(folder, listing, recognize)[k].0)))
  {
    var s := Successes(folder, listing, recognize);
    var p := TxtPath(Join(folder, s[k].0));
    var loop := ListingEffects(folder, listing, recognize);
    var e := FolderEffects(true, folder, listing, recognize);
    ListingEffectsShape(folder, listing, recognize);
    assert e == loop + [WriteFile(CombinedPath(folder), Accumulated(loop))];
    assert loop[2 * k].path == p;
    forall m | 0 <= m < |s| ensures loop[2 * m].WriteFile? && loop[2 * m + 1].AppendSection? {
      assert loop[2 * m] == WriteFile(TxtPath(Join(folder, s[m].0)), s[m].1);
      assert loop[2 * m + 1] == AppendSection(s[m].0, s[m].1);
    }
    forall m | k < m < |s| ensures loop[2 * m].path != p {
      assert loop[2 * m].path == TxtPath(Join(folder, s[m].0));
    }
    LaterStepsNotWrite(loop, |s|, k);
    forall j | 2 * k < j < |e| ensures !WritesTo(e[j], p) {
      if j < |loop| {
        assert e[j] == loop[j];
      } else {
        assert e[j] == WriteFile(CombinedPath(folder), Accumulated(loop));
      }
    }
  }

  /** In a trace that alternates writes and appends, no step after write `k` writes
      its path when all later writes go to other paths. */
  lemma LaterStepsNotWrite(loop: seq<Effect>, n: nat, k: nat)
    requires |loop| == 2 * n
    requires forall m :: 0 <= m < n ==> loop[2 * m].WriteFile? && loop[2 * m + 1].AppendSection?
    requires k < n
    requires forall m :: k < m < n ==> loop[2 * m].path != loop[2 * k].path
    ensures forall j :: 2 * k < j < |loop| ==> !WritesTo(loop[j], loop[2 * k].path)
  {
    forall j | 2 * k < j < |loop| ensures !WritesTo(loop[j], loop[2 * k].path) {
      var m := j / 2;
      if j == 2 * m {
        assert k < m;
      } else {
        assert j == 2 * m + 1;
        assert loop[2 * m + 1].AppendSection?;
      }
    }
  }

  /** For an image whose name has no `/`, the `.txt` path is the image path with the
      image extension cut off and `.txt` added; when every character before that
      extension is a dot (`.png`, `..jpg`), `splitext` sees no extension, and `.txt`
      is added to the whole path. */
  lemma TxtPathOfImage(folder: string, name: string)
    requires HasImageExtension(name) && '/' !in name
    ensures 0 <= RFind(name, '.')
    ensures Lower(name[RFind(name, '.')..]) in ImageExtensions
    ensures TxtPath(Join(folder, name)) ==
      if HasNonDot(name, 0, RFind(name, '.'))
      then Join(folder, name[..RFind(name, '.')]) + ".txt"
      else Join(folder, name) + ".txt"
  {
    ImageExtensionAtLastDot(name);
    var dot := RFind(name, '.');
    var p := Join(folder, name);
    var prefix := if folder == [] || folder[|folder| - 1] == '/' then folder else folder + "/";
    assert p == prefix + name by { JoinSpec(folder, name); }
    assert Join(folder, name[..dot]) == prefix + name[..dot] by { JoinSpec(folder, name[..dot]); }
    SplitExtAfterDirectory(prefix, name);
    SplitExtOfName(name);
  }

  /** For a name without `/`, `splitext` cuts at its last dot when some character before
      that dot is not a dot. */
  lemma SplitExtOfName(name: string)
    requires '/' !in name && 0 <= RFind(name, '.')
    ensures SplitExt(name) == if HasNonDot(name, 0, RFind(name, '.'))
                              then (name[..RFind(name, '.')], name[RFind(name, '.')..])
                              else (name, "")
  {
    assert RFind(name, '/') == -1;
  }

  /** Each recognised extension is a dot followed by letters. */
  lemma ImageExtensionShape(e: string)
    requires e in ImageExtensions
    ensures |e| >= 2 && e[0] == '.' && forall j :: 0 < j < |e| ==> e[j] != '.'
  {
  }

  /** A suffix of a lower-cased string is the lower-cased suffix, with its dots where
      the original has them. */
  lemma {:induction false} LowerSuffix(s: string, e: string)
    requires EndsWith(Lower(s), e)
    ensures Lower(s[|s| - |e|..]) == e
    ensures forall j :: 0 <= j < |e| ==> (s[|s| - |e| + j] == '.' <==> e[j] == '.')
  {
    var start := |s| - |e|;
    assert forall j :: 0 <= j < |e| ==> e[j] == Lower(s)[start + j];
    assert forall j :: 0 <= j < |e| ==> Lower(s[start..])[j] == Lower(s)[start + j];
  }

  /** The extension an image name passed the test with begins at its last dot. */
  lemma ImageExtensionAtLastDot(name: string)
    requires HasImageExtension(name)
    ensures 0 <= RFind(name, '.')
    ensures Lower(name[RFind(name, '.')..]) in ImageExtensions
  {
    var e :| e in ImageExtensions && EndsWith(Lower(name), e);
    ImageExtensionShape(e);
    ExtensionAtLastDot(name, e);
  }

  /** A lower-cased suffix made of a dot and non-dots begins at the name's last dot. */
  lemma {:induction false} ExtensionAtLastDot(name: string, e: string)
    requires EndsWith(Lower(name), e)
    requires |e| >= 1 && e[0] == '.' && forall j :: 0 < j < |e| ==> e[j] != '.'
    ensures RFind(name, '.') == |name| - |e|
    ensures Lower(name[RFind(name, '.')..]) == e
  {
    LowerSuffix(name, e);
    var start := |name| - |e|;
    assert name[start] == '.';
    assert forall i :: start < i < |name| ==> name[i] != '.' by {
      forall i | start < i < |name| ensures name[i] != '.' {
        assert name[start + (i - start)] == '.' <==> e[i - start] == '.';
      }
    }
    RFindAt(name, '.', start);
  }

}
