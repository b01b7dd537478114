/** What both OCR entry points share: the outcome of recognising one image, the
    image-extension filter applied to a listing, and the header of one output section. */
module Batch {
  import opened Strings

  /** What the opaque preprocess-and-recognise step yields for one image: the text
      (possibly empty, which is still success) or a failure (an exception). */
  datatype Recognition = Recognized(text: string) | Failed

  /** The recognised image extensions, lower case. */
  const ImageExtensions: seq<string> := [".png", ".jpg", ".jpeg", ".tif", ".tiff"]

  /** `name.lower().endswith((".png", ".jpg", ".jpeg", ".tif", ".tiff"))`. */
  predicate HasImageExtension(name: string) {
    exists e :: e in ImageExtensions && EndsWith(Lower(name), e)
  }

  /** The names of a directory listing that pass the extension test, in listing order. */
  function FilterImages(names: seq<string>): seq<string> {
    if names == [] then []
    else
      var last := names[|names| - 1];
      FilterImages(names[..|names| - 1]) + (if HasImageExtension(last) then [last] else [])
  }

  /** One section of a combined output: `f"\n--- {name} ---\n{body}\n"`. */
  function Section(name: string, body: string): string {
    "\n--- " + name + " ---\n" + body + "\n"
  }

  /** The sections `section` makes of the given entries, appended in order to `""`, as
      repeated `+=` on an accumulator does. */
  function Sections(entries: seq<(string, string)>, section: ((string, string)) -> string): string {
    if entries == [] then "" else Sections(entries[..|entries| - 1], section) + section(entries[|entries| - 1])
  }

  /** Appending the sections of consecutive runs of entries gives the sections of all. */
  lemma {:induction false} SectionsAppend(a: seq<(string, string)>, b: seq<(string, string)>,
                                          section: ((string, string)) -> string)
    ensures Sections(a + b, section) == Sections(a, section) + Sections(b, section)
    decreases |b|
  {
    if b == [] {
      assert a + b == a;
    } else {
      var init := b[..|b| - 1];
      assert (a + b)[..|a + b| - 1] == a + init;
      SectionsAppend(a, init, section);
    }
  }

  /** A name is kept exactly when it is listed and has a recognised extension. */
  lemma {:induction false} FilterImagesMembership(names: seq<string>, x: string)
    ensures x in FilterImages(names) <==> x in names && HasImageExtension(x)
  {
    if names != [] {
      var init := names[..|names| - 1];
      FilterImagesMembership(init, x);
      assert names == init + [names[|names| - 1]];
    }
  }

  /** Filtering a listing is filtering its parts and concatenating, so kept names
      keep their relative listing order. */
  lemma {:induction false} FilterImagesAppend(a: seq<string>, b: seq<string>)
    ensures FilterImages(a + b) == FilterImages(a) + FilterImages(b)
    decreases |b|
  {
    if b != [] {
      var init := b[..|b| - 1];
      assert (a + b)[..|a + b| - 1] == a + init;
      FilterImagesAppend(a, init);
    } else {
      assert a + b == a;
    }
  }

  /** Around a kept name: the names kept before it, the name, the names kept after it. */
  lemma {:induction false} FilterImagesAround(names: seq<string>, j: nat)
    requires j < |names| && HasImageExtension(names[j])
    ensures FilterImages(names) == FilterImages(names[..j]) + [names[j]] + FilterImages(names[j + 1..])
  {
    var a, x, b := names[..j], names[j], names[j + 1..];
    FilterImagesKept(a, x, b);
    assert a + [x] + b == names;
  }

  /** A kept name between two runs of names stays between what is kept of them. */
  lemma {:induction false} FilterImagesKept(a: seq<string>, x: string, b: seq<string>)
    requires HasImageExtension(x)
    ensures FilterImages(a + [x] + b) == FilterImages(a) + [x] + FilterImages(b)
  {
    FilterImagesAppend(a + [x], b);
    FilterImagesAppend(a, [x]);
    FilterImagesSingle(x);
  }

  /** A single listed name is kept alone or dropped. */
  lemma FilterImagesSingle(x: string)
    ensures FilterImages([x]) == if HasImageExtension(x) then [x] else []
  {
    assert [x][..0] == [];
  }

  /** The filter only drops names, never adds or reorders them. */
  lemma {:induction false} FilterImagesLength(names: seq<string>)
    ensures |FilterImages(names)| <= |names|
    ensures |FilterImages(names)| == |names| <==> forall i :: 0 <= i < |names| ==> HasImageExtension(names[i])
  {
    if names != [] {
      var init := names[..|names| - 1];
      FilterImagesLength(init);
      if !HasImageExtension(names[|names| - 1]) {
        assert !HasImageExtension(names[|names| - 1]);
      } else {
        assert forall i :: 0 <= i < |init| ==> init[i] == names[i];
      }
    }
  }

  /** The test looks at the lower-cased name only, so it ignores letter case. */
  lemma HasImageExtensionIgnoresCase(name: string)
    ensures HasImageExtension(Lower(name)) == HasImageExtension(name)
  {
    assert Lower(Lower(name)) == Lower(name);
  }

  /** `scan.PNG` passes the test (upper-case extension); `notes.docx` does not. */
  lemma ExtensionExamples()
    ensures HasImageExtension("scan.PNG")
    ensures !HasImageExtension("notes.docx")
    ensures FilterImages(["scan.PNG", "notes.docx"]) == ["scan.PNG"]
  {
    assert Lower("scan.PNG") == "scan.png";
    assert EndsWith(Lower("scan.PNG"), ".png");
    assert Lower("notes.docx") == "notes.docx";
    assert ["scan.PNG", "notes.docx"][..1] == ["scan.PNG"];
    FilterImagesSingle("scan.PNG");
  }

  /** Every section holds a character that is not whitespace (the dashes of its
      header), whatever the name and the body. */
  lemma SectionNotBlank(name: string, body: string)
    ensures !IsBlank(Section(name, body))
  {
    assert Section(name, body)[1] == '-';
  }
}
