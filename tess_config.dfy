/** The web app's mapping from the two sidebar labels to the Tesseract option string. */
module TessConfig {
  import opened Wrappers

  /** Engine-mode labels offered by the sidebar and the `--oem` value of each. */
  const OemValues: map<string, nat> := map[
    "3 (Default)" := 3,
    "1 (Neural LSTM)" := 1,
    "0 (Legacy)" := 0
  ]

  /** Page-segmentation labels offered by the sidebar and the `--psm` value of each. */
  const PsmValues: map<string, nat> := map[
    "6 (Block of text)" := 6,
    "3 (Fully automatic)" := 3,
    "4 (Single column)" := 4,
    "7 (Single line)" := 7
  ]

  /** The labels preselected by the sidebar (`index=0`). */
  const DefaultOem: string := "3 (Default)"
  const DefaultPsm: string := "6 (Block of text)"

  /** The options string the folder script always passes. */
  const FolderConfig: string := "--oem 3 --psm 6"

  function DigitChar(d: nat): char
    requires d < 10
  {
    ('0' as int + d) as char
  }

  function DigitValue(c: char): nat
    requires '0' <= c <= '9'
  {
    c as int - '0' as int
  }

  /** `f"--oem {oem_val} --psm {psm_val}"` for the two selected labels. The labels
      come from the sidebar's own option lists, so the dictionary lookups never fail. */
  function Config(oem: string, psm: string): (r: string)
    requires oem in OemValues && psm in PsmValues
    ensures Parse(r) == Some((OemValues[oem], PsmValues[psm]))
  {
    var text := "--oem " + [DigitChar(OemValues[oem])] + " --psm " + [DigitChar(PsmValues[psm])];
    assert text[..6] == "--oem " && text[7..14] == " --psm ";
    text
  }

  /** Reads back the two numbers of a string of the shape `--oem D --psm D`. */
  function Parse(s: string): Option<(nat, nat)> {
    if |s| == 15 && s[..6] == "--oem " && s[7..14] == " --psm "
       && '0' <= s[6] <= '9' && '0' <= s[14] <= '9'
    then Some((DigitValue(s[6]), DigitValue(s[14])))
    else None
  }

  /** The engine mode is one of 3, 1, 0 and the segmentation mode one of 6, 3, 4, 7. */
  lemma ConfigRange(oem: string, psm: string)
    requires oem in OemValues && psm in PsmValues
    ensures Parse(Config(oem, psm)).Some?
    ensures Parse(Config(oem, psm)).value.0 in {3, 1, 0}
    ensures Parse(Config(oem, psm)).value.1 in {6, 3, 4, 7}
  {
  }

  /** Different label pairs give different option strings. */
  lemma ConfigInjective(oem1: string, psm1: string, oem2: string, psm2: string)
    requires oem1 in OemValues && psm1 in PsmValues
    requires oem2 in OemValues && psm2 in PsmValues
    requires Config(oem1, psm1) == Config(oem2, psm2)
    ensures oem1 == oem2 && psm1 == psm2
  {
    assert OemValues[oem1] == OemValues[oem2] && PsmValues[psm1] == PsmValues[psm2] by {
      assert Parse(Config(oem1, psm1)) == Parse(Config(oem2, psm2));
    }
  }

  /** The folder script's fixed options are the web app's default selection. */
  lemma FolderConfigIsDefault()
    ensures DefaultOem in OemValues && DefaultPsm in PsmValues
    ensures FolderConfig == Config(DefaultOem, DefaultPsm)
  {
  }
}
