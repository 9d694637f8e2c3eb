/** The file picker (frontend/components/ui/input.tsx): the label shown next
    to the picker, and the selection handed to the optional `onFileChange`
    callback. */
module FileInput {
  import opened Wrap
  import opened Text

  datatype SelectedFile = SelectedFile(name: string)

  const NoFileChosen := "No file chosen"
  const FilesSelected := " files selected"

  /** The label `handleChange` sets for a selection (`null` is `None`). */
  function Label(files: Option<seq<SelectedFile>>): (text: string)
  {
    if files.Some? && |files.value| > 0 then
      if |files.value| > 1 then Decimal(|files.value|) + FilesSelected else files.value[0].name
    else NoFileChosen
  }

  /** No selection shows "No file chosen", one file shows its name, and more
      show their count, written in decimal so that it reads back as the
      count, followed by " files selected". */
  lemma LabelCases(files: Option<seq<SelectedFile>>)
    ensures files.None? || files.value == [] ==> Label(files) == NoFileChosen
    ensures files.Some? && |files.value| == 1 ==> Label(files) == files.value[0].name
    ensures files.Some? && |files.value| > 1 ==>
      var text, n := Label(files), |files.value|;
      exists k :: 0 < k < |text|
        && text[k..] == FilesSelected
        && text[0] != '0'
        && (forall i :: 0 <= i < k ==> IsDigit(text[i]))
        && DigitsValue(text[..k]) == n
  {
    if files.Some? && |files.value| > 1 {
      var n := |files.value|;
      var digits := Decimal(n);
      var text := Label(files);
      DecimalRoundTrip(n);
      assert text[..|digits|] == digits;
      assert text[|digits|..] == FilesSelected;
    }
  }

  /** The state of one picker: the label, and every selection handed to the
      callback so far. */
  class FilePicker {
    var fileName: string
    ghost var delivered: seq<Option<seq<SelectedFile>>>

    constructor ()
      ensures fileName == NoFileChosen && delivered == []
    {
      fileName := NoFileChosen;
      delivered := [];
    }

    /** `handleChange`: set the label, then hand the selection, `null`
        included, to the callback when there is one. */
    method HandleChange(files: Option<seq<SelectedFile>>, hasCallback: bool)
      modifies this
      ensures fileName == Label(files)
      ensures delivered == old(delivered) + (if hasCallback then [files] else [])
    {
      if files.Some? && |files.value| > 0 {
        fileName := if |files.value| > 1 then Decimal(|files.value|) + FilesSelected else files.value[0].name;
      } else {
        fileName := NoFileChosen;
      }
      if hasCallback {
        delivered := delivered + [files];
      }
    }
  }
}
