/**
 * The submission logic of components/text-input-dialog.tsx: which text is
 * handed to the reader, when the dialog closes, the live word counts and the
 * enable rule of the "Start Reading" button.
 */
module Dialog {
  import opened Wrappers
  import opened Text

  datatype Tab = Paste | File | Url | Sample

  /** `activeTab === "sample" && selectedSample ? selectedSample : text`. */
  function Candidate(tab: Tab, selectedSample: string, text: string): (c: string)
    ensures tab == Sample && selectedSample != "" ==> c == selectedSample
    ensures tab != Sample || selectedSample == "" ==> c == text
  {
    if tab == Sample && selectedSample != "" then selectedSample else text
  }

  /** What `handleSubmit` passes to `onTextSubmit`: the trimmed candidate, unless that is empty. */
  function Submission(tab: Tab, selectedSample: string, text: string): Option<string>
  {
    var t := Trim(Candidate(tab, selectedSample, text));
    if t != "" then Some(t) else None
  }

  /**
   * Nothing is handed over exactly when the candidate is whitespace only; a
   * text handed over is never empty and has no surrounding whitespace.
   */
  lemma SubmissionMeaning(tab: Tab, selectedSample: string, text: string)
    ensures var c, r := Candidate(tab, selectedSample, text), Submission(tab, selectedSample, text);
      && (r.None? <==> AllSpace(c))
      && (r.Some? ==> r.value != "" && !IsSpace(r.value[0]) && !IsSpace(r.value[|r.value| - 1]))
  {
    var c := Candidate(tab, selectedSample, text);
    var t := Trim(c);
    TrimMeaning(c);
    assert Submission(tab, selectedSample, text) == if t != "" then Some(t) else None;
  }

  /** Nothing is handed over exactly when the candidate has no words; a text handed over has the candidate's words. */
  lemma SubmissionKeepsWords(tab: Tab, selectedSample: string, text: string)
    ensures var c, r := Candidate(tab, selectedSample, text), Submission(tab, selectedSample, text);
      && (r.None? <==> Words(c) == [])
      && (r.Some? ==> Words(r.value) == Words(c))
  {
    var c := Candidate(tab, selectedSample, text);
    WordsOfTrim(c);
    NoWordsIffBlank(Trim(c));
    assert Trim(c) == [] <==> AllSpace(Trim(c));
  }

  /** `disabled={activeTab === "sample" ? !selectedSample : !text.trim()}`, negated. */
  predicate SubmitEnabled(tab: Tab, selectedSample: string, text: string)
  {
    if tab == Sample then selectedSample != "" else Trim(text) != ""
  }

  /** The live count under the text area: `text.split(/\s+/).filter(w => w.length > 0).length`. */
  function WordCount(text: string): (n: nat)
    ensures n == 0 <==> AllSpace(text)
    ensures n == |Words(Trim(text))|
  {
    NoWordsIffBlank(text);
    WordsOfTrim(text);
    |Words(text)|
  }

  /** The count on a sample tile: `sample.text.split(/\s+/).length`, without the filter. */
  function SampleWordCount(text: string): (n: nat)
    ensures n >= 1
  {
    |SplitRaw(text)|
  }

  /** For a non-empty text without surrounding whitespace the two counts agree. */
  lemma SampleCountMatches(text: string)
    requires text != "" && !IsSpace(text[0]) && !IsSpace(text[|text| - 1])
    ensures SampleWordCount(text) == WordCount(text)
  {
    SplitRawCount(text);
  }

  /** Otherwise the tile count is one more for a leading and one more for a trailing whitespace run. */
  lemma SampleCountOvercounts(text: string)
    ensures SampleWordCount(text) == WordCount(text) + LeadingEmptyPiece(text) + TrailingEmptyPiece(text)
  {
    SplitRawCount(text);
  }

  /** Off the sample tab, the button is enabled exactly when submitting hands over a text. */
  lemma EnabledIffSubmits(tab: Tab, selectedSample: string, text: string)
    requires tab != Sample
    ensures SubmitEnabled(tab, selectedSample, text) <==> Submission(tab, selectedSample, text).Some?
  {
  }

  /**
   * On the sample tab the button only asks for a selected sample: an enabled
   * button hands over nothing exactly when that sample is whitespace only.
   */
  lemma SampleTabEnabledButBlank(selectedSample: string, text: string)
    ensures SubmitEnabled(Sample, selectedSample, text) && Submission(Sample, selectedSample, text).None?
            <==> selectedSample != "" && AllSpace(selectedSample)
  {
    TrimMeaning(selectedSample);
  }

  /** The state `TextInputDialog` keeps with `useState`. */
  class TextInputDialog {
    var open: bool
    var activeTab: Tab
    var text: string
    var selectedSample: string
    var url: string
    var isExtracting: bool
    var extractError: string
    var selectedFileName: string

    constructor ()
      ensures !open && activeTab == Paste && text == "" && selectedSample == ""
      ensures url == "" && !isExtracting && extractError == "" && selectedFileName == ""
    {
      open := false;
      activeTab := Paste;
      text := "";
      selectedSample := "";
      url := "";
      isExtracting := false;
      extractError := "";
      selectedFileName := "";
    }

    /**
     * `handleSubmit`: `submitted` is the argument of `onTextSubmit`, if it was
     * called. On success the dialog closes and the typed text and the chosen
     * sample are cleared; otherwise nothing changes. The tab, the URL, the file
     * name and the extraction state are never touched.
     */
    method HandleSubmit() returns (submitted: Option<string>)
      modifies this`open, this`text, this`selectedSample
      ensures submitted == Submission(old(activeTab), old(selectedSample), old(text))
      ensures submitted.Some? ==> !open && text == "" && selectedSample == ""
      ensures submitted.None? ==> open == old(open) && text == old(text) && selectedSample == old(selectedSample)
      ensures activeTab == old(activeTab) && url == old(url) && selectedFileName == old(selectedFileName)
      ensures isExtracting == old(isExtracting) && extractError == old(extractError)
    {
      submitted := Submission(activeTab, selectedSample, text);
      if submitted.Some? {
        Close();
      }
    }

    /** The state change of a successful submission. */
    method Close()
      modifies this`open, this`text, this`selectedSample
      ensures !open && text == "" && selectedSample == ""
      ensures activeTab == old(activeTab) && url == old(url) && selectedFileName == old(selectedFileName)
      ensures isExtracting == old(isExtracting) && extractError == old(extractError)
    {
      open := false;
      text := "";
      selectedSample := "";
    }

    /** `handleSampleSelect`: only the chosen sample changes. */
    method HandleSampleSelect(sampleText: string)
      modifies this`selectedSample
      ensures selectedSample == sampleText
      ensures open == old(open) && activeTab == old(activeTab) && text == old(text) && url == old(url)
      ensures isExtracting == old(isExtracting) && extractError == old(extractError)
      ensures selectedFileName == old(selectedFileName)
    {
      selectedSample := sampleText;
    }

    /** A tab button's `onClick`: only the active tab changes. */
    method SelectTab(tab: Tab)
      modifies this`activeTab
      ensures activeTab == tab
      ensures open == old(open) && text == old(text) && selectedSample == old(selectedSample)
    {
      activeTab := tab;
    }

    /** A text area's `onChange`: only the text changes. */
    method EditText(value: string)
      modifies this`text
      ensures text == value
      ensures open == old(open) && activeTab == old(activeTab) && selectedSample == old(selectedSample)
    {
      text := value;
    }

    /** The dialog's `onOpenChange` and the Cancel button: only `open` changes. */
    method SetOpen(value: bool)
      modifies this`open
      ensures open == value
      ensures activeTab == old(activeTab) && text == old(text) && selectedSample == old(selectedSample)
    {
      open := value;
    }
  }
}
