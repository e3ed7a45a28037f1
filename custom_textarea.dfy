/** The markdown toolbar of the custom text area: handleFormat wraps the selected text
    in "**" (bold) or "*" (italic), drops it for any other format, and asks the text
    area to select a new range. The text handed to onChange and the range handed to
    setSelectionRange are the result. */
module CustomTextarea {
  import opened Text

  /** The text area's selectionStart and selectionEnd, counted in characters of the
      model's strings rather than in UTF-16 code units. */
  datatype Selection = Selection(start: nat, end: nat)

  /** What handleFormat does: nothing when there is no text area, otherwise the new
      text for onChange and the range for setSelectionRange. */
  datatype FormatOutcome =
    | NoTextarea
    | Formatted(newText: string, selection: Selection)

  function Min(a: int, b: int): int {
    if a <= b then a else b
  }

  function Max(a: int, b: int): int {
    if a <= b then b else a
  }

  /** String.prototype.substring for non-negative arguments: both are clamped to the
      length and swapped when the first is the larger. */
  function Substring(s: string, a: nat, b: nat): (r: string)
    ensures a <= b <= |s| ==> r == s[a..b]
    ensures b < a <= |s| ==> r == s[b..a]
  {
    s[Min(Min(a, b), |s|)..Min(Max(a, b), |s|)]
  }

  /** Browsers keep selectionStart <= selectionEnd <= value.length. */
  predicate InRange(value: string, sel: Selection) {
    sel.start <= sel.end <= |value|
  }

  /** The markdown marker a format wraps the selection in; none for other formats. */
  function Marker(format: string): (m: string)
    ensures format == "bold" ==> m == "**"
    ensures format == "italic" ==> m == "*"
    ensures format != "bold" && format != "italic" ==> m == ""
  {
    if format == "bold" then "**" else if format == "italic" then "*" else ""
  }

  /** handleFormat(format) on the text area's value and selection, as written:
      the new range always starts two characters after the old start. */
  function HandleFormat(value: string, textarea: Option<Selection>, format: string): (r: FormatOutcome)
    ensures r.NoTextarea? <==> textarea.None?
    ensures r.Formatted? && InRange(value, textarea.value) ==>
      var sel := textarea.value;
      && r.newText == value[..sel.start] + Marker(format) + (if Marker(format) == "" then "" else value[sel.start..sel.end])
                      + Marker(format) + value[sel.end..]
      && r.selection == Selection(sel.start + 2, sel.end + 2)
  {
    match textarea
    case None => NoTextarea
    case Some(sel) =>
      var selectedText := Substring(value, sel.start, sel.end);
      var formattedText :=
        if format == "bold" then "**" + selectedText + "**"
        else if format == "italic" then "*" + selectedText + "*"
        else "";
      var newText := Substring(value, 0, sel.start) + formattedText + Substring(value, sel.end, |value|);
      Formatted(newText, Selection(sel.start + 2, sel.start + 2 + |selectedText|))
  }

  /** The text before the selection and the text after it survive unchanged, and the
      length grows by the two markers (4 for bold, 2 for italic) or shrinks by the
      selection for any other format. */
  lemma FormatKeepsSurroundings(value: string, sel: Selection, format: string)
    requires InRange(value, sel)
    ensures var t := HandleFormat(value, Some(sel), format).newText;
      && |t| == (if format == "bold" then |value| + 4
                 else if format == "italic" then |value| + 2
                 else |value| - (sel.end - sel.start))
      && t[..sel.start] == value[..sel.start]
      && t[|t| - (|value| - sel.end)..] == value[sel.end..]
  {
    var m := Marker(format);
    var t := HandleFormat(value, Some(sel), format).newText;
    var middle := if m == "" then "" else value[sel.start..sel.end];
    assert t == value[..sel.start] + (m + middle + m) + value[sel.end..];
  }

  /** For bold, the new range covers exactly the text that was selected. */
  lemma BoldSelectsOriginalText(value: string, sel: Selection)
    requires InRange(value, sel)
    ensures var r := HandleFormat(value, Some(sel), "bold");
      r.selection.end <= |r.newText| && r.newText[r.selection.start..r.selection.end] == value[sel.start..sel.end]
  {
    var selected := value[sel.start..sel.end];
    var t := HandleFormat(value, Some(sel), "bold").newText;
    assert t == value[..sel.start] + "**" + selected + "**" + value[sel.end..];
    WrappedSlice(value[..sel.start], "**", selected, value[sel.end..]);
  }

  /** For italic the new range is one character late: it leaves out the first selected
      character and takes in the closing "*". */
  lemma ItalicSelectionShifted(value: string, sel: Selection)
    requires InRange(value, sel) && sel.start < sel.end
    ensures var r := HandleFormat(value, Some(sel), "italic");
      && r.selection.end <= |r.newText|
      && r.newText[r.selection.start..r.selection.end] == value[sel.start + 1..sel.end] + "*"
  {
    var selected := value[sel.start..sel.end];
    var t := HandleFormat(value, Some(sel), "italic").newText;
    assert t == value[..sel.start] + "*" + selected + "*" + value[sel.end..];
    assert t[sel.start + 2..sel.end + 2] == selected[1..] + "*";
  }

  /** Italicising the whole of "ab" selects "b*" instead of "ab". */
  lemma ItalicSelectionCounterexample()
    ensures HandleFormat("ab", Some(Selection(0, 2)), "italic") == Formatted("*ab*", Selection(2, 4))
    ensures "*ab*"[2..4] == "b*" != "ab"
  {
  }

  /** handleFormat as evidently intended: the new range starts after the opening
      marker, whatever its length; other formats keep the range as written. */
  function HandleFormatIntended(value: string, textarea: Option<Selection>, format: string): (r: FormatOutcome)
    ensures r.NoTextarea? <==> textarea.None?
    ensures r.Formatted? ==> r.newText == HandleFormat(value, textarea, format).newText
  {
    match HandleFormat(value, textarea, format)
    case NoTextarea => NoTextarea
    case Formatted(newText, selection) =>
      var shift := if Marker(format) == "" then 2 else |Marker(format)|;
      var start := textarea.value.start;
      Formatted(newText, Selection(start + shift, start + shift + (selection.end - selection.start)))
  }

  /** With the intended range, both bold and italic select exactly the original text. */
  lemma IntendedSelectsOriginalText(value: string, sel: Selection, format: string)
    requires InRange(value, sel) && (format == "bold" || format == "italic")
    ensures var r := HandleFormatIntended(value, Some(sel), format);
      r.selection.end <= |r.newText| && r.newText[r.selection.start..r.selection.end] == value[sel.start..sel.end]
  {
    var m := Marker(format);
    var selected := value[sel.start..sel.end];
    var written := HandleFormat(value, Some(sel), format);
    assert written.selection.end - written.selection.start == sel.end - sel.start;
    var r := HandleFormatIntended(value, Some(sel), format);
    assert r.selection == Selection(sel.start + |m|, sel.end + |m|);
    assert r.newText == value[..sel.start] + m + selected + m + value[sel.end..];
    WrappedSlice(value[..sel.start], m, selected, value[sel.end..]);
  }

  /** The text between two copies of a marker is found right after the first one. */
  lemma WrappedSlice(before: string, m: string, middle: string, after: string)
    ensures var t := before + m + middle + m + after;
      && |before| + |m| + |middle| <= |t|
      && t[|before| + |m|..|before| + |m| + |middle|] == middle
  {
    var t := before + m + middle + m + after;
    assert t == (before + m) + middle + (m + after);
  }
}
