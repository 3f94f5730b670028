/** The file picker of a multi-file import: ImportCsvDialog::matchSimilar, which
    (de)selects files by comparing their inferred field lists with that of the
    current file, and the import-enabling predicate of ImportCsvDialog::checkInput. */
module SchemaMatch {
  import opened CsvParse
  import opened FieldList

  /** Qt::CheckState of a file picker item, as far as the dialog uses it. */
  datatype CheckState = Checked | Unchecked

  /** std::equal over the field lists with the name comparison, after the count test. */
  predicate SameNames(a: seq<Field>, b: seq<Field>) {
    |a| == |b| && forall i :: 0 <= i < |a| ==> a[i].name == b[i].name
  }

  /** The check state matchSimilar leaves on an item whose field list is `header`. */
  function MatchedState(selected: seq<Field>, header: seq<Field>, state: CheckState): CheckState {
    if |selected| == |header| then (if SameNames(selected, header) then Checked else state)
    else Unchecked
  }

  /** matchSimilar: item i shows file files[i] and has check state states[i]; `current`
      is the picker's current item (the button is enabled only when there is one).
      A file whose field list has the current file's length and names becomes checked,
      one of another length becomes unchecked, and one of the same length with other
      names keeps its state. */
  method MatchSimilar(files: seq<ParseInput>, header: bool, current: nat, states: array<CheckState>)
    requires |files| == states.Length && current < |files|
    modifies states
    ensures forall i :: 0 <= i < states.Length ==>
      states[i] == MatchedState(FileSchema(files[current], header), FileSchema(files[i], header), old(states[i]))
    ensures states[current] == Checked
  {
    var selectedHeader := GenerateFieldList(files[current], header);
    var i := 0;
    while i < states.Length
      invariant 0 <= i <= states.Length
      invariant forall j :: 0 <= j < i ==>
        states[j] == MatchedState(selectedHeader, FileSchema(files[j], header), old(states[j]))
      invariant forall j :: i <= j < states.Length ==> states[j] == old(states[j])
    {
      var fileHeader := GenerateFieldList(files[i], header);
      MatchItem(states, i, selectedHeader, fileHeader);
      i := i + 1;
    }
    assert SameNames(selectedHeader, selectedHeader);
  }

  /** The loop body of matchSimilar for item i, whose file has the field list `header`. */
  method MatchItem(states: array<CheckState>, i: nat, selectedHeader: seq<Field>, header: seq<Field>)
    requires i < states.Length
    modifies states
    ensures states[i] == MatchedState(selectedHeader, header, old(states[i]))
    ensures forall j :: 0 <= j < states.Length && j != i ==> states[j] == old(states[j])
  {
    if |selectedHeader| == |header| {
      var matchingHeader := SameNames(selectedHeader, header);
      if matchingHeader {
        states[i] := Checked;
      }
    } else {
      states[i] := Unchecked;
    }
  }

  /** The three outcomes of matching, each in terms of the two field lists. */
  lemma MatchedStateCases(selected: seq<Field>, header: seq<Field>, state: CheckState)
    ensures |selected| != |header| ==> MatchedState(selected, header, state) == Unchecked
    ensures SameNames(selected, header) ==> MatchedState(selected, header, state) == Checked
    ensures |selected| == |header| && !SameNames(selected, header) ==> MatchedState(selected, header, state) == state
    ensures MatchedState(selected, header, state) == Checked ==> |selected| == |header|
  {
  }

  /** Without a header row, two files match exactly when their widest sampled rows
      have the same width, whatever their cells hold. */
  lemma NoHeaderMatchesByWidth(a: ParseInput, b: ParseInput)
    ensures SameNames(FileSchema(a, false), FileSchema(b, false))
      <==> MaxWidth(Sample(a.rows)) == MaxWidth(Sample(b.rows))
  {
    var sa, sb := FileSchema(a, false), FileSchema(b, false);
    InferredSchema(Sample(a.rows), false);
    InferredSchema(Sample(b.rows), false);
    NoHeaderNames(Sample(a.rows));
    NoHeaderNames(Sample(b.rows));
    if |sa| == |sb| {
      assert forall i :: 0 <= i < |sa| ==> sa[i].name == DefaultName(i) == sb[i].name;
    }
  }

  /** In header mode, two files whose header rows are equal and are their widest
      sampled rows match, whatever their data rows hold. */
  lemma SameHeaderRowMatches(a: ParseInput, b: ParseInput)
    requires a.rows != [] && b.rows != [] && a.rows[0] == b.rows[0]
    requires forall k :: 0 <= k < |Sample(a.rows)| ==> |Sample(a.rows)[k]| <= |a.rows[0]|
    requires forall k :: 0 <= k < |Sample(b.rows)| ==> |Sample(b.rows)[k]| <= |b.rows[0]|
    ensures SameNames(FileSchema(a, true), FileSchema(b, true))
  {
    var ra, rb := Sample(a.rows), Sample(b.rows);
    assert ra[0] == a.rows[0] && rb[0] == b.rows[0];
    HeaderModeNames(ra, true);
    HeaderModeNames(rb, true);
    assert MaxWidth(ra) == |ra[0]|;
    assert MaxWidth(rb) == |rb[0]|;
  }

  /** checkInput's allowImporting: a table name is needed and, when the file picker is
      shown, at least one checked file. */
  method AllowImporting(pickerVisible: bool, editName: string, states: array<CheckState>)
    returns (allowImporting: bool)
    ensures allowImporting <==>
      editName != "" && (pickerVisible ==> exists i :: 0 <= i < states.Length && states[i] == Checked)
  {
    if pickerVisible {
      var checkedItem := false;
      var i := 0;
      while i < states.Length
        invariant 0 <= i <= states.Length
        invariant checkedItem <==> exists j :: 0 <= j < i && states[j] == Checked
      {
        if states[i] == Checked {
          checkedItem := true;
        }
        i := i + 1;
      }
      allowImporting := editName != "" && checkedItem;
    } else {
      allowImporting := editName != "";
    }
  }
}
