/** Schema inference (ImportCsvDialog::generateFieldList): a scan of the first
    SampleSize rows that grows a field list to the widest row seen, naming new
    fields from the header row or with a generated "field<N>" name. */
module FieldList {
  import opened Text
  import opened CsvParse

  /** sqlb::Field as the inference builds it: a name and a (always empty) type. */
  datatype Field = Field(name: string, fieldType: string)

  function Max(a: nat, b: nat): nat {
    if a < b then b else a
  }

  // ---------------------------------------------------------------------------
  // Field names

  /** The characters a header cell loses before it becomes a field name. */
  predicate IsStrippedChar(c: char) {
    c == '`' || c == ' ' || c == '"' || c == '\'' || c == ',' || c == ';'
  }

  /** QString::replace(c, ""): every occurrence of c removed. */
  function RemoveAll(s: string, c: char): (r: string)
    ensures c !in r
    ensures |r| <= |s|
  {
    if s == [] then [] else (if s[0] == c then [] else [s[0]]) + RemoveAll(s[1..], c)
  }

  /** The six replace calls of the header branch, in the order generateFieldList makes them. */
  function SanitizeName(s: string): string {
    RemoveAll(RemoveAll(RemoveAll(RemoveAll(RemoveAll(RemoveAll(s, '`'), ' '), '"'), '\''), ','), ';')
  }

  /** Reference definition: the cell with every stripped character filtered out. */
  function KeepValid(s: string): (r: string)
    ensures forall i :: 0 <= i < |r| ==> !IsStrippedChar(r[i])
    ensures |r| <= |s|
  {
    if s == [] then [] else (if IsStrippedChar(s[0]) then [] else [s[0]]) + KeepValid(s[1..])
  }

  lemma {:induction false} RemoveAllConcat(a: string, b: string, c: char)
    ensures RemoveAll(a + b, c) == RemoveAll(a, c) + RemoveAll(b, c)
  {
    if a == [] {
      assert a + b == b;
    } else {
      var head := if a[0] == c then [] else [a[0]];
      assert (a + b)[0] == a[0];
      assert (a + b)[1..] == a[1..] + b;
      calc {
        RemoveAll(a + b, c);
        head + RemoveAll(a[1..] + b, c);
        { RemoveAllConcat(a[1..], b, c); }
        head + (RemoveAll(a[1..], c) + RemoveAll(b, c));
        (head + RemoveAll(a[1..], c)) + RemoveAll(b, c);
      }
    }
  }

  lemma SanitizeConcat(a: string, b: string)
    ensures SanitizeName(a + b) == SanitizeName(a) + SanitizeName(b)
  {
    var a1, b1 := RemoveAll(a, '`'), RemoveAll(b, '`');
    RemoveAllConcat(a, b, '`');
    var a2, b2 := RemoveAll(a1, ' '), RemoveAll(b1, ' ');
    RemoveAllConcat(a1, b1, ' ');
    var a3, b3 := RemoveAll(a2, '"'), RemoveAll(b2, '"');
    RemoveAllConcat(a2, b2, '"');
    var a4, b4 := RemoveAll(a3, '\''), RemoveAll(b3, '\'');
    RemoveAllConcat(a3, b3, '\'');
    var a5, b5 := RemoveAll(a4, ','), RemoveAll(b4, ',');
    RemoveAllConcat(a4, b4, ',');
    RemoveAllConcat(a5, b5, ';');
  }

  /** Removing a character from a string of at most one character. */
  lemma RemoveAllShort(t: string, c: char)
    requires |t| <= 1
    ensures RemoveAll(t, c) == if t != [] && t[0] == c then [] else t
  {
    if t != [] {
      assert t[1..] == [];
    }
  }

  /** A single character is dropped exactly when it is a stripped character. */
  lemma SanitizeChar(ch: char)
    ensures SanitizeName([ch]) == if IsStrippedChar(ch) then [] else [ch]
  {
    var t1 := RemoveAll([ch], '`');
    RemoveAllShort([ch], '`');
    var t2 := RemoveAll(t1, ' ');
    RemoveAllShort(t1, ' ');
    var t3 := RemoveAll(t2, '"');
    RemoveAllShort(t2, '"');
    var t4 := RemoveAll(t3, '\'');
    RemoveAllShort(t3, '\'');
    var t5 := RemoveAll(t4, ',');
    RemoveAllShort(t4, ',');
    RemoveAllShort(t5, ';');
  }

  /** The six sequential removals amount to one filter over the stripped characters. */
  lemma {:induction false} SanitizeIsFilter(s: string)
    ensures SanitizeName(s) == KeepValid(s)
  {
    if s != [] {
      assert s == [s[0]] + s[1..];
      SanitizeConcat([s[0]], s[1..]);
      SanitizeChar(s[0]);
      SanitizeIsFilter(s[1..]);
    }
  }

  /** A sanitized name keeps every other character, in order: a cell without stripped
      characters is its own name, and sanitizing twice changes nothing. */
  lemma {:induction false} KeepValidIdentity(s: string)
    ensures KeepValid(s) == s <==> forall i :: 0 <= i < |s| ==> !IsStrippedChar(s[i])
  {
    if s != [] {
      KeepValidIdentity(s[1..]);
      if IsStrippedChar(s[0]) {
        assert |KeepValid(s)| < |s|;
      } else {
        assert KeepValid(s) == [s[0]] + KeepValid(s[1..]);
        assert s == [s[0]] + s[1..];
      }
      if forall i :: 0 <= i < |s| ==> !IsStrippedChar(s[i]) {
        assert forall i :: 0 <= i < |s[1..]| ==> !IsStrippedChar(s[1..][i]) by {
          forall i | 0 <= i < |s[1..]| ensures !IsStrippedChar(s[1..][i]) {
            assert s[1..][i] == s[i + 1];
          }
        }
      }
    }
  }

  lemma SanitizeIdempotent(s: string)
    ensures SanitizeName(SanitizeName(s)) == SanitizeName(s)
  {
    SanitizeIsFilter(s);
    SanitizeIsFilter(KeepValid(s));
    KeepValidIdentity(KeepValid(s));
  }

  /** QString("field%1").arg(i+1): the generated name of the field at 0-based position i. */
  function DefaultName(i: nat): (r: string)
    ensures |r| > 5 && r[..5] == "field"
    ensures AllDigits(r[5..]) && ParseDecimal(r[5..]) == i + 1
  {
    var r := "field" + NatToString(i + 1);
    assert r[5..] == NatToString(i + 1);
    ParseNatToString(i + 1);
    r
  }

  /** The number in a generated name has no leading zero: position i is "field<i+1>" and
      never, say, "field01". */
  lemma DefaultNameNoLeadingZero(i: nat)
    ensures DefaultName(i)[5] != '0'
  {
    assert DefaultName(i)[5..] == NatToString(i + 1);
  }

  /** Generated names of different positions differ. */
  lemma DefaultNameInjective(i: nat, j: nat)
    ensures DefaultName(i) == DefaultName(j) ==> i == j
  {
    if DefaultName(i) == DefaultName(j) {
      assert NatToString(i + 1) == DefaultName(i)[5..];
      assert NatToString(j + 1) == DefaultName(j)[5..];
      NatToStringInjective(i + 1, j + 1);
    }
  }

  /** The name the row function gives the new field at position i of row rowNum. */
  function FieldNameAt(header: bool, rowNum: nat, data: Row, i: nat): (name: string)
    requires i < |data|
    ensures name != ""
  {
    var fromHeader := if rowNum == 0 && header then SanitizeName(data[i]) else "";
    if fromHeader == "" then DefaultName(i) else fromHeader
  }

  /** A field created from header row 0 is named after its cell, stripped of the
      stripped characters, unless nothing is left; every other field gets its
      generated name. */
  lemma FieldNameCases(header: bool, rowNum: nat, data: Row, i: nat)
    requires i < |data|
    ensures rowNum == 0 && header && KeepValid(data[i]) != "" ==> FieldNameAt(header, rowNum, data, i) == KeepValid(data[i])
    ensures !(rowNum == 0 && header && KeepValid(data[i]) != "") ==> FieldNameAt(header, rowNum, data, i) == DefaultName(i)
  {
    SanitizeIsFilter(data[i]);
  }

  // ---------------------------------------------------------------------------
  // The row function and the bounded scan

  /** What the row function does to the field list for one row: a field is appended
      for every position of the row beyond the current list; existing fields stay. */
  function Extend(fields: seq<Field>, rowNum: nat, data: Row, header: bool): (r: seq<Field>)
    ensures |r| == Max(|fields|, |data|)
    ensures fields <= r
    ensures forall i :: |fields| <= i < |r| ==> r[i] == Field(FieldNameAt(header, rowNum, data, i), "")
    decreases |data| - |fields|
  {
    if |data| <= |fields| then fields
    else
      var field := Field(FieldNameAt(header, rowNum, data, |fields|), "");
      var longer := fields + [field];
      var r := Extend(longer, rowNum, data, header);
      assert longer[|fields|] == field && fields <= longer;
      assert r[|fields|] == field;
      r
  }

  /** The field list after the row function has seen rows[0], ..., rows[|rows|-1]. */
  function InferFields(rows: seq<Row>, header: bool): seq<Field>
    decreases |rows|
  {
    if rows == [] then []
    else Extend(InferFields(rows[..|rows| - 1], header), |rows| - 1, rows[|rows| - 1], header)
  }

  /** The field list generateFieldList returns for a file. */
  function FileSchema(file: ParseInput, header: bool): seq<Field> {
    InferFields(Sample(file.rows), header)
  }

  /** The body of the row function: the loop from fieldList.size() to data.size(). */
  method ExtendFieldList(fieldList: seq<Field>, rowNum: nat, data: Row, header: bool)
    returns (extended: seq<Field>)
    ensures extended == Extend(fieldList, rowNum, data, header)
  {
    extended := fieldList;
    var i := |fieldList|;
    while i < |data|
      invariant |extended| == i
      invariant Extend(extended, rowNum, data, header) == Extend(fieldList, rowNum, data, header)
    {
      var fieldname := "";
      if rowNum == 0 && header {
        fieldname := data[i];
        fieldname := RemoveAll(fieldname, '`');
        fieldname := RemoveAll(fieldname, ' ');
        fieldname := RemoveAll(fieldname, '"');
        fieldname := RemoveAll(fieldname, '\'');
        fieldname := RemoveAll(fieldname, ',');
        fieldname := RemoveAll(fieldname, ';');
      }
      if fieldname == "" {
        fieldname := DefaultName(i);
      }
      extended := extended + [Field(fieldname, "")];
      i := i + 1;
    }
  }

  /** generateFieldList: runs the row function over the rows of a scan capped at SampleSize. */
  method GenerateFieldList(file: ParseInput, header: bool) returns (fieldList: seq<Field>)
    ensures fieldList == FileSchema(file, header)
  {
    fieldList := [];
    var rowNum: nat := 0;
    while rowNum < |file.rows| && rowNum < SampleSize
      invariant rowNum <= |file.rows| && rowNum <= SampleSize
      invariant fieldList == Scan(file.rows, rowNum, header)
    {
      fieldList := ExtendFieldList(fieldList, rowNum, file.rows[rowNum], header);
      rowNum := rowNum + 1;
    }
    ScanIsInferFields(file.rows, rowNum, header);
    SampleIsScanned(file.rows, rowNum);
  }

  /** The field list after the row function has seen the first n rows of rows. */
  function Scan(rows: seq<Row>, n: nat, header: bool): seq<Field>
    requires n <= |rows|
  {
    if n == 0 then [] else Extend(Scan(rows, n - 1, header), n - 1, rows[n - 1], header)
  }

  /** Scanning the first n rows infers the field list of the prefix of length n. */
  lemma {:induction false} ScanIsInferFields(rows: seq<Row>, n: nat, header: bool)
    requires n <= |rows|
    ensures Scan(rows, n, header) == InferFields(rows[..n], header)
  {
    if n > 0 {
      ScanIsInferFields(rows, n - 1, header);
      var prefix := rows[..n];
      assert prefix[..n - 1] == rows[..n - 1] && prefix[n - 1] == rows[n - 1];
    }
  }

  /** The scan stops at the end of the file or after SampleSize rows, having seen the sample. */
  lemma SampleIsScanned(rows: seq<Row>, n: nat)
    requires n <= |rows| && n <= SampleSize
    requires !(n < |rows| && n < SampleSize)
    ensures rows[..n] == Sample(rows)
  {
  }

  // ---------------------------------------------------------------------------
  // What the inferred field list is

  /** The width of the widest row. */
  function MaxWidth(rows: seq<Row>): (w: nat)
    ensures forall k :: 0 <= k < |rows| ==> |rows[k]| <= w
    ensures rows != [] ==> exists k :: 0 <= k < |rows| && |rows[k]| == w
    ensures rows == [] ==> w == 0
    decreases |rows|
  {
    if rows == [] then 0 else Max(MaxWidth(rows[..|rows| - 1]), |rows[|rows| - 1]|)
  }

  /** The number of the first row that reaches position i. */
  function FirstReaching(rows: seq<Row>, i: nat): (k: nat)
    requires i < MaxWidth(rows)
    ensures k < |rows| && i < |rows[k]|
    ensures forall j :: 0 <= j < k ==> |rows[j]| <= i
    decreases |rows|
  {
    if i < |rows[0]| then 0
    else
      MaxWidthTail(rows, i);
      var k := FirstReaching(rows[1..], i);
      FirstReachingTail(rows, i, k);
      1 + k
  }

  /** Row k of the rows after the first is row 1 + k of rows. */
  lemma FirstReachingTail(rows: seq<Row>, i: nat, k: nat)
    requires rows != [] && |rows[0]| <= i
    requires k < |rows[1..]| && i < |rows[1..][k]|
    requires forall j :: 0 <= j < k ==> |rows[1..][j]| <= i
    ensures 1 + k < |rows| && i < |rows[1 + k]|
    ensures forall j :: 0 <= j < 1 + k ==> |rows[j]| <= i
  {
    assert forall j :: 1 <= j <= k + 1 ==> rows[j] == rows[1..][j - 1];
  }

  /** A position the first row does not reach is reached by a later row. */
  lemma MaxWidthTail(rows: seq<Row>, i: nat)
    requires i < MaxWidth(rows) && |rows[0]| <= i
    ensures i < MaxWidth(rows[1..])
  {
    var k :| 0 <= k < |rows| && |rows[k]| == MaxWidth(rows);
    assert rows[1..][k - 1] == rows[k];
  }

  lemma FirstReachingUnique(rows: seq<Row>, i: nat, k: nat)
    requires k < |rows| && i < |rows[k]|
    requires forall j :: 0 <= j < k ==> |rows[j]| <= i
    ensures i < MaxWidth(rows) && FirstReaching(rows, i) == k
  {
  }

  /** The inferred field list is as wide as the widest row, and the field at position i
      is the one the first row reaching position i created. */
  lemma {:induction false} InferredSchema(rows: seq<Row>, header: bool)
    ensures |InferFields(rows, header)| == MaxWidth(rows)
    ensures forall i :: 0 <= i < MaxWidth(rows) ==>
      InferFields(rows, header)[i] == CreatedField(rows, header, i)
  {
    if rows != [] {
      var init, last := rows[..|rows| - 1], rows[|rows| - 1];
      assert rows == init + [last];
      InferredSchema(init, header);
      forall i | 0 <= i < MaxWidth(rows)
        ensures InferFields(rows, header)[i] == CreatedField(rows, header, i)
      {
        var s := InferFields(init, header);
        if i < |s| {
          InferredSchemaOld(init, last, header, s, i);
        } else {
          InferredSchemaNew(init, last, header, s, i);
        }
      }
    }
  }

  /** The field the first row reaching position i creates there. */
  function CreatedField(rows: seq<Row>, header: bool, i: nat): Field
    requires i < MaxWidth(rows)
  {
    var k := FirstReaching(rows, i);
    Field(FieldNameAt(header, k, rows[k], i), "")
  }

  /** A position the earlier rows already reached keeps its field. */
  lemma InferredSchemaOld(init: seq<Row>, last: Row, header: bool, s: seq<Field>, i: nat)
    requires s == InferFields(init, header) && |s| == MaxWidth(init)
    requires i < |s| && s[i] == CreatedField(init, header, i)
    ensures i < MaxWidth(init + [last])
    ensures InferFields(init + [last], header)[i] == CreatedField(init + [last], header, i)
  {
    var rows := init + [last];
    assert rows[..|rows| - 1] == init;
    var k := FirstReaching(init, i);
    assert rows[k] == init[k];
    assert forall j :: 0 <= j < k ==> rows[j] == init[j];
    FirstReachingUnique(rows, i, k);
  }

  /** A position first reached by the last row gets the field that row creates. */
  lemma InferredSchemaNew(init: seq<Row>, last: Row, header: bool, s: seq<Field>, i: nat)
    requires s == InferFields(init, header) && |s| == MaxWidth(init)
    requires |s| <= i < MaxWidth(init + [last])
    ensures InferFields(init + [last], header)[i] == CreatedField(init + [last], header, i)
  {
    var rows := init + [last];
    assert rows[..|rows| - 1] == init;
    assert MaxWidth(rows) == Max(|s|, |last|);
    assert forall j :: 0 <= j < |init| ==> rows[j] == init[j];
    FirstReachingUnique(rows, i, |init|);
  }

  /** A later row never renames a field: the list inferred from a prefix of the rows
      is a prefix of the list inferred from all of them. */
  lemma {:induction false} PrefixStable(rows: seq<Row>, k: nat, header: bool)
    requires k <= |rows|
    ensures InferFields(rows[..k], header) <= InferFields(rows, header)
    decreases |rows|
  {
    if k < |rows| {
      var init := rows[..|rows| - 1];
      assert init[..k] == rows[..k];
      PrefixStable(init, k, header);
    } else {
      assert rows[..k] == rows;
    }
  }

  /** Every inferred field has a non-empty name. */
  lemma NamesNonEmpty(rows: seq<Row>, header: bool)
    ensures forall i :: 0 <= i < |InferFields(rows, header)| ==> InferFields(rows, header)[i].name != ""
  {
    InferredSchema(rows, header);
  }

  /** The inferred field list is empty exactly when no sampled row has a field. */
  lemma EmptySchema(rows: seq<Row>, header: bool)
    ensures InferFields(rows, header) == [] <==> forall k :: 0 <= k < |rows| ==> rows[k] == []
  {
    InferredSchema(rows, header);
  }

  /** Naming: in header mode the fields row 0 creates are named after its cells (when
      anything is left after stripping); all other fields have generated names. */
  lemma HeaderModeNames(rows: seq<Row>, header: bool)
    requires rows != []
    ensures |InferFields(rows, header)| == MaxWidth(rows)
    ensures forall i :: 0 <= i < |rows[0]| ==>
      InferFields(rows, header)[i].name
        == if header && KeepValid(rows[0][i]) != "" then KeepValid(rows[0][i]) else DefaultName(i)
    ensures forall i :: |rows[0]| <= i < |InferFields(rows, header)| ==>
      InferFields(rows, header)[i].name == DefaultName(i)
  {
    InferredSchema(rows, header);
    var s := InferFields(rows, header);
    forall i | 0 <= i < |s|
      ensures i < |rows[0]| ==> s[i].name == if header && KeepValid(rows[0][i]) != "" then KeepValid(rows[0][i]) else DefaultName(i)
      ensures |rows[0]| <= i ==> s[i].name == DefaultName(i)
    {
      var k := FirstReaching(rows, i);
      FieldNameCases(header, k, rows[k], i);
      if i < |rows[0]| {
        FirstReachingUnique(rows, i, 0);
      }
    }
  }

  /** Without a header row every field has its generated name. */
  lemma NoHeaderNames(rows: seq<Row>)
    ensures forall i :: 0 <= i < |InferFields(rows, false)| ==> InferFields(rows, false)[i].name == DefaultName(i)
  {
    InferredSchema(rows, false);
    forall i | 0 <= i < |InferFields(rows, false)|
      ensures InferFields(rows, false)[i].name == DefaultName(i)
    {
      var k := FirstReaching(rows, i);
      FieldNameCases(false, k, rows[k], i);
    }
  }

  /** Names are not made unique: a header row with a repeated cell yields two fields
      with the same name. */
  lemma DuplicateHeaderNamesKept()
    ensures InferFields([["a", "a"]], true) == [Field("a", ""), Field("a", "")]
  {
    var rows: seq<Row> := [["a", "a"]];
    assert KeepValid("a") == "a";
    assert MaxWidth(rows) == 2;
    HeaderModeNames(rows, true);
    var s := InferFields(rows, true);
    assert s[0].name == "a" && s[1].name == "a";
    InferredSchema(rows, true);
    assert s[0].fieldType == "" && s[1].fieldType == "";
  }
}
