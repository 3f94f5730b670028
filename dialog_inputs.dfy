/** The dialect and table-name selectors of the import dialog. Each combo box reads
    its last entry ("Other") as "use the text of the line edit beside it". */
module DialogInputs {

  /** The text a selector reads: the custom line edit when the last combo entry is
      selected, the combo text otherwise. */
  function ChosenText(index: int, count: int, comboText: string, customText: string): string {
    if index == count - 1 then customText else comboText
  }

  /** QChar::toLatin1: the character itself when it is Latin-1, else 0. */
  function Latin1(c: char): (r: char)
    ensures r as int < 256
    ensures r == c || r == '\0'
  {
    if c as int < 256 then c else '\0'
  }

  /** currentQuoteChar: the first character of the chosen text, or 0 ("no quoting")
      when the text is empty. */
  function CurrentQuoteChar(index: int, count: int, comboText: string, customText: string): (c: char)
    ensures c as int < 256
  {
    var t := ChosenText(index, count, comboText, customText);
    if |t| > 0 then Latin1(t[0]) else '\0'
  }

  /** Quoting is off exactly when the chosen text is empty or does not start with a
      non-NUL Latin-1 character; otherwise that character is the quote. */
  lemma QuoteCharDefault(index: int, count: int, comboText: string, customText: string)
    ensures var t := ChosenText(index, count, comboText, customText);
      (CurrentQuoteChar(index, count, comboText, customText) == '\0'
       <==> t == "" || t[0] == '\0' || t[0] as int >= 256)
    ensures var t := ChosenText(index, count, comboText, customText);
      t != "" && t[0] as int < 256 ==> CurrentQuoteChar(index, count, comboText, customText) == t[0]
  {
  }

  /** currentSeparatorChar. The combo text must not be empty unless "Other" is selected:
      currentSeparatorChar reads its first character unchecked. */
  function CurrentSeparatorChar(index: int, count: int, comboText: string, customText: string): (c: char)
    requires index == count - 1 || comboText != ""
    ensures c as int < 256
    ensures index == count - 1 ==> c == if customText != "" then Latin1(customText[0]) else '\0'
    ensures index != count - 1 && comboText == "Tab" ==> c == '\t'
    ensures index != count - 1 && comboText != "Tab" ==> c == Latin1(comboText[0])
  {
    if index == count - 1 then (if |customText| > 0 then Latin1(customText[0]) else '\0')
    else if comboText == "Tab" then '\t'
    else Latin1(comboText[0])
  }

  /** Apart from "Tab", the separator follows the quote character's rule: the first
      character of the chosen text as Latin-1, or 0 for an empty custom entry. */
  lemma SeparatorLikeQuote(index: int, count: int, comboText: string, customText: string)
    requires index == count - 1 || comboText != ""
    requires index == count - 1 || comboText != "Tab"
    ensures CurrentSeparatorChar(index, count, comboText, customText) == CurrentQuoteChar(index, count, comboText, customText)
  {
  }

  /** currentEncoding: the chosen text, with "UTF-8" for an empty custom entry. */
  function CurrentEncoding(index: int, count: int, comboText: string, customText: string): (enc: string)
    ensures index == count - 1 ==> enc != ""
    ensures index != count - 1 ==> enc == comboText
    ensures enc == ChosenText(index, count, comboText, customText) || enc == "UTF-8"
  {
    if index == count - 1 then (if |customText| > 0 then customText else "UTF-8")
    else comboText
  }

  /** The custom entry falls back to UTF-8 exactly when it is left empty (or says UTF-8). */
  lemma EncodingDefault(count: int, comboText: string, customText: string)
    ensures (CurrentEncoding(count - 1, count, comboText, customText) == "UTF-8"
             <==> customText == "" || customText == "UTF-8")
  {
  }

  /** The part of a path after its last '/'. */
  function FileNamePart(path: string): (r: string)
    ensures '/' !in r
    ensures |r| <= |path| && r == path[|path| - |r|..]
    ensures |r| < |path| ==> path[|path| - |r| - 1] == '/'
  {
    if path == [] then []
    else if path[|path| - 1] == '/' then []
    else FileNamePart(path[..|path| - 1]) + [path[|path| - 1]]
  }

  /** The characters of s before its first '.'. */
  function UpToFirstDot(s: string): (r: string)
    ensures '.' !in r
    ensures r <= s
    ensures |r| < |s| ==> s[|r|] == '.'
  {
    if s == [] || s[0] == '.' then []
    else [s[0]] + UpToFirstDot(s[1..])
  }

  /** QFileInfo::baseName: the file name without its directory, cut at the first '.'. */
  function BaseName(path: string): string {
    UpToFirstDot(FileNamePart(path))
  }

  /** The table name importCsv imports a file into: with several files and separate
      tables, the name the file picker holds for the file or, when that is empty, the
      file's base name; otherwise the name typed in the dialog. */
  function ChooseTableName(fileCount: nat, separateTables: bool, name: string, fileName: string,
                           editName: string): string
  {
    if fileCount > 1 && separateTables then (if name == "" then BaseName(fileName) else name)
    else editName
  }

  /** A table named after its file has no directory part and no extension: it is the
      start of the last path component, up to the first '.'. */
  lemma TableNameFromFile(fileCount: nat, separateTables: bool, fileName: string, editName: string)
    requires fileCount > 1 && separateTables
    ensures var t := ChooseTableName(fileCount, separateTables, "", fileName, editName);
      '/' !in t && '.' !in t && t <= FileNamePart(fileName)
  {
  }

  /** A single file, or several files into one table, always goes to the typed name. */
  lemma TableNameShared(fileCount: nat, separateTables: bool, name: string, fileName: string, editName: string)
    requires fileCount <= 1 || !separateTables
    ensures ChooseTableName(fileCount, separateTables, name, fileName, editName) == editName
  {
  }
}
