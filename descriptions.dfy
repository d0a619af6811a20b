/** extract_character_description_from_line and fetch_character_descriptions:
    the name column of UnicodeData.txt as a table from code point to name. */
module Descriptions {
  import opened Results
  import opened PyStr
  import opened Tables
  import Extractors

  /** `[s.strip() for s in parts]`. */
  function StripAll(parts: seq<string>): (r: seq<string>)
    ensures |r| == |parts|
    ensures forall i :: 0 <= i < |r| ==> r[i] == Strip(parts[i])
  {
    if parts == [] then [] else [Strip(parts[0])] + StripAll(parts[1..])
  }

  /** The stripped `;` fields of a line; there is always a field 0. */
  function Fields(line: string): (r: seq<string>)
    ensures |r| >= 1
  {
    StripAll(Split(line, ";"))
  }

  /** extract_character_description_from_line: int(field 0, 16) raises
      ValueError when field 0 is no number, chr() raises for a value that is
      no code point, and only then is field 1 read, which raises IndexError
      when the line has no `;`. */
  function DescriptionOfLine(line: string): (r: Result<(int, string)>)
    ensures r.Ok? ==> IsCodePoint(r.value.0) && |Fields(line)| >= 2
    ensures r.Err? <==> (ParseHex(Fields(line)[0]).None? || !IsCodePoint(ParseHex(Fields(line)[0]).value)
                         || |Fields(line)| < 2)
    ensures ParseHex(Fields(line)[0]).Some? && !IsCodePoint(ParseHex(Fields(line)[0]).value)
      ==> r == Err(ChrError(ParseHex(Fields(line)[0]).value))
  {
    var fields := Fields(line);
    match ParseHex(fields[0])
    case None => Err(ValueError)
    case Some(v) =>
      match Chr(v)
      case Err(e) => Err(e)
      case Ok(c) => if |fields| < 2 then Err(IndexError) else Ok((c, fields[1]))
  }

  /** The lines fetch_character_descriptions reads: not a comment, not blank. */
  predicate IsRecord(line: string) {
    !Extractors.IsSkipped(line)
  }

  /** What fetch_character_descriptions returns or raises. */
  function DescriptionTable(lines: seq<string>): Result<map<int, string>> {
    BuildTable(lines, IsRecord, DescriptionOfLine)
  }

  /** The loop of fetch_character_descriptions, proved to compute
      DescriptionTable. */
  method FetchCharacterDescriptions(lines: seq<string>) returns (r: Result<map<int, string>>)
    ensures r == DescriptionTable(lines)
  {
    var descriptions: map<int, string> := map[];
    for i := 0 to |lines|
      invariant DescriptionTable(lines[..i]) == Ok(descriptions)
    {
      var line := lines[i];
      BuildTableSnoc(lines[..i], line, IsRecord, DescriptionOfLine);
      assert lines[..i] + [line] == lines[..i + 1];
      if StartsWith(line, "#") || |line| == 0 {
        continue;
      }
      var entry := DescriptionOfLine(line);
      if entry.Err? {
        TableErrorPersists(lines, i + 1, IsRecord, DescriptionOfLine);
        return Err(entry.error);
      }
      descriptions := descriptions[entry.value.0 := entry.value.1];
    }
    assert lines[..|lines|] == lines;
    r := Ok(descriptions);
  }

  /** A UnicodeData.txt record `CODE;NAME;...` yields its code point and its
      name with surrounding white space stripped. */
  lemma DescriptionOfRecord(code: string, name: string, rest: string)
    requires HexNumeral(code) && IsCodePoint(HexValue(code)) && ';' !in name
    ensures DescriptionOfLine(code + ";" + name + ";" + rest) == Ok((HexValue(code), Strip(name)))
  {
    var line := code + ";" + name + ";" + rest;
    NumeralCharacters(code);
    SplitAfterPiece(name, ";", rest);
    SplitAfterPiece(code, ";", name + ";" + rest);
    assert line == code + ";" + (name + ";" + rest);
    assert Split(line, ";") == [code, name] + Split(rest, ";");
    StripWithoutSpace(code);
    ParseHexNumeral(code);
  }

  /** A line that is only a code point has no field 1: IndexError. */
  lemma DescriptionWithoutName(line: string)
    requires ';' !in line
    requires ParseHex(Strip(line)).Some? && IsCodePoint(ParseHex(Strip(line)).value)
    ensures DescriptionOfLine(line) == Err(IndexError)
  {
    SplitWithoutSeparator(line, ";");
  }

  /** fetch_character_descriptions completes exactly when every line that
      is not a comment and not blank is a record. */
  lemma DescriptionTableSucceeds(lines: seq<string>)
    ensures DescriptionTable(lines).Ok?
      <==> forall i :: 0 <= i < |lines| && IsRecord(lines[i]) ==> DescriptionOfLine(lines[i]).Ok?
  {
    BuildTableSucceeds(lines, IsRecord, DescriptionOfLine);
  }

  /** The table describes exactly the code points of its records, each by the
      name on the last record for it; placeholder names such as `<control>`
      are stored like any other. */
  lemma DescriptionTableLookup(lines: seq<string>, c: int)
    requires DescriptionTable(lines).Ok?
    ensures c in DescriptionTable(lines).value
      <==> exists i :: 0 <= i < |lines| && IsRecord(lines[i])
             && DescriptionOfLine(lines[i]).Ok? && DescriptionOfLine(lines[i]).value.0 == c
    ensures forall i :: 0 <= i < |lines| && IsRecord(lines[i])
             && DescriptionOfLine(lines[i]).Ok? && DescriptionOfLine(lines[i]).value.0 == c
             && (forall j :: i < j < |lines| ==> !Defines(lines[j], IsRecord, DescriptionOfLine, c))
             ==> c in DescriptionTable(lines).value
                 && DescriptionTable(lines).value[c] == DescriptionOfLine(lines[i]).value.1
  {
    BuildTableKeys(lines, IsRecord, DescriptionOfLine, c);
    forall i | 0 <= i < |lines| && IsRecord(lines[i])
             && DescriptionOfLine(lines[i]).Ok? && DescriptionOfLine(lines[i]).value.0 == c
             && (forall j :: i < j < |lines| ==> !Defines(lines[j], IsRecord, DescriptionOfLine, c))
      ensures c in DescriptionTable(lines).value
              && DescriptionTable(lines).value[c] == DescriptionOfLine(lines[i]).value.1
    {
      BuildTableLastWins(lines, IsRecord, DescriptionOfLine, c, i);
    }
  }

  /** A record line is neither a comment nor blank. */
  lemma RecordIsRead(code: string, name: string, rest: string)
    requires HexNumeral(code)
    ensures IsRecord(code + ";" + name + ";" + rest)
  {
    var line := code + ";" + name + ";" + rest;
    assert line[0] == code[0] && IsHexDigit(code[0]);
    assert line[..1] == [line[0]];
  }

  lemma StoreEntry(lines: seq<string>, line: string, entry: (int, string))
    requires DescriptionTable(lines).Ok? && IsRecord(line) && DescriptionOfLine(line) == Ok(entry)
    ensures DescriptionTable(lines + [line]) == Ok(DescriptionTable(lines).value[entry.0 := entry.1])
  {
    BuildTableSnoc(lines, line, IsRecord, DescriptionOfLine);
  }

  /** A record appended to the data stores its name over any earlier one for
      the same code point and leaves every other entry unchanged. */
  lemma LaterRecordOverwrites(lines: seq<string>, code: string, name: string, rest: string)
    requires DescriptionTable(lines).Ok? && HexNumeral(code) && IsCodePoint(HexValue(code)) && ';' !in name
    ensures DescriptionTable(lines + [code + ";" + name + ";" + rest])
      == Ok(DescriptionTable(lines).value[HexValue(code) := Strip(name)])
  {
    DescriptionOfRecord(code, name, rest);
    RecordIsRead(code, name, rest);
    StoreEntry(lines, code + ";" + name + ";" + rest, (HexValue(code), Strip(name)));
  }
}
