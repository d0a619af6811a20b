/** The dictionary-filling loop shared by fetch_character_descriptions and
    CharacterFactory.__fetch_characters: every kept line is parsed into a key
    and a value, and `table[key] = value` is executed in line order. */
module Tables {
  import opened Results

  /** The table after the lines have been read in order; the first kept line
      that fails to parse ends the loop with its error. */
  function BuildTable<V>(lines: seq<string>, keep: string -> bool, parse: string -> Result<(int, V)>): Result<map<int, V>>
    decreases |lines|
  {
    if lines == [] then Ok(map[])
    else
      var last := lines[|lines| - 1];
      match BuildTable(lines[..|lines| - 1], keep, parse)
      case Err(e) => Err(e)
      case Ok(table) =>
        if !keep(last) then Ok(table)
        else match parse(last)
          case Err(e) => Err(e)
          case Ok(entry) => Ok(table[entry.0 := entry.1])
  }

  /** The line is kept and parses to an entry under key c. */
  predicate Defines<V>(line: string, keep: string -> bool, parse: string -> Result<(int, V)>, c: int) {
    keep(line) && parse(line).Ok? && parse(line).value.0 == c
  }

  /** One more line: the table as before when the line is not kept, and
      otherwise the old table with the parsed entry stored over any earlier
      one under the same key. */
  lemma BuildTableSnoc<V>(lines: seq<string>, line: string, keep: string -> bool, parse: string -> Result<(int, V)>)
    ensures BuildTable(lines + [line], keep, parse)
      == match BuildTable(lines, keep, parse)
         case Err(e) => Err(e)
         case Ok(table) =>
           if !keep(line) then Ok(table)
           else match parse(line)
             case Err(e) => Err(e)
             case Ok(entry) => Ok(table[entry.0 := entry.1])
  {
    assert (lines + [line])[..|lines|] == lines;
  }

  /** A loop that failed on a prefix of the lines fails with the same error
      on all of them. */
  lemma {:induction false} TableErrorPersists<V>(lines: seq<string>, i: int, keep: string -> bool, parse: string -> Result<(int, V)>)
    requires 0 <= i <= |lines| && BuildTable(lines[..i], keep, parse).Err?
    ensures BuildTable(lines, keep, parse) == BuildTable(lines[..i], keep, parse)
    decreases |lines| - i
  {
    if i < |lines| {
      BuildTableSnoc(lines[..i], lines[i], keep, parse);
      assert lines[..i] + [lines[i]] == lines[..i + 1];
      TableErrorPersists(lines, i + 1, keep, parse);
    } else {
      assert lines[..i] == lines;
    }
  }

  /** The loop completes exactly when every kept line parses. */
  lemma {:induction false} BuildTableSucceeds<V>(lines: seq<string>, keep: string -> bool, parse: string -> Result<(int, V)>)
    ensures BuildTable(lines, keep, parse).Ok?
      <==> forall i :: 0 <= i < |lines| && keep(lines[i]) ==> parse(lines[i]).Ok?
    decreases |lines|
  {
    if lines != [] {
      var prefix := lines[..|lines| - 1];
      BuildTableSucceeds(prefix, keep, parse);
      assert forall i :: 0 <= i < |prefix| ==> prefix[i] == lines[i];
    }
  }

  /** The keys of a completed table are exactly the keys of the kept lines. */
  lemma {:induction false} BuildTableKeys<V>(lines: seq<string>, keep: string -> bool, parse: string -> Result<(int, V)>, c: int)
    requires BuildTable(lines, keep, parse).Ok?
    ensures c in BuildTable(lines, keep, parse).value
      <==> exists i :: 0 <= i < |lines| && Defines(lines[i], keep, parse, c)
    decreases |lines|
  {
    if lines != [] {
      var prefix := lines[..|lines| - 1];
      BuildTableKeys(prefix, keep, parse, c);
      assert forall i :: 0 <= i < |prefix| ==> prefix[i] == lines[i];
      if Defines(lines[|lines| - 1], keep, parse, c) {
        assert c in BuildTable(lines, keep, parse).value;
      }
    }
  }

  /** The value under c comes from the last kept line with key c: a later
      line overwrites an earlier one. */
  lemma {:induction false} BuildTableLastWins<V>(lines: seq<string>, keep: string -> bool, parse: string -> Result<(int, V)>, c: int, i: int)
    requires BuildTable(lines, keep, parse).Ok?
    requires 0 <= i < |lines| && Defines(lines[i], keep, parse, c)
    requires forall j :: i < j < |lines| ==> !Defines(lines[j], keep, parse, c)
    ensures c in BuildTable(lines, keep, parse).value
    ensures BuildTable(lines, keep, parse).value[c] == parse(lines[i]).value.1
    decreases |lines|
  {
    var prefix := lines[..|lines| - 1];
    if i < |lines| - 1 {
      assert forall j :: 0 <= j < |prefix| ==> prefix[j] == lines[j];
      BuildTableLastWins(prefix, keep, parse, c, i);
      assert !Defines(lines[|lines| - 1], keep, parse, c);
    }
  }

  /** Storing one line's entry leaves every other key as it was. */
  lemma OtherKeysUnchanged<V>(lines: seq<string>, line: string, keep: string -> bool, parse: string -> Result<(int, V)>, c: int)
    requires BuildTable(lines + [line], keep, parse).Ok?
    requires !Defines(line, keep, parse, c)
    ensures BuildTable(lines, keep, parse).Ok?
    ensures (c in BuildTable(lines + [line], keep, parse).value) == (c in BuildTable(lines, keep, parse).value)
    ensures c in BuildTable(lines, keep, parse).value
      ==> BuildTable(lines + [line], keep, parse).value[c] == BuildTable(lines, keep, parse).value[c]
  {
    BuildTableSnoc(lines, line, keep, parse);
  }
}
