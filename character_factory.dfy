/** src/extractors/characterfactory.py: the Character record and the
    CharacterFactory table that maps each character of UnicodeData.txt to its
    record. */
module Characters {
  import opened Results
  import opened PyStr
  import opened Tables

  /** U+200E LEFT-TO-RIGHT MARK. */
  const LtrMark: int := 0x200E

  /** The right-to-left bidirectional classes of Unicode Standard Annex #9
      whose characters are shown with a left-to-right mark. */
  const RtlClasses: set<string> := {"AL", "AN", "R", "RLE", "RLI", "RLO"}

  /** A Character after __init__: its code point, its normalised name and
      whether it must be forced left to right. */
  datatype Character = Character(codePoint: int, name: string, forceLtr: bool)

  /** The class __init__ decides on: the supplied one unless it is None or
      empty, and otherwise the database's class of the character. */
  function EffectiveBidiClass(codePoint: int, bidiClass: Option<string>, bidiDatabase: int -> string): string {
    if bidiClass.None? || bidiClass.value == "" then bidiDatabase(codePoint) else bidiClass.value
  }

  /** Character(char, name, bidi_class): chr() raises for a value that is no
      code point; the name is stripped and title-cased. */
  function NewCharacter(codePoint: int, name: string, bidiClass: Option<string>, bidiDatabase: int -> string): (r: Result<Character>)
    ensures r.Err? <==> !IsCodePoint(codePoint)
    ensures r.Err? ==> r.error == ChrError(codePoint)
    ensures r.Ok? ==> r.value.codePoint == codePoint
  {
    match Chr(codePoint)
    case Err(e) => Err(e)
    case Ok(c) => Ok(Character(c, Title(Strip(name)), EffectiveBidiClass(c, bidiClass, bidiDatabase) in RtlClasses))
  }

  /** Title-casing a string that neither starts nor ends with white space
      keeps it so. */
  lemma TitleUnpadded(s: string)
    requires s == [] || (!IsSpace(s[0]) && !IsSpace(s[|s| - 1]))
    ensures Strip(Title(s)) == Title(s)
  {
    var n := Title(s);
    if s != [] {
      TitleAt(s, 0);
      TitleAt(s, |s| - 1);
      CaseKeepsSpace(s[0]);
      CaseKeepsSpace(s[|s| - 1]);
    }
    StripUnpadded(n);
  }

  lemma CaseKeepsSpace(c: char)
    ensures IsSpace(LowerChar(c)) == IsSpace(c) && IsSpace(UpperChar(c)) == IsSpace(c)
  {
  }

  /** The stored name carries no surrounding white space, is already in
      title case, and differs from the stripped input only in letter case. */
  lemma NameNormalised(codePoint: int, name: string, bidiClass: Option<string>, bidiDatabase: int -> string)
    requires IsCodePoint(codePoint)
    ensures var n := NewCharacter(codePoint, name, bidiClass, bidiDatabase).value.name;
      Strip(n) == n && Title(n) == n && Lower(n) == Lower(Strip(name)) && |n| == |Strip(name)|
  {
    var s := Strip(name);
    assert NewCharacter(codePoint, name, bidiClass, bidiDatabase).value.name == Title(s);
    TitleUnpadded(s);
    TitleIdempotent(s);
    LowerTitle(s);
  }

  /** force_ltr holds exactly when the class decided on is AL, AN, R, RLE,
      RLI or RLO. */
  lemma ForceLtrIff(codePoint: int, name: string, bidiClass: Option<string>, bidiDatabase: int -> string)
    requires IsCodePoint(codePoint)
    ensures var cls := EffectiveBidiClass(codePoint, bidiClass, bidiDatabase);
      NewCharacter(codePoint, name, bidiClass, bidiDatabase).value.forceLtr
      <==> cls == "AL" || cls == "AN" || cls == "R" || cls == "RLE" || cls == "RLI" || cls == "RLO"
  {
    var cls := EffectiveBidiClass(codePoint, bidiClass, bidiDatabase);
    assert NewCharacter(codePoint, name, bidiClass, bidiDatabase).value.forceLtr == (cls in RtlClasses);
    RtlClassMembers(cls);
  }

  lemma RtlClassMembers(cls: string)
    ensures cls in RtlClasses <==> cls == "AL" || cls == "AN" || cls == "R" || cls == "RLE" || cls == "RLI" || cls == "RLO"
  {
  }

  /** A supplied non-empty class is used unchanged: the database is not
      consulted. */
  lemma SuppliedClassUsed(codePoint: int, name: string, bidiClass: string, db1: int -> string, db2: int -> string)
    requires bidiClass != ""
    ensures NewCharacter(codePoint, name, Some(bidiClass), db1) == NewCharacter(codePoint, name, Some(bidiClass), db2)
    ensures IsCodePoint(codePoint)
      ==> NewCharacter(codePoint, name, Some(bidiClass), db1).value.forceLtr == (bidiClass in RtlClasses)
  {
  }

  /** A missing or empty class is looked up in the database. */
  lemma DatabaseClassUsed(codePoint: int, name: string, bidiClass: Option<string>, bidiDatabase: int -> string)
    requires IsCodePoint(codePoint) && (bidiClass.None? || bidiClass.value == "")
    ensures NewCharacter(codePoint, name, bidiClass, bidiDatabase).value.forceLtr
      == (bidiDatabase(codePoint) in RtlClasses)
  {
  }

  /** directional_char: the left-to-right mark before the character when
      force_ltr holds, the bare character otherwise. */
  function DirectionalChar(ch: Character): (r: Text)
    ensures |r| == if ch.forceLtr then 2 else 1
    ensures r[|r| - 1] == ch.codePoint
    ensures ch.forceLtr ==> r[0] == LtrMark
  {
    (if ch.forceLtr then [LtrMark] else []) + [ch.codePoint]
  }

  // ---------------------------------------------------------------- the UnicodeData.txt loop

  const IndexChar := 0
  const IndexName := 1
  const IndexBidiClass := 4

  /** A line __fetch_characters turns into a record: at least two `;` fields
      and a name that does not start with `<`. */
  predicate IsKept(line: string) {
    var fields := Split(line, ";");
    |fields| >= 2 && !StartsWith(fields[IndexName], "<")
  }

  /** The record of a kept line. The arguments are evaluated in order:
      int(field 0, 16) raises ValueError, a line with fewer than five fields
      raises IndexError at field 4, and chr() in Character raises ValueError. */
  function CharacterOfLine(line: string, bidiDatabase: int -> string): (r: Result<Character>)
    requires IsKept(line)
    ensures ParseHex(Split(line, ";")[IndexChar]).None? ==> r == Err(ValueError)
    ensures r.Ok? ==> |Split(line, ";")| > IndexBidiClass
                      && ParseHex(Split(line, ";")[IndexChar]) == Some(r.value.codePoint)
  {
    var fields := Split(line, ";");
    match ParseHex(fields[IndexChar])
    case None => Err(ValueError)
    case Some(v) =>
      if |fields| <= IndexBidiClass then Err(IndexError)
      else NewCharacter(v, fields[IndexName], Some(fields[IndexBidiClass]), bidiDatabase)
  }

  /** The dictionary entry of a line: the record under its own character.
      The table never parses a line that is not kept, so the error given for
      one is never observed. */
  function EntryOfLine(line: string, bidiDatabase: int -> string): (r: Result<(int, Character)>)
    ensures r.Ok? ==> r.value.1.codePoint == r.value.0 && IsCodePoint(r.value.0)
  {
    if !IsKept(line) then Err(IndexError)
    else match CharacterOfLine(line, bidiDatabase)
      case Err(e) => Err(e)
      case Ok(ch) => Ok((ch.codePoint, ch))
  }

  function Parser(bidiDatabase: int -> string): string -> Result<(int, Character)> {
    line => EntryOfLine(line, bidiDatabase)
  }

  /** What __fetch_characters stores, or the error it raises. */
  function CharacterTable(lines: seq<string>, bidiDatabase: int -> string): Result<map<int, Character>> {
    BuildTable(lines, IsKept, Parser(bidiDatabase))
  }

  /** Every record is stored under its own character. */
  lemma {:induction false} CharacterTableKeys(lines: seq<string>, bidiDatabase: int -> string)
    requires CharacterTable(lines, bidiDatabase).Ok?
    ensures forall c :: c in CharacterTable(lines, bidiDatabase).value ==>
              CharacterTable(lines, bidiDatabase).value[c].codePoint == c && IsCodePoint(c)
    decreases |lines|
  {
    if lines != [] {
      var prefix := lines[..|lines| - 1];
      BuildTableSnoc(prefix, lines[|lines| - 1], IsKept, Parser(bidiDatabase));
      assert prefix + [lines[|lines| - 1]] == lines;
      CharacterTableKeys(prefix, bidiDatabase);
    }
  }

  /** A line without `;`, the empty line among them, is never kept. */
  lemma SingleFieldNotKept(line: string)
    requires ';' !in line
    ensures !IsKept(line)
  {
    SplitWithoutSeparator(line, ";");
  }

  /** A line whose name field starts with `<`, such as `0000;<control>;...`,
      is never kept. */
  lemma PlaceholderNotKept(code: string, rest: string)
    requires ';' !in code
    ensures !IsKept(code + ";" + "<" + rest)
  {
    var tail := "<" + rest;
    SplitAfterPiece(code, ";", tail);
    assert code + ";" + tail == code + ";" + "<" + rest;
    assert tail[..1] != ";";
    assert Split(tail, ";")[0][0] == '<';
  }

  /** Field 0 is not stripped before int() reads it, and int() does not
      skip the information separators U+001C..U+001F: a kept line whose code
      starts with one raises ValueError. */
  lemma SeparatorBeforeCode(code: string, rest: string, bidiDatabase: int -> string)
    requires ';' !in code && IsKept("\U{1C}" + code + ";" + rest)
    ensures EntryOfLine("\U{1C}" + code + ";" + rest, bidiDatabase) == Err(ValueError)
  {
    var field := "\U{1C}" + code;
    SplitAfterPiece(field, ";", rest);
    assert "\U{1C}" + code + ";" + rest == field + ";" + rest;
    StrayCharacter(field, 0);
  }

  /** A record line `CODE;NAME;f2;f3;CLASS;...` whose name does not start
      with `<` is kept, stored under CODE, and yields the normalised name and
      the class's direction. */
  lemma RecordOfFields(fields: seq<string>, bidiDatabase: int -> string)
    requires |fields| >= 5 && forall k :: 0 <= k < |fields| ==> ';' !in fields[k]
    requires HexNumeral(fields[0]) && IsCodePoint(HexValue(fields[0])) && !StartsWith(fields[1], "<")
    ensures IsKept(Join(fields, ";"))
    ensures var v := HexValue(fields[0]);
      EntryOfLine(Join(fields, ";"), bidiDatabase)
      == Ok((v, Character(v, Title(Strip(fields[1])),
                          EffectiveBidiClass(v, Some(fields[4]), bidiDatabase) in RtlClasses)))
  {
    SplitJoin(fields, ";");
    ParseHexNumeral(fields[0]);
  }

  /** The keys of the table are exactly the characters of kept lines that
      parse, so a `<...>` entry is never retrievable unless a kept line names
      the same character; the value is the record of the last such line. */
  lemma CharacterTableLookup(lines: seq<string>, bidiDatabase: int -> string, c: int)
    requires CharacterTable(lines, bidiDatabase).Ok?
    ensures c in CharacterTable(lines, bidiDatabase).value
      <==> exists i :: 0 <= i < |lines| && Defines(lines[i], IsKept, Parser(bidiDatabase), c)
    ensures forall i :: 0 <= i < |lines| && Defines(lines[i], IsKept, Parser(bidiDatabase), c)
             && (forall j :: i < j < |lines| ==> !Defines(lines[j], IsKept, Parser(bidiDatabase), c))
             ==> c in CharacterTable(lines, bidiDatabase).value
                 && CharacterTable(lines, bidiDatabase).value[c] == EntryOfLine(lines[i], bidiDatabase).value.1
  {
    BuildTableKeys(lines, IsKept, Parser(bidiDatabase), c);
    forall i | 0 <= i < |lines| && Defines(lines[i], IsKept, Parser(bidiDatabase), c)
             && (forall j :: i < j < |lines| ==> !Defines(lines[j], IsKept, Parser(bidiDatabase), c))
      ensures c in CharacterTable(lines, bidiDatabase).value
              && CharacterTable(lines, bidiDatabase).value[c] == EntryOfLine(lines[i], bidiDatabase).value.1
    {
      BuildTableLastWins(lines, IsKept, Parser(bidiDatabase), c, i);
    }
  }

  /** A later kept line replaces the record of its character and leaves all
      other entries unchanged. */
  lemma LaterLineReplaces(lines: seq<string>, line: string, bidiDatabase: int -> string)
    requires CharacterTable(lines, bidiDatabase).Ok? && IsKept(line)
    requires EntryOfLine(line, bidiDatabase).Ok?
    ensures CharacterTable(lines + [line], bidiDatabase)
      == Ok(CharacterTable(lines, bidiDatabase).value[EntryOfLine(line, bidiDatabase).value.0 := EntryOfLine(line, bidiDatabase).value.1])
  {
    BuildTableSnoc(lines, line, IsKept, Parser(bidiDatabase));
  }

  class CharacterFactory {
    /** The dictionary from character to record. */
    var characters: map<int, Character>

    /** Every record is stored under its own character. */
    ghost predicate Valid()
      reads this
    {
      forall c :: c in characters ==> characters[c].codePoint == c
    }

    constructor()
      ensures characters == map[] && Valid()
    {
      characters := map[];
    }

    /** __fetch_characters over the given lines: the dictionary starts empty
        and each kept line stores its record. On an error the dictionary
        holds what the lines before the failing one stored. */
    method FetchCharacters(lines: seq<string>, bidiDatabase: int -> string) returns (outcome: Outcome)
      modifies this
      ensures Valid()
      ensures outcome.Pass? <==> CharacterTable(lines, bidiDatabase).Ok?
      ensures outcome.Pass? ==> characters == CharacterTable(lines, bidiDatabase).value
      ensures outcome.Fail? ==> CharacterTable(lines, bidiDatabase) == Err(outcome.error)
      ensures outcome.Fail? ==>
                exists i :: 0 <= i < |lines|
                  && CharacterTable(lines[..i], bidiDatabase) == Ok(characters)
                  && CharacterTable(lines[..i + 1], bidiDatabase) == Err(outcome.error)
    {
      characters := map[];
      for i := 0 to |lines|
        invariant CharacterTable(lines[..i], bidiDatabase) == Ok(characters)
        invariant Valid()
      {
        var line := lines[i];
        BuildTableSnoc(lines[..i], line, IsKept, Parser(bidiDatabase));
        assert lines[..i] + [line] == lines[..i + 1];
        var fields := Split(line, ";");
        if |fields| >= 2 && !StartsWith(fields[IndexName], "<") {
          var character := CharacterOfLine(line, bidiDatabase);
          if character.Err? {
            TableErrorPersists(lines, i + 1, IsKept, Parser(bidiDatabase));
            return Fail(character.error);
          }
          characters := characters[character.value.codePoint := character.value];
        }
      }
      assert lines[..|lines|] == lines;
      outcome := Pass;
    }

    /** get_character: chr() raises for a value that is no code point;
        otherwise the record stored for the character, or None. */
    function GetCharacter(codePoint: int): (r: Result<Option<Character>>)
      reads this
      requires Valid()
      ensures r.Err? <==> !IsCodePoint(codePoint)
      ensures r.Err? ==> r.error == ChrError(codePoint)
      ensures r.Ok? ==> (r.value.Some? <==> codePoint in characters)
      ensures r.Ok? && r.value.Some? ==> r.value.value == characters[codePoint] && r.value.value.codePoint == codePoint
    {
      match Chr(codePoint)
      case Err(e) => Err(e)
      case Ok(c) => if c in characters then Ok(Some(characters[c])) else Ok(None)
    }
  }

  /** CharacterFactory(): the constructor runs __fetch_characters, so an
      error it raises means no factory. */
  method NewCharacterFactory(lines: seq<string>, bidiDatabase: int -> string) returns (r: Result<CharacterFactory>)
    ensures r.Ok? <==> CharacterTable(lines, bidiDatabase).Ok?
    ensures r.Ok? ==> fresh(r.value) && r.value.Valid()
    ensures r.Ok? ==> r.value.characters == CharacterTable(lines, bidiDatabase).value
    ensures r.Err? ==> CharacterTable(lines, bidiDatabase) == Err(r.error)
  {
    var factory := new CharacterFactory();
    var outcome := factory.FetchCharacters(lines, bidiDatabase);
    if outcome.Fail? {
      return Err(outcome.error);
    }
    r := Ok(factory);
  }
}
