/** extract_emojis_from_line: the first `;` field of a Unicode data line read
    as one hexadecimal code point or as an inclusive START..END range. */
module RangeDecoder {
  import opened Results
  import opened PyStr

  /** The integers lo, lo + 1, ..., hi; empty when lo > hi. */
  function Interval(lo: int, hi: int): (r: seq<int>)
    ensures |r| == if lo <= hi then hi - lo + 1 else 0
    ensures forall i :: 0 <= i < |r| ==> r[i] == lo + i
    decreases hi - lo + 1
  {
    if lo > hi then [] else [lo] + Interval(lo + 1, hi)
  }

  predicate StrictlyIncreasing(s: seq<int>) {
    forall i, j :: 0 <= i < j < |s| ==> s[i] < s[j]
  }

  /** The code point column: the text before the first `;`, stripped. */
  function RangeField(line: string): string {
    Strip(Split(line, ";")[0])
  }

  /** chr() accepts every value of range(lo, hi + 1). */
  predicate RangeAccepted(lo: int, hi: int) {
    lo > hi || (IsCodePoint(lo) && IsCodePoint(hi))
  }

  /** The first value of range(lo, hi + 1) that chr() refuses. */
  function FirstRefused(lo: int, hi: int): (f: int)
    requires !RangeAccepted(lo, hi)
    ensures lo <= f <= hi && !IsCodePoint(f)
    ensures forall k :: lo <= k < f ==> IsCodePoint(k)
  {
    if !IsCodePoint(lo) then lo else MaxCodePoint + 1
  }

  /** The loop of the try branch: chr() of every value of range(lo, hi + 1)
      in order, or the exception of the first value it refuses. */
  function ChrAll(lo: int, hi: int): (r: Result<seq<int>>)
    ensures r.Ok? <==> RangeAccepted(lo, hi)
  {
    if RangeAccepted(lo, hi) then Ok(Interval(lo, hi)) else Err(ChrError(FirstRefused(lo, hi)))
  }

  /** The except branch: chr(int(field, 16)), which raises ValueError when
      the field is no number, and what chr() raises for a value it refuses. */
  function DecodeScalar(field: string): (r: Result<seq<int>>)
    ensures r.Ok? <==> ParseHex(field).Some? && IsCodePoint(ParseHex(field).value)
    ensures r.Ok? ==> r.value == [ParseHex(field).value]
    ensures ParseHex(field).None? ==> r == Err(ValueError)
  {
    match ParseHex(field)
    case Some(v) => (match Chr(v) case Ok(c) => Ok([c]) case Err(e) => Err(e))
    case None => Err(ValueError)
  }

  /** The try branch on a stripped field: unpacking the split at `..` into
      two pieces and int() of either piece raise ValueError, and the loop
      raises what chr() raises for the first value it refuses. */
  function TryRange(field: string): (r: Result<seq<int>>)
    ensures r.Ok? ==> StrictlyIncreasing(r.value)
    ensures r.Ok? ==> forall k :: 0 <= k < |r.value| ==> IsCodePoint(r.value[k])
  {
    var bounds := Split(field, "..");
    if |bounds| != 2 then Err(ValueError)
    else match (ParseHex(bounds[0]), ParseHex(bounds[1]))
      case (Some(lo), Some(hi)) => ChrAll(lo, hi)
      case _ => Err(ValueError)
  }

  /** What extract_emojis_from_line returns or raises for a stripped field:
      the try branch, unless it raises ValueError, which falls back to
      reading the whole field as one numeral. */
  function DecodeField(field: string): (r: Result<seq<int>>)
    ensures r.Ok? ==> StrictlyIncreasing(r.value)
    ensures r.Ok? ==> forall k :: 0 <= k < |r.value| ==> IsCodePoint(r.value[k])
  {
    var tried := TryRange(field);
    if tried == Err(ValueError) then DecodeScalar(field) else tried
  }

  /** What extract_emojis_from_line returns or raises for a line. */
  function CodePointsOfLine(line: string): Result<seq<int>> {
    DecodeField(RangeField(line))
  }

  lemma IntervalSnoc(lo: int, hi: int)
    requires lo <= hi + 1
    ensures Interval(lo, hi + 1) == Interval(lo, hi) + [hi + 1]
  {
    assert |Interval(lo, hi + 1)| == |Interval(lo, hi) + [hi + 1]|;
  }

  /** The loop of the try branch, proved to compute ChrAll. */
  method ChrRange(lo: int, hi: int) returns (r: Result<seq<int>>)
    ensures r == ChrAll(lo, hi)
  {
    var emojis: seq<int> := [];
    var c := lo;
    while c <= hi
      invariant lo <= c <= if lo <= hi then hi + 1 else lo
      invariant forall k :: lo <= k < c ==> IsCodePoint(k)
      invariant emojis == Interval(lo, c - 1)
    {
      var ch := Chr(c);
      if ch.Err? {
        assert c == FirstRefused(lo, hi) by {
          if IsCodePoint(lo) {
            assert IsCodePoint(c - 1);
          }
        }
        return Err(ch.error);
      }
      IntervalSnoc(lo, c - 1);
      emojis := emojis + [ch.value];
      c := c + 1;
    }
    if lo <= hi {
      assert c == hi + 1 && IsCodePoint(lo) && IsCodePoint(hi);
    } else {
      assert |emojis| == 0 && |Interval(lo, hi)| == 0;
    }
    r := Ok(emojis);
  }

  /** extract_emojis_from_line, proved to compute CodePointsOfLine. */
  method ExtractEmojisFromLine(line: string) returns (r: Result<seq<int>>)
    ensures r == CodePointsOfLine(line)
  {
    var emojiRange := Strip(Split(line, ";")[0]);
    assert emojiRange == RangeField(line);
    var bounds := Split(emojiRange, "..");
    if |bounds| == 2 {
      var start, end := ParseHex(bounds[0]), ParseHex(bounds[1]);
      if start.Some? && end.Some? {
        var emojis := ChrRange(start.value, end.value);
        if emojis != Err(ValueError) {
          return emojis;
        }
      }
    }
    var value := ParseHex(emojiRange);
    if value.None? {
      return Err(ValueError);
    }
    var ch := Chr(value.value);
    if ch.Err? {
      return Err(ch.error);
    }
    r := Ok([ch.value]);
  }

  /** A field containing `..` is never one numeral, so once the try branch
      fails the fallback raises. */
  lemma RangeFieldIsNoNumeral(field: string, i: int)
    requires 0 <= i < |field| && field[i] == '.'
    ensures ParseHex(field).None?
  {
    StrayCharacter(field, i);
  }

  lemma FieldOfLine(field: string, pad: string, rest: string)
    requires field != [] && !IsSpace(field[0]) && !IsSpace(field[|field| - 1]) && ';' !in field
    requires forall j :: 0 <= j < |pad| ==> IsSpace(pad[j])
    ensures RangeField(field + pad + ";" + rest) == field
  {
    assert ';' !in pad by {
      forall j | 0 <= j < |pad| ensures pad[j] != ';' { assert IsSpace(pad[j]); }
    }
    SplitAfterPiece(field + pad, ";", rest);
    assert field + pad + ";" + rest == (field + pad) + ";" + rest;
    StripTrailingSpace(field, pad);
  }

  lemma NumeralEnds(d: string)
    requires HexNumeral(d)
    ensures ';' !in d && '.' !in d
    ensures !IsSpace(d[0]) && !IsSpace(d[|d| - 1])
  {
    NumeralCharacters(d);
  }

  /** A line whose first column is one numeral, such as `231A..` written
      `231A` or `00A9`, decodes to that code point. */
  lemma DecodeSingle(digits: string, pad: string, rest: string)
    requires HexNumeral(digits) && IsCodePoint(HexValue(digits))
    requires forall j :: 0 <= j < |pad| ==> IsSpace(pad[j])
    ensures CodePointsOfLine(digits + pad + ";" + rest) == Ok([HexValue(digits)])
  {
    NumeralEnds(digits);
    FieldOfLine(digits, pad, rest);
    SplitWithoutSeparator(digits, "..");
    ParseHexNumeral(digits);
  }

  /** START..END as the Unicode data files write it. */
  function RangeNumerals(lo: string, hi: string): string {
    lo + ".." + hi
  }

  lemma RangeNumeralsShape(lo: string, hi: string)
    requires HexNumeral(lo) && HexNumeral(hi)
    ensures var field := RangeNumerals(lo, hi);
      ';' !in field && field != [] && !IsSpace(field[0]) && !IsSpace(field[|field| - 1])
  {
    var field := RangeNumerals(lo, hi);
    NumeralEnds(lo);
    NumeralEnds(hi);
    forall j | 0 <= j < |field| ensures field[j] != ';' {
      if j < |lo| {
        assert field[j] == lo[j];
      } else if j >= |lo| + 2 {
        assert field[j] == hi[j - |lo| - 2];
      }
    }
    assert field[0] == lo[0];
    assert field[|field| - 1] == hi[|hi| - 1];
  }

  lemma RangeNumeralsField(lo: string, hi: string, pad: string, rest: string)
    requires HexNumeral(lo) && HexNumeral(hi)
    requires forall j :: 0 <= j < |pad| ==> IsSpace(pad[j])
    ensures RangeField(RangeNumerals(lo, hi) + pad + ";" + rest) == RangeNumerals(lo, hi)
    ensures Split(RangeNumerals(lo, hi), "..") == [lo, hi]
  {
    var field := RangeNumerals(lo, hi);
    NumeralEnds(lo);
    NumeralEnds(hi);
    RangeNumeralsShape(lo, hi);
    FieldOfLine(field, pad, rest);
    SplitAfterPiece(lo, "..", hi);
    SplitWithoutSeparator(hi, "..");
  }

  /** A line whose first column is START..END decodes to the ascending
      inclusive range, empty when START > END. */
  lemma DecodeRange(lo: string, hi: string, pad: string, rest: string)
    requires HexNumeral(lo) && HexNumeral(hi)
    requires HexValue(lo) > HexValue(hi) || IsCodePoint(HexValue(hi))
    requires forall j :: 0 <= j < |pad| ==> IsSpace(pad[j])
    ensures CodePointsOfLine(RangeNumerals(lo, hi) + pad + ";" + rest) == Ok(Interval(HexValue(lo), HexValue(hi)))
  {
    RangeNumeralsField(lo, hi, pad, rest);
    TryRangeOfNumerals(lo, hi);
  }

  /** The try branch on START..END runs the chr() loop over their values. */
  lemma TryRangeOfNumerals(lo: string, hi: string)
    requires HexNumeral(lo) && HexNumeral(hi) && Split(RangeNumerals(lo, hi), "..") == [lo, hi]
    ensures TryRange(RangeNumerals(lo, hi)) == ChrAll(HexValue(lo), HexValue(hi))
  {
    ParseHexNumeral(lo);
    ParseHexNumeral(hi);
  }

  /** A range of non-negative values that reaches past U+10FFFF fails at
      U+110000, or at its start when that is past U+10FFFF already. */
  lemma ChrAllBeyondUnicode(lo: int, hi: int)
    requires 0 <= lo <= hi && hi > MaxCodePoint
    ensures ChrAll(lo, hi) == Err(if lo > CIntMax then OverflowError else ValueError)
  {
  }

  /** A range that reaches past U+10FFFF makes chr() raise in the try
      branch. A ValueError falls back to int() of the whole field, which
      cannot read `..` and raises ValueError too; the OverflowError of a
      start too wide for a C int escapes. */
  lemma DecodeRangeBeyondUnicode(lo: string, hi: string, pad: string, rest: string)
    requires HexNumeral(lo) && HexNumeral(hi)
    requires HexValue(lo) <= HexValue(hi) && HexValue(hi) > MaxCodePoint
    requires forall j :: 0 <= j < |pad| ==> IsSpace(pad[j])
    ensures CodePointsOfLine(RangeNumerals(lo, hi) + pad + ";" + rest)
      == Err(if HexValue(lo) > CIntMax then OverflowError else ValueError)
  {
    var field := RangeNumerals(lo, hi);
    RangeNumeralsField(lo, hi, pad, rest);
    TryRangeOfNumerals(lo, hi);
    ChrAllBeyondUnicode(HexValue(lo), HexValue(hi));
    assert field[|lo|] == '.';
    RangeFieldIsNoNumeral(field, |lo|);
    assert DecodeScalar(field) == Err(ValueError);
  }

  /** Range pieces are not stripped before int() reads them, and int() does
      not skip the information separators U+001C..U+001F that strip() would:
      such a character before the `..` makes the try branch fail, and the
      fallback cannot read `..`. */
  lemma SeparatorBeforeDots(lo: string, hi: string, rest: string)
    requires HexNumeral(lo) && HexNumeral(hi)
    ensures CodePointsOfLine(lo + "\U{1C}" + ".." + hi + ";" + rest) == Err(ValueError)
  {
    var piece := lo + "\U{1C}";
    var field := piece + ".." + hi;
    SeparatedField(lo, hi, rest);
    SeparatedPieces(lo, hi);
    StrayCharacter(piece, |lo|);
    assert TryRange(field) == Err(ValueError);
    assert field[|lo| + 1] == '.';
    RangeFieldIsNoNumeral(field, |lo| + 1);
  }

  lemma SeparatedField(lo: string, hi: string, rest: string)
    requires HexNumeral(lo) && HexNumeral(hi)
    ensures RangeField(lo + "\U{1C}" + ".." + hi + ";" + rest) == lo + "\U{1C}" + ".." + hi
  {
    var field := lo + "\U{1C}" + ".." + hi;
    NumeralEnds(lo);
    NumeralEnds(hi);
    assert ';' !in field by {
      forall j | 0 <= j < |field| ensures field[j] != ';' {
        if j < |lo| {
          assert field[j] == lo[j];
        } else if j >= |lo| + 3 {
          assert field[j] == hi[j - |lo| - 3];
        }
      }
    }
    assert field[0] == lo[0] && field[|field| - 1] == hi[|hi| - 1];
    FieldOfLine(field, "", rest);
    assert field + "" + ";" + rest == lo + "\U{1C}" + ".." + hi + ";" + rest;
  }

  lemma SeparatedPieces(lo: string, hi: string)
    requires HexNumeral(lo) && HexNumeral(hi)
    ensures Split(lo + "\U{1C}" + ".." + hi, "..") == [lo + "\U{1C}", hi]
  {
    var piece := lo + "\U{1C}";
    NumeralEnds(lo);
    NumeralEnds(hi);
    assert '.' !in piece by {
      forall j | 0 <= j < |piece| ensures piece[j] != '.' {
        if j < |lo| { assert piece[j] == lo[j]; }
      }
    }
    SplitAfterPiece(piece, "..", hi);
    SplitWithoutSeparator(hi, "..");
  }

  /** A field holding a character that is neither white space int() skips,
      a sign, an x, a dot nor a hexadecimal digit (such as "ZZZZ", or an
      information separator U+001C..U+001F anywhere) raises ValueError. */
  lemma MalformedFieldFails(line: string, i: int)
    requires 0 <= i < |RangeField(line)|
    requires var c := RangeField(line)[i]; !IsIntSpace(c) && !IsHexDigit(c) && c !in "+-xX."
    ensures CodePointsOfLine(line) == Err(ValueError)
  {
    var field := RangeField(line);
    StrayCharacter(field, i);
    MalformedFieldHasNoRange(field, i);
  }

  /** Such a character also keeps the field from splitting into two
      numerals at `..`. */
  lemma MalformedFieldHasNoRange(field: string, i: int)
    requires 0 <= i < |field|
    requires var c := field[i]; !IsIntSpace(c) && !IsHexDigit(c) && c !in "+-xX."
    ensures var bounds := Split(field, "..");
      |bounds| != 2 || ParseHex(bounds[0]).None? || ParseHex(bounds[1]).None?
  {
    var bounds := Split(field, "..");
    if |bounds| == 2 {
      JoinSplit(field, "..");
      var a, b := bounds[0], bounds[1];
      assert field == a + ".." + b;
      if i < |a| {
        assert field[i] == a[i];
        StrayCharacter(a, i);
      } else if i >= |a| + 2 {
        assert field[i] == b[i - |a| - 2];
        StrayCharacter(b, i - |a| - 2);
      }
    }
  }
}
