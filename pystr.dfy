/** The Python built-ins on str and int that the pipeline relies on:
    str.strip, str.split, str.join, str.startswith, str.lower, str.title,
    int(s, 16) and chr. */
module PyStr {
  import opened Results

  /** A Python str as a sequence of code points. Dafny's char cannot hold a
      lone surrogate, which chr() produces for U+D800..U+DFFF, so text that is
      assembled from code points is a seq<int>. */
  type Text = seq<int>

  function TextOf(s: string): Text {
    seq(|s|, i requires 0 <= i < |s| => s[i] as int)
  }

  const MaxCodePoint := 0x10FFFF

  /** The values chr() accepts. */
  predicate IsCodePoint(v: int) {
    0 <= v <= MaxCodePoint
  }

  /** chr() takes its argument as a C int. */
  const CIntMin := -0x8000_0000
  const CIntMax := 0x7FFF_FFFF

  /** The exception chr() raises for a value that is no code point:
      OverflowError when the value does not fit a C int, ValueError otherwise. */
  function ChrError(v: int): (e: Error)
    requires !IsCodePoint(v)
    ensures e == OverflowError <==> v < CIntMin || v > CIntMax
    ensures e == ValueError || e == OverflowError
  {
    if CIntMin <= v <= CIntMax then ValueError else OverflowError
  }

  /** chr(v), as the code point it stands for, or the exception it raises. */
  function Chr(v: int): (r: Result<int>)
    ensures r.Ok? <==> IsCodePoint(v)
    ensures r.Ok? ==> r.value == v
    ensures r.Err? ==> r.error == ChrError(v) && r.error != IndexError
  {
    if IsCodePoint(v) then Ok(v) else Err(ChrError(v))
  }

  // ---------------------------------------------------------------- strip

  /** str.isspace() of one character: the Unicode white-space characters. */
  predicate IsSpace(c: char) {
    ('\t' <= c <= '\r') || ('\U{1C}' <= c <= '\U{1F}') || c == ' '
    || c == '\U{85}' || c == '\U{A0}' || c == '\U{1680}'
    || ('\U{2000}' <= c <= '\U{200A}') || c == '\U{2028}' || c == '\U{2029}'
    || c == '\U{202F}' || c == '\U{205F}' || c == '\U{3000}'
  }

  /** str.lstrip(): the longest suffix that does not start with white space. */
  function StripLeft(s: string): (r: string)
    ensures |r| <= |s| && r == s[|s| - |r|..]
    ensures r == [] || !IsSpace(r[0])
    ensures forall i :: 0 <= i < |s| - |r| ==> IsSpace(s[i])
  {
    if |s| > 0 && IsSpace(s[0]) then StripLeft(s[1..]) else s
  }

  /** str.rstrip(): the longest prefix that does not end with white space. */
  function StripRight(s: string): (r: string)
    ensures |r| <= |s| && r == s[..|r|]
    ensures r == [] || !IsSpace(r[|r| - 1])
    ensures forall i :: |r| <= i < |s| ==> IsSpace(s[i])
  {
    if |s| > 0 && IsSpace(s[|s| - 1]) then StripRight(s[..|s| - 1]) else s
  }

  /** str.strip() with no argument. */
  function Strip(s: string): (r: string)
    ensures r == [] || (!IsSpace(r[0]) && !IsSpace(r[|r| - 1]))
  {
    StripRight(StripLeft(s))
  }

  /** A string that neither starts nor ends with white space is its own
      strip(). */
  lemma StripUnpadded(s: string)
    requires s == [] || (!IsSpace(s[0]) && !IsSpace(s[|s| - 1]))
    ensures Strip(s) == s
  {
    assert StripLeft(s) == s;
  }

  lemma StripWithoutSpace(s: string)
    requires forall i :: 0 <= i < |s| ==> !IsSpace(s[i])
    ensures Strip(s) == s
  {
  }

  /** Trailing white space after a word that neither starts nor ends with
      white space is all that strip() removes. */
  lemma {:induction false} StripTrailingSpace(s: string, pad: string)
    requires s != [] && !IsSpace(s[0]) && !IsSpace(s[|s| - 1])
    requires forall i :: 0 <= i < |pad| ==> IsSpace(pad[i])
    ensures Strip(s + pad) == s
  {
    assert StripLeft(s + pad) == s + pad;
    if pad == [] {
      assert s + pad == s;
    } else {
      assert (s + pad)[..|s + pad| - 1] == s + pad[..|pad| - 1];
      StripTrailingSpace(s, pad[..|pad| - 1]);
    }
  }

  // ---------------------------------------------------------------- split and join

  /** str.split(sep) for a non-empty separator (an empty one raises): the
      pieces between the occurrences of sep found left to right without
      overlap. There is always at least one piece. */
  function Split(s: string, sep: string): (r: seq<string>)
    requires |sep| > 0
    ensures |r| >= 1
    decreases |s|
  {
    if |s| < |sep| then [s]
    else if s[..|sep|] == sep then [""] + Split(s[|sep|..], sep)
    else
      var rest := Split(s[1..], sep);
      [[s[0]] + rest[0]] + rest[1..]
  }

  /** sep.join(parts). */
  function Join(parts: seq<string>, sep: string): string
  {
    if |parts| == 0 then ""
    else if |parts| == 1 then parts[0]
    else parts[0] + sep + Join(parts[1..], sep)
  }

  lemma JoinConsHead(c: char, rest: seq<string>, sep: string)
    requires |rest| >= 1
    ensures Join([[c] + rest[0]] + rest[1..], sep) == [c] + Join(rest, sep)
  {
    var parts := [[c] + rest[0]] + rest[1..];
    assert parts[1..] == rest[1..];
  }

  lemma JoinConsEmpty(rest: seq<string>, sep: string)
    requires |rest| >= 1
    ensures Join([""] + rest, sep) == sep + Join(rest, sep)
  {
    assert ([""] + rest)[1..] == rest;
    assert "" + sep == sep;
  }

  /** Joining the pieces with the separator gives back the split string. */
  lemma {:induction false} JoinSplit(s: string, sep: string)
    requires |sep| > 0
    ensures Join(Split(s, sep), sep) == s
    decreases |s|
  {
    if |s| < |sep| {
    } else if s[..|sep|] == sep {
      JoinSplit(s[|sep|..], sep);
      JoinConsEmpty(Split(s[|sep|..], sep), sep);
      assert s == sep + s[|sep|..];
    } else {
      JoinSplit(s[1..], sep);
      JoinConsHead(s[0], Split(s[1..], sep), sep);
      assert s == [s[0]] + s[1..];
    }
  }

  /** A string in which the separator's first character does not occur is
      one piece. */
  lemma {:induction false} SplitWithoutSeparator(a: string, sep: string)
    requires |sep| > 0 && sep[0] !in a
    ensures Split(a, sep) == [a]
    decreases |a|
  {
    if |a| >= |sep| {
      assert a[..|sep|][0] == a[0];
      SplitWithoutSeparator(a[1..], sep);
      assert [a[0]] + a[1..] == a;
    }
  }

  /** A piece free of the separator's first character, followed by the
      separator, splits off as the first piece. */
  lemma {:induction false} SplitAfterPiece(a: string, sep: string, b: string)
    requires |sep| > 0 && sep[0] !in a
    ensures Split(a + sep + b, sep) == [a] + Split(b, sep)
    decreases |a|
  {
    var s := a + sep + b;
    if a == [] {
      assert s == sep + b;
      assert s[..|sep|] == sep && s[|sep|..] == b;
    } else {
      assert s[..|sep|][0] == a[0];
      assert s[1..] == a[1..] + sep + b;
      SplitAfterPiece(a[1..], sep, b);
      assert [a[0]] + a[1..] == a;
    }
  }

  /** Splitting joined pieces gives them back, provided no piece contains
      the separator's first character. */
  lemma {:induction false} SplitJoin(parts: seq<string>, sep: string)
    requires |sep| > 0 && |parts| >= 1
    requires forall k :: 0 <= k < |parts| ==> sep[0] !in parts[k]
    ensures Split(Join(parts, sep), sep) == parts
  {
    if |parts| == 1 {
      SplitWithoutSeparator(parts[0], sep);
    } else {
      SplitJoin(parts[1..], sep);
      SplitAfterPiece(parts[0], sep, Join(parts[1..], sep));
      assert [parts[0]] + parts[1..] == parts;
    }
  }

  /** str.startswith(prefix). */
  predicate StartsWith(s: string, prefix: string) {
    |prefix| <= |s| && s[..|prefix|] == prefix
  }

  // ---------------------------------------------------------------- case mapping (ASCII)

  predicate IsUpper(c: char) { 'A' <= c <= 'Z' }
  predicate IsLower(c: char) { 'a' <= c <= 'z' }
  predicate IsCased(c: char) { IsUpper(c) || IsLower(c) }

  function LowerChar(c: char): char {
    if IsUpper(c) then (c as int + 32) as char else c
  }

  function UpperChar(c: char): char {
    if IsLower(c) then (c as int - 32) as char else c
  }

  /** str.lower(): no upper-case letter remains. */
  function Lower(s: string): (r: string)
    ensures |r| == |s|
    ensures forall i :: 0 <= i < |r| ==> !IsUpper(r[i])
  {
    seq(|s|, i requires 0 <= i < |s| => LowerChar(s[i]))
  }

  /** str.title() scanning s, where afterCased says whether the character
      before s was a cased letter. */
  function TitleFrom(s: string, afterCased: bool): (r: string)
    ensures |r| == |s|
    decreases |s|
  {
    if s == [] then []
    else [if afterCased then LowerChar(s[0]) else UpperChar(s[0])] + TitleFrom(s[1..], IsCased(s[0]))
  }

  /** str.title(): a cased letter that follows a cased letter becomes lower
      case, every other cased letter upper case. */
  function Title(s: string): string {
    TitleFrom(s, false)
  }

  lemma {:induction false} TitleFromAt(s: string, afterCased: bool, i: int)
    requires 0 <= i < |s|
    ensures TitleFrom(s, afterCased)[i]
      == if (if i == 0 then afterCased else IsCased(s[i - 1])) then LowerChar(s[i]) else UpperChar(s[i])
    decreases |s|
  {
    if i > 0 {
      TitleFromAt(s[1..], IsCased(s[0]), i - 1);
    }
  }

  /** Each character of the title-cased string, stated without the scan. */
  lemma TitleAt(s: string, i: int)
    requires 0 <= i < |s|
    ensures |Title(s)| == |s|
    ensures Title(s)[i] == if i > 0 && IsCased(s[i - 1]) then LowerChar(s[i]) else UpperChar(s[i])
  {
    TitleFromAt(s, false, i);
  }

  /** Title-casing a title-cased string changes nothing. */
  lemma TitleIdempotent(s: string)
    ensures Title(Title(s)) == Title(s)
  {
    var t := Title(s);
    forall i | 0 <= i < |s|
      ensures Title(t)[i] == t[i]
    {
      TitleAt(s, i);
      TitleAt(t, i);
      if i > 0 { TitleAt(s, i - 1); }
    }
  }

  /** Title-casing changes only the case of letters. */
  lemma LowerTitle(s: string)
    ensures Lower(Title(s)) == Lower(s)
  {
    forall i | 0 <= i < |s|
      ensures Lower(Title(s))[i] == Lower(s)[i]
    {
      TitleAt(s, i);
    }
  }

  // ---------------------------------------------------------------- hexadecimal numbers

  predicate IsHexDigit(c: char) {
    '0' <= c <= '9' || 'a' <= c <= 'f' || 'A' <= c <= 'F'
  }

  predicate AllHexDigits(d: string) {
    forall i :: 0 <= i < |d| ==> IsHexDigit(d[i])
  }

  function DigitValue(c: char): (v: nat)
    requires IsHexDigit(c)
    ensures v < 16
  {
    if '0' <= c <= '9' then c as int - '0' as int
    else if 'a' <= c <= 'f' then c as int - 'a' as int + 10
    else c as int - 'A' as int + 10
  }

  /** The value of a string of hexadecimal digits, most significant first. */
  function HexValue(d: string): nat
    requires AllHexDigits(d)
  {
    if d == [] then 0 else 16 * HexValue(d[..|d| - 1]) + DigitValue(d[|d| - 1])
  }

  /** The digits int(s, 16) reads once white space and the optional sign
      have been removed: an optional 0x or 0X prefix is skipped. */
  function HexBody(unsigned: string): string {
    if |unsigned| >= 2 && unsigned[0] == '0' && (unsigned[1] == 'x' || unsigned[1] == 'X')
    then unsigned[2..] else unsigned
  }

  /** A numeral without its sign. */
  function Unsigned(t: string): string {
    if |t| > 0 && (t[0] == '-' || t[0] == '+') then t[1..] else t
  }

  predicate Negative(t: string) {
    |t| > 0 && t[0] == '-'
  }

  /** The white space int() skips around a numeral: str.isspace() except
      the information separators U+001C..U+001F. CPython maps non-ASCII
      white space to a space and then skips only the C white space (tab,
      line feed, vertical tab, form feed, carriage return and space). */
  predicate IsIntSpace(c: char) {
    IsSpace(c) && !('\U{1C}' <= c <= '\U{1F}')
  }

  function IntStripLeft(s: string): (r: string)
    ensures |r| <= |s| && r == s[|s| - |r|..]
    ensures r == [] || !IsIntSpace(r[0])
    ensures forall i :: 0 <= i < |s| - |r| ==> IsIntSpace(s[i])
  {
    if |s| > 0 && IsIntSpace(s[0]) then IntStripLeft(s[1..]) else s
  }

  function IntStripRight(s: string): (r: string)
    ensures |r| <= |s| && r == s[..|r|]
    ensures r == [] || !IsIntSpace(r[|r| - 1])
    ensures forall i :: |r| <= i < |s| ==> IsIntSpace(s[i])
  {
    if |s| > 0 && IsIntSpace(s[|s| - 1]) then IntStripRight(s[..|s| - 1]) else s
  }

  /** The text int() reads once the surrounding white space is skipped. */
  function IntStrip(s: string): (r: string)
    ensures r == [] || (!IsIntSpace(r[0]) && !IsIntSpace(r[|r| - 1]))
  {
    IntStripRight(IntStripLeft(s))
  }

  /** int(s, 16): surrounding white space, then an optional sign, an optional
      0x prefix and at least one hexadecimal digit; None where Python raises
      ValueError. */
  function ParseHex(s: string): (r: Option<int>)
  {
    var t := IntStrip(s);
    var digits := HexBody(Unsigned(t));
    if |digits| > 0 && AllHexDigits(digits) then
      Some(if Negative(t) then -(HexValue(digits) as int) else HexValue(digits))
    else None
  }

  /** Every character of a string int(s, 16) accepts is white space, a sign,
      an x of the prefix or a hexadecimal digit. */
  lemma ParsedCharacters(s: string, i: int)
    requires 0 <= i < |s| && ParseHex(s).Some?
    ensures IsIntSpace(s[i]) || IsHexDigit(s[i]) || s[i] in "+-xX"
  {
    var l := IntStripLeft(s);
    var t := IntStripRight(l);
    var off := |s| - |l|;
    if off <= i < off + |t| {
      var j := i - off;
      assert t[j] == s[i];
      ParsedNumeral(t, j);
    }
  }

  /** A character int(s, 16) never accepts makes it raise. */
  lemma StrayCharacter(s: string, i: int)
    requires 0 <= i < |s|
    requires !(IsIntSpace(s[i]) || IsHexDigit(s[i]) || s[i] in "+-xX")
    ensures ParseHex(s) == None
  {
    if ParseHex(s).Some? {
      ParsedCharacters(s, i);
    }
  }

  lemma ParsedNumeral(t: string, j: int)
    requires 0 <= j < |t|
    requires |HexBody(Unsigned(t))| > 0 && AllHexDigits(HexBody(Unsigned(t)))
    ensures IsHexDigit(t[j]) || t[j] in "+-xX"
  {
    var unsigned := Unsigned(t);
    var digits := HexBody(unsigned);
    var u := |t| - |unsigned|;
    var p := |unsigned| - |digits|;
    assert unsigned == t[u..];
    assert digits == unsigned[p..];
    if j >= u + p {
      assert t[j] == digits[j - u - p];
    } else if j >= u {
      assert t[j] == unsigned[j - u];
    }
  }

  /** The uppercase hexadecimal numeral of n, as the Unicode data files write
      code points (without their zero padding). */
  function HexDigitChar(v: nat): (c: char)
    requires v < 16
    ensures IsHexDigit(c) && DigitValue(c) == v
  {
    if v < 10 then ('0' as int + v) as char else ('A' as int + v - 10) as char
  }

  function ToHex(n: nat): (d: string)
    ensures |d| > 0 && AllHexDigits(d)
    decreases n
  {
    if n < 16 then [HexDigitChar(n)] else ToHex(n / 16) + [HexDigitChar(n % 16)]
  }

  lemma {:induction false} HexValueToHex(n: nat)
    ensures HexValue(ToHex(n)) == n
    decreases n
  {
    if n >= 16 {
      HexValueToHex(n / 16);
      var d := ToHex(n);
      assert d[..|d| - 1] == ToHex(n / 16);
    }
  }

  /** A plain hexadecimal numeral: one or more digits, nothing else, as the
      Unicode data files write code points (zero-padded or not). */
  predicate HexNumeral(d: string) {
    |d| > 0 && AllHexDigits(d)
  }

  /** int(s, 16) reads a plain numeral as its digits' value. */
  lemma ParseHexNumeral(d: string)
    requires HexNumeral(d)
    ensures ParseHex(d) == Some(HexValue(d))
  {
    HexDigitIsPlain(d[0]);
    HexDigitIsPlain(d[|d| - 1]);
    assert IntStrip(d) == d;
    if |d| >= 2 {
      HexDigitIsPlain(d[1]);
    }
    assert HexBody(Unsigned(d)) == d;
  }

  lemma HexDigitIsPlain(c: char)
    requires IsHexDigit(c)
    ensures !IsIntSpace(c) && c != '-' && c != '+' && c != 'x' && c != 'X'
  {
  }

  /** A plain numeral holds no white space, no `;` and no `.`. */
  lemma NumeralCharacters(d: string)
    requires HexNumeral(d)
    ensures ';' !in d && '.' !in d
    ensures forall j :: 0 <= j < |d| ==> !IsSpace(d[j])
  {
    forall j | 0 <= j < |d| ensures d[j] != ';' && d[j] != '.' && !IsSpace(d[j]) {
      assert IsHexDigit(d[j]);
    }
  }

  /** int(s, 16) reads back the numeral ToHex writes. */
  lemma ParseHexToHex(n: nat)
    ensures ParseHex(ToHex(n)) == Some(n)
  {
    ParseHexNumeral(ToHex(n));
    HexValueToHex(n);
  }
}
