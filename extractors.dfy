/** fetch_emojis, fetch_math_symbols and fetch_human_emojis: the code points
    listed by a Unicode data file, given as its lines. */
module Extractors {
  import opened Results
  import opened PyStr
  import opened RangeDecoder

  /** A comment or a blank line, which the extractors pass over. */
  predicate IsSkipped(line: string) {
    StartsWith(line, "#") || |line| == 0
  }

  /** The code points of the lines in order, each line that is not a comment
      and not blank read by decode; the first line that fails to decode ends
      the extraction with its error. */
  function ExtractAll(lines: seq<string>, decode: string -> Result<seq<int>>): Result<seq<int>>
    decreases |lines|
  {
    if lines == [] then Ok([])
    else
      var last := lines[|lines| - 1];
      match ExtractAll(lines[..|lines| - 1], decode)
      case Err(e) => Err(e)
      case Ok(prefix) =>
        if IsSkipped(last) then Ok(prefix)
        else match decode(last)
          case Err(e) => Err(e)
          case Ok(points) => Ok(prefix + points)
  }

  /** What fetch_emojis and fetch_math_symbols return or raise. */
  function CodePointsOfLines(lines: seq<string>): Result<seq<int>> {
    ExtractAll(lines, CodePointsOfLine)
  }

  /** Extracting from two pieces of a file one after the other is extracting
      from the whole file. */
  lemma {:induction false} ExtractAllAppend(a: seq<string>, b: seq<string>, decode: string -> Result<seq<int>>)
    ensures ExtractAll(a + b, decode)
      == match ExtractAll(a, decode)
         case Err(e) => Err(e)
         case Ok(x) =>
           match ExtractAll(b, decode)
           case Err(e) => Err(e)
           case Ok(y) => Ok(x + y)
    decreases |b|
  {
    if b == [] {
      assert a + b == a;
      if ExtractAll(a, decode).Ok? {
        assert ExtractAll(a, decode).value + [] == ExtractAll(a, decode).value;
      }
    } else {
      var b' := b[..|b| - 1];
      var line := b[|b| - 1];
      assert (a + b)[..|a + b| - 1] == a + b';
      assert (a + b)[|a + b| - 1] == line;
      ExtractAllAppend(a, b', decode);
      if ExtractAll(a, decode).Ok? && ExtractAll(b', decode).Ok? && !IsSkipped(line) && decode(line).Ok? {
        var x, y := ExtractAll(a, decode).value, ExtractAll(b', decode).value;
        assert x + y + decode(line).value == x + (y + decode(line).value);
      }
    }
  }

  /** An extraction that failed on a prefix of the file fails with the same
      error on the whole file. */
  lemma ErrorPersists(lines: seq<string>, i: int, decode: string -> Result<seq<int>>)
    requires 0 <= i <= |lines| && ExtractAll(lines[..i], decode).Err?
    ensures ExtractAll(lines, decode) == ExtractAll(lines[..i], decode)
  {
    ExtractAllAppend(lines[..i], lines[i..], decode);
    assert lines[..i] + lines[i..] == lines;
  }

  /** The extraction succeeds exactly when every line that is not a comment
      and not blank decodes. */
  lemma {:induction false} ExtractAllSucceeds(lines: seq<string>, decode: string -> Result<seq<int>>)
    ensures ExtractAll(lines, decode).Ok?
      <==> forall i :: 0 <= i < |lines| && !IsSkipped(lines[i]) ==> decode(lines[i]).Ok?
    decreases |lines|
  {
    if lines != [] {
      var prefix := lines[..|lines| - 1];
      ExtractAllSucceeds(prefix, decode);
      assert forall i :: 0 <= i < |prefix| ==> prefix[i] == lines[i];
    }
  }

  /** A successful extraction holds exactly the code points of the lines that
      are not comments and not blank. */
  lemma {:induction false} ExtractAllMembers(lines: seq<string>, decode: string -> Result<seq<int>>, x: int)
    requires ExtractAll(lines, decode).Ok?
    ensures x in ExtractAll(lines, decode).value
      <==> exists i :: 0 <= i < |lines| && !IsSkipped(lines[i])
             && decode(lines[i]).Ok? && x in decode(lines[i]).value
    decreases |lines|
  {
    if lines != [] {
      var prefix := lines[..|lines| - 1];
      ExtractAllMembers(prefix, decode, x);
      assert forall i :: 0 <= i < |prefix| ==> prefix[i] == lines[i];
      if x in ExtractAll(lines, decode).value && x !in ExtractAll(prefix, decode).value {
        assert !IsSkipped(lines[|lines| - 1]);
      }
    }
  }

  /** A comment or blank line can be removed from the file without changing
      what is extracted. */
  lemma SkippedLineIgnored(a: seq<string>, line: string, b: seq<string>, decode: string -> Result<seq<int>>)
    requires IsSkipped(line)
    ensures ExtractAll(a + [line] + b, decode) == ExtractAll(a + b, decode)
  {
    ExtractAllAppend(a + [line], b, decode);
    ExtractAllAppend(a, b, decode);
    assert (a + [line])[..|a|] == a;
  }

  /** fetch_emojis and fetch_math_symbols (the same loop over two files),
      proved to compute CodePointsOfLines. */
  method FetchCodePoints(lines: seq<string>) returns (r: Result<seq<int>>)
    ensures r == CodePointsOfLines(lines)
  {
    var chars: seq<int> := [];
    for i := 0 to |lines|
      invariant CodePointsOfLines(lines[..i]) == Ok(chars)
    {
      assert lines[..i + 1][..i] == lines[..i];
      var line := lines[i];
      if IsSkipped(line) {
        continue;
      }
      var points := ExtractEmojisFromLine(line);
      if points.Err? {
        ErrorPersists(lines, i + 1, CodePointsOfLine);
        return Err(points.error);
      }
      chars := chars + points.value;
    }
    assert lines[..|lines|] == lines;
    r := Ok(chars);
  }

  // ---------------------------------------------------------------- the human-emoji window

  /** The comment line after which emoji-data.txt lists the Emoji_Modifier_Base
      code points (its trailing space included). */
  const StartMarker := "# All omitted code points " + "have Emoji_Modifier_Base=No "

  /** The comment line that closes that list. */
  const EndMarker := "# Total elements: 120"

  function FirstIndexOf(lines: seq<string>, marker: string): (r: Option<nat>)
    ensures r.None? <==> marker !in lines
    ensures r.Some? ==> r.value < |lines| && lines[r.value] == marker && marker !in lines[..r.value]
  {
    if lines == [] then None
    else if lines[0] == marker then Some(0)
    else match FirstIndexOf(lines[1..], marker)
      case None => None
      case Some(k) =>
        assert lines[..k + 1] == [lines[0]] + lines[1..][..k];
        Some(k + 1)
  }

  /** The lines before the first occurrence of marker. */
  function UpTo(lines: seq<string>, marker: string): (r: seq<string>)
    ensures |r| <= |lines| && r == lines[..|r|] && marker !in r
    ensures |r| < |lines| ==> lines[|r|] == marker
  {
    if lines == [] || lines[0] == marker then []
    else [lines[0]] + UpTo(lines[1..], marker)
  }

  /** The lines strictly between the first start line and the next end line
      (or the end of the file); none when the start line is missing. */
  function WindowLines(lines: seq<string>, start: string, end: string): (window: seq<string>)
    ensures start !in lines ==> window == []
  {
    match FirstIndexOf(lines, start)
    case None => []
    case Some(k) => UpTo(lines[k + 1..], end)
  }

  /** What fetch_human_emojis returns or raises. Without the start line it
      returns nothing, and raises nothing. */
  function HumanCodePoints(lines: seq<string>): (r: Result<seq<int>>)
    ensures StartMarker !in lines ==> r == Ok([])
  {
    CodePointsOfLines(WindowLines(lines, StartMarker, EndMarker))
  }

  lemma FirstIndexOfIs(lines: seq<string>, marker: string, k: nat)
    requires k < |lines| && lines[k] == marker && marker !in lines[..k]
    ensures FirstIndexOf(lines, marker) == Some(k)
    decreases k
  {
    if k > 0 {
      assert lines[..k][0] == lines[0];
      assert lines[1..][..k - 1] == lines[..k][1..];
      FirstIndexOfIs(lines[1..], marker, k - 1);
    }
  }

  lemma UpToIs(lines: seq<string>, marker: string, j: nat)
    requires j <= |lines| && marker !in lines[..j] && (j < |lines| ==> lines[j] == marker)
    ensures UpTo(lines, marker) == lines[..j]
    decreases j
  {
    UpToPrefix(lines, marker, j);
  }

  /** One more line: a comment or blank line adds nothing, any other line
      adds what decode reads from it. */
  lemma ExtractAllSnoc(lines: seq<string>, line: string, decode: string -> Result<seq<int>>)
    ensures ExtractAll(lines + [line], decode)
      == match ExtractAll(lines, decode)
         case Err(e) => Err(e)
         case Ok(prefix) =>
           if IsSkipped(line) then Ok(prefix)
           else match decode(line)
             case Err(e) => Err(e)
             case Ok(points) => Ok(prefix + points)
  {
    assert (lines + [line])[..|lines|] == lines;
  }

  /** The window grows by the line under the scan. */
  lemma WindowGrows(lines: seq<string>, end: string, k: nat, i: nat, window: seq<string>)
    requires k < i < |lines| && window == lines[k + 1..i] && end !in window && lines[i] != end
    ensures window + [lines[i]] == lines[k + 1..i + 1] && end !in window + [lines[i]]
  {
  }

  /** The first window line that fails to decode decides the outcome. */
  lemma WindowErrorPersists(lines: seq<string>, start: string, end: string, k: nat, i: nat, window: seq<string>, decode: string -> Result<seq<int>>)
    requires k < i <= |lines| && FirstIndexOf(lines, start) == Some(k)
    requires window == lines[k + 1..i] && end !in window
    requires ExtractAll(window, decode).Err?
    ensures ExtractAll(WindowLines(lines, start, end), decode) == ExtractAll(window, decode)
  {
    var all := UpTo(lines[k + 1..], end);
    assert lines[k + 1..][..|window|] == window;
    UpToPrefix(lines[k + 1..], end, |window|);
    ErrorPersists(all, |window|, decode);
  }

  /** The window ends at the end line or at the end of the file. */
  lemma WindowDone(lines: seq<string>, start: string, end: string, k: nat, i: nat, window: seq<string>)
    requires k < i <= |lines| && FirstIndexOf(lines, start) == Some(k)
    requires window == lines[k + 1..i] && end !in window
    requires i < |lines| ==> lines[i] == end
    ensures WindowLines(lines, start, end) == window
  {
    var rest := lines[k + 1..];
    assert |window| == i - (k + 1);
    assert forall j :: 0 <= j < |window| ==> rest[j] == window[j];
    assert rest[..|window|] == window;
    UpToIs(rest, end, |window|);
  }

  /** The loop of fetch_human_emojis, with its started flag and its early
      exit, for a start line that is a comment and an end line that differs
      from it. Each line of the window that is not a comment and not blank
      is read by decode, which stands for extract_emojis_from_line. */
  method ExtractWindow(lines: seq<string>, start: string, end: string, decode: string -> Result<seq<int>>)
    returns (r: Result<seq<int>>)
    requires IsSkipped(start) && start != end
    ensures r == ExtractAll(WindowLines(lines, start, end), decode)
  {
    var started := false;
    var emojis: seq<int> := [];
    ghost var k: nat := 0;
    ghost var window: seq<string> := [];
    var i := 0;
    while i < |lines|
      invariant 0 <= i <= |lines|
      invariant !started ==> start !in lines[..i] && emojis == [] && window == []
      invariant started ==> k < i && FirstIndexOf(lines, start) == Some(k)
      invariant started ==> window == lines[k + 1..i] && end !in window
      invariant started ==> ExtractAll(window, decode) == Ok(emojis)
    {
      var line := lines[i];
      if !started && line != start {
        assert lines[..i + 1] == lines[..i] + [line];
        i := i + 1;
        continue;
      }
      if !started {
        FirstIndexOfIs(lines, start, i);
        assert lines[i + 1..i + 1] == [];
        k := i;
        started := true;
        i := i + 1;
        continue;
      }
      if line == end {
        break;
      }
      if IsSkipped(line) {
        ExtractAllSnoc(window, line, decode);
        WindowGrows(lines, end, k, i, window);
        window := window + [line];
        i := i + 1;
        continue;
      }
      var points := decode(line);
      ExtractAllSnoc(window, line, decode);
      WindowGrows(lines, end, k, i, window);
      window := window + [line];
      if points.Err? {
        WindowErrorPersists(lines, start, end, k, i + 1, window, decode);
        return Err(points.error);
      }
      emojis := emojis + points.value;
      i := i + 1;
    }
    if started {
      WindowDone(lines, start, end, k, i, window);
    }
    r := Ok(emojis);
  }

  /** fetch_human_emojis, proved to compute HumanCodePoints. */
  method FetchHumanEmojis(lines: seq<string>) returns (r: Result<seq<int>>)
    ensures r == HumanCodePoints(lines)
  {
    assert |StartMarker| != |EndMarker|;
    r := ExtractWindow(lines, StartMarker, EndMarker, CodePointsOfLine);
  }

  /** Lines free of the marker at the head of the file stay in UpTo. */
  lemma UpToPrefix(lines: seq<string>, marker: string, j: nat)
    requires j <= |lines| && marker !in lines[..j]
    ensures |UpTo(lines, marker)| >= j && UpTo(lines, marker)[..j] == lines[..j]
    decreases j
  {
    if j > 0 {
      assert lines[..j][0] == lines[0];
      assert lines[1..][..j - 1] == lines[..j][1..];
      UpToPrefix(lines[1..], marker, j - 1);
    }
  }

  /** Lines before the start line are ignored, even valid records and end
      lines; the end line stops the scan without contributing. */
  lemma WindowBetweenMarkers(before: seq<string>, window: seq<string>, after: seq<string>, start: string, end: string)
    requires start !in before && end !in window
    ensures WindowLines(before + [start] + window + [end] + after, start, end) == window
  {
    var lines := before + [start] + window + [end] + after;
    assert lines[..|before|] == before;
    FirstIndexOfIs(lines, start, |before|);
    var tail := lines[|before| + 1..];
    assert tail == window + [end] + after;
    assert tail[..|window|] == window;
    UpToIs(tail, end, |window|);
  }

  /** Lines before the start line shift its first index and nothing else. */
  lemma FirstIndexAfter(before: seq<string>, lines: seq<string>, start: string, k: nat)
    requires start !in before && FirstIndexOf(lines, start) == Some(k)
    ensures FirstIndexOf(before + lines, start) == Some(|before| + k)
  {
    var all := before + lines;
    var n := |before| + k;
    assert all[..n] == before + lines[..k];
    FirstIndexOfIs(all, start, n);
  }

  /** Lines before the start line never matter, whatever follows. */
  lemma WindowIgnoresPrefix(before: seq<string>, lines: seq<string>, start: string, end: string)
    requires start !in before
    ensures WindowLines(before + lines, start, end) == WindowLines(lines, start, end)
  {
    if start in lines {
      WindowAfterPrefix(before, lines, start, end, FirstIndexOf(lines, start).value);
    } else {
      assert start !in before + lines;
    }
  }

  lemma WindowAfterPrefix(before: seq<string>, lines: seq<string>, start: string, end: string, k: nat)
    requires start !in before && FirstIndexOf(lines, start) == Some(k)
    ensures WindowLines(before + lines, start, end) == WindowLines(lines, start, end)
  {
    FirstIndexAfter(before, lines, start, k);
    DropAfterPrefix(before, lines, k + 1);
  }

  lemma DropAfterPrefix(before: seq<string>, lines: seq<string>, m: nat)
    requires m <= |lines|
    ensures (before + lines)[|before| + m..] == lines[m..]
  {
    var tail := (before + lines)[|before| + m..];
    forall j | 0 <= j < |tail|
      ensures tail[j] == lines[m..][j]
    {
      assert tail[j] == (before + lines)[|before| + m + j];
    }
  }
}
