/** fetch_emoji_list: the code points of the emoji and maths files,
    deduplicated through a set, sorted, and named from the description table
    with the names in lower case; code points without a description dropped. */
module Collation {
  import opened Results
  import opened PyStr
  import opened Extractors
  import opened RangeDecoder

  /** The Emoji named tuple: a character, as its code point, and its name. */
  datatype Emoji = Emoji(codePoint: int, name: string)

  predicate Distinct(s: seq<int>) {
    forall i, j :: 0 <= i < j < |s| ==> s[i] != s[j]
  }

  predicate Ascending(s: seq<int>) {
    forall i, j :: 0 <= i < j < |s| ==> s[i] <= s[j]
  }

  // ---------------------------------------------------------------- list(set(chars))

  /** list(set(chars)): every code point once. A set has no order of its own;
      the first occurrences in input order stand for it, and
      CollateDependsOnlyOnSet shows that the order never reaches the result. */
  function Dedup(s: seq<int>): (r: seq<int>)
    ensures Distinct(r)
    ensures forall x :: x in r <==> x in s
    decreases |s|
  {
    if s == [] then []
    else
      var prefix := Dedup(s[..|s| - 1]);
      var last := s[|s| - 1];
      if last in prefix then prefix
      else
        assert forall x :: x in s <==> x in s[..|s| - 1] || x == last by {
          assert s == s[..|s| - 1] + [last];
        }
        prefix + [last]
  }

  // ---------------------------------------------------------------- sorted()

  /** x placed before the first element of an ascending sequence that is not
      smaller than it. */
  function Insert(x: int, s: seq<int>): (r: seq<int>)
    requires Ascending(s)
    ensures Ascending(r)
    ensures forall y :: y in r <==> y == x || y in s
    ensures multiset(r) == multiset(s) + multiset{x}
    decreases |s|
  {
    if s == [] || x <= s[0] then [x] + s
    else
      var rest := Insert(x, s[1..]);
      assert s == [s[0]] + s[1..];
      HeadBelowTail(s);
      AscendingCons(s[0], rest);
      [s[0]] + rest
  }

  /** The head of an ascending sequence is below every later element. */
  lemma HeadBelowTail(s: seq<int>)
    requires Ascending(s) && |s| > 0
    ensures forall y :: y in s[1..] ==> s[0] <= y
  {
    forall y | y in s[1..] ensures s[0] <= y {
      var m :| 0 <= m < |s[1..]| && s[1..][m] == y;
      assert s[m + 1] == y;
    }
  }

  lemma AscendingCons(head: int, rest: seq<int>)
    requires Ascending(rest) && forall y :: y in rest ==> head <= y
    ensures Ascending([head] + rest)
  {
    var r := [head] + rest;
    forall i, j | 0 <= i < j < |r| ensures r[i] <= r[j] {
      assert r[j] == rest[j - 1] && rest[j - 1] in rest;
      if i > 0 {
        assert r[i] == rest[i - 1];
      }
    }
  }

  /** sorted(): insertion sort, ascending and a permutation of the input. */
  function Sort(s: seq<int>): (r: seq<int>)
    ensures Ascending(r)
    ensures multiset(r) == multiset(s)
    decreases |s|
  {
    if s == [] then []
    else
      assert s == s[..|s| - 1] + [s[|s| - 1]];
      Insert(s[|s| - 1], Sort(s[..|s| - 1]))
  }

  /** A value at two positions occurs twice. */
  lemma TwiceCounted(r: seq<int>, i: int, j: int)
    requires 0 <= i < j < |r| && r[i] == r[j]
    ensures multiset(r)[r[i]] >= 2
  {
    assert r == r[..i] + [r[i]] + r[i + 1..j] + [r[j]] + r[j + 1..];
  }

  /** Sorting distinct code points leaves them strictly ascending. */
  lemma SortDistinct(s: seq<int>)
    requires Distinct(s)
    ensures StrictlyIncreasing(Sort(s))
  {
    var r := Sort(s);
    forall i, j | 0 <= i < j < |r| ensures r[i] < r[j] {
      if r[i] == r[j] {
        TwiceCounted(r, i, j);
        DistinctOnce(s, r[i]);
      }
    }
  }

  lemma {:induction false} DistinctOnce(s: seq<int>, x: int)
    requires Distinct(s)
    ensures multiset(s)[x] <= 1
    decreases |s|
  {
    if s != [] {
      var prefix := s[..|s| - 1];
      assert s == prefix + [s[|s| - 1]];
      DistinctOnce(prefix, x);
      if s[|s| - 1] == x {
        assert x !in prefix;
      }
    }
  }

  /** Two strictly ascending sequences with the same elements are equal: the
      sorted order of a set is unique. */
  lemma {:induction false} StrictlyIncreasingUnique(a: seq<int>, b: seq<int>)
    requires StrictlyIncreasing(a) && StrictlyIncreasing(b)
    requires forall x :: x in a <==> x in b
    ensures a == b
    decreases |a|
  {
    SameElementsBothEmpty(a, b);
    if a != [] {
      assert a[0] == b[0] by {
        assert a[0] in b && b[0] in a;
      }
      forall x ensures x in a[1..] <==> x in b[1..] {
        if x in a[1..] { assert x in a && x != a[0]; }
        if x in b[1..] { assert x in b && x != b[0]; }
      }
      StrictlyIncreasingUnique(a[1..], b[1..]);
      assert a == [a[0]] + a[1..] && b == [b[0]] + b[1..];
    }
  }

  lemma SameElementsBothEmpty(a: seq<int>, b: seq<int>)
    requires forall x :: x in a <==> x in b
    ensures a == [] <==> b == []
  {
    if a != [] {
      var x := a[0];
      assert x in a;
      assert x in b;
    }
    if b != [] {
      var x := b[0];
      assert x in b;
      assert x in a;
    }
  }

  // ---------------------------------------------------------------- naming

  /** The loop of fetch_emoji_list: each code point that has a description
      gives an Emoji with the description in lower case; a KeyError skips it. */
  function Named(chars: seq<int>, descriptions: map<int, string>): (r: seq<Emoji>)
    decreases |chars|
  {
    if chars == [] then []
    else
      var prefix := Named(chars[..|chars| - 1], descriptions);
      var c := chars[|chars| - 1];
      if c in descriptions then prefix + [Emoji(c, Lower(descriptions[c]))] else prefix
  }

  function Codes(emojis: seq<Emoji>): (r: seq<int>)
    ensures |r| == |emojis| && forall i :: 0 <= i < |r| ==> r[i] == emojis[i].codePoint
  {
    seq(|emojis|, i requires 0 <= i < |emojis| => emojis[i].codePoint)
  }

  /** Named keeps the described code points in their order and names each
      by its lower-cased description. */
  lemma {:induction false} NamedFacts(chars: seq<int>, descriptions: map<int, string>)
    ensures forall c :: c in Codes(Named(chars, descriptions)) <==> c in chars && c in descriptions
    ensures forall e :: e in Named(chars, descriptions) ==> e.codePoint in descriptions && e.name == Lower(descriptions[e.codePoint])
    ensures StrictlyIncreasing(chars) ==> StrictlyIncreasing(Codes(Named(chars, descriptions)))
    decreases |chars|
  {
    if chars != [] {
      var prefix := chars[..|chars| - 1];
      var c := chars[|chars| - 1];
      NamedFacts(prefix, descriptions);
      assert chars == prefix + [c];
      var named := Named(chars, descriptions);
      var before := Named(prefix, descriptions);
      if c in descriptions {
        assert Codes(named) == Codes(before) + [c];
        if StrictlyIncreasing(chars) {
          forall x | x in Codes(before) ensures x < c {
            assert x in prefix;
          }
        }
      } else {
        assert named == before;
      }
    }
  }

  /** What the collation returns for the extracted code points. */
  function Collate(chars: seq<int>, descriptions: map<int, string>): seq<Emoji> {
    Named(Sort(Dedup(chars)), descriptions)
  }

  /** The collation is strictly ascending by code point, hence free of
      duplicates; it holds exactly the input code points that have a
      description, each named by its lower-cased description. */
  lemma CollateSpec(chars: seq<int>, descriptions: map<int, string>)
    ensures StrictlyIncreasing(Codes(Collate(chars, descriptions)))
    ensures forall c :: c in Codes(Collate(chars, descriptions)) <==> c in chars && c in descriptions
    ensures forall e :: e in Collate(chars, descriptions) ==> e.name == Lower(descriptions[e.codePoint])
  {
    var sorted := Sort(Dedup(chars));
    SortDistinct(Dedup(chars));
    forall x ensures x in sorted <==> x in chars {
      assert x in sorted <==> x in multiset(sorted);
      assert x in Dedup(chars) <==> x in multiset(Dedup(chars));
    }
    NamedFacts(sorted, descriptions);
  }

  /** The collation depends only on the set of input code points, so the
      iteration order of the Python set does not matter. */
  lemma CollateDependsOnlyOnSet(a: seq<int>, b: seq<int>, descriptions: map<int, string>)
    requires forall x :: x in a <==> x in b
    ensures Collate(a, descriptions) == Collate(b, descriptions)
  {
    var sa, sb := Sort(Dedup(a)), Sort(Dedup(b));
    SortDistinct(Dedup(a));
    SortDistinct(Dedup(b));
    forall x ensures x in sa <==> x in sb {
      assert x in sa <==> x in multiset(sa);
      assert x in sb <==> x in multiset(sb);
      assert x in Dedup(a) <==> x in multiset(Dedup(a));
      assert x in Dedup(b) <==> x in multiset(Dedup(b));
    }
    StrictlyIncreasingUnique(sa, sb);
  }

  /** What fetch_emoji_list returns or raises: fetch_emojis runs first, so
      its error wins over one of fetch_math_symbols. */
  function EmojiList(emojiLines: seq<string>, mathLines: seq<string>, descriptions: map<int, string>): Result<seq<Emoji>> {
    match CodePointsOfLines(emojiLines)
    case Err(e) => Err(e)
    case Ok(emojis) =>
      match CodePointsOfLines(mathLines)
      case Err(e) => Err(e)
      case Ok(maths) => Ok(Collate(emojis + maths, descriptions))
  }

  /** fetch_emoji_list, proved to compute EmojiList. */
  method FetchEmojiList(emojiLines: seq<string>, mathLines: seq<string>, descriptions: map<int, string>)
    returns (r: Result<seq<Emoji>>)
    ensures r == EmojiList(emojiLines, mathLines, descriptions)
  {
    var emojiChars := FetchCodePoints(emojiLines);
    if emojiChars.Err? {
      return Err(emojiChars.error);
    }
    var mathChars := FetchCodePoints(mathLines);
    if mathChars.Err? {
      return Err(mathChars.error);
    }
    var chars := Sort(Dedup(emojiChars.value + mathChars.value));
    var emojis: seq<Emoji> := [];
    for i := 0 to |chars|
      invariant emojis == Named(chars[..i], descriptions)
    {
      assert chars[..i + 1][..i] == chars[..i];
      var c := chars[i];
      if c in descriptions {
        emojis := emojis + [Emoji(c, Lower(descriptions[c]))];
      }
    }
    assert chars[..|chars|] == chars;
    r := Ok(emojis);
  }
}
