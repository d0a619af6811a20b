/** compile_entries: one line of text per emoji, the character, a space and
    its name, followed by its annotation keywords when it has any. */
module Entries {
  import opened PyStr
  import opened Collation

  /** fetch_annotations reads the keywords of an annotation element with
      `text.split(' | ')`; the keyword list joins back to the element text. */
  function AnnotationKeywords(text: string): (r: seq<string>)
    ensures |r| >= 1
    ensures Join(r, " | ") == text
  {
    JoinSplit(text, " | ");
    Split(text, " | ")
  }

  /** The annotation suffix: ` <small>(k1, k2, ...)</small>`. */
  function Annotation(keywords: seq<string>): string {
    " <small>(" + Join(keywords, ", ") + ")</small>"
  }

  /** The entry of one emoji. Annotations are keyed by the element's cp
      attribute, a whole string, so only a key that is exactly the one
      character annotates it. */
  function Entry(e: Emoji, annotations: map<Text, seq<string>>): Text {
    if [e.codePoint] in annotations
    then [e.codePoint] + TextOf(" " + e.name + Annotation(annotations[[e.codePoint]]))
    else [e.codePoint] + TextOf(" " + e.name)
  }

  lemma TextOfAppend(a: string, b: string)
    ensures TextOf(a + b) == TextOf(a) + TextOf(b)
  {
  }

  /** An entry starts with the character, a space and the name; it goes on
      exactly when the character is annotated, and then with the annotation. */
  lemma EntryLayout(e: Emoji, annotations: map<Text, seq<string>>)
    ensures |Entry(e, annotations)| >= 2 + |e.name|
    ensures Entry(e, annotations)[0] == e.codePoint
    ensures Entry(e, annotations)[1] == ' ' as int
    ensures Entry(e, annotations)[2..2 + |e.name|] == TextOf(e.name)
    ensures [e.codePoint] in annotations
      ==> Entry(e, annotations)[2 + |e.name|..] == TextOf(Annotation(annotations[[e.codePoint]]))
    ensures [e.codePoint] !in annotations <==> |Entry(e, annotations)| == 2 + |e.name|
  {
    var t := Entry(e, annotations);
    TextOfAppend(" ", e.name);
    if [e.codePoint] in annotations {
      var suffix := Annotation(annotations[[e.codePoint]]);
      TextOfAppend(" " + e.name, suffix);
      assert t == [e.codePoint] + TextOf(" ") + TextOf(e.name) + TextOf(suffix);
      assert |suffix| > 0;
    }
  }

  /** compile_entries, proved to render Entry for each emoji in order. */
  method CompileEntries(emojis: seq<Emoji>, annotations: map<Text, seq<string>>) returns (entries: seq<Text>)
    ensures |entries| == |emojis|
    ensures forall i :: 0 <= i < |emojis| ==> entries[i] == Entry(emojis[i], annotations)
  {
    entries := [];
    for i := 0 to |emojis|
      invariant |entries| == i
      invariant forall k :: 0 <= k < i ==> entries[k] == Entry(emojis[k], annotations)
    {
      var emoji := emojis[i];
      var entry: Text;
      if [emoji.codePoint] in annotations {
        entry := [emoji.codePoint] + TextOf(" " + emoji.name + Annotation(annotations[[emoji.codePoint]]));
      } else {
        entry := [emoji.codePoint] + TextOf(" " + emoji.name);
      }
      entries := entries + [entry];
    }
  }

  /** Emojis with distinct code points, such as the collated list, render
      to distinct entries. */
  lemma EntriesDistinct(emojis: seq<Emoji>, annotations: map<Text, seq<string>>, i: int, j: int)
    requires Distinct(Codes(emojis))
    requires 0 <= i < j < |emojis|
    ensures Entry(emojis[i], annotations) != Entry(emojis[j], annotations)
  {
    EntryLayout(emojis[i], annotations);
    EntryLayout(emojis[j], annotations);
    assert Codes(emojis)[i] != Codes(emojis)[j];
  }
}
