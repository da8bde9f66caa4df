/** Worked instances of the verse-text cleaner, derived from the lemmas of module Markup. */
module MarkupExamples {
  import opened Markup

  /** A verse as stored: leading spaces and a verse-number tag pair before the text. The
      number between the tags is text outside both tags, so it is kept. */
  lemma ExampleVerseTags(v: string)
    requires v == "  <v>1</v>In"
    ensures Strip(v) == "1In"
  {
    var sp, t1, n, t2, text := "  ", "v", "1", "/v", "In";
    assert v == sp + ['<'] + t1 + ['>'] + n + ['<'] + t2 + ['>'] + text;
    TaggedVerse(sp, t1, n, t2, text);
  }

  /** A newline is dropped and nothing is put in its place. */
  lemma ExampleNewline(v: string)
    requires v == "a\nb"
    ensures Strip(v) == "ab"
  {
    var a, nl := "a", "a\n";
    assert nl == a + ['\n'] && v == nl + ['b'];
    StripPlainText(a);
    StripStep(a, '\n');
    StripStep(nl, 'b');
  }
}
