/** Worked instances of the reference parser's rules: the usage examples of the help text
    and rejected inputs for each error, derived from the general lemmas of module Reference.
    The input is a parameter fixed by the precondition, so that the verifier reasons with
    those lemmas rather than by evaluating the parser character by character. */
module ReferenceExamples {
  import opened StrConv
  import opened Reference

  /** The usage example "1:10-11". */
  lemma ExampleVerseRange(v: string)
    requires v == "1:10-11"
    ensures Parse(v) == Ok(Ref(1, 10, 11))
  {
    var c, s, e := "1", "10", "11";
    assert c + ":" + s + "-" + e == v;
    assert DigitsValue(s) == 10 && DigitsValue(e) == 11 by {
      assert s[..1] == "1" && e[..1] == "1";
    }
    FullReference(c, s, e);
  }

  /** The usage example "5": chapter 5, from verse 1. */
  lemma ExampleChapter(v: string)
    requires v == "5"
    ensures Parse(v) == Ok(Ref(5, 1, 0))
  {
    ChapterOnly(v);
  }

  /** The usage example "3:16". */
  lemma ExampleSingleVerse(v: string)
    requires v == "3:16"
    ensures Parse(v) == Ok(Ref(3, 16, 0))
  {
    var c, s := "3", "16";
    assert c + ":" + s == v;
    assert DigitsValue(s) == 16 by {
      assert s[..1] == "1";
    }
    ChapterAndStart(c, s);
  }

  /** "3:" has an empty start buffer, which still defaults to verse 1. */
  lemma ExampleEmptyStart(v: string)
    requires v == "3:"
    ensures Parse(v) == Ok(Ref(3, 1, 0))
  {
    assert "3" + ":" + "" == v;
    ChapterAndStart("3", "");
  }

  /** "1:1:1" has a second ':'. */
  lemma ExampleSecondColon(v: string)
    requires v == "1:1:1"
    ensures Parse(v) == Err(OnlyOneColon)
  {
    var p := "1" + ":" + "1";
    assert p + [':'] + "1" == v;
    ParseTwoParts("1", "1");
    assert p[1] == ':';
    SecondColon(p, "1");
  }

  /** "1-2:3" has its '-' before any ':'. */
  lemma ExampleDashFirst(v: string)
    requires v == "1-2:3"
    ensures Parse(v) == Err(EndBeforeStart)
  {
    assert "1" + ['-'] + "2:3" == v;
    DashBeforeColon("1", "2:3");
  }

  /** "1:2-3-4" has a second '-'. */
  lemma ExampleSecondDash(v: string)
    requires v == "1:2-3-4"
    ensures Parse(v) == Err(OnlyOneDash)
  {
    var p := "1" + ":" + "2" + "-" + "3";
    assert p + ['-'] + "4" == v;
    ParseThreeParts("1", "2", "3");
    assert p[3] == '-';
    SecondDash(p, "4");
  }

  /** "" and " 5" have a chapter buffer that does not convert: no trimming is done. */
  lemma ExampleMalformedChapter(v: string)
    requires v == "" || v == " 5"
    ensures Parse(v) == Err(ChapterMalformed)
  {
    ConversionErrors(v, "", "");
  }

  /** "1:x" has a start buffer that does not convert. */
  lemma ExampleMalformedStart(v: string)
    requires v == "1:x"
    ensures Parse(v) == Err(StartMalformed)
  {
    assert "1" + ":" + "x" == v;
    AtoiOfDigits("1");
    ConversionErrors("1", "x", "");
  }

  /** "1:2-x" has an end buffer that does not convert. */
  lemma ExampleMalformedEnd(v: string)
    requires v == "1:2-x"
    ensures Parse(v) == Err(EndMalformed)
  {
    assert "1" + ":" + "2" + "-" + "x" == v;
    AtoiOfDigits("1");
    AtoiOfDigits("2");
    ConversionErrors("1", "2", "x");
  }
}
