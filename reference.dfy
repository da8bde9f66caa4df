/** The verse-reference parser `versesToInts`: "chapter[:start[-end]]" read by a three-stage
    scan into three text buffers, followed by integer conversion of each buffer. */
module Reference {
  import opened Options
  import opened StrConv

  /** Which buffer the scan is currently filling. */
  datatype Stage = Chapter | Start | End

  datatype ParseError =
    | OnlyOneColon
    | StartBeforeChapter
    | OnlyOneDash
    | EndBeforeStart
    | ChapterMalformed
    | StartMalformed
    | EndMalformed

  /** The error text the program shows for each error. */
  function Message(e: ParseError): string
  {
    match e
    case OnlyOneColon => "invalid: you only need one ':'"
    case StartBeforeChapter => "invalid: can't get to start before finding chapter"
    case OnlyOneDash => "invalid: you only need one '-'"
    case EndBeforeStart => "invalid: can't get to end before finding start"
    case ChapterMalformed => "invalid: chapter is formatted incorrectly"
    case StartMalformed => "invalid: start verse is formatted incorrectly"
    case EndMalformed => "invalid: end verse is formatted incorrectly"
  }

  /** The length of each error text, and its character at position 28, tell the errors apart. */
  function MessageKey(e: ParseError): (int, char)
  {
    match e
    case OnlyOneColon => (30, ':')
    case StartBeforeChapter => (50, 'b')
    case OnlyOneDash => (30, '-')
    case EndBeforeStart => (46, 'f')
    case ChapterMalformed => (41, 'd')
    case StartMalformed => (45, 'a')
    case EndMalformed => (43, 't')
  }

  lemma MessageHasKey(e: ParseError)
    ensures |Message(e)| > 28 && (|Message(e)|, Message(e)[28]) == MessageKey(e)
  {
  }

  /** Each error has its own text, so the text the program shows identifies the error. */
  lemma MessageIdentifies(e1: ParseError, e2: ParseError)
    ensures Message(e1) == Message(e2) <==> e1 == e2
  {
    MessageHasKey(e1);
    MessageHasKey(e2);
  }

  /** A parsed reference: chapter, first verse, last verse (0 = none given). */
  datatype Ref = Ref(chapter: int, start: int, end: int)

  datatype Parsed = Ok(ref: Ref) | Err(error: ParseError)

  /** The variables of the scan loop: the stage, the three buffers and the two flags. */
  datatype ScanState = ScanState(stage: Stage, chapter: string, start: string, end: string,
                                 seenColon: bool, seenDash: bool)

  datatype Scanned = Scanning(state: ScanState) | Failed(error: ParseError)

  const Initial := ScanState(Chapter, "", "", "", false, false)

  predicate IsSeparator(c: char) { c == ':' || c == '-' }

  predicate SeparatorFree(s: string) { forall i | 0 <= i < |s| :: !IsSeparator(s[i]) }

  /** One iteration of the scan loop on character `c`. */
  function Step(s: ScanState, c: char): Scanned
  {
    if c == ':' then
      if s.seenColon then Failed(OnlyOneColon)
      else if s.stage != Chapter then Failed(StartBeforeChapter)
      else Scanning(s.(seenColon := true, stage := Start))
    else if c == '-' then
      if s.seenDash then Failed(OnlyOneDash)
      else if s.stage != Start then Failed(EndBeforeStart)
      else Scanning(s.(seenDash := true, stage := End))
    else
      match s.stage
      case Chapter => Scanning(s.(chapter := s.chapter + [c]))
      case Start => Scanning(s.(start := s.start + [c]))
      case End => Scanning(s.(end := s.end + [c]))
  }

  /** The scan loop run from state `s` over the characters of `v`, stopping at the first error. */
  function ScanFrom(s: ScanState, v: string): Scanned
    decreases |v|
  {
    if v == [] then Scanning(s)
    else
      match Step(s, v[0])
      case Failed(e) => Failed(e)
      case Scanning(t) => ScanFrom(t, v[1..])
  }

  function Scan(v: string): Scanned { ScanFrom(Initial, v) }

  /** The conversions after the scan: the chapter must convert; an empty start buffer means
      verse 1 and an empty end buffer means 0; a non-empty one must convert. */
  function Convert(chapter: string, start: string, end: string): (r: Parsed)
    ensures chapter == [] ==> r == Err(ChapterMalformed)
    ensures r.Ok? && SeparatorFree(chapter) && SeparatorFree(start) && SeparatorFree(end) ==>
              0 <= r.ref.chapter <= MaxInt && 0 <= r.ref.start <= MaxInt && 0 <= r.ref.end <= MaxInt
  {
    if Atoi(chapter).None? then Err(ChapterMalformed)
    else if |start| != 0 && Atoi(start).None? then Err(StartMalformed)
    else if |end| != 0 && Atoi(end).None? then Err(EndMalformed)
    else
      Ok(Ref(Atoi(chapter).value,
             if |start| == 0 then 1 else Atoi(start).value,
             if |end| == 0 then 0 else Atoi(end).value))
  }

  /** The whole of `versesToInts`, as a function. */
  function Parse(v: string): Parsed
  {
    match Scan(v)
    case Failed(e) => Err(e)
    case Scanning(s) => Convert(s.chapter, s.start, s.end)
  }

  // ---------------------------------------------------------------------------------------
  // The scan invariant and what the scan accepts

  /** What holds of the loop variables at every iteration: the stage is "chapter" exactly
      until a ':' is seen and "end" exactly once a '-' is seen; no separator is ever buffered. */
  ghost predicate Consistent(s: ScanState)
  {
    (s.stage == Chapter <==> !s.seenColon) && (s.stage == End <==> s.seenDash) &&
    SeparatorFree(s.chapter) && SeparatorFree(s.start) && SeparatorFree(s.end) &&
    (!s.seenColon ==> s.start == []) && (!s.seenDash ==> s.end == [])
  }

  /** The text a scan state has consumed, rebuilt from its buffers and flags. */
  function Assemble(s: ScanState): string
  {
    s.chapter + (if s.seenColon then [':'] + s.start else []) + (if s.seenDash then ['-'] + s.end else [])
  }

  lemma StepConsistent(s: ScanState, c: char)
    requires Consistent(s)
    ensures Step(s, c) != Failed(StartBeforeChapter)
    ensures Step(s, c).Failed? ==> Step(s, c).error in {OnlyOneColon, OnlyOneDash, EndBeforeStart}
    ensures Step(s, c).Scanning? ==>
              Consistent(Step(s, c).state) && Assemble(Step(s, c).state) == Assemble(s) + [c]
  {
  }

  /** The loop invariant holds at every iteration, the scan only ever consumes, and the
      "can't get to start before finding chapter" error can never be produced. */
  lemma {:induction false} ScanFromConsistent(s: ScanState, v: string)
    requires Consistent(s)
    ensures ScanFrom(s, v) != Failed(StartBeforeChapter)
    ensures ScanFrom(s, v).Failed? ==> ScanFrom(s, v).error in {OnlyOneColon, OnlyOneDash, EndBeforeStart}
    ensures ScanFrom(s, v).Scanning? ==>
              Consistent(ScanFrom(s, v).state) && Assemble(ScanFrom(s, v).state) == Assemble(s) + v
    decreases |v|
  {
    if v != [] {
      StepConsistent(s, v[0]);
      if Step(s, v[0]).Scanning? {
        ScanFromConsistent(Step(s, v[0]).state, v[1..]);
        assert Assemble(s) + [v[0]] + v[1..] == Assemble(s) + v;
      }
    }
  }

  /** An accepted input is exactly the text of the consistent state the scan ends in. */
  lemma ScanSound(v: string)
    ensures Scan(v).Scanning? ==> Consistent(Scan(v).state) && Assemble(Scan(v).state) == v
  {
    ScanFromConsistent(Initial, v);
    assert Assemble(Initial) + v == v;
  }

  /** The branch for a ':' outside the chapter stage is dead: no input reaches it. */
  lemma StartBeforeChapterUnreachable(v: string)
    ensures Scan(v) != Failed(StartBeforeChapter)
    ensures Parse(v) != Err(StartBeforeChapter)
    ensures Scan(v).Failed? ==> Scan(v).error in {OnlyOneColon, OnlyOneDash, EndBeforeStart}
  {
    ScanFromConsistent(Initial, v);
  }

  /** Scanning `a + b` is scanning `a`, then `b` from where that stopped. */
  lemma {:induction false} ScanFromAppend(s: ScanState, a: string, b: string)
    ensures ScanFrom(s, a + b) ==
              match ScanFrom(s, a)
              case Failed(e) => Failed(e)
              case Scanning(t) => ScanFrom(t, b)
    decreases |a|
  {
    if a == [] {
      assert a + b == b;
    } else {
      assert (a + b)[0] == a[0] && (a + b)[1..] == a[1..] + b;
      if Step(s, a[0]).Scanning? {
        ScanFromAppend(Step(s, a[0]).state, a[1..], b);
      }
    }
  }

  /** `w` appended to the buffer of the current stage. */
  function Fill(s: ScanState, w: string): ScanState
  {
    match s.stage
    case Chapter => s.(chapter := s.chapter + w)
    case Start => s.(start := s.start + w)
    case End => s.(end := s.end + w)
  }

  /** Separator-free text goes into the current buffer unchanged. */
  lemma {:induction false} ScanFromBuffer(s: ScanState, w: string)
    requires SeparatorFree(w)
    ensures ScanFrom(s, w) == Scanning(Fill(s, w))
    decreases |w|
  {
    if w != [] {
      assert !IsSeparator(w[0]);
      var t := Fill(s, [w[0]]);
      assert Step(s, w[0]) == Scanning(t);
      ScanFromBuffer(t, w[1..]);
      assert [w[0]] + w[1..] == w;
      assert Fill(t, w[1..]) == Fill(s, w) by {
        assert s.chapter + [w[0]] + w[1..] == s.chapter + w;
        assert s.start + [w[0]] + w[1..] == s.start + w;
        assert s.end + [w[0]] + w[1..] == s.end + w;
      }
    }
  }

  /** Every consistent state is reached exactly by scanning its own reassembled text. */
  lemma ScanComplete(s: ScanState)
    requires Consistent(s)
    ensures Scan(Assemble(s)) == Scanning(s)
  {
    var afterChapter := Fill(Initial, s.chapter);
    ScanFromBuffer(Initial, s.chapter);
    assert afterChapter == ScanState(Chapter, s.chapter, "", "", false, false);
    var rest := (if s.seenColon then [':'] + s.start else []) + (if s.seenDash then ['-'] + s.end else []);
    assert Assemble(s) == s.chapter + rest;
    ScanFromAppend(Initial, s.chapter, rest);
    if s.seenColon {
      var inStart := afterChapter.(seenColon := true, stage := Start);
      var dashPart := if s.seenDash then ['-'] + s.end else [];
      assert rest == [':'] + (s.start + dashPart);
      assert ScanFrom(afterChapter, rest) == ScanFrom(inStart, s.start + dashPart);
      ScanFromAppend(inStart, s.start, dashPart);
      ScanFromBuffer(inStart, s.start);
      var afterStart := Fill(inStart, s.start);
      if s.seenDash {
        var inEnd := afterStart.(seenDash := true, stage := End);
        assert dashPart == ['-'] + s.end;
        assert ScanFrom(afterStart, dashPart) == ScanFrom(inEnd, s.end);
        ScanFromBuffer(inEnd, s.end);
      }
    }
  }

  /** The scan succeeds with state `s` exactly when `s` is consistent and `v` is its text. */
  lemma ScanInverse(v: string, s: ScanState)
    ensures Scan(v) == Scanning(s) <==> Consistent(s) && v == Assemble(s)
  {
    ScanFromConsistent(Initial, v);
    assert Assemble(Initial) + v == v;
    if Consistent(s) && v == Assemble(s) {
      ScanComplete(s);
    }
  }

  /** A consistent state's text parses to the conversion of its three buffers. */
  lemma ParseAssembled(s: ScanState)
    requires Consistent(s)
    ensures Parse(Assemble(s)) == Convert(s.chapter, s.start, s.end)
  {
    ScanComplete(s);
  }

  // ---------------------------------------------------------------------------------------
  // Accepted references and their defaults

  lemma DigitsAreSeparatorFree(s: string)
    requires AllDigits(s)
    ensures SeparatorFree(s)
  {
  }

  /** Separator-free parts joined by ':' and '-' scan into exactly those buffers. */
  lemma ParseThreeParts(c: string, s: string, e: string)
    requires SeparatorFree(c) && SeparatorFree(s) && SeparatorFree(e)
    ensures Parse(c + ":" + s + "-" + e) == Convert(c, s, e)
  {
    var st := ScanState(End, c, s, e, true, true);
    assert Assemble(st) == c + ":" + s + "-" + e;
    ParseAssembled(st);
  }

  lemma ParseTwoParts(c: string, s: string)
    requires SeparatorFree(c) && SeparatorFree(s)
    ensures Parse(c + ":" + s) == Convert(c, s, "")
  {
    var st := ScanState(Start, c, s, "", true, false);
    assert Assemble(st) == c + ":" + s;
    ParseAssembled(st);
  }

  lemma ParseOnePart(c: string)
    requires SeparatorFree(c)
    ensures Parse(c) == Convert(c, "", "")
  {
    var st := ScanState(Chapter, c, "", "", false, false);
    assert Assemble(st) == c;
    ParseAssembled(st);
  }

  /** Each buffer of digits converts to its value; an empty start is 1, an empty end 0. */
  lemma ConvertDigits(c: string, s: string, e: string)
    requires c != [] && AllDigits(c) && AllDigits(s) && AllDigits(e)
    requires DigitsValue(c) <= MaxInt && DigitsValue(s) <= MaxInt && DigitsValue(e) <= MaxInt
    ensures Convert(c, s, e) ==
              Ok(Ref(DigitsValue(c), if s == [] then 1 else DigitsValue(s), if e == [] then 0 else DigitsValue(e)))
  {
    AtoiOfDigits(c);
    if s != [] { AtoiOfDigits(s); }
    if e != [] { AtoiOfDigits(e); }
  }

  /** "C:S-E" for digit strings gives (C, S, E); an empty S defaults to 1 and an empty E to 0. */
  lemma FullReference(c: string, s: string, e: string)
    requires c != [] && AllDigits(c) && AllDigits(s) && AllDigits(e)
    requires DigitsValue(c) <= MaxInt && DigitsValue(s) <= MaxInt && DigitsValue(e) <= MaxInt
    ensures Parse(c + ":" + s + "-" + e) ==
              Ok(Ref(DigitsValue(c), if s == [] then 1 else DigitsValue(s), if e == [] then 0 else DigitsValue(e)))
  {
    DigitsAreSeparatorFree(c);
    DigitsAreSeparatorFree(s);
    DigitsAreSeparatorFree(e);
    ParseThreeParts(c, s, e);
    ConvertDigits(c, s, e);
  }

  /** "C:S" gives (C, S, 0), and "C:" gives (C, 1, 0). */
  lemma ChapterAndStart(c: string, s: string)
    requires c != [] && AllDigits(c) && AllDigits(s)
    requires DigitsValue(c) <= MaxInt && DigitsValue(s) <= MaxInt
    ensures Parse(c + ":" + s) == Ok(Ref(DigitsValue(c), if s == [] then 1 else DigitsValue(s), 0))
  {
    DigitsAreSeparatorFree(c);
    DigitsAreSeparatorFree(s);
    ParseTwoParts(c, s);
    ConvertDigits(c, s, "");
  }

  /** A bare chapter "C" gives (C, 1, 0). */
  lemma ChapterOnly(c: string)
    requires c != [] && AllDigits(c) && DigitsValue(c) <= MaxInt
    ensures Parse(c) == Ok(Ref(DigitsValue(c), 1, 0))
  {
    DigitsAreSeparatorFree(c);
    ParseOnePart(c);
    ConvertDigits(c, "", "");
  }

  // ---------------------------------------------------------------------------------------
  // Rejected references

  /** A ':' after an accepted prefix that already holds one is "only one ':'". */
  lemma SecondColon(p: string, r: string)
    requires Scan(p).Scanning? && ':' in p
    ensures Parse(p + [':'] + r) == Err(OnlyOneColon)
  {
    var st := Scan(p).state;
    ScanInverse(p, st);
    if !st.seenColon {
      assert false;
    }
    ScanFromAppend(Initial, p, [':'] + r);
    assert p + [':'] + r == p + ([':'] + r);
    assert ([':'] + r)[0] == ':';
  }

  /** A '-' after an accepted prefix that already holds one is "only one '-'". */
  lemma SecondDash(p: string, r: string)
    requires Scan(p).Scanning? && '-' in p
    ensures Parse(p + ['-'] + r) == Err(OnlyOneDash)
  {
    var st := Scan(p).state;
    ScanInverse(p, st);
    if !st.seenDash {
      assert false;
    }
    ScanFromAppend(Initial, p, ['-'] + r);
    assert p + ['-'] + r == p + (['-'] + r);
    assert (['-'] + r)[0] == '-';
  }

  /** A '-' before any ':' is "can't get to end before finding start". */
  lemma DashBeforeColon(p: string, r: string)
    requires SeparatorFree(p)
    ensures Parse(p + ['-'] + r) == Err(EndBeforeStart)
  {
    ScanFromBuffer(Initial, p);
    ScanFromAppend(Initial, p, ['-'] + r);
    assert p + ['-'] + r == p + (['-'] + r);
    assert (['-'] + r)[0] == '-';
  }

  /** A '+' in front of the start or the end verse is accepted by the conversion and
      changes nothing. */
  lemma PlusSignIgnored(c: string, s: string, e: string)
    requires SeparatorFree(c) && s != [] && AllDigits(s) && e != [] && AllDigits(e)
    ensures Parse(c + ":" + ("+" + s) + "-" + ("+" + e)) == Parse(c + ":" + s + "-" + e)
  {
    DigitsAreSeparatorFree(s);
    DigitsAreSeparatorFree(e);
    assert SeparatorFree("+" + s) && SeparatorFree("+" + e) by {
      assert forall i | 0 < i < |"+" + s| :: ("+" + s)[i] == s[i - 1];
      assert forall i | 0 < i < |"+" + e| :: ("+" + e)[i] == e[i - 1];
    }
    ParseThreeParts(c, "+" + s, "+" + e);
    ParseThreeParts(c, s, e);
    AtoiPlusSign(s);
    AtoiPlusSign(e);
  }

  /** The component that fails to convert is the one the error names, checked in the order
      chapter, start, end. */
  lemma ConversionErrors(c: string, s: string, e: string)
    requires SeparatorFree(c) && SeparatorFree(s) && SeparatorFree(e)
    ensures Atoi(c).None? ==>
              Parse(c) == Err(ChapterMalformed) && Parse(c + ":" + s) == Err(ChapterMalformed) &&
              Parse(c + ":" + s + "-" + e) == Err(ChapterMalformed)
    ensures Atoi(c).Some? && s != [] && Atoi(s).None? ==>
              Parse(c + ":" + s) == Err(StartMalformed) && Parse(c + ":" + s + "-" + e) == Err(StartMalformed)
    ensures Atoi(c).Some? && (s == [] || Atoi(s).Some?) && e != [] && Atoi(e).None? ==>
              Parse(c + ":" + s + "-" + e) == Err(EndMalformed)
  {
    ParseOnePart(c);
    ParseTwoParts(c, s);
    ParseThreeParts(c, s, e);
  }

  // ---------------------------------------------------------------------------------------
  // Results and normalisation

  /** A successful parse never yields a negative number: a '-' is always taken as a separator. */
  lemma ParseNonNegative(v: string)
    ensures Parse(v).Ok? ==>
              0 <= Parse(v).ref.chapter <= MaxInt && 0 <= Parse(v).ref.start <= MaxInt &&
              0 <= Parse(v).ref.end <= MaxInt
    ensures Parse(v).Ok? && ':' !in v ==> Parse(v).ref.start == 1 && Parse(v).ref.end == 0
    ensures Parse(v).Ok? && '-' !in v ==> Parse(v).ref.end == 0
  {
    ScanSound(v);
    if Scan(v).Scanning? {
      var st := Scan(v).state;
      assert Parse(v) == Convert(st.chapter, st.start, st.end);
      if st.seenColon {
        assert v[|st.chapter|] == ':';
      }
      if st.seenDash {
        assert v[|st.chapter| + 1 + |st.start|] == '-';
      }
    }
  }

  /** The shortest text for a parsed reference: the start is always written, the end only
      when it is not 0. */
  function Format(r: Ref): string
    requires 0 <= r.chapter && 0 <= r.start && 0 <= r.end
  {
    NatToDigits(r.chapter) + ":" + NatToDigits(r.start) + (if r.end == 0 then "" else "-" + NatToDigits(r.end))
  }

  /** Writing a reference out and parsing it again gives the same reference. */
  lemma FormatRoundTrip(r: Ref)
    requires 0 <= r.chapter <= MaxInt && 0 <= r.start <= MaxInt && 0 <= r.end <= MaxInt
    ensures Parse(Format(r)) == Ok(r)
  {
    var c, s := NatToDigits(r.chapter), NatToDigits(r.start);
    if r.end == 0 {
      ChapterAndStart(c, s);
      assert Format(r) == c + ":" + s;
    } else {
      var e := NatToDigits(r.end);
      FullReference(c, s, e);
      assert Format(r) == c + ":" + s + "-" + e;
    }
  }

  /** Parsing is a normalisation: its result, written out minimally, parses to itself. */
  lemma NormalizationIdempotent(v: string)
    requires Parse(v).Ok?
    ensures var r := Parse(v).ref;
              0 <= r.chapter && 0 <= r.start && 0 <= r.end && Parse(Format(r)) == Parse(v)
  {
    ParseNonNegative(v);
    FormatRoundTrip(Parse(v).ref);
  }

  // ---------------------------------------------------------------------------------------
  // The program's loop

  /** `versesToInts`: the chapter, start and end of `v` and no error, or (0, 0, 0) and the error. */
  method VersesToInts(v: string) returns (chapter: int, start: int, end: int, err: Option<string>)
    ensures Parse(v).Ok? ==> err == None && Ref(chapter, start, end) == Parse(v).ref
    ensures Parse(v).Err? ==> err == Some(Message(Parse(v).error)) && chapter == 0 && start == 0 && end == 0
  {
    var chapterBuf, startBuf, endBuf := "", "", "";
    var seenColonYet, seenDashYet := false, false;
    var stage := Chapter;

    for i := 0 to |v|
      invariant Scan(v) == ScanFrom(ScanState(stage, chapterBuf, startBuf, endBuf, seenColonYet, seenDashYet), v[i..])
      invariant stage == Chapter <==> !seenColonYet
      invariant stage == End <==> seenDashYet
    {
      var c := v[i];
      assert v[i..][0] == c && v[i..][1..] == v[i + 1..];
      if c == ':' {
        if seenColonYet {
          return 0, 0, 0, Some(Message(OnlyOneColon));
        } else {
          if stage != Chapter {
            assert false;
            return 0, 0, 0, Some(Message(StartBeforeChapter));
          }
          seenColonYet := true;
          stage := Start;
        }
      } else if c == '-' {
        if seenDashYet {
          return 0, 0, 0, Some(Message(OnlyOneDash));
        } else {
          if stage != Start {
            return 0, 0, 0, Some(Message(EndBeforeStart));
          }
          seenDashYet := true;
          stage := End;
        }
      } else {
        if stage == Chapter {
          chapterBuf := chapterBuf + [c];
        } else if stage == Start {
          startBuf := startBuf + [c];
        } else if stage == End {
          endBuf := endBuf + [c];
        }
      }
    }

    var chapterInt := Atoi(chapterBuf);
    if chapterInt.None? {
      return 0, 0, 0, Some(Message(ChapterMalformed));
    }
    chapter := chapterInt.value;

    if |startBuf| == 0 {
      start := 1;
    } else {
      var tempStartInt := Atoi(startBuf);
      if tempStartInt.None? {
        return 0, 0, 0, Some(Message(StartMalformed));
      }
      start := tempStartInt.value;
    }

    if |endBuf| == 0 {
      end := 0;
    } else {
      var tempEndInt := Atoi(endBuf);
      if tempEndInt.None? {
        return 0, 0, 0, Some(Message(EndMalformed));
      }
      end := tempEndInt.value;
    }

    err := None;
  }
}
