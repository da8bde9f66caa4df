/** The verse-text cleaner `stripVerse`: one left-to-right pass that drops newlines, drops
    every tag from '<' through the next '>', and drops the spaces that come before the first
    character it keeps. */
module Markup {
  import opened Seqs

  /** The characters the cleaner never keeps: the tag brackets and the newline. */
  predicate IsMarkup(c: char) { c == '<' || c == '>' || c == '\n' }

  predicate MarkupFree(s: string) { forall k | 0 <= k < |s| :: !IsMarkup(s[k]) }

  /** Whether the pass is inside a tag after reading `v` (the `started` flag): the last bracket
      read decides, and before any bracket it is not. */
  function InsideTagAfter(v: string): bool
  {
    if v == [] then false
    else if v[|v| - 1] == '<' then true
    else if v[|v| - 1] == '>' then false
    else InsideTagAfter(v[..|v| - 1])
  }

  /** The characters of `v` outside every tag, in order, without brackets and newlines. */
  function Visible(v: string): string
  {
    if v == [] then []
    else
      var c := v[|v| - 1];
      Visible(v[..|v| - 1]) + (if !InsideTagAfter(v) && !IsMarkup(c) then [c] else [])
  }

  /** `s` without its leading spaces: what remains is a suffix that does not start with one. */
  function TrimLeadingSpaces(s: string): (r: string)
    ensures r == [] || r[0] != ' '
    ensures |r| <= |s|
  {
    if s != [] && s[0] == ' ' then TrimLeadingSpaces(s[1..]) else s
  }

  lemma {:induction false} TrimIsSuffix(s: string)
    ensures TrimLeadingSpaces(s) == s[|s| - |TrimLeadingSpaces(s)|..]
    decreases |s|
  {
    if s != [] && s[0] == ' ' {
      TrimIsSuffix(s[1..]);
    }
  }

  /** What `stripVerse` returns: the visible text with its leading spaces removed. */
  function Strip(v: string): string
  {
    TrimLeadingSpaces(Visible(v))
  }

  // ---------------------------------------------------------------------------------------
  // Facts used by the loop

  /** Appending one character: leading spaces stay dropped until something else is kept. */
  lemma {:induction false} TrimAppend(a: string, c: char)
    ensures TrimLeadingSpaces(a + [c]) ==
              if TrimLeadingSpaces(a) == [] && c == ' ' then [] else TrimLeadingSpaces(a) + [c]
    decreases |a|
  {
    if a == [] {
      assert [c][1..] == [];
    } else {
      assert (a + [c])[0] == a[0] && (a + [c])[1..] == a[1..] + [c];
      if a[0] == ' ' {
        TrimAppend(a[1..], c);
        assert TrimLeadingSpaces(a + [c]) == TrimLeadingSpaces(a[1..] + [c]);
        assert TrimLeadingSpaces(a) == TrimLeadingSpaces(a[1..]);
      } else {
        assert TrimLeadingSpaces(a + [c]) == a + [c];
        assert TrimLeadingSpaces(a) == a;
      }
    }
  }

  /** One iteration of the loop on character `c`, in terms of the two flags and the output. */
  lemma StripStep(u: string, c: char)
    ensures InsideTagAfter(u + [c]) == if c == '<' then true else if c == '>' then false else InsideTagAfter(u)
    ensures Strip(u + [c]) ==
              if IsMarkup(c) || InsideTagAfter(u + [c]) then Strip(u)
              else if c == ' ' && Strip(u) == [] then []
              else Strip(u) + [c]
  {
    var v := u + [c];
    assert v[..|v| - 1] == u && v[|v| - 1] == c;
    assert Visible(v) == Visible(u) + if !InsideTagAfter(v) && !IsMarkup(c) then [c] else [];
    if IsMarkup(c) || InsideTagAfter(v) {
      assert Visible(v) == Visible(u);
    } else {
      assert Visible(v) == Visible(u) + [c];
      TrimAppend(Visible(u), c);
    }
  }

  // ---------------------------------------------------------------------------------------
  // Output invariants

  lemma {:induction false} VisibleMarkupFree(v: string)
    ensures MarkupFree(Visible(v))
    decreases |v|
  {
    if v != [] {
      VisibleMarkupFree(v[..|v| - 1]);
    }
  }

  /** The result holds no '<', no '>' and no newline. */
  lemma StripMarkupFree(v: string)
    ensures MarkupFree(Strip(v))
  {
    VisibleMarkupFree(v);
    var s := Visible(v);
    var r := TrimLeadingSpaces(s);
    TrimIsSuffix(s);
    forall k | 0 <= k < |r| ensures !IsMarkup(r[k]) {
      assert r[k] == s[|s| - |r| + k];
    }
  }

  /** The result never starts with a space. */
  lemma StripNoLeadingSpace(v: string)
    ensures Strip(v) == [] || Strip(v)[0] != ' '
  {
  }

  lemma {:induction false} VisibleSubsequence(v: string)
    ensures IsSubsequence(Visible(v), v)
    decreases |v|
  {
    if v != [] {
      var init := v[..|v| - 1];
      VisibleSubsequence(init);
      assert init + [v[|v| - 1]] == v;
      if !(!InsideTagAfter(v) && !IsMarkup(v[|v| - 1])) {
        assert Visible(v) == Visible(init);
        SubsequenceExtend(Visible(init), init, v[|v| - 1]);
      } else {
        var s := Visible(v);
        assert s[..|s| - 1] == Visible(init);
      }
    }
  }

  lemma {:induction false} TrimSubsequence(s: string, b: string)
    requires IsSubsequence(s, b)
    ensures IsSubsequence(TrimLeadingSpaces(s), b)
    decreases |s|
  {
    if s != [] && s[0] == ' ' {
      SubsequenceDropFirst(s, b);
      TrimSubsequence(s[1..], b);
    }
  }

  /** The result is the input with characters deleted, the rest in their order; so it is
      never longer than the input. */
  lemma StripSubsequence(v: string)
    ensures IsSubsequence(Strip(v), v)
    ensures |Strip(v)| <= |v|
  {
    VisibleSubsequence(v);
    TrimSubsequence(Visible(v), v);
    SubsequenceLength(Strip(v), v);
  }

  // ---------------------------------------------------------------------------------------
  // What is kept and what is dropped

  /** Text without brackets or newlines is all visible, and leaves the pass outside tags. */
  lemma {:induction false} VisiblePlainText(s: string)
    requires MarkupFree(s)
    ensures Visible(s) == s && !InsideTagAfter(s)
    decreases |s|
  {
    if s != [] {
      var init := s[..|s| - 1];
      assert MarkupFree(init) by {
        forall k | 0 <= k < |init| ensures !IsMarkup(init[k]) { assert init[k] == s[k]; }
      }
      VisiblePlainText(init);
      assert !IsMarkup(s[|s| - 1]);
      assert init + [s[|s| - 1]] == s;
    }
  }

  /** Once outside a tag, what follows is read as if from the start. */
  lemma {:induction false} VisibleAppend(x: string, w: string)
    requires !InsideTagAfter(x)
    ensures Visible(x + w) == Visible(x) + Visible(w)
    ensures InsideTagAfter(x + w) == InsideTagAfter(w)
    decreases |w|
  {
    if w == [] {
      assert x + w == x;
    } else {
      var w' := w[..|w| - 1];
      VisibleAppend(x, w');
      assert (x + w)[..|x + w| - 1] == x + w';
      assert (x + w)[|x + w| - 1] == w[|w| - 1];
    }
  }

  /** Everything inside a tag that is not yet closed is dropped. */
  lemma {:induction false} InsideOpenTag(p: string, t: string)
    requires '>' !in t
    ensures Visible(p + ['<'] + t) == Visible(p) && InsideTagAfter(p + ['<'] + t)
    decreases |t|
  {
    if t == [] {
      assert p + ['<'] + t == p + ['<'];
      assert (p + ['<'])[..|p|] == p;
    } else {
      var t' := t[..|t| - 1];
      InsideOpenTag(p, t');
      assert (p + ['<'] + t)[..|p + ['<'] + t| - 1] == p + ['<'] + t';
      assert (p + ['<'] + t)[|p + ['<'] + t| - 1] == t[|t| - 1];
    }
  }

  /** A whole tag '<' ... '>' is dropped and the text on both sides is kept. */
  lemma TagDropped(p: string, t: string, w: string)
    requires '>' !in t
    ensures Visible(p + ['<'] + t + ['>'] + w) == Visible(p) + Visible(w)
  {
    var open := p + ['<'] + t;
    InsideOpenTag(p, t);
    assert (open + ['>'])[..|open|] == open;
    assert Visible(open + ['>']) == Visible(p);
    VisibleAppend(open + ['>'], w);
  }

  /** Leading spaces before text that does not start with one are all removed. */
  lemma {:induction false} TrimSpacesBefore(sp: string, s: string)
    requires forall k | 0 <= k < |sp| :: sp[k] == ' '
    requires s == [] || s[0] != ' '
    ensures TrimLeadingSpaces(sp + s) == s
    decreases |sp|
  {
    if sp == [] {
      assert sp + s == s;
    } else {
      assert (sp + s)[0] == ' ' && (sp + s)[1..] == sp[1..] + s;
      TrimSpacesBefore(sp[1..], s);
    }
  }

  /** The stored verse shape: leading spaces, an opening tag, the verse number, a closing tag
      and the text. The spaces and both tags go; the number and the text stay, in that order. */
  lemma TaggedVerse(sp: string, t1: string, n: string, t2: string, text: string)
    requires forall k | 0 <= k < |sp| :: sp[k] == ' '
    requires '>' !in t1 && '>' !in t2
    requires MarkupFree(n) && MarkupFree(text)
    requires n + text == [] || (n + text)[0] != ' '
    ensures Strip(sp + ['<'] + t1 + ['>'] + n + ['<'] + t2 + ['>'] + text) == n + text
  {
    var rest := n + ['<'] + t2 + ['>'] + text;
    assert sp + ['<'] + t1 + ['>'] + n + ['<'] + t2 + ['>'] + text == sp + ['<'] + t1 + ['>'] + rest;
    TagDropped(sp, t1, rest);
    TagDropped(n, t2, text);
    assert MarkupFree(sp);
    VisiblePlainText(sp);
    VisiblePlainText(n);
    VisiblePlainText(text);
    assert sp + n + text == sp + (n + text);
    TrimSpacesBefore(sp, n + text);
  }

  /** Text without markup is returned as it is, less its leading spaces. */
  lemma StripPlainText(s: string)
    requires MarkupFree(s)
    ensures Strip(s) == TrimLeadingSpaces(s)
  {
    VisiblePlainText(s);
  }

  /** Cleaning is idempotent. */
  lemma StripIdempotent(v: string)
    ensures Strip(Strip(v)) == Strip(v)
  {
    var r := Strip(v);
    StripMarkupFree(v);
    VisiblePlainText(r);
  }

  // ---------------------------------------------------------------------------------------
  // The program's loop

  /** `stripVerse`, with its two flags and its output buffer. */
  method StripVerse(v: string) returns (final: string)
    ensures final == Strip(v)
  {
    var started := false;
    final := "";
    var charFoundYet := false;

    assert v[..0] == [];
    for i := 0 to |v|
      invariant started == InsideTagAfter(v[..i])
      invariant final == Strip(v[..i])
      invariant charFoundYet == (final != [])
    {
      var c := v[i..i + 1];
      assert v[..i + 1] == v[..i] + [v[i]] && c == [v[i]];
      StripStep(v[..i], v[i]);

      if c == "\n" {
        continue;
      }

      if c == "<" {
        started := true;
      } else if c == ">" {
        started := false;
      }

      if !started && c != "<" && c != ">" {
        if c == " " && !charFoundYet {
          continue;
        }

        if c != "" {
          charFoundYet := true;
        }

        final := final + c;
      }
    }
    assert v[..|v|] == v;
  }
}
