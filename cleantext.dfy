/**
 * The Thai text normaliser applied to every document before it is indexed:
 * three regular-expression passes that remove stray whitespace inside Thai
 * words, one pass that collapses whitespace runs, and a final strip. Each
 * pass is written the way the regular-expression engine runs it: a scan from
 * left to right that, where the pattern matches, emits the replacement and
 * resumes after the matched text.
 */
module CleanText {
  import opened PyStr

  /** The class `[ก-๙]`: U+0E01 to U+0E59. */
  predicate IsThai(c: char) {
    '\U{0E01}' <= c <= '\U{0E59}'
  }

  /** The class `[่-๋]`: the tone marks U+0E48 to U+0E4B. */
  predicate IsToneMark(c: char) {
    '\U{0E48}' <= c <= '\U{0E4B}'
  }

  /** The class `[เแโใไ]`: the vowels written before their consonant. */
  predicate IsLeadingVowel(c: char) {
    c in {'\U{0E40}', '\U{0E41}', '\U{0E42}', '\U{0E43}', '\U{0E44}'}
  }

  /** Pass 1, `([ก-๙])\s(?=[ก-๙่-๋])` replaced by the Thai character. */
  function JoinThaiGaps(s: string): (r: string)
    decreases |s|
  {
    if s == [] then []
    else if |s| >= 3 && IsThai(s[0]) && IsSpace(s[1]) && (IsThai(s[2]) || IsToneMark(s[2])) then
      [s[0]] + JoinThaiGaps(s[2..])
    else
      [s[0]] + JoinThaiGaps(s[1..])
  }

  /** Pass 2, `\s([่-๋])` replaced by the tone mark. */
  function AttachToneMarks(s: string): (r: string)
    decreases |s|
  {
    if s == [] then []
    else if |s| >= 2 && IsSpace(s[0]) && IsToneMark(s[1]) then
      [s[1]] + AttachToneMarks(s[2..])
    else
      [s[0]] + AttachToneMarks(s[1..])
  }

  /** Pass 3, `([เแโใไ])\s` replaced by the vowel. */
  function AttachLeadingVowels(s: string): (r: string)
    decreases |s|
  {
    if s == [] then []
    else if |s| >= 2 && IsLeadingVowel(s[0]) && IsSpace(s[1]) then
      [s[0]] + AttachLeadingVowels(s[2..])
    else
      [s[0]] + AttachLeadingVowels(s[1..])
  }

  /** Pass 4, `\s+` replaced by one space. */
  function CollapseSpaces(s: string): (r: string)
    decreases |s|
  {
    if s == [] then []
    else if IsSpace(s[0]) then [' '] + CollapseSpaces(LStrip(s[1..]))
    else [s[0]] + CollapseSpaces(s[1..])
  }

  /** `clean_text`: the four passes in order, then `strip()`. */
  function Clean(text: string): string {
    Strip(CollapseSpaces(AttachLeadingVowels(AttachToneMarks(JoinThaiGaps(text)))))
  }

  // ---------------------------------------------------------------------
  // What each of the first three passes deletes, stated by position in its
  // input, independently of how the scan finds it.

  datatype Rule = ThaiGap | BeforeToneMark | AfterLeadingVowel

  /** Whether `rule` deletes the character at position `j` of `s`. */
  predicate Deletes(rule: Rule, s: string, j: int)
    requires 0 <= j < |s|
  {
    match rule
    case ThaiGap => 0 < j < |s| - 1 && IsThai(s[j - 1]) && IsSpace(s[j]) && IsThai(s[j + 1])
    case BeforeToneMark => IsSpace(s[j]) && j + 1 < |s| && IsToneMark(s[j + 1])
    case AfterLeadingVowel => 0 < j && IsLeadingVowel(s[j - 1]) && IsSpace(s[j])
  }

  /** The characters of `s` from position `i` on that `rule` does not delete. */
  function Kept(rule: Rule, s: string, i: nat): string
    requires i <= |s|
    decreases |s| - i
  {
    if i == |s| then []
    else (if Deletes(rule, s, i) then [] else [s[i]]) + Kept(rule, s, i + 1)
  }

  lemma ToneMarksAreThai(c: char)
    ensures IsToneMark(c) ==> IsThai(c)
    ensures IsThai(c) || IsLeadingVowel(c) ==> !IsSpace(c)
  {
  }

  lemma {:induction false} JoinThaiGapsFrom(s: string, i: nat)
    requires i <= |s|
    requires 0 < i < |s| ==> !Deletes(ThaiGap, s, i)
    ensures JoinThaiGaps(s[i..]) == Kept(ThaiGap, s, i)
    decreases |s| - i
  {
    if i < |s| {
      var t := s[i..];
      if |t| >= 3 && IsThai(t[0]) && IsSpace(t[1]) && (IsThai(t[2]) || IsToneMark(t[2])) {
        ToneMarksAreThai(t[2]);
        assert t[2..] == s[i + 2..];
        JoinThaiGapsFrom(s, i + 2);
        assert Deletes(ThaiGap, s, i + 1);
      } else {
        assert t[1..] == s[i + 1..];
        ToneMarksAreThai(s[i]);
        JoinThaiGapsFrom(s, i + 1);
      }
    }
  }

  /** Pass 1 deletes exactly the whitespace with a Thai character on each side. */
  lemma JoinThaiGapsExact(s: string)
    ensures JoinThaiGaps(s) == Kept(ThaiGap, s, 0)
  {
    JoinThaiGapsFrom(s, 0);
    assert s[0..] == s;
  }

  lemma {:induction false} AttachToneMarksFrom(s: string, i: nat)
    requires i <= |s|
    ensures AttachToneMarks(s[i..]) == Kept(BeforeToneMark, s, i)
    decreases |s| - i
  {
    if i < |s| {
      var t := s[i..];
      if |t| >= 2 && IsSpace(t[0]) && IsToneMark(t[1]) {
        ToneMarksAreThai(t[1]);
        assert t[2..] == s[i + 2..];
        AttachToneMarksFrom(s, i + 2);
      } else {
        assert t[1..] == s[i + 1..];
        AttachToneMarksFrom(s, i + 1);
      }
    }
  }

  /**
   * Pass 2 deletes exactly the whitespace followed by a tone mark in its
   * input; being a single pass, of two spaces before a tone mark it deletes
   * only the second.
   */
  lemma AttachToneMarksExact(s: string)
    ensures AttachToneMarks(s) == Kept(BeforeToneMark, s, 0)
  {
    AttachToneMarksFrom(s, 0);
    assert s[0..] == s;
  }

  /** Pass 2 is a single pass: of two whitespace characters before a tone mark, one stays. */
  lemma TwoSpacesBeforeToneMark(a: char, b: char, t: char)
    requires IsSpace(a) && IsSpace(b) && IsToneMark(t)
    ensures AttachToneMarks([a, b, t]) == [a, t]
  {
    ToneMarksAreThai(t);
    assert [a, b, t][1..] == [b, t];
    assert [b, t][2..] == [];
    assert AttachToneMarks([b, t]) == [t];
  }

  lemma {:induction false} AttachLeadingVowelsFrom(s: string, i: nat)
    requires i <= |s|
    requires 0 < i < |s| ==> !Deletes(AfterLeadingVowel, s, i)
    ensures AttachLeadingVowels(s[i..]) == Kept(AfterLeadingVowel, s, i)
    decreases |s| - i
  {
    if i < |s| {
      var t := s[i..];
      if |t| >= 2 && IsLeadingVowel(t[0]) && IsSpace(t[1]) {
        ToneMarksAreThai(t[0]);
        assert t[2..] == s[i + 2..];
        AttachLeadingVowelsFrom(s, i + 2);
      } else {
        assert t[1..] == s[i + 1..];
        AttachLeadingVowelsFrom(s, i + 1);
      }
    }
  }

  /** Pass 3 deletes exactly the whitespace that follows a leading vowel. */
  lemma AttachLeadingVowelsExact(s: string)
    ensures AttachLeadingVowels(s) == Kept(AfterLeadingVowel, s, 0)
  {
    AttachLeadingVowelsFrom(s, 0);
    assert s[0..] == s;
  }

  // ---------------------------------------------------------------------
  // What every pass keeps.

  lemma {:induction false} NonSpaceAppend(a: string, b: string)
    ensures NonSpace(a + b) == NonSpace(a) + NonSpace(b)
    decreases |a|
  {
    if a == [] {
      assert a + b == b;
    } else {
      assert (a + b)[1..] == a[1..] + b;
      NonSpaceAppend(a[1..], b);
    }
  }

  lemma {:induction false} NonSpaceOfSpaces(s: string)
    requires AllSpace(s)
    ensures NonSpace(s) == []
    decreases |s|
  {
    if s != [] {
      NonSpaceOfSpaces(s[1..]);
    }
  }

  /** A rule deletes only whitespace, and never more characters than it has. */
  lemma {:induction false} KeptKeepsNonSpace(rule: Rule, s: string, i: nat)
    requires i <= |s|
    ensures NonSpace(Kept(rule, s, i)) == NonSpace(s[i..])
    ensures |Kept(rule, s, i)| <= |s| - i
    decreases |s| - i
  {
    if i < |s| {
      KeptKeepsNonSpace(rule, s, i + 1);
      var head := if Deletes(rule, s, i) then [] else [s[i]];
      NonSpaceAppend(head, Kept(rule, s, i + 1));
      assert s[i..] == [s[i]] + s[i + 1..];
      NonSpaceAppend([s[i]], s[i + 1..]);
    }
  }

  /** Without whitespace a rule has nothing to delete. */
  lemma {:induction false} KeptNoSpace(rule: Rule, s: string, i: nat)
    requires i <= |s| && NoSpace(s)
    ensures Kept(rule, s, i) == s[i..]
    decreases |s| - i
  {
    if i < |s| {
      KeptNoSpace(rule, s, i + 1);
      assert s[i..] == [s[i]] + s[i + 1..];
    }
  }

  /** Whitespace holds only single `' '` characters. */
  predicate SingleSpaced(s: string) {
    forall j | 0 <= j < |s| && IsSpace(s[j]) :: s[j] == ' ' && (j + 1 < |s| ==> !IsSpace(s[j + 1]))
  }

  /** Pass 4 keeps the non-whitespace characters, in order. */
  lemma {:induction false} CollapseSpacesKeepsNonSpace(s: string)
    ensures NonSpace(CollapseSpaces(s)) == NonSpace(s)
    decreases |s|
  {
    if s == [] {
    } else if IsSpace(s[0]) {
      var rest := LStrip(s[1..]);
      CollapseSpacesKeepsNonSpace(rest);
      NonSpaceAppend([' '], CollapseSpaces(rest));
      LStripSkipsSpace(s[1..]);
      var lead := s[1..][..|s[1..]| - |rest|];
      assert s[1..] == lead + rest;
      NonSpaceOfSpaces(lead);
      NonSpaceAppend(lead, rest);
      assert s == [s[0]] + s[1..];
      NonSpaceAppend([s[0]], s[1..]);
    } else {
      CollapseSpacesKeepsNonSpace(s[1..]);
      NonSpaceAppend([s[0]], CollapseSpaces(s[1..]));
      assert s == [s[0]] + s[1..];
      NonSpaceAppend([s[0]], s[1..]);
    }
  }

  /**
   * Pass 4 leaves only single `' '` characters as whitespace, does not
   * lengthen the text, and keeps a non-whitespace first character.
   */
  lemma {:induction false} CollapseSpacesShape(s: string)
    ensures SingleSpaced(CollapseSpaces(s))
    ensures |CollapseSpaces(s)| <= |s|
    ensures s != [] && !IsSpace(s[0]) ==> CollapseSpaces(s) != [] && CollapseSpaces(s)[0] == s[0]
    decreases |s|
  {
    if s == [] {
    } else if IsSpace(s[0]) {
      var rest := LStrip(s[1..]);
      CollapseSpacesShape(rest);
      var r := CollapseSpaces(rest);
      assert r == [] || !IsSpace(r[0]);
      SingleSpacedCons(' ', r);
    } else {
      CollapseSpacesShape(s[1..]);
      SingleSpacedCons(s[0], CollapseSpaces(s[1..]));
    }
  }

  lemma SingleSpacedCons(c: char, r: string)
    requires SingleSpaced(r)
    requires IsSpace(c) ==> c == ' ' && (r == [] || !IsSpace(r[0]))
    ensures SingleSpaced([c] + r)
  {
    var t := [c] + r;
    forall j | 0 <= j < |t| && IsSpace(t[j])
      ensures t[j] == ' ' && (j + 1 < |t| ==> !IsSpace(t[j + 1]))
    {
      if j > 0 {
        assert t[j] == r[j - 1];
        if j + 1 < |t| {
          assert t[j + 1] == r[j];
        }
      }
    }
  }

  /** Pass 4 leaves text without whitespace as it is. */
  lemma {:induction false} CollapseSpacesNoSpace(s: string)
    requires NoSpace(s)
    ensures CollapseSpaces(s) == s
    decreases |s|
  {
    if s != [] {
      CollapseSpacesNoSpace(s[1..]);
      assert s == [s[0]] + s[1..];
    }
  }

  /** The strip removes whitespace only. */
  lemma StripKeepsNonSpace(s: string)
    ensures NonSpace(Strip(s)) == NonSpace(s)
  {
    var r := Strip(s);
    var l := LStrip(s);
    var front := s[..|s| - |l|];
    assert s == front + l;
    LStripSkipsSpace(s);
    NonSpaceOfSpaces(front);
    NonSpaceAppend(front, l);
    RStripSkipsSpace(l);
    var back := l[|r|..];
    assert l == r + back;
    NonSpaceOfSpaces(back);
    NonSpaceAppend(r, back);
  }

  /** A slice of single-spaced text is single-spaced. */
  lemma SingleSpacedSlice(s: string, i: nat, n: nat)
    requires i + n <= |s| && SingleSpaced(s)
    ensures SingleSpaced(s[i..i + n])
  {
    var r := s[i..i + n];
    forall j | 0 <= j < |r| && IsSpace(r[j])
      ensures r[j] == ' ' && (j + 1 < |r| ==> !IsSpace(r[j + 1]))
    {
      assert r[j] == s[i + j];
      if j + 1 < |r| {
        assert r[j + 1] == s[i + j + 1];
      }
    }
  }

  // ---------------------------------------------------------------------
  // What `clean_text` promises as a whole.

  /** Stripping single-spaced text leaves it single-spaced, with no whitespace at either end. */
  lemma StripSingleSpaced(s: string)
    requires SingleSpaced(s)
    ensures var r := Strip(s); r == [] || (!IsSpace(r[0]) && !IsSpace(r[|r| - 1]))
    ensures SingleSpaced(Strip(s)) && |Strip(s)| <= |s|
  {
    var i := StripBounds(s);
    SingleSpacedSlice(s, i, |Strip(s)|);
  }

  /** `clean_text` keeps the non-whitespace characters, unchanged and in order. */
  lemma CleanKeepsNonSpace(text: string)
    ensures NonSpace(Clean(text)) == NonSpace(text)
  {
    var s3 := AttachLeadingVowels(AttachToneMarks(JoinThaiGaps(text)));
    PassesKeepNonSpace(text);
    var s4 := CollapseSpaces(s3);
    CollapseSpacesKeepsNonSpace(s3);
    StripKeepsNonSpace(s4);
  }

  /**
   * The result of `clean_text` has no leading or trailing whitespace, no
   * whitespace but single `' '` characters, and is no longer than the input.
   */
  lemma CleanShape(text: string)
    ensures var r := Clean(text); r == [] || (!IsSpace(r[0]) && !IsSpace(r[|r| - 1]))
    ensures SingleSpaced(Clean(text))
    ensures |Clean(text)| <= |text|
  {
    var s3 := AttachLeadingVowels(AttachToneMarks(JoinThaiGaps(text)));
    PassesKeepNonSpace(text);
    var s4 := CollapseSpaces(s3);
    CollapseSpacesShape(s3);
    StripSingleSpaced(s4);
  }

  /** The first three passes delete whitespace only. */
  lemma PassesKeepNonSpace(text: string)
    ensures var s3 := AttachLeadingVowels(AttachToneMarks(JoinThaiGaps(text)));
      NonSpace(s3) == NonSpace(text) && |s3| <= |text|
  {
    var s1 := JoinThaiGaps(text);
    var s2 := AttachToneMarks(s1);
    JoinThaiGapsExact(text);
    AttachToneMarksExact(s1);
    AttachLeadingVowelsExact(s2);
    assert text[0..] == text && s1[0..] == s1 && s2[0..] == s2;
    KeptKeepsNonSpace(ThaiGap, text, 0);
    KeptKeepsNonSpace(BeforeToneMark, s1, 0);
    KeptKeepsNonSpace(AfterLeadingVowel, s2, 0);
  }

  /** Text without whitespace comes back unchanged. */
  lemma CleanNoSpace(text: string)
    requires NoSpace(text)
    ensures Clean(text) == text
  {
    var s1 := JoinThaiGaps(text);
    var s2 := AttachToneMarks(s1);
    var s3 := AttachLeadingVowels(s2);
    JoinThaiGapsExact(text);
    KeptNoSpace(ThaiGap, text, 0);
    assert s1 == text;
    AttachToneMarksExact(s1);
    KeptNoSpace(BeforeToneMark, s1, 0);
    AttachLeadingVowelsExact(s2);
    KeptNoSpace(AfterLeadingVowel, s2, 0);
    assert s3 == text;
    CollapseSpacesNoSpace(s3);
    NoSpaceLStrip(text);
    if text != [] {
      assert !IsSpace(text[|text| - 1]);
    }
  }

  /** A run without whitespace goes through pass 4 unchanged. */
  lemma {:induction false} CollapseSpacesWord(a: string, b: string)
    requires NoSpace(a)
    ensures CollapseSpaces(a + b) == a + CollapseSpaces(b)
    decreases |a|
  {
    if a == [] {
      assert a + b == b;
    } else {
      assert (a + b)[1..] == a[1..] + b;
      CollapseSpacesWord(a[1..], b);
    }
  }

  /** Pass 4 turns whitespace-only text into at most one space. */
  lemma CollapseSpacesOfSpaces(s: string)
    requires AllSpace(s)
    ensures CollapseSpaces(s) == [] || CollapseSpaces(s) == " "
  {
    if s != [] {
      assert AllSpace(s[1..]);
    }
  }

  lemma {:induction false} RStripAppend(a: string, b: string)
    requires !AllSpace(b)
    ensures RStrip(a + b) == a + RStrip(b)
    decreases |b|
  {
    if IsSpace(b[|b| - 1]) {
      var b' := b[..|b| - 1];
      assert !AllSpace(b');
      assert (a + b)[..|a + b| - 1] == a + b';
      RStripAppend(a, b');
    }
  }

  lemma WordsLStrip(s: string)
    ensures Words(LStrip(s)) == Words(s)
  {
    NoSpaceLStrip(LStrip(s));
  }

  /**
   * The last two steps, pass 4 and the strip, are `" ".join(s.split())`:
   * the words of their input, in order, separated by single spaces.
   */
  lemma {:induction false} StripCollapseIsJoinedWords(x: string)
    ensures Strip(CollapseSpaces(x)) == Join(Words(x), " ")
    decreases |x|
  {
    var t := LStrip(x);
    if t == [] {
      StripCollapseOfSpaces(x);
    } else {
      StripCollapseLeading(x);
      var n := WordLen(t);
      assert !IsSpace(t[0]);
      assert n >= 1;
      WordLenNoSpace(t);
      var w, rest := t[..n], t[n..];
      SplitAt(t, n);
      assert IsWord(w);
      assert Words(x) == [w] + Words(rest);
      var u := LStrip(rest);
      WordsLStrip(rest);
      if u == [] {
        StripCollapseLastWord(w, rest);
      } else {
        StripCollapseIsJoinedWords(u);
        StripCollapseNextWord(w, rest);
        WordsEmptyIff(u);
        var ws := Words(u);
        assert ([w] + ws)[1..] == ws;
      }
    }
  }

  lemma StripCollapseOfSpaces(x: string)
    requires LStrip(x) == []
    ensures Strip(CollapseSpaces(x)) == [] && Words(x) == []
  {
    LStripEmpty(x);
    CollapseSpacesOfSpaces(x);
    assert LStrip(" ") == [];
  }

  lemma StripCollapseLeading(x: string)
    ensures Strip(CollapseSpaces(x)) == Strip(CollapseSpaces(LStrip(x)))
  {
    var t := LStrip(x);
    if x != t && t != [] {
      assert IsSpace(x[0]) && LStrip(x[1..]) == t;
      assert ([' '] + CollapseSpaces(t))[1..] == CollapseSpaces(t);
    } else if t == [] {
      StripCollapseOfSpaces(x);
    }
  }

  lemma StripCollapseLastWord(w: string, rest: string)
    requires IsWord(w) && LStrip(rest) == []
    ensures Strip(CollapseSpaces(w + rest)) == w
  {
    CollapseSpacesWord(w, rest);
    LStripEmpty(rest);
    CollapseSpacesOfSpaces(rest);
    NoSpaceLStrip(w);
    assert RStrip(w) == w;
    if CollapseSpaces(rest) == [] {
      assert w + [] == w;
    } else {
      var ws := w + " ";
      NoSpaceLStrip(ws);
      assert ws[..|ws| - 1] == w;
      assert RStrip(ws) == RStrip(w);
    }
  }

  lemma StripCollapseNextWord(w: string, rest: string)
    requires IsWord(w) && rest != [] && IsSpace(rest[0]) && LStrip(rest) != []
    ensures Strip(CollapseSpaces(w + rest)) == w + " " + Strip(CollapseSpaces(LStrip(rest)))
  {
    var u := LStrip(rest);
    CollapseSpacesWord(w, rest);
    assert LStrip(rest[1..]) == u;
    var cu := CollapseSpaces(u);
    assert CollapseSpaces(w + rest) == (w + " ") + cu;
    NoSpaceLStrip(CollapseSpaces(w + rest));
    CollapseSpacesShape(u);
    NoSpaceLStrip(cu);
    assert !AllSpace(cu);
    RStripAppend(w + " ", cu);
  }

  /**
   * So `clean_text` is the first three passes followed by
   * `" ".join(s.split())`.
   */
  lemma CleanIsJoinedWords(text: string)
    ensures Clean(text) == Join(Words(AttachLeadingVowels(AttachToneMarks(JoinThaiGaps(text)))), " ")
  {
    StripCollapseIsJoinedWords(AttachLeadingVowels(AttachToneMarks(JoinThaiGaps(text))));
  }

  /** The result is empty exactly when the input is empty or only whitespace. */
  lemma CleanEmptyIff(text: string)
    ensures Clean(text) == [] <==> AllSpace(text)
  {
    CleanKeepsNonSpace(text);
    CleanShape(text);
    var r := Clean(text);
    NonSpaceEmptyIff(text);
    NonSpaceEmptyIff(r);
  }

  lemma {:induction false} NonSpaceEmptyIff(s: string)
    ensures NonSpace(s) == [] <==> AllSpace(s)
    decreases |s|
  {
    if s != [] {
      NonSpaceEmptyIff(s[1..]);
      assert AllSpace(s) <==> IsSpace(s[0]) && AllSpace(s[1..]);
    }
  }
}
