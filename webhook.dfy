/**
 * The text logic of the messaging webhook: a recognised reply is cut into
 * short "verses" that are synthesised one by one, and the per-verse audio is
 * concatenated into one stream. The speech services are parameters.
 */
module Webhook {
  import opened PyStr

  newtype byte = b: int | 0 <= b < 256

  datatype Option<T> = None | Some(value: T)

  /** The verse length the webhook uses (the default of `max_len`). */
  const DefaultMaxLen: int := 20

  /** A word ending in one of these closes its verse. */
  const TerminalMarks: set<char> := {'.', '!', '?', '\U{0964}', '\U{0E4F}'}

  predicate EndsTerminal(w: string) {
    w != [] && w[|w| - 1] in TerminalMarks
  }

  function Max(a: int, b: int): int {
    if a < b then b else a
  }

  /** The buffer `current` is flushed into a verse once this holds. */
  predicate Closes(current: seq<string>, maxLen: int) {
    current != [] && (|current| >= maxLen || EndsTerminal(current[|current| - 1]))
  }

  /**
   * The word lists of the verses: `current` is the open buffer, `words` the
   * words not yet read. A word is appended to the buffer, which is closed
   * when it reaches `maxLen` words or when the word ends a sentence; what is
   * left in the buffer at the end is one last verse.
   */
  function Groups(words: seq<string>, maxLen: int, current: seq<string>): seq<seq<string>>
    decreases |words|
  {
    if words == [] then
      (if current == [] then [] else [current])
    else
      var c := current + [words[0]];
      if Closes(c, maxLen) then [c] + Groups(words[1..], maxLen, [])
      else Groups(words[1..], maxLen, c)
  }

  /** Each word list joined with single spaces, as `" ".join(current)` does. */
  function Verses(groups: seq<seq<string>>): (vs: seq<string>)
    ensures |vs| == |groups|
  {
    seq(|groups|, k requires 0 <= k < |groups| => Join(groups[k], " "))
  }

  /** What `split_into_verses(text, max_len)` returns. */
  function Segment(text: string, maxLen: int): seq<string> {
    if Strip(text) == [] then []
    else Verses(Groups(Words(text), maxLen, []))
  }

  function Flatten(groups: seq<seq<string>>): seq<string> {
    if groups == [] then [] else groups[0] + Flatten(groups[1..])
  }

  /**
   * One verse's words: at least one, at most `max(maxLen, 1)`, and no word
   * but the last ends a sentence.
   */
  predicate GoodVerse(g: seq<string>, maxLen: int) {
    1 <= |g| <= Max(maxLen, 1)
    && forall j | 0 <= j < |g| - 1 :: !EndsTerminal(g[j])
  }

  /** Every verse is good and every verse but the last was closed by the rule. */
  predicate Segmented(groups: seq<seq<string>>, maxLen: int) {
    (forall k | 0 <= k < |groups| :: GoodVerse(groups[k], maxLen))
    && (forall k | 0 <= k < |groups| - 1 :: Closes(groups[k], maxLen))
  }

  /**
   * The grouping keeps every word, in order, and obeys the closing rule,
   * starting from any buffer that has not yet been closed.
   */
  lemma {:induction false} GroupsShape(words: seq<string>, maxLen: int, current: seq<string>)
    requires |current| < Max(maxLen, 1)
    requires forall j | 0 <= j < |current| :: !EndsTerminal(current[j])
    ensures Flatten(Groups(words, maxLen, current)) == current + words
    ensures Segmented(Groups(words, maxLen, current), maxLen)
    decreases |words|
  {
    if words == [] {
      assert current + words == current;
      if current != [] {
        assert Flatten([current]) == current + Flatten([]);
      }
    } else {
      var c := current + [words[0]];
      assert c + words[1..] == current + words;
      assert forall j | 0 <= j < |c| - 1 :: c[j] == current[j];
      if Closes(c, maxLen) {
        GroupsShape(words[1..], maxLen, []);
        var rest := Groups(words[1..], maxLen, []);
        FlattenCons(c, rest);
        assert GoodVerse(c, maxLen);
        SegmentedCons(c, rest, maxLen);
      } else {
        assert forall j | 0 <= j < |c| :: !EndsTerminal(c[j]);
        GroupsShape(words[1..], maxLen, c);
      }
    }
  }

  lemma FlattenCons(g: seq<string>, rest: seq<seq<string>>)
    ensures Flatten([g] + rest) == g + Flatten(rest)
  {
    assert ([g] + rest)[1..] == rest;
  }

  /** A closed good verse in front of a segmentation gives a segmentation. */
  lemma SegmentedCons(g: seq<string>, rest: seq<seq<string>>, maxLen: int)
    requires GoodVerse(g, maxLen) && Closes(g, maxLen) && Segmented(rest, maxLen)
    ensures Segmented([g] + rest, maxLen)
  {
    var gs := [g] + rest;
    forall k | 1 <= k < |gs|
      ensures gs[k] == rest[k - 1]
    {
    }
  }

  /**
   * Conversely, any segmentation that keeps the words and obeys the rule is
   * the one computed: the rule leaves no choice. `current` is a proper
   * prefix of the first verse still to be produced.
   */
  lemma {:induction false} GroupsUnique(words: seq<string>, maxLen: int, current: seq<string>, groups: seq<seq<string>>)
    requires Segmented(groups, maxLen)
    requires groups == [] ==> current == [] && words == []
    requires groups != [] ==>
      && |current| < |groups[0]| && current == groups[0][..|current|]
      && words == groups[0][|current|..] + Flatten(groups[1..])
    ensures Groups(words, maxLen, current) == groups
    decreases |words|
  {
    if groups != [] {
      var g := groups[0];
      var w := words[0];
      assert w == g[|current|];
      var c := current + [w];
      assert c == g[..|c|];
      if |c| == |g| {
        assert c == g;
        assert words[1..] == Flatten(groups[1..]);
        if |groups| > 1 {
          assert Closes(groups[0], maxLen);
          GroupsUnique(words[1..], maxLen, [], groups[1..]);
          assert groups == [g] + groups[1..];
        } else {
          assert groups[1..] == [];
          if Closes(c, maxLen) {
            assert words[1..] == [];
          }
        }
      } else {
        assert !EndsTerminal(g[|current|]);
        assert words[1..] == g[|c|..] + Flatten(groups[1..]);
        GroupsUnique(words[1..], maxLen, c, groups);
      }
    }
  }

  /**
   * The verses' word lists are exactly the segmentations of `words` that keep
   * every word in order and obey the closing rule.
   */
  lemma GroupsCharacterized(words: seq<string>, maxLen: int, groups: seq<seq<string>>)
    ensures Groups(words, maxLen, []) == groups <==> Flatten(groups) == words && Segmented(groups, maxLen)
  {
    GroupsShape(words, maxLen, []);
    if Flatten(groups) == words && Segmented(groups, maxLen) {
      if groups != [] {
        assert groups[0][0..] == groups[0];
      }
      GroupsUnique(words, maxLen, [], groups);
    }
  }

  /** The word lists of verses, recovered by splitting each verse. */
  function VerseWords(verses: seq<string>): (groups: seq<seq<string>>)
    ensures |groups| == |verses|
  {
    seq(|verses|, k requires 0 <= k < |verses| => Words(verses[k]))
  }

  /**
   * `split_into_verses`: splitting each verse and concatenating the pieces
   * gives `text.split()`; the verses obey the closing rule; each verse is
   * its words joined with single spaces.
   */
  lemma SegmentSpec(text: string, maxLen: int)
    ensures var vs := Segment(text, maxLen);
      Flatten(VerseWords(vs)) == Words(text)
      && Segmented(VerseWords(vs), maxLen)
      && vs == Verses(VerseWords(vs))
  {
    var words := Words(text);
    StripEmptyIff(text);
    WordsEmptyIff(text);
    if Strip(text) != [] {
      var gs := Groups(words, maxLen, []);
      GroupsShape(words, maxLen, []);
      WordsAreWords(text);
      VersesOfGroups(gs, words);
    }
  }

  /** Joining word lists and splitting the verses again gives the lists back. */
  lemma VersesOfGroups(gs: seq<seq<string>>, words: seq<string>)
    requires Flatten(gs) == words
    requires forall j | 0 <= j < |words| :: IsWord(words[j])
    requires forall k | 0 <= k < |gs| :: gs[k] != []
    ensures VerseWords(Verses(gs)) == gs
  {
    var vs := Verses(gs);
    forall k | 0 <= k < |gs|
      ensures VerseWords(vs)[k] == gs[k]
    {
      FlattenMember(gs, k);
      WordsOfJoin(gs[k]);
    }
  }

  lemma {:induction false} FlattenMember(groups: seq<seq<string>>, k: nat)
    requires k < |groups|
    ensures forall j | 0 <= j < |groups[k]| :: groups[k][j] in Flatten(groups)
    decreases k
  {
    if k > 0 {
      FlattenMember(groups[1..], k - 1);
      assert groups[1..][k - 1] == groups[k];
    }
  }

  /** An empty or whitespace-only reply gives no verse, and any other reply some. */
  lemma SegmentEmptyIff(text: string, maxLen: int)
    ensures Segment(text, maxLen) == [] <==> AllSpace(text)
  {
    StripEmptyIff(text);
    WordsEmptyIff(text);
    SegmentSpec(text, maxLen);
    if !AllSpace(text) {
      assert Flatten(VerseWords(Segment(text, maxLen))) != [];
    }
  }

  /** Each verse is non-empty text with between 1 and `max(maxLen, 1)` words. */
  lemma SegmentBounds(text: string, maxLen: int)
    ensures forall k | 0 <= k < |Segment(text, maxLen)| ::
      Segment(text, maxLen)[k] != [] && 1 <= |Words(Segment(text, maxLen)[k])| <= Max(maxLen, 1)
  {
    SegmentSpec(text, maxLen);
    GoodVerses(Segment(text, maxLen), maxLen);
  }

  lemma GoodVerses(vs: seq<string>, maxLen: int)
    requires Segmented(VerseWords(vs), maxLen) && vs == Verses(VerseWords(vs))
    ensures forall k | 0 <= k < |vs| :: vs[k] != [] && GoodVerse(Words(vs[k]), maxLen)
  {
    forall k | 0 <= k < |vs|
      ensures vs[k] != [] && GoodVerse(Words(vs[k]), maxLen)
    {
      var g := VerseWords(vs)[k];
      assert g == Words(vs[k]);
      assert GoodVerse(g, maxLen);
      assert vs[k] == Join(g, " ");
      JoinNonEmpty(g, " ");
    }
  }

  /**
   * Every verse but the last was closed by the rule: it reached `maxLen`
   * words or its last word ends a sentence.
   */
  lemma SegmentClosingRule(text: string, maxLen: int)
    ensures var vs := Segment(text, maxLen);
      forall k | 0 <= k < |vs| - 1 :: Closes(Words(vs[k]), maxLen)
  {
    SegmentSpec(text, maxLen);
    ClosedVerses(Segment(text, maxLen), maxLen);
  }

  lemma ClosedVerses(vs: seq<string>, maxLen: int)
    requires Segmented(VerseWords(vs), maxLen)
    ensures forall k | 0 <= k < |vs| - 1 :: Closes(Words(vs[k]), maxLen)
  {
    forall k | 0 <= k < |vs| - 1
      ensures Closes(Words(vs[k]), maxLen)
    {
      assert VerseWords(vs)[k] == Words(vs[k]);
    }
  }

  /** In no verse does a word before the last end a sentence. */
  lemma SegmentMarksOnlyLast(text: string, maxLen: int)
    ensures var vs := Segment(text, maxLen);
      forall k, j | 0 <= k < |vs| && 0 <= j < |Words(vs[k])| - 1 :: !EndsTerminal(Words(vs[k])[j])
  {
    SegmentSpec(text, maxLen);
    GoodVerses(Segment(text, maxLen), maxLen);
  }

  /** Fixed-size runs of `maxLen` words, the last one possibly shorter. */
  function Chunked(words: seq<string>, maxLen: int): seq<seq<string>>
    requires maxLen >= 1
    decreases |words|
  {
    if words == [] then []
    else if |words| <= maxLen then [words]
    else [words[..maxLen]] + Chunked(words[maxLen..], maxLen)
  }

  lemma {:induction false} ChunkedShape(words: seq<string>, maxLen: int)
    requires maxLen >= 1
    requires forall j | 0 <= j < |words| :: !EndsTerminal(words[j])
    ensures Flatten(Chunked(words, maxLen)) == words
    ensures Segmented(Chunked(words, maxLen), maxLen)
    ensures forall k | 0 <= k < |Chunked(words, maxLen)| - 1 :: |Chunked(words, maxLen)[k]| == maxLen
    ensures |Chunked(words, maxLen)| == CeilDiv(|words|, maxLen)
    decreases |words|
  {
    if words == [] {
    } else if |words| <= maxLen {
      assert Flatten([words]) == words + Flatten([]);
    } else {
      var head, tail := words[..maxLen], words[maxLen..];
      ChunkedShape(tail, maxLen);
      var rest := Chunked(tail, maxLen);
      assert ([head] + rest)[1..] == rest;
      assert head + tail == words;
      assert EndsTerminal(head[maxLen - 1]) == EndsTerminal(words[maxLen - 1]);
    }
  }

  /** `ceil(n / m)`, counted by repeated subtraction. */
  function CeilDiv(n: nat, m: int): nat
    requires m >= 1
  {
    if n == 0 then 0 else if n <= m then 1 else 1 + CeilDiv(n - m, m)
  }

  /** The count agrees with integer division: `ceil(n / m) == (n + m - 1) / m`. */
  lemma {:induction false} CeilDivIsDivision(n: nat, m: int)
    requires m >= 1
    ensures CeilDiv(n, m) == (n + m - 1) / m
    decreases n
  {
    if n == 0 {
      DivSmall(m - 1, m);
    } else if n <= m {
      DivSmall(n - 1, m);
      DivPlusOne(n - 1, m);
    } else {
      CeilDivIsDivision(n - m, m);
      assert n - m + m - 1 == n - 1;
      DivPlusOne(n - 1, m);
    }
  }

  lemma DivSmall(x: int, m: int)
    requires 0 <= x < m
    ensures x / m == 0
  {
  }

  /** Size of the last run when `n >= 1` items are cut into runs of `m`. */
  function LastRun(n: nat, m: int): nat
    requires m >= 1
  {
    if n <= m then n else LastRun(n - m, m)
  }

  /** The last run holds `(n - 1) % m + 1` items: between 1 and `m`. */
  lemma {:induction false} LastRunIsRemainder(n: nat, m: int)
    requires n >= 1 && m >= 1
    ensures LastRun(n, m) == (n - 1) % m + 1
    decreases n
  {
    if n <= m {
      assert (n - 1) % m == n - 1 by {
        DivSmall(n - 1, m);
      }
    } else {
      LastRunIsRemainder(n - m, m);
      ModMinus(n - 1, m);
    }
  }

  lemma ModMinus(x: int, m: int)
    requires x >= m >= 1
    ensures x % m == (x - m) % m
  {
    DivPlusOne(x - m, m);
    var a := x / m;
    MulPred(a, m);
    assert (x - m) / m == a - 1;
  }

  lemma MulPred(a: int, m: int)
    ensures (a - 1) * m == a * m - m
  {
  }

  lemma MulSign(d: int, m: int)
    requires m >= 1
    ensures d >= 1 ==> d * m >= m
    ensures d <= -1 ==> d * m <= -m
  {
  }

  lemma DivPlusOne(x: int, m: int)
    requires x >= 0 && m >= 1
    ensures (x + m) / m == x / m + 1
  {
    var q, r := x / m, x % m;
    var q2, r2 := (x + m) / m, (x + m) % m;
    var d := q2 - q - 1;
    assert d * m == q2 * m - q * m - m by {
      MulPred(q2 - q, m);
      assert (q2 - q) * m == q2 * m - q * m;
    }
    assert d * m == r - r2;
    MulSign(d, m);
  }

  /**
   * With no sentence-ending word and `maxLen >= 1`, `n` words give
   * `ceil(n / maxLen)` verses (see `CeilDivIsDivision`), all of `maxLen`
   * words except the last.
   */
  lemma SegmentNoMarks(text: string, maxLen: int)
    requires maxLen >= 1
    requires forall j | 0 <= j < |Words(text)| :: !EndsTerminal(Words(text)[j])
    ensures |Segment(text, maxLen)| == CeilDiv(|Words(text)|, maxLen)
    ensures forall k | 0 <= k < |Segment(text, maxLen)| - 1 :: |Words(Segment(text, maxLen)[k])| == maxLen
  {
    var words := Words(text);
    SegmentIsChunked(text, maxLen);
    ChunkedShape(words, maxLen);
    FullVerses(Segment(text, maxLen), Chunked(words, maxLen), maxLen);
  }

  lemma FullVerses(vs: seq<string>, cs: seq<seq<string>>, maxLen: int)
    requires VerseWords(vs) == cs
    requires forall k | 0 <= k < |cs| - 1 :: |cs[k]| == maxLen
    ensures |vs| == |cs|
    ensures forall k | 0 <= k < |vs| - 1 :: |Words(vs[k])| == maxLen
  {
    forall k | 0 <= k < |vs| - 1
      ensures |Words(vs[k])| == maxLen
    {
      assert VerseWords(vs)[k] == Words(vs[k]);
    }
  }

  /** ... and the last verse holds the words the full verses leave over. */
  lemma SegmentNoMarksLast(text: string, maxLen: int)
    requires maxLen >= 1 && Words(text) != []
    requires forall j | 0 <= j < |Words(text)| :: !EndsTerminal(Words(text)[j])
    ensures var vs := Segment(text, maxLen);
      vs != [] && |Words(vs[|vs| - 1])| == LastRun(|Words(text)|, maxLen)
  {
    var words := Words(text);
    var vs := Segment(text, maxLen);
    SegmentIsChunked(text, maxLen);
    LastChunk(words, maxLen);
    LastVerse(vs, |vs| - 1);
  }

  lemma LastVerse(vs: seq<string>, k: nat)
    requires k < |vs|
    ensures Words(vs[k]) == VerseWords(vs)[k]
  {
  }

  /** Without sentence-ending words the verses are the fixed-size runs. */
  lemma SegmentIsChunked(text: string, maxLen: int)
    requires maxLen >= 1
    requires forall j | 0 <= j < |Words(text)| :: !EndsTerminal(Words(text)[j])
    ensures VerseWords(Segment(text, maxLen)) == Chunked(Words(text), maxLen)
  {
    var words := Words(text);
    ChunkedShape(words, maxLen);
    GroupsCharacterized(words, maxLen, Chunked(words, maxLen));
    SegmentSpec(text, maxLen);
    GroupsCharacterized(words, maxLen, VerseWords(Segment(text, maxLen)));
  }

  lemma {:induction false} LastChunk(words: seq<string>, maxLen: int)
    requires maxLen >= 1 && words != []
    ensures var cs := Chunked(words, maxLen);
      cs != [] && |cs[|cs| - 1]| == LastRun(|words|, maxLen)
    decreases |words|
  {
    if |words| > maxLen {
      LastChunk(words[maxLen..], maxLen);
      var rest := Chunked(words[maxLen..], maxLen);
      assert ([words[..maxLen]] + rest)[|rest|] == rest[|rest| - 1];
    }
  }

  /** 25 words without a full stop and the default length: 20 words, then 5. */
  lemma TwentyFiveWords(text: string)
    requires |Words(text)| == 25
    requires forall j | 0 <= j < 25 :: !EndsTerminal(Words(text)[j])
    ensures var vs := Segment(text, DefaultMaxLen);
      |vs| == 2 && |Words(vs[0])| == 20 && |Words(vs[1])| == 5
  {
    SegmentNoMarks(text, DefaultMaxLen);
    SegmentNoMarksLast(text, DefaultMaxLen);
  }

  /**
   * One word of the loop: with `all == groups + Groups(words[i..], .., current)`
   * before the word, the same split holds after it, with the buffer either
   * closed into `groups` or extended.
   */
  lemma GroupsStep(all: seq<seq<string>>, groups: seq<seq<string>>, words: seq<string>,
                   i: nat, maxLen: int, current: seq<string>)
    requires i < |words|
    requires all == groups + Groups(words[i..], maxLen, current)
    ensures var c := current + [words[i]];
      if Closes(c, maxLen) then all == (groups + [c]) + Groups(words[i + 1..], maxLen, [])
      else all == groups + Groups(words[i + 1..], maxLen, c)
  {
    assert words[i..][1..] == words[i + 1..];
    var c := current + [words[i]];
    if Closes(c, maxLen) {
      assert Groups(words[i..], maxLen, current) == [c] + Groups(words[i + 1..], maxLen, []);
    }
  }

  /** Closing one more word list appends its verse. */
  lemma VersesSnoc(groups: seq<seq<string>>, g: seq<string>)
    ensures Verses(groups + [g]) == Verses(groups) + [Join(g, " ")]
  {
  }

  /**
   * `split_into_verses(text, max_len)`: one pass over `text.split()` with a
   * buffer of words that is flushed into a verse by the closing rule.
   */
  method SplitIntoVerses(text: string, maxLen: int) returns (verses: seq<string>)
    ensures verses == Segment(text, maxLen)
  {
    if Strip(text) == [] {
      return [];
    }
    var words := Words(text);
    var current: seq<string> := [];
    verses := [];
    ghost var groups: seq<seq<string>> := [];
    for i := 0 to |words|
      invariant Groups(words, maxLen, []) == groups + Groups(words[i..], maxLen, current)
      invariant verses == Verses(groups)
    {
      GroupsStep(Groups(words, maxLen, []), groups, words, i, maxLen, current);
      current := current + [words[i]];
      if |current| >= maxLen || EndsTerminal(words[i]) {
        VersesSnoc(groups, current);
        verses := verses + [Join(current, " ")];
        groups := groups + [current];
        current := [];
      }
    }
    assert words[|words|..] == [];
    if current != [] {
      VersesSnoc(groups, current);
      verses := verses + [Join(current, " ")];
      groups := groups + [current];
    }
  }

  /** The audio for `verses`: each verse's synthesis, in order, back to back. */
  function Audio(verses: seq<string>, speak: string -> seq<byte>): seq<byte> {
    if verses == [] then [] else speak(verses[0]) + Audio(verses[1..], speak)
  }

  /**
   * The audio of consecutive runs of verses is the concatenation of their
   * audio, and no verses give no audio.
   */
  lemma {:induction false} AudioAppend(a: seq<string>, b: seq<string>, speak: string -> seq<byte>)
    ensures Audio([], speak) == []
    ensures Audio(a + b, speak) == Audio(a, speak) + Audio(b, speak)
    decreases |a|
  {
    if a == [] {
      assert a + b == b;
    } else {
      assert (a + b)[1..] == a[1..] + b;
      AudioAppend(a[1..], b, speak);
    }
  }

  /**
   * The text-to-speech service: `speak` is what it answers for a text, and
   * `requests` records every text sent to it, in order.
   */
  class SpeechService {
    const speak: string -> seq<byte>
    var requests: seq<string>

    constructor (speak: string -> seq<byte>)
      ensures this.speak == speak && requests == []
    {
      this.speak := speak;
      requests := [];
    }

    /** `text_to_speech(text)`: one request, answered with the audio for `text`. */
    method TextToSpeech(text: string) returns (audio: seq<byte>)
      modifies this
      ensures requests == old(requests) + [text]
      ensures audio == speak(text)
    {
      requests := requests + [text];
      audio := speak(text);
    }
  }

  /**
   * The assembly loop of `webhook`: one synthesis request per verse, in verse
   * order, and the returned audio appended to `audio_out`.
   */
  method AssembleAudio(verses: seq<string>, tts: SpeechService) returns (audioOut: seq<byte>)
    modifies tts
    ensures audioOut == Audio(verses, tts.speak)
    ensures tts.requests == old(tts.requests) + verses
  {
    audioOut := [];
    for i := 0 to |verses|
      invariant audioOut == Audio(verses[..i], tts.speak)
      invariant tts.requests == old(tts.requests) + verses[..i]
    {
      var chunk := tts.TextToSpeech(verses[i]);
      AudioAppend(verses[..i], [verses[i]], tts.speak);
      assert verses[..i + 1] == verses[..i] + [verses[i]];
      audioOut := audioOut + chunk;
    }
    assert verses[..|verses|] == verses;
  }

  /** An uploaded form file: werkzeug's `FileStorage` is false when its file name is empty. */
  datatype Upload = Upload(filename: string, content: seq<byte>)

  predicate HasFile(file: Option<Upload>) {
    file.Some? && file.value.filename != []
  }

  datatype Body<J> =
    | ErrorBody(error: string)
    | Processed(receivedText: string, verses: seq<string>, llmResponse: J)

  datatype Response<J> = Response(status: int, body: Body<J>)

  const NoFileMessage: string := "No audio file received"

  /** The guard at the top of `webhook`: `None` lets the request through. */
  function MissingFileGuard<J>(file: Option<Upload>): (r: Option<Response<J>>)
    ensures r.None? <==> HasFile(file)
    ensures r.Some? ==> r.value.status == 400 && r.value.body == ErrorBody(NoFileMessage)
  {
    if !HasFile(file) then Some(Response(400, ErrorBody(NoFileMessage))) else None
  }

  /**
   * `webhook`: without a file, 400 and nothing else happens; otherwise the
   * recognised text, its verses and the downstream answer for the text and
   * the assembled audio. Speech recognition and forwarding are parameters.
   */
  method HandleWebhook<J>(file: Option<Upload>, transcribe: seq<byte> -> string,
                          tts: SpeechService, forward: (string, seq<byte>) -> J)
    returns (response: Response<J>)
    modifies tts
    ensures !HasFile(file) ==>
      response == Response(400, ErrorBody(NoFileMessage)) && tts.requests == old(tts.requests)
    ensures HasFile(file) ==>
      var text := transcribe(file.value.content);
      var verses := Segment(text, DefaultMaxLen);
      response == Response(200, Processed(text, verses, forward(text, Audio(verses, tts.speak))))
      && tts.requests == old(tts.requests) + verses
  {
    var rejected := MissingFileGuard<J>(file);
    if rejected.Some? {
      return rejected.value;
    }
    var text := transcribe(file.value.content);
    var verses := SplitIntoVerses(text, DefaultMaxLen);
    var audioOut := AssembleAudio(verses, tts);
    var result := forward(text, audioOut);
    response := Response(200, Processed(text, verses, result));
  }
}
