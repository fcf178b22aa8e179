/**
 * The two tools the voice agent offers its language model: the canned
 * weather lookup, and the museum question tool, which formats the documents
 * retrieved for a question into one bounded answer. The retrieval itself is
 * not modelled: the retrieved page contents are the input.
 */
module Museum {
  import opened PyStr

  /** The answer when retrieval finds nothing ("Sorry, no information related to this question was found"). */
  const NotFoundMessage: string := "ขออภัยค่ะ ไม่พบข้อมูลที่เกี่ยวข้องกับคำถามนี้"

  /** How many characters of the joined contents are kept. */
  const AnswerLimit: nat := 500

  const Ellipsis: string := "..."

  const WeatherReport: string := "sunny with a temperature of 70 degrees."

  /** `lookup_weather`: the same canned report for every place. */
  function LookupWeather(location: string, latitude: string, longitude: string): string {
    WeatherReport
  }

  /** The weather report depends on none of its arguments. */
  lemma WeatherIgnoresArguments(location: string, latitude: string, longitude: string,
                                location': string, latitude': string, longitude': string)
    ensures LookupWeather(location, latitude, longitude) == LookupWeather(location', latitude', longitude')
    ensures LookupWeather(location, latitude, longitude) == WeatherReport
  {
  }

  /** Python's `s[:n]` for `n >= 0`. */
  function Take(s: string, n: nat): (r: string)
    ensures |r| <= n && |r| <= |s|
    ensures |s| <= n ==> r == s
    ensures |s| > n ==> |r| == n
    ensures r == s[..|r|]
  {
    if |s| <= n then s else s[..n]
  }

  /** `s.startswith(p)` */
  predicate IsPrefix(p: string, s: string) {
    |p| <= |s| && s[..|p|] == p
  }

  /** `s.endswith(suffix)` */
  predicate EndsWith(s: string, suffix: string) {
    |suffix| <= |s| && s[|s| - |suffix|..] == suffix
  }

  /** The page contents, each stripped, joined with newlines. */
  function JoinedContents(docs: seq<string>): string {
    Join(seq(|docs|, k requires 0 <= k < |docs| => Strip(docs[k])), "\n")
  }

  /**
   * `ask_about_museum` after retrieval: the fixed apology when nothing was
   * found, otherwise the first 500 characters of the joined contents
   * followed by "...", whether or not anything was cut.
   */
  function AskAboutMuseum(docs: seq<string>): (answer: string)
    ensures docs == [] ==> answer == NotFoundMessage
    ensures docs != [] ==> |Ellipsis| <= |answer| <= AnswerLimit + |Ellipsis|
    ensures docs != [] ==> EndsWith(answer, Ellipsis)
    ensures docs != [] ==> IsPrefix(answer[..|answer| - |Ellipsis|], JoinedContents(docs))
    ensures docs != [] && |JoinedContents(docs)| <= AnswerLimit ==> answer == JoinedContents(docs) + Ellipsis
    ensures docs != [] && |JoinedContents(docs)| > AnswerLimit ==> |answer| == AnswerLimit + |Ellipsis|
  {
    if docs == [] then NotFoundMessage
    else Take(JoinedContents(docs), AnswerLimit) + Ellipsis
  }

  /**
   * A caller can tell the two outcomes apart: the answer ends in "..."
   * exactly when some document was retrieved.
   */
  lemma AnswerEndsWithEllipsisIff(docs: seq<string>)
    ensures EndsWith(AskAboutMuseum(docs), Ellipsis) <==> docs != []
  {
    var m := NotFoundMessage;
    assert m[|m| - 1] != '.';
    if docs == [] {
      assert |m| >= 3;
      assert m[|m| - 3..][2] == m[|m| - 1];
    }
  }
}
