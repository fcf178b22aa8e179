# Museum assistant: verified model of the text logic

This project is a Dafny model of the text handling in a Thai museum voice assistant. The assistant has three pieces of text logic, and the model covers each one:

- **Verse segmentation and audio assembly** (`webhook.py`, module `Webhook`). A recognised reply is split into words. Words go into a buffer, and the buffer is closed into a "verse" when it reaches `max_len` words (20 in the webhook) or when a word ends in `.` `!` `?` `।` (U+0964) or `๏` (U+0E4F). Text-to-speech runs once per verse, and the audio pieces are concatenated in order. A request without an uploaded file gets status 400.
- **The Thai text normaliser** `clean_text` (`build_vector_db.py`, module `CleanText`). This is four regular-expression passes followed by a strip:
  1. Drop whitespace between two Thai characters.
  2. Drop whitespace before a tone mark.
  3. Drop whitespace after a leading vowel.
  4. Collapse each whitespace run to one space.

  Each pass is written as the left-to-right scan the regex engine performs. Each of the first three scans is proved equal to an independent statement of which input positions it deletes; pass 4 followed by the strip is proved equal to `" ".join(s.split())`.
- **Answer formatting** in the museum question tool (`agent.py`, module `Museum`). With no retrieved documents, the tool returns a fixed Thai apology. Otherwise it returns the stripped contents joined with newlines, cut to 500 characters, with `"..."` always appended. The module also covers the canned weather tool.

Module `PyStr` holds the Python string behaviour these rely on:

- `str.isspace`, which is also the `\s` class of `re` on `str`: 29 code points;
- `strip`;
- `split()` without a separator;
- `join`.

Notes on the code's behaviour:

- The answer always gets `"..."` appended, even when nothing was cut.
- Pass 1 removes a single whitespace character between any two characters of U+0E01–U+0E59, whatever they are; a gap of two or more whitespace characters is left alone (its lookahead class `[ก-๙่-๋]` is that same range).
- The code does not check the synthesis reply. A transport failure (no connection, bad URL) raises out of the handler; the model leaves that out (see `Webhook.SpeechService.TextToSpeech` under "Left out"). An HTTP error reply (401, 429, 500) does not raise: its body is appended to the audio as if it were audio.

## Model

| member | source | states |
|---|---|---|
| `Webhook.SplitIntoVerses` | webhook.py:25-44 | The one-pass loop over `text.split()` with a word buffer returns exactly `Segment(text, maxLen)`. The loop invariant ties the closed verses and the open buffer to the specification. |
| `Webhook.SegmentEmptyIff` | webhook.py:29-30 | No verses exactly when the text is empty or whitespace only. |
| `Webhook.SegmentSpec` | webhook.py:32-44 | Splitting each verse on whitespace and concatenating the pieces gives `text.split()`: every word lands in exactly one verse, in order. Each verse is its words joined by single spaces, and the verse word lists obey the closing rule. |
| `Webhook.GroupsCharacterized` | webhook.py:35-42 | The word lists produced are exactly the segmentations that keep all words in order and obey the closing rule. This holds in both directions, so the rule leaves no other choice. |
| `Webhook.SegmentBounds` | webhook.py:36-42 | Every verse is non-empty and holds between 1 and `max(max_len, 1)` words. |
| `Webhook.SegmentClosingRule` | webhook.py:37-38 | Every verse except the last was closed by the rule: it has at least `max_len` words or its last word ends in a terminal mark. |
| `Webhook.SegmentMarksOnlyLast` | webhook.py:37-39 | Within a verse, no word before the last ends in a terminal mark. |
| `Webhook.SegmentNoMarks` | webhook.py:35-42 | With no terminal marks and `max_len >= 1`, `n` words give `CeilDiv(n, max_len)` verses, and all but the last have exactly `max_len` words. |
| `Webhook.CeilDivIsDivision` | webhook.py:35-42 | The verse count `CeilDiv(n, m)` equals `(n + m - 1) / m`, i.e. `ceil(n / m)`. |
| `Webhook.SegmentNoMarksLast` | webhook.py:35-42 | In that case the last verse holds `LastRun(n, max_len)` words: what is left over after cutting off full verses of `max_len` words. |
| `Webhook.LastRunIsRemainder` | webhook.py:35-42 | `LastRun(n, m)` equals `(n - 1) % m + 1`, so the last verse has between 1 and `max_len` words. |
| `Webhook.TwentyFiveWords` | webhook.py:35-42 | 25 words without terminal marks and `max_len = 20` give two verses, of 20 and 5 words. |
| `Webhook.AssembleAudio` | webhook.py:89-91 | `audio_out` is the in-order concatenation of the synthesised audio of the verses. Exactly one synthesis request is sent per verse, in verse order. |
| `Webhook.AudioAppend` | webhook.py:89-91 | The audio of consecutive runs of verses is the concatenation of their audio. No verses means empty audio. |
| `Webhook.SpeechService.TextToSpeech` | webhook.py:46-52 | One request is logged for the text, and the service's audio for that text is returned. |
| `Webhook.MissingFileGuard` | webhook.py:73-75 | The request is rejected with 400 and `{"error": "No audio file received"}` exactly when no file, or a file with an empty name, was uploaded. |
| `Webhook.HandleWebhook` | webhook.py:67-101 | Without a file: 400 and no synthesis request. Otherwise: 200 with the recognised text, its verses at `max_len = 20`, and the forwarding result for the text and the assembled audio. |
| `PyStr.WordsOfJoin` | webhook.py:32-38 | Splitting words joined with single spaces (`" ".join`) gives the words back. |
| `PyStr.StripEmptyIff` | webhook.py:29 | `text.strip()` is empty exactly when `text` is whitespace only, the case the guard returns `[]` for. |
| `PyStr.WordsEmptyIff` | webhook.py:32 | `text.split()` is empty exactly when `text` is whitespace only. |
| `PyStr.WordsAreWords` | webhook.py:32 | Every piece `text.split()` returns is non-empty and free of whitespace. |
| `PyStr.StripBounds` | build_vector_db.py:20 | `strip()` returns a slice of its input with no whitespace at either end. |
| `CleanText.JoinThaiGapsExact` | build_vector_db.py:16 | Pass 1 deletes exactly the whitespace characters whose neighbours on both sides are in U+0E01–U+0E59. Nothing else changes. |
| `CleanText.AttachToneMarksExact` | build_vector_db.py:17 | Pass 2 deletes exactly the whitespace characters immediately followed by a tone mark (U+0E48–U+0E4B) in its input. |
| `CleanText.TwoSpacesBeforeToneMark` | build_vector_db.py:17 | Pass 2 is a single pass: for any two whitespace characters followed by any tone mark, the first whitespace character stays and the second is deleted. |
| `CleanText.AttachLeadingVowelsExact` | build_vector_db.py:18 | Pass 3 deletes exactly the whitespace characters immediately preceded by one of เแโใไ in its input. |
| `CleanText.KeptKeepsNonSpace` | build_vector_db.py:16-18 | The deletions of passes 1 to 3 remove only whitespace and never lengthen the text. |
| `CleanText.CollapseSpacesKeepsNonSpace` | build_vector_db.py:19 | Pass 4 keeps the non-whitespace characters, in order. |
| `CleanText.CollapseSpacesShape` | build_vector_db.py:19 | After pass 4, the only whitespace is single `' '` characters that are never adjacent. The text is no longer than before. |
| `CleanText.StripCollapseIsJoinedWords` | build_vector_db.py:19-20 | Pass 4 followed by the strip equals `" ".join(s.split())`. |
| `CleanText.CleanIsJoinedWords` | build_vector_db.py:15-20 | `clean_text` is passes 1 to 3 followed by `" ".join(s.split())`. |
| `CleanText.CleanKeepsNonSpace` | build_vector_db.py:15-20 | Removing all whitespace from the output and from the input gives the same string: the non-whitespace characters are kept, in order. |
| `CleanText.CleanShape` | build_vector_db.py:15-20 | The output has no leading or trailing whitespace, contains no whitespace other than single non-adjacent `' '` characters, and is no longer than the input. |
| `CleanText.CleanNoSpace` | build_vector_db.py:15-20 | Text without whitespace is returned unchanged. |
| `CleanText.CleanEmptyIff` | build_vector_db.py:15-20 | The output is empty exactly when the input is empty or whitespace only. |
| `Museum.AskAboutMuseum` | agent.py:81-88 | No documents: the fixed apology. Otherwise: at most 503 characters, ending in `"..."`, with the part before the ellipsis a prefix of the joined stripped contents. When those contents are 500 characters or fewer, the answer is exactly the contents plus `"..."`. |
| `Museum.AnswerEndsWithEllipsisIff` | agent.py:82-88 | The answer ends in `"..."` exactly when some document was retrieved. |
| `Museum.WeatherIgnoresArguments` | agent.py:57-73 | `lookup_weather` gives the same fixed report whatever the location, latitude and longitude. |

## Left out

- Vector search is not modelled: loading the index, embeddings, `similarity_search(question, k=3)` and building and saving the index. These are library calls with floating-point vector math. The retrieved page contents are an input sequence, and the model does not rely on there being at most three.
- Chunk splitting (`CharacterTextSplitter`) is library code that is not part of this model.
- HTTP calls are not modelled. Speech recognition and forwarding are function parameters of `HandleWebhook`. Text-to-speech is the `SpeechService` class, whose answers are a fixed function of the text. The exception-to-error-dict conversion in `forward_to_llm` belongs to the forwarding parameter.
- `Webhook.HandleWebhook`: saving the upload to a temporary file is left out, and recognition is applied to the uploaded bytes directly. The `jsonify` encoding is replaced by the `Response` datatype.
- `Webhook.MissingFileGuard`: a field that holds a file with an empty file name counts as missing, as with werkzeug's `FileStorage`. werkzeug is not part of this model.
- Flask routing, the directory walk and file reading in `load_all_txts`, the LiveKit session (entering, prewarm, metrics, shutdown hooks, worker start) and all logging are left out. They are I/O or orchestration around external services.
- Python strings are sequences of code points. Dafny `char` is a Unicode scalar value, so strings with lone surrogates are not represented.
- `Webhook.SpeechService.TextToSpeech`: a transport failure of the synthesis request is not modelled; in the code nothing catches it, so it raises out of the handler. An HTTP error reply is covered only in so far as `speak` is an arbitrary but fixed function of the text: its body is what `speak` returns and is appended like audio.
