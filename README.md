# txt-content-reader: text statistics with a content-addressed cache

The service accepts an uploaded plain-text file and reports statistics about the
"words" in it:

- the word count;
- the average word length;
- the distribution of word lengths, ordered by length;
- the most frequent lengths and how often they occur.

A word is anything the tokenizer's regular expression finds. That expression is an
ordered alternation of seven rules: email address, `dd/mm/yyyy` date, `dd-mm-yyyy`
date, http(s) URL, word, currency amount, lone `&`. Results are cached in a
module-level dictionary keyed by the MD5 digest of the raw bytes. A second upload of
the same bytes is answered from the cache and flagged `cached`.

This Dafny project models that core in four modules:

- `Tokenizer` (`tokenizer.dfy`) is `re.findall` with that pattern, as a left-to-right scan.
  - Each rule is a matcher function that returns where its match ends.
  - The regex engine's backtracking is written out where it can change the result: the date's `\d{2,4}\b` year and the currency's `\d+(?:,\d{3})*(?:\.\d+)?\b`.
  - Elsewhere, a lemma per rule shows that greedy maximal runs give exactly the regex's match.
  - `MatchAt` takes the first rule in alternation order that matches.
  - `Scan` matches and resumes after the match, or drops one character.
  - It is proved against a declarative description of findall (`IsFindall`): tokens in text order, none overlapping, each the first-rule match at its start, and no rule matching at any dropped position. `FindallUnique` proves that description has exactly one solution.
- `Statistics` (`statistics.dfy`) is the aggregation over the token lengths:
  - `Counter` is an insertion-ordered tally;
  - `max(..., default=0)`;
  - the list of lengths reaching the maximum, in first-seen order;
  - the distribution sorted by key;
  - the mean as an exact real.
  Each is proved against independent definitions (`Count`, `Sum`, `FirstIndex`).
- `Service` (`service.dfy`) is `process_text` end to end, plus the cache as a class.
  - `Handle` covers the part of `count_words_in_file` from the digest on.
  - The digest and the UTF-8 decoding are function values the cache is built with. So the model holds for any digest (collisions included) and any decoder that may fail.
  - A failed decode is the exception that the generic handler turns into an internal error.
- `Scenarios` (`scenarios.dfy`) works concrete inputs through the model: `a@b.com`, `12/05/2020`, `$5.5x`, the unit test's sentence and the caching test's file.

`option.dfy` holds the usual `Option` datatype.

## Model

| member | source | states |
|---|---|---|
| Tokenizer.Run | api/main.py:35 | The greedy run of a character class from `i` is a maximal span: every character in it is in the class and the next one is not (or the text ends). |
| Tokenizer.RunIs | api/main.py:35 | Any maximal span from `i` has exactly the greedy run's length, so a `+` over a class has one possible end. |
| Tokenizer.EmailEndIff | api/main.py:35 | The email rule matches `s[i..e]` exactly when there is a non-empty local part of `[\w\-\'.]`, then `@`, a non-empty `[\w\-\']` domain, `.`, and a maximal non-empty `[\w\-\']` suffix ending at `e`. |
| Tokenizer.EmailShapeMatches | api/main.py:35 | Every such shape is found: the greedy local and domain runs stop exactly at the `@` and the `.`. |
| Tokenizer.FieldEndIff | api/main.py:36-37 | `\d{1,2}` followed by the separator matches exactly when the digit run has 1 or 2 digits and the separator follows it; the field then ends just after the separator. |
| Tokenizer.FieldChoiceForced | api/main.py:36-37 | Whichever of one or two digits is followed by the separator is the choice the engine ends up with: backtracking has a single option. |
| Tokenizer.YearEndIff | api/main.py:36-37 | `\d{2,4}\b` matches exactly when the digit run has 2 to 4 digits and a word boundary follows it. With 5 or more digits, backing off to fewer digits never reaches a boundary. |
| Tokenizer.DateEnd | api/main.py:36-37 | A date match has at least six characters and a word boundary at both ends. |
| Tokenizer.DateEndIff | api/main.py:36-37 | The date rule with separator `sep` matches `s[i..e]` exactly when `\b` holds at `i`, a maximal run of one or two digits is followed by `sep`, another such run is followed by `sep`, and a maximal run of two to four digits ends at `e` where `\b` holds. |
| Tokenizer.UrlEndIff | api/main.py:38 | The URL rule matches `s[i..e]` exactly when there is a boundary at `i`, `http`, an optional `s`, `://`, and a maximal non-empty run of `[\w\-\'.\/]` ending at `e`. |
| Tokenizer.UrlShapeMatches | api/main.py:38 | Every such shape is found: the optional `s` is settled by the `://` that must follow it. |
| Tokenizer.WordEndIff | api/main.py:39 | The word rule matches `s[i..e]` exactly when there is a boundary at `i` and `s[i..e]` is a maximal non-empty run of `[\w\-\']`. |
| Tokenizer.Groups | api/main.py:40 | The greedy `(?:,\d{3})*` takes no group exactly when no `,ddd` group starts at its position, and never runs past the text. |
| Tokenizer.GroupsFollow | api/main.py:40 | The groups the star takes are consecutive `,ddd` groups, and no further group follows the last one: the count is the greedy one. |
| Tokenizer.CurrencyEnd | api/main.py:40 | A currency match is longer than the sign alone and ends at a word boundary. |
| Tokenizer.AmountEndFails | api/main.py:40 | When every digit of the integer part is followed by a word character, no amount of backtracking reaches `\b`, and the rule fails. |
| Tokenizer.FractionEndValue | api/main.py:40 | After a digit, `(?:\.\d+)?\b` takes a `.` and its whole digit run when no word character follows them. Otherwise it matches the empty string exactly when no word character follows. |
| Tokenizer.CurrencyEndValue | api/main.py:40 | A currency match keeps the whole integer digit run and every group the star takes. It ends after the fraction when one fits there, and otherwise right after the groups when no word character follows. Otherwise it ends one group earlier, just before that group's comma. |
| Tokenizer.CurrencyEndIff | api/main.py:40 | The currency rule matches at `i` exactly when `s[i]` is `£`, `$` or `€`, at least one digit follows, and the digit run is not followed by a word character. |
| Tokenizer.AmpersandEnd | api/main.py:41 | The last rule matches exactly a single `&`. |
| Tokenizer.Rank | api/main.py:34-41 | Each rule has its place in the alternation order. |
| Tokenizer.MatchAt | api/main.py:33-42 | The match at `i` is the first rule, in alternation order, that matches there: every earlier rule fails. There is no match exactly when every rule fails. |
| Tokenizer.FirstMatchWins | api/main.py:33-42 | Conversely, a rule that matches where every earlier rule fails is the match taken. |
| Tokenizer.Scan | api/main.py:33-42 | The scan from `i` meets the description of findall: each token is the match at its own start, the tokens are in text order and do not overlap, and no rule matches at any position they leave uncovered. |
| Tokenizer.Tokenize | api/main.py:33-42 | findall over the whole text: non-empty tokens inside the text, in order, without overlap; characters outside every token start no match. |
| Tokenizer.Words | api/main.py:33-42 | One string per token: the non-empty text `s[start..end]` that the token covers, as findall returns it. |
| Tokenizer.FindallUnique | api/main.py:33-42 | Any token list that meets the description of findall is the one the scan produces. |
| Statistics.CountPositive | api/main.py:51 | A length has a positive count exactly when it occurs. |
| Statistics.Bump | api/main.py:51 | One more occurrence raises that length's count by one or appends it with count 1; the keys stay distinct and the total count grows by one. |
| Statistics.TallyStep | api/main.py:51 | Bumping a correct counter with one more length gives a correct counter for the longer list. |
| Statistics.TallyIsCounter | api/main.py:51 | The `Counter` of the lengths has distinct keys, gives every length its number of occurrences, lists every occurring length in order of first appearance, and its counts add up to the number of tokens. |
| Statistics.MaxCount | api/main.py:54 | `max(values, default=0)`: at least every count, equal to one of them, and 0 for an empty counter. |
| Statistics.MostCommon | api/main.py:55 | A length is listed exactly when the counter holds it with the given count. |
| Statistics.MostCommonOrder | api/main.py:55 | The listed lengths keep the counter's order, which is the order of first appearance in the tokens. |
| Statistics.InsertByKey | api/main.py:58 | Inserting an entry with a new key into a strictly ascending list keeps it strictly ascending, adds exactly that entry and adds its count to the total. |
| Statistics.SortByKey | api/main.py:58 | Sorting the counter's items by key gives a strictly ascending list with exactly the same entries and the same total count. |
| Statistics.AverageIsMean | api/main.py:48 | The average times the word count is the total length; it is 0 for no tokens, and with non-empty tokens it is 0 only then. |
| Statistics.WordCountAndAverage | api/main.py:46-48 | `word_count` is the number of tokens and `average_word_length` is their mean length. |
| Statistics.DistributionSumsToWordCount | api/main.py:51-58 | The counts of the distribution add up to the word count. |
| Statistics.DistributionIsHistogram | api/main.py:51-58 | The distribution's keys are strictly ascending. Each key is an occurring length carrying its positive number of occurrences, and every occurring length is a key. |
| Statistics.OccurrencesIsMaximum | api/main.py:54 | `number_of_occurrences` is at least every length's count and is the count of some length; it is 0 exactly when there are no tokens. |
| Statistics.MostCommonMembers | api/main.py:55 | Given a correct counter, a length is listed exactly when it occurs with the given count. |
| Statistics.MostFrequentExact | api/main.py:55 | `most_frequently_occurring_word_lengths` holds exactly the lengths whose count is the maximum. It has no duplicates and is in order of first appearance in the tokens, not sorted. |
| Service.WordLengths | api/main.py:46 | One length per word, each that word's length. |
| Service.TokenLengths | api/main.py:46 | One length per token, each the token's extent in code points and at least 1. |
| Service.ProcessText | api/main.py:42-66 | `process_text` produces statistics exactly when the bytes decode; otherwise it fails. |
| Service.TextTotals | api/main.py:46-51 | For decoded text: the word count is the number of tokens, the average is 0 exactly when there are none, and the distribution's counts add up to the word count. |
| Service.LengthKeys | api/main.py:51-58 | For tokens of positive length: the distribution's keys ascend and are at least 1; each key is some token's length, and every token's length is a key. |
| Service.TextDistribution | api/main.py:51-58 | The same for the tokens findall returns on decoded text. |
| Service.Cache.constructor | api/main.py:69 | The cache starts empty. |
| Service.Cache.Handle | api/main.py:105-115 | A hit returns the stored statistics with `cached` true and leaves the cache unchanged. A miss on decodable bytes stores `process_text`'s result under the digest and returns it with `cached` false. A failed decode returns the internal error and stores nothing. Every stored entry is `process_text` of some content with that digest. |
| Service.UploadTwice | api/test_main.py:41-66 | Two uploads of the same bytes into an empty cache: the first is computed with `cached` false, the second returns the same statistics with `cached` true. |
| Scenarios.EmailBeatsWord | api/main.py:35-39 | `a@b.com` is one email token, although the word rule would match `a` at the same position. |
| Scenarios.DateBeatsWord | api/main.py:36-39 | `12/05/2020` is one date token, although the word rule would match `12` at the same position. |
| Scenarios.PriceBacktracks | api/main.py:40 | In `$5.5x` the fraction is given back, because no boundary follows `5.5`; the currency match is `$5`. |
| Scenarios.PriceTokens | api/main.py:33-42 | `$5.5x` yields the currency token `$5` and then the word `5x`; the `.` is dropped. |
| Scenarios.SentenceTokens | api/test_main.py:35-38 | `Sample text for testing.` yields exactly the four word tokens `Sample`, `text`, `for` and `testing`; the spaces and the final `.` are dropped. |
| Scenarios.SentenceWordCount | api/test_main.py:35-38 | `process_text` on that sentence reports a word count of 4. |
| Scenarios.UploadTokens | api/test_main.py:54 | The caching test's file `test content` yields exactly the word tokens `test` and `content`. |
| Scenarios.UploadLengths | api/test_main.py:54 | The caching test's file `test content` holds two words, of lengths 4 and 7. |
| Scenarios.UploadStats | api/test_main.py:54 | Its statistics: 2 words, average 5.5, distribution {4: 1, 7: 1}, most frequent lengths [4, 7] with 1 occurrence. |
| Scenarios.CachingTest | api/test_main.py:41-66 | Uploading that file twice into an emptied cache gives those statistics with `cached` false and then true. |

## Left out

- The FastAPI application is not modelled: the route, `UploadFile`, the `content_type` check, `await file.read()` with its `IOError` branch, and the turning of results into JSON or `JSONResponse` with status codes. `Service.Reply` stops at "computed (cached or not)" or "internal error".
- The `TextModel` class is not modelled. Nothing uses it.
- MD5 and UTF-8 decoding are not modelled. Both are library calls; the cache takes them as arbitrary functions, the decoder returning `None` where Python raises.
- Tokenizer.IsWordChar: `\w` and `\d` are modelled on ASCII (letters, digits, underscore). Python's Unicode classes also accept other letters and digits; the model is exact only for ASCII word characters.
- Statistics.Average: the average is an exact real. The source rounds it to two decimals with IEEE floating point; that rounding is not modelled.
- Concurrent requests sharing the cache dictionary are not modelled. Each `Handle` call is atomic.
- The cache is unbounded, as in the source. Eviction does not exist, so there is nothing to model.
- The HTTP client script is not modelled, nor the parts of the tests that create and delete files.
