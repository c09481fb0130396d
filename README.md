# gform2adafruitIO, the verified core

gform2adafruitIO is a middleman between a public Google Form and two private Adafruit IO
feeds that drive a scrolling marquee. Each run it:

- reads the form's responses as CSV;
- turns every response into a quote (a text and a colour);
- normalises the colour, and drops quotes whose colour is invalid or whose text is profane;
- sends the new quotes to a text feed and a colour feed;
- trims both feeds to the `MAX_QUOTES` (10) most recent data points.

This project models that core in Dafny and proves properties of it.

Modules, one per part of the script:

- `Wrappers`: `Option` and `Result`.
- `PyStr`: the Python `str` operations the script uses, over ASCII. These are `split`, `strip`, `isalpha`, `isalnum`, `lower`, `replace(c, "")` and `s[1:]`. It also proves `split`'s round trip with `join`.
- `Colors`: `color_check`.
- `Profanity`: `profanity_check`.
  - Its two loops, the punctuation loop and the nested word loop with early return, are methods.
  - Each is proved against the pure definition `Profane`.
- `Processing`: `processing`.
  - Record parsing.
  - The two filter loops exactly as written: `for i, q in enumerate(quotes)` with `quotes.pop(i)` on the live list. The loops are methods over a mutable sequence, proved against the function `PopWalk`.
  - The filters as evidently intended (`Checked`), with their properties, and a corrected loop `FilterInPlace` that pops without advancing. `ProcessFormIntended` runs the corrected loops.
- `Feeds`: the Adafruit IO service as a class `FeedStore`.
  - It holds two feeds. Each feed is a sequence of `(id, value)` entries, listed newest first.
  - Methods: `List`, `Append` (sending a value) and `Delete` (by id).
  - Invariant: ids are distinct within a feed.
- `Publisher`: the publishing half of `adafruitIOaccess`.
  - A snapshot of the published texts.
  - Sending, text then colour, every quote whose text is not in the snapshot.
  - Pruning each feed to its first `MAX_QUOTES` listed entries.

Where the script's comments and its code differ, the model follows the code:

- The comment of the hex branch of `color_check` (gform2adafruitIO.py:194) asks only for `#` and length 7. The code also calls the colour library's `hex_to_rgb`, so a value of `#` plus six alphanumerics is accepted only if all six are hexadecimal digits.
- The comments of the filter loops (gform2adafruitIO.py:169, 175) say a rejected quote is removed. The loops also step over the quote that slides into the popped slot (see Findings).

A record with fewer than three comma fields makes `data[1]` or `data[2]` raise `IndexError` (gform2adafruitIO.py:160). The whole run then fails; `ProcessForm` returns `Err(IndexError)`.

## Model

| member | source | states |
|---|---|---|
| PyStr.LowerCases | gform2adafruitIO.py:225 | `lower()` keeps the length and leaves no upper-case letter. Each upper-case letter becomes its lower-case partner, every other character is kept, and lower-casing twice changes nothing more. |
| PyStr.IsAlpha | gform2adafruitIO.py:188 | `isalpha()`: the text is non-empty and every character is an ASCII letter. |
| PyStr.IsAlnum | gform2adafruitIO.py:195 | `isalnum()`: the text is non-empty and every character is an ASCII letter or digit. |
| PyStr.SkipSpace | gform2adafruitIO.py:186 | The scan from the left stops at the first non-whitespace character, having passed only whitespace. |
| PyStr.SkipSpaceBack | gform2adafruitIO.py:186 | The scan from the right stops after the last non-whitespace character, having passed only whitespace. |
| PyStr.Strip | gform2adafruitIO.py:186 | `strip()` returns a slice of the input with only whitespace around it. A non-empty result neither starts nor ends with whitespace. |
| PyStr.Split | gform2adafruitIO.py:151 | `split(sep)`: the pieces between the leftmost non-overlapping occurrences of `sep`, always at least one. |
| PyStr.JoinSplit | gform2adafruitIO.py:151 | `split(sep)` loses nothing: joining the pieces with `sep` gives back the input. |
| PyStr.SplitPiecesAvoidSep | gform2adafruitIO.py:151 | No piece of `split(sep)` contains `sep`. |
| PyStr.SplitPiecesAvoidChar | gform2adafruitIO.py:221 | No piece of a split on one character contains that character. |
| PyStr.SplitCharCount | gform2adafruitIO.py:159 | Splitting on one character gives one piece more than the character's count. |
| PyStr.RemoveChar | gform2adafruitIO.py:219 | `replace(c, "")`: the text with every `c` dropped and the other characters kept in order. |
| PyStr.WithoutMembers | gform2adafruitIO.py:218-219 | Removing a set of characters keeps exactly the characters outside the set. |
| Colors.HexDecodes | gform2adafruitIO.py:197 | The colour library's `hex_to_rgb` accepts `#` followed by three or six hexadecimal digits. |
| Colors.ColorCheck | gform2adafruitIO.py:184-208 | Alphabetic input after trimming is accepted iff its lower-case name is in the colour table, and the result is the table's value. Any other input is accepted iff it is `#` plus six hex digits, and is returned trimmed but otherwise unchanged. Every rejection returns `(False, "")`. |
| Colors.RejectsBlank | gform2adafruitIO.py:186-205 | Empty or whitespace-only input is rejected with `(False, "")`. |
| Colors.AcceptedIsHex | gform2adafruitIO.py:188-198 | If the table holds only `#rrggbb` values, every accepted colour is a `#rrggbb` colour. |
| Colors.HexColorAccepted | gform2adafruitIO.py:195-198 | A `#rrggbb` colour is accepted unchanged. |
| Colors.ShapeIsNotEnough | gform2adafruitIO.py:195-201 | A value of `#` and six letters or digits, one of them not hexadecimal, passes the shape test but is rejected by the decode. |
| Colors.Idempotent | gform2adafruitIO.py:184-208 | Over a table of `#rrggbb` values, checking an accepted colour again accepts it with the same result. |
| Colors.AlphaLookedUp | gform2adafruitIO.py:188-193 | An alphabetic value is accepted iff its lower-case form is in the table. It then yields the table value, and otherwise `(False, "")`. |
| Colors.NamedExample | gform2adafruitIO.py:188-190 | `green` is looked up in the table. |
| Profanity.RemoveCharWithout | gform2adafruitIO.py:219 | `replace(c, "")` on text already without `cs` gives the text without `cs` and `c`. |
| Profanity.StrippedIsClean | gform2adafruitIO.py:218-219 | The stripped text contains no punctuation character. It keeps every other character of the text. |
| Profanity.WordsRejoin | gform2adafruitIO.py:221 | The words contain no space, and joined with spaces they give back the stripped text. |
| Profanity.Listed | gform2adafruitIO.py:223-226 | A word matches iff it equals some list entry, ignoring case. |
| Profanity.AnyListed | gform2adafruitIO.py:221-227 | True iff some word equals some list entry, ignoring case. |
| Profanity.Profane | gform2adafruitIO.py:212-227 | A text is profane iff some space-separated word of its punctuation-stripped form equals some list entry, ignoring case. |
| Profanity.RemoveAll | gform2adafruitIO.py:218-219 | Replacing each character of a set by nothing, one after another, leaves the text without those characters. |
| Profanity.RemovePunctuation | gform2adafruitIO.py:216-219 | The loop of `replace` calls over the punctuation string leaves the text without its punctuation. |
| Profanity.AnyWordListed | gform2adafruitIO.py:221-227 | The nested loops with early return answer true iff some word equals some entry, ignoring case. |
| Profanity.ProfanityCheck | gform2adafruitIO.py:212-227 | `profanity_check` answers exactly `Profane`. |
| Processing.Records | gform2adafruitIO.py:151-154 | The records of the export: the pieces between blank lines, header dropped. |
| Processing.ParseRecords | gform2adafruitIO.py:157-160 | Parsing succeeds iff every record has at least three comma fields. On success there is one quote per record, in order: text from field 2, colour from field 3. |
| Processing.RecordWellFormed | gform2adafruitIO.py:159-160 | A record has three fields iff it contains at least two commas. |
| Processing.ParseRows | gform2adafruitIO.py:151-160 | The parsing loop splits on blank lines and drops the header. It then builds quotes from the records, failing with `IndexError` on a short record. |
| Processing.PopWalk | gform2adafruitIO.py:163-178 | What `for i, q in enumerate(quotes)` with `quotes.pop(i)` leaves: a kept quote is replaced by its checked value, and after a pop the next quote is kept unexamined. |
| Processing.WalkKept | gform2adafruitIO.py:163-168 | Keeping slot `i`, with its colour replaced in place, leaves the walk's outcome unchanged. |
| Processing.WalkPopped | gform2adafruitIO.py:170-171 | After `pop(i)`, moving to index `i + 1` steps over the quote that slid into slot `i`. |
| Processing.ColorAt | gform2adafruitIO.py:165-171 | One pass of the colour loop's body at slot `i` keeps the loop's eventual outcome, popped or kept. The list shrinks by at most one. |
| Processing.ColorLoop | gform2adafruitIO.py:163-171 | The colour loop, run on the live list, yields `ColorPass`. That is the walk that skips the quote after each pop. |
| Processing.ProfanityLoop | gform2adafruitIO.py:174-178 | The profanity loop yields `ProfanityPass`, with the same skipping. |
| Processing.ProfanityAt | gform2adafruitIO.py:176-178 | One pass of the profanity loop's body at slot `i` keeps the loop's eventual outcome. The list shrinks by at most one. |
| Processing.ProcessForm | gform2adafruitIO.py:146-180 | Parse, then the colour loop, then the profanity loop. A parse error is `IndexError`. |
| Processing.WalkTextsSubseq | gform2adafruitIO.py:163-178 | A loop that pops never reorders or invents texts: its texts are a subsequence of its input's. |
| Processing.ProcessingKeepsOrder | gform2adafruitIO.py:146-180 | After both loops, the texts are a subsequence of the parsed texts. There are never more quotes than were parsed. |
| Processing.WalkOrigins | gform2adafruitIO.py:163-178 | Every quote a loop leaves either passed the check at its slot and is what the check made of it, or is the unchanged quote of its slot, directly after a quote the check rejects. |
| Processing.Checked | gform2adafruitIO.py:163-178 | The filter as the comments describe it: every quote examined, the accepted ones kept in order, as the check leaves them. |
| Processing.CheckedExact | gform2adafruitIO.py:163-178 | The intended filter keeps exactly the quotes the check accepts, as the check leaves them. |
| Processing.CheckedColorsHex | gform2adafruitIO.py:163-171 | Over a table of `#rrggbb` colours, every colour the intended colour filter leaves is `#rrggbb`. |
| Processing.CheckedTextsClean | gform2adafruitIO.py:174-178 | The intended profanity filter leaves only quotes of its input, and none of them is profane. |
| Processing.IntendedIsValid | gform2adafruitIO.py:163-178 | With both filters applied as intended, every colour left is `#rrggbb` and no text left is profane. |
| Processing.IntendedKeepsPassing | gform2adafruitIO.py:163-178 | With both filters applied as intended, a quote that passes both checks is kept, with its checked colour. |
| Processing.CheckedKept | gform2adafruitIO.py:167-168 | In the corrected loop, keeping slot `i` with its checked value extends the kept prefix by that value. |
| Processing.CheckedPopped | gform2adafruitIO.py:170-171 | In the corrected loop, popping slot `i` without advancing leaves the outcome unchanged. The quote that slides in is examined next. |
| Processing.FilterInPlace | gform2adafruitIO.py:163-178 | The corrected loop pops without advancing the index. It yields exactly the quotes the check accepts, as the check leaves them (`Checked`). |
| Processing.ProcessFormIntended | gform2adafruitIO.py:146-180 | With both loops corrected, the result is `IntendedProcessing`. Over a table of `#rrggbb` colours, every colour left is `#rrggbb` and no text left is profane. |
| Processing.ColorSkipExample | gform2adafruitIO.py:163-171 | Two quotes with an empty colour field: the as-written loop keeps the second, and the intended filter keeps neither. |
| Processing.BadIsProfane | gform2adafruitIO.py:221-226 | `bad` is profane for the list `["bad"]`. |
| Processing.ProfanitySkipExample | gform2adafruitIO.py:174-178 | The same profane text twice: the as-written loop keeps the second copy, and the intended filter keeps neither. |
| Feeds.RemoveIdMembers | gform2adafruitIO.py:272 | Deleting by id removes exactly the entries with that id. |
| Feeds.RemoveIdUnique | gform2adafruitIO.py:272 | Deleting keeps ids distinct. |
| Feeds.RemoveIdAt | gform2adafruitIO.py:268-272 | With distinct ids, deleting the id of entry `k` removes that entry only. |
| Feeds.RemoveIdAbsent | gform2adafruitIO.py:272 | Deleting an absent id changes nothing. |
| Feeds.FeedStore.constructor | gform2adafruitIO.py:238-242 | The client connects to two feeds that already hold listings with distinct ids. They are kept as they are, and fresh ids are drawn above the ids in use. |
| Feeds.FeedStore.List | gform2adafruitIO.py:246 | Listing a feed returns its entries, newest first, with distinct ids. |
| Feeds.FeedStore.Append | gform2adafruitIO.py:259-262 | Sending puts a fresh-id entry at the head of that feed only. The other feed is unchanged, and ids stay distinct. |
| Feeds.FeedStore.Delete | gform2adafruitIO.py:272 | Deleting by id removes those entries from that feed only. |
| Publisher.Unpublished | gform2adafruitIO.py:253-256 | The quotes of the batch whose text is not in the snapshot, in batch order. |
| Publisher.UnpublishedMembers | gform2adafruitIO.py:253-256 | A quote is sent iff it is in the batch and its text is not in the snapshot. |
| Publisher.SentEachTime | gform2adafruitIO.py:246-262 | The snapshot is not refreshed, so a new text repeated within a batch is sent once per occurrence. |
| Publisher.NothingNew | gform2adafruitIO.py:253-256 | A batch whose texts are all in the snapshot sends nothing. |
| Publisher.RepublishSendsNothing | gform2adafruitIO.py:246-262 | After a batch is sent, a snapshot of the text feed taken before pruning holds every text of the batch, so the same batch sends nothing against it. |
| Publisher.UnpublishedNoSnapshot | gform2adafruitIO.py:253-256 | Against an empty snapshot the whole batch is sent. |
| Publisher.NewestLackFirst | gform2adafruitIO.py:268-272 | With distinct texts, the `MAX_QUOTES` newest texts of a longer batch sent in order do not include the first quote's text. |
| Publisher.PrunedQuoteResent | gform2adafruitIO.py:246-282 | De-duplication does not survive pruning: after a run over more than `MAX_QUOTES` quotes with distinct texts on empty feeds, the pruned text feed lacks the first quote's text, so the next run sends that quote again. |
| Publisher.Snapshot | gform2adafruitIO.py:249-250 | The in-place overwrite of the listing yields the listed values, in order. |
| Publisher.SentTextsStep | gform2adafruitIO.py:253-259 | One loop step puts the quote's text at the head of the listed texts iff it is not in the snapshot. |
| Publisher.SentColorsStep | gform2adafruitIO.py:253-262 | One loop step puts the quote's colour at the head of the listed colours iff its text is not in the snapshot. |
| Publisher.Send | gform2adafruitIO.py:259-262 | The text goes to the text feed and the colour to the colour feed, one data point each. |
| Publisher.SendUnlessPublished | gform2adafruitIO.py:255-262 | A quote whose text is in the snapshot changes neither feed. Any other quote adds one data point to each. |
| Publisher.Publish | gform2adafruitIO.py:246-262 | Afterwards the text feed lists the sent texts, newest first, ahead of the old ones. The colour feed lists their colours in the same order. |
| Publisher.PruneStep | gform2adafruitIO.py:268-272 | Deleting the id of listed entry `i ≥ MAX_QUOTES` removes that entry only. |
| Publisher.DeleteListed | gform2adafruitIO.py:268-272 | One deletion of the pruning loop removes the entry at listed index `i ≥ MAX_QUOTES` and nothing else. The other feed is unchanged. |
| Publisher.Prune | gform2adafruitIO.py:265-282 | Exactly the entries at listed index `≥ MAX_QUOTES` are deleted. The feed keeps its first `MAX_QUOTES` entries, and the other feed is unchanged. |
| Publisher.AdafruitIOAccess | gform2adafruitIO.py:231-282 | Both feeds hold the first `MAX_QUOTES` of the sent values, newest first, followed by the old ones. |
| Publisher.SentPaired | gform2adafruitIO.py:253-262 | Position `k` of the newly sent texts and colours holds the text and colour of one and the same batch quote, and that text was not yet published. |
| Publisher.FeedsStayPaired | gform2adafruitIO.py:253-282 | Feeds of equal length stay of equal length and within `MAX_QUOTES` after publishing and pruning. Each retained new position pairs a quote's text with its colour. |

## Left out

- Publisher.RepublishSendsNothing: holds only against the unpruned text feed. The script's next run takes its snapshot (gform2adafruitIO.py:246) after pruning, and once more than `MAX_QUOTES` quotes are valid the pruned ones are sent again (`PrunedQuoteResent`). The script does not show which behaviour is intended, so no corrected publisher is modelled.
- Fetching the form over HTTP and decoding it as UTF-8 (gform2adafruitIO.py:120-121) is network I/O. The `csv` parameter of `ProcessForm` is the text `input_file.read()` returns at gform2adafruitIO.py:151, after text-mode newline translation; that translation is where the `"\n\n"` record separator comes from, and it is not modelled.
- The local files (gform2adafruitIO.py:124-143, 149, 286-292) are file I/O. This covers writing `new.csv`, the `filecmp` comparison with `old.csv` that decides whether to run, and copying `new.csv` over `old.csv`.
- `Profanity.ProfanityCheck` takes the word list as a parameter instead of reading `profanity.txt` (gform2adafruitIO.py:214-215).
- The credentials, `load_dotenv` and the Adafruit IO `Client` (gform2adafruitIO.py:234-243) are left out: the service is the in-memory `Feeds.FeedStore`. Network failures and error answers from the service are not modelled, including a delete of an unknown id. That delete is modelled as changing nothing.
- `Feeds.FeedStore.List` returns a whole feed. Paging of the service's data listing is not modelled.
- The colour library is not part of this model.
  - `name_to_hex` is a map parameter keyed by lower-case names.
  - `hex_to_rgb` is modelled as the library's acceptance rule: `#` plus three or six hexadecimal digits.
- The `print` diagnostics, `main` (gform2adafruitIO.py:104-114) and the commented-out endless loop with `time.sleep` (gform2adafruitIO.py:303-308) are console output and scheduling.
- Strings are ASCII only. `isspace`, `isalpha`, `isalnum` and `lower` are not modelled for other Unicode characters.
- Python dictionaries mutated through the loop variable `q` are modelled as replacing the quote value in its slot. Each dictionary is in the list once, so no aliasing is lost.

## Findings

| source | as written | input that shows it | evidently intended | confidence | as-written member | corrected member |
|---|---|---|---|---|---|---|
| gform2adafruitIO.py:163-171 | `quotes.pop(i)` inside `enumerate(quotes)`: the quote that slides into slot `i` is never colour-checked and is kept with its raw colour. | Two quotes with an empty colour field: the second survives with its empty colour. | Every quote is colour-checked, and only accepted quotes are kept, with normalised colours. | not executed | Processing.ColorSkipExample | Processing.ProcessFormIntended |
| gform2adafruitIO.py:174-178 | The same `pop(i)` inside `enumerate(quotes)`: the quote after a profane one is never checked. | Two quotes with text `bad` and the list `["bad"]`: the second survives. | Every quote is checked, and no profane text is kept. | not executed | Processing.ProfanitySkipExample | Processing.ProcessFormIntended |
