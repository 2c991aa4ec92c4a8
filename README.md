# horoscope_bot in Dafny

This project models the logic of the horoscope Telegram bot that does not depend on an outside service.

**Natal-chart bot (Starbutts.py)**
- The mapping from an ecliptic longitude to a zodiac sign and a degree within that sign.
- The planet loop of `calculate_chart` and the house labels "Дом 1".."Дом n".
- The four-field "name, date, time, city" parse.
- The conversation state kept in `context.user_data`. This is the `awaiting_data` entry plus the two stored compatibility inputs, as driven by the `start`, `button_handler` and `handle_message` callbacks.

**Daily horoscope publisher (Horoscope.py)**
- The greedy word wrap and the vertical layout of a horoscope card.
- Cutting the image list into consecutive batches, each sent and followed by a sleep.
- Collecting one image path per zodiac sign whose generation step did not raise.

Outside services become parameters:
- the ephemeris longitudes (`string -> real`);
- the rendered width of a string (`draw.textbbox`, `string -> int`);
- whether a horoscope could be generated;
- whether a file can be opened;
- whether a batch was accepted by Telegram.

Replies and calls into analysis routines become entries of an action log. These are the Telegram replies, `calculate_individual_chart`, the financial analysis, the compatibility analysis and the dream interpretation.

Python semantics are written out explicitly:
- `str.isspace` over the ASCII and common Unicode white-space characters;
- `str.strip`, `str.split(",")`, `str.split()`, `" ".join`;
- `str.lower` for the capitals A–Z, U+00C0–U+00DE except U+00D7, U+0400–U+042F, U+04C0, and the paired Cyrillic capitals of U+0460–U+052F (see "Left out");
- floor division and modulo on reals;
- negative list indexing;
- `range` with a zero or negative step.

Modules:
- `Wrappers`: `Option` and `Result`.
- `Seqs`: concatenation of a sequence of sequences.
- `Text`: white space, strip, split, join, words and lower case.
- `Zodiac`: signs, planets, `degree_to_sign`, the chart loop and the house labels.
- `Intake`: the four-field parse and its round trip.
- `Conversation`: the actions and the `Session` class holding one user's `user_data`.
- `HoroscopeImage`: title placement, greedy wrap and line layout.
- `Publishing`: batches, sending, image paths and the daily run.

Two choices in the model follow the code:
- `degree_to_sign` is modelled as a total function with an error result. Its contract states exactly when Python would raise an `IndexError`: an index below −12 or above 11, that is a degree outside [−360, 360). Negative degrees in [−360, 0) map to a sign through Python's negative indexing. For degrees in [0, 360) it returns the sign `floor(d/30)` and the remainder, with `30·index + remainder == d`.
- `calculate_individual_chart` parses the raw message text (`update.message.text`). The financial branch and the compatibility data use the stripped, lower-cased input (Starbutts.py:234, 259, 269, 321). The model keeps this difference.

## Model

| member | source | states |
|---|---|---|
| Text.IsSpace | Starbutts.py:219 | the definition of `str.isspace` (ASCII 9–13 and 28–32, U+0085, U+00A0, U+1680, U+2000–U+200A, U+2028, U+2029, U+202F, U+205F, U+3000); its meaning for strip and split is stated by Text.TrimStart, Text.StripSurrounded and Text.WordsAfterSpaces |
| Text.TrimStart | Starbutts.py:241 | the result is a suffix of the input, everything removed is white space, and the result does not start with white space |
| Text.TrimEnd | Starbutts.py:241 | the result is a prefix of the input, everything removed is white space, and the result does not end with white space |
| Text.Strip | Starbutts.py:219 | `str.strip`: the result neither starts nor ends with white space; it is empty only when the input was all white space |
| Text.TrimBoth | Starbutts.py:219 | trimming the start and then the end leaves a string trimmed at both ends, empty only for all-white-space input |
| Text.TrimStartSpaces | Starbutts.py:241 | white space followed by a non-space start is trimmed to exactly that rest |
| Text.TrimEndSpaces | Starbutts.py:241 | a string with a non-space end followed by white space is trimmed back to that string |
| Text.StripSurrounded | Starbutts.py:219 | stripping white space padding around a trimmed string gives back that string |
| Text.StripIdempotent | Starbutts.py:219 | stripping twice is stripping once |
| Text.Split | Starbutts.py:234 | `str.split(sep)` gives one more part than there are separators, and no part contains the separator |
| Text.JoinSplit | Starbutts.py:234 | joining the parts of a split with the separator gives back the original text |
| Text.SplitJoin | Starbutts.py:234 | splitting the join of separator-free parts gives back exactly those parts |
| Text.SplitNoSeparator | Starbutts.py:234-235 | a text without the separator splits into the single part itself |
| Text.LeadingWord | Horoscope.py:99 | the first word is a maximal prefix of non-space characters |
| Text.Words | Horoscope.py:99 | `str.split()` yields only non-empty words without white space |
| Text.LeadingWordOf | Horoscope.py:99 | a word followed by white space or the end is read back as the leading word |
| Text.WordsAfterSpace | Horoscope.py:99 | one leading ASCII space does not change the words |
| Text.WordsAfterSpaces | Horoscope.py:99 | any leading run of white space (spaces, tabs, newlines, in any number) yields no word and does not change the words; so all-white-space text has no words. With Text.WordsOfWord this fixes `str.split()` on every input |
| Text.WordsOfWord | Horoscope.py:99 | the words of a word followed by a white-space-led rest are that word and the rest's words |
| Text.WordsOfSingle | Horoscope.py:99 | a single word splits into itself |
| Text.JoinSpaceCons | Horoscope.py:104 | joining `w` before a non-empty tail is `w`, a space, and the joined tail |
| Text.WordsOfWordThenJoin | Horoscope.py:99-104 | splitting a space-joined line starting with word `w` yields `w` then the tail's words |
| Text.WordsOfJoin | Horoscope.py:99-111 | splitting a space-joined list of words gives back exactly that list |
| Text.JoinSpaceFirst | Horoscope.py:104 | a space-joined non-empty list of words starts with the first character of its first word |
| Text.JoinSpaceSnoc | Horoscope.py:104 | appending a word to the join is the join, a space, and the word |
| Text.JoinSpaceTrimmed | Horoscope.py:104 | a space-joined list of words neither starts nor ends with white space |
| Text.StripExtend | Horoscope.py:104 | `f"{current_line} {word}".strip()` on a joined line is the join of the line's words with the word appended; for an empty line it is the word alone |
| Text.Lower | Starbutts.py:219 | `str.lower` keeps the length and lowers each character independently; its properties are Text.LowerNoCapitals and Text.LowerIdempotent |
| Text.IsUpper | Starbutts.py:219 | the definition of the capitals that are lowered: A–Z, U+00C0–U+00DE without U+00D7, U+0400–U+042F, U+04C0, and the capitals of U+0460–U+052F paired with the next code point; characterised by Text.LowerCharMeaning |
| Text.LowerCharMeaning | Starbutts.py:219 | lowering changes a character exactly when it is a covered capital, never leaves a covered capital, and keeps white space and non-white space apart |
| Text.LowerNoCapitals | Starbutts.py:219 | after lowering no covered capital is left, and every other character is kept in place |
| Text.LowerIdempotent | Starbutts.py:219 | lowering twice is lowering once |
| Text.LowerTrimmed | Starbutts.py:219 | lowering a stripped string leaves it stripped |
| Zodiac.SignIndex | Starbutts.py:52 | `int(degree // 30)` is the floor: 30·q ≤ degree < 30·q + 30 |
| Zodiac.DegreeToSign | Starbutts.py:46-54 | succeeds exactly for −360 ≤ d < 360 and otherwise reports the out-of-range index `floor(d/30)`; the sign is `signs[index]` of the twelve-name table, the degree in the sign lies in [0, 30), and `30·index + remainder` is d (or d + 360 for negative d) |
| Zodiac.SignSegment | Starbutts.py:52-53 | for 0 ≤ d < 360 the sign index is k exactly when 30k ≤ d < 30k + 30 |
| Zodiac.CalculateChart | Starbutts.py:83-102 | the chart loop succeeds exactly when every planet's longitude maps to a sign; then it has one entry per planet in table order, keyed by the planet name and holding that longitude's sign; otherwise the error is that of the first planet whose longitude is out of range |
| Zodiac.NatToString | Starbutts.py:111 | the decimal rendering of a number is never empty |
| Zodiac.DecimalRoundTrip | Starbutts.py:111 | reading the decimal rendering of n gives back n |
| Zodiac.NatToStringInjective | Starbutts.py:111 | different numbers have different decimal renderings |
| Zodiac.HouseKey | Starbutts.py:111 | the key `f"Дом {i}"` starts with "Дом " and its digits read back as i |
| Zodiac.HouseKeyInjective | Starbutts.py:111 | the labels "Дом i" of different house numbers differ |
| Zodiac.HouseLabels | Starbutts.py:106-112 | the house map is built exactly when every cusp maps to a sign; it has one entry per cusp, entry i keyed "Дом {i+1}" with the sign of cusp i; otherwise the error is that of the first out-of-range cusp, where the comprehension raises |
| Zodiac.HouseLabelsFrom | Starbutts.py:111 | the comprehension from cusp i on: the same statements over the cusps i.. |
| Zodiac.HouseKeysDistinct | Starbutts.py:111 | the house keys are pairwise distinct, so the dict built by the comprehension has exactly as many keys as there are cusps |
| Zodiac.NumberedKeysDistinct | Starbutts.py:111 | entries keyed by consecutive house numbers have distinct keys |
| Zodiac.DistinctKeysCount | Starbutts.py:111 | entries with pairwise distinct keys have as many keys as entries |
| Intake.ParseRecord | Starbutts.py:234-241 | accepts exactly the texts with three commas (four `split(",")` parts); otherwise reports the number of parts; an accepted record's four fields are stripped and comma-free |
| Intake.StripKeepsOut | Starbutts.py:241 | stripping cannot introduce a character |
| Intake.ParseFormatted | Starbutts.py:321-328 | a clean record written as four white-space-padded fields joined by commas parses back to that record |
| Conversation.UserInput | Starbutts.py:219 | `user_input` has no surrounding white space, as many characters as the stripped text, and no covered capital letter |
| Conversation.StartButtonRestarts | Starbutts.py:157-224 | the text of the "Старт" keyboard button, stripped and lowered, is the restart command |
| Conversation.IndividualChartAction | Starbutts.py:321-328 | the raw message text starts the chart computation exactly when it has four comma parts, with the parsed clean record; otherwise the format error is sent |
| Conversation.FinancialAction | Starbutts.py:231-251 | the stripped, lowered input starts the financial analysis exactly when it has four comma parts; otherwise the format error is sent |
| Conversation.CompatibilityAction | Starbutts.py:390-403 | a missing first entry fails, since the KeyError is caught; the analysis starts exactly when both stored inputs have four comma parts, with both parsed records; otherwise the pair-format error is sent |
| Conversation.Session.constructor | Starbutts.py:217-228 | a new user's data holds no state, no stored inputs and no actions |
| Conversation.Session.Start | Starbutts.py:155-179 | sends the main menu and the restart hint, changing nothing else |
| Conversation.Session.ButtonHandler | Starbutts.py:182-211 | answers the query; each of the four callbacks sends its prompt and sets its state (individual, person1, financial, dream); any other callback data leaves the state unchanged; stored inputs never change |
| Conversation.Session.HandleMessage | Starbutts.py:217-286 | "старт" restarts the menu and keeps all state. Individual and financial leave the state and run their parse. Person1 stores the input and moves to person2. Person2 stores the input, runs compatibility and resets the state. Dream interprets the raw text and resets the state. No state replies "unknown request". The compatibility step never finds the first input missing |
| Conversation.CompatibilityFlow | Starbutts.py:193-272 | the button followed by two non-restart messages stores both inputs, resets the state and issues exactly: answer, first prompt, second prompt, compatibility on the two inputs |
| HoroscopeImage.WrapText | Horoscope.py:98-112 | the lines are the greedy wrap of the words of `text`: their words in order are exactly `text.split()`; every line is the space-join of its words; each line's growing prefixes fit the maximum width, except a lone over-wide word; each break happens exactly where adding the next word would overflow; only the first line can be empty, exactly when there are no words or the first word alone overflows; there are between 1 and `words + 1` lines |
| HoroscopeImage.ExtendStep | Horoscope.py:104-108 | appending a word that fits keeps the wrap invariant with the longer current line |
| HoroscopeImage.BreakStep | Horoscope.py:109-111 | a word that overflows closes the current line and starts a new one, keeping the invariant |
| HoroscopeImage.FinishWrap | Horoscope.py:112 | appending the last current line completes a greedy wrap of all words |
| HoroscopeImage.FirstLineEmptyIff | Horoscope.py:101-112 | the first line is empty exactly when there are no words or the first word alone is wider than the limit |
| HoroscopeImage.WrapReadsBack | Horoscope.py:99-112 | lines built as joins of a greedy word grouping form a greedy wrap of the text |
| HoroscopeImage.PrefixesFitExtend | Horoscope.py:104-108 | a line's prefixes still fit after appending a word whose test line fits |
| HoroscopeImage.WrapWordsOfLines | Horoscope.py:99-112 | splitting each joined line gives back its word group |
| HoroscopeImage.GreedyBreaksUnique | Horoscope.py:103-112 | the greedy grouping of a word list under a width function is unique, so the wrap is determined by the words and the widths |
| HoroscopeImage.GreedyTailChain | Horoscope.py:101-112 | after an empty first line, the remaining lines form a greedy chain of all the words |
| HoroscopeImage.GreedyChain | Horoscope.py:103-112 | a greedy grouping with a non-empty first line is a greedy chain |
| HoroscopeImage.ChainUnique | Horoscope.py:103-112 | two greedy chains of the same words are equal |
| HoroscopeImage.ChainWordCount | Horoscope.py:103-112 | a non-empty chain's first line is non-empty and no longer than all its words |
| HoroscopeImage.ChainTail | Horoscope.py:103-112 | the lines after the first of a chain form a chain |
| HoroscopeImage.FirstLineNotShorter | Horoscope.py:104-111 | between two chains of the same words, the second's first line is no longer than the first's, since the greedy choice would have taken the extra word; by symmetry the two first lines have equal length |
| HoroscopeImage.LongerFirstLineFits | Horoscope.py:104-107 | if another grouping's first line fits more words, this grouping's test line with its next word fits |
| HoroscopeImage.CentredX | Horoscope.py:93 | `(img_width − width)/2` puts the middle of a string of that width at the middle of the image |
| HoroscopeImage.CentredMargins | Horoscope.py:93 | a string placed at `(1080 − width)/2` has equal left and right margins |
| HoroscopeImage.TextTop | Horoscope.py:115-117 | the definition of the first line's y; characterised by HoroscopeImage.BlockCentred and HoroscopeImage.BlockFits |
| HoroscopeImage.BlockCentred | Horoscope.py:115-117 | the text block's top margin below the title area equals its bottom margin exactly, since 910 − 60·n is even |
| HoroscopeImage.BlockFits | Horoscope.py:115-117 | the block starts below the title area and ends inside the 1080 px image exactly when there are at most 15 lines |
| HoroscopeImage.LayoutLines | Horoscope.py:119-123 | places every line in order at its centred x, the first at the centred block top and each next one 60 px lower |
| HoroscopeImage.TextsOfLayout | Horoscope.py:119-123 | the strings drawn by the layout are exactly the wrapped lines |
| HoroscopeImage.CardBodyOfLayout | Horoscope.py:114-123 | placing a greedy wrap's lines yields a card body: greedy lines, centred, 60 px apart from the block top |
| HoroscopeImage.CreateHoroscopeImage | Horoscope.py:83-123 | without the fonts nothing is drawn; otherwise the title is the sign centred at y = 50, and the body is the greedy wrap of the text laid out as a centred block of between 1 and `words + 1` lines |
| Publishing.Batches | Horoscope.py:148-149 | the definition of the slices `media_files[i:i + batch_size]`; characterised by Publishing.BatchesFlatten, Publishing.BatchesSizes and Publishing.BatchesCount |
| Publishing.BatchesFlatten | Horoscope.py:148-149 | the batches concatenate back to the file list |
| Publishing.BatchesSizes | Horoscope.py:148-149 | every batch is non-empty and at most `batch_size` long; all but the last are exactly `batch_size` |
| Publishing.BatchesCount | Horoscope.py:148-149 | there are no batches exactly for no files; otherwise there are ceil(n / batch_size) of them |
| Publishing.FirstUnreadableMeaning | Horoscope.py:150 | the batch opens exactly when every file in it is readable; otherwise the failing file is an unreadable member of the batch |
| Publishing.FirstUnreadableFromMeaning | Horoscope.py:150 | the same, for the files from a position on |
| Publishing.SendFrom | Horoscope.py:150-156 | the definition of the steps over batches j..: open, send, sleep, stopping at a file that cannot be opened; characterised by Publishing.SendFromPaired and Publishing.SendFromOutcome |
| Publishing.SendAt | Horoscope.py:148-156 | the definition of the same steps read off the loop offset i; equal to Publishing.SendFrom by Publishing.SendAtBatches |
| Publishing.SendAtBatches | Horoscope.py:148-149 | stepping an offset by `batch_size` visits exactly the batches of the list |
| Publishing.SendMediaInBatches | Horoscope.py:147-156 | a zero batch size raises before any step; a negative size does nothing; a positive size runs the send-then-sleep steps over the batches of the list |
| Publishing.SendFromPaired | Horoscope.py:150-156 | the steps alternate: the send outcome of batch k, then one sleep of `delay`, whether or not the send failed |
| Publishing.SendFromOutcome | Horoscope.py:150-156 | the run completes exactly when every file is readable, and then takes two steps per batch. Otherwise it stops at a file that cannot be opened, lying in the batch being opened, with no sleep after it |
| Publishing.AllReadableSendsEveryBatch | Horoscope.py:148-156 | with all files readable, every batch is offered and followed by a sleep |
| Publishing.ImagePath | Horoscope.py:208 | the path is the image folder, "/", the sign and ".jpg", and the sign can be read back from it |
| Publishing.ImagePathInjective | Horoscope.py:208 | different signs have different image paths |
| Publishing.Collected | Horoscope.py:204-212 | the definition of the collected paths; characterised by Publishing.CollectedMembers, Publishing.CollectedSplit, Publishing.CollectedLength and Publishing.CollectedDistinct |
| Publishing.CollectHoroscopeImages | Horoscope.py:204-212 | the loop collects the path of every sign whose generation succeeded, in sign order |
| Publishing.CollectedMembers | Horoscope.py:205-210 | a path is collected exactly when it is the image path of a sign whose generation succeeded |
| Publishing.CollectedSplit | Horoscope.py:205-212 | collecting is order-preserving: the paths of a prefix of the signs come before those of the rest |
| Publishing.CollectedLength | Horoscope.py:205-212 | at most one path per sign, and when every step succeeds, exactly the paths of all signs in order |
| Publishing.CollectedDistinct | Horoscope.py:205-212 | distinct signs give pairwise distinct collected paths |
| Publishing.SignsDistinct | Horoscope.py:23-27 | the twelve names of `ZODIAC_SIGNS` are pairwise distinct (the list is the same as the sign table of Starbutts.py:47-51) |
| Publishing.DailyRun | Horoscope.py:200-218 | collects at most twelve distinct paths in sign order and sends them in batches of 6 with 5 s sleeps; the card of the day is reached exactly when every collected file opens |

## Left out

**Outside services**
- The Swiss Ephemeris (`swe.julday`, `swe.calc_ut`, `swe.houses`): longitudes and house cusps are inputs.
- The ascendant: it is an ephemeris output.
- Geocoding and timezone lookup (`get_coordinates_and_timezone`, `convert_to_utc`) and the `hour + minute/60` float arithmetic over their result: these are external libraries; their failures are part of the analysis action.
- All OpenAI calls and prompt strings: these are remote model calls. The financial, individual-chart, compatibility and dream routines are log entries.
- `create_pdf`: FPDF rendering and file output.
- Telegram transport (keyboards, `reply_text`, `send_media_group`, `query.answer`) and asyncio timing: recorded as actions and steps.

**Rendering and files**
- PIL pixel drawing, font files and `image.save`: the model keeps only the rendered width as a parameter and a flag for whether the fonts loaded. A failing save is caught and printed in the source; it makes no difference to the model.
- Opened media files are never closed in the source; file handles are not modelled.

**Other**
- The tarot card (`random.choice`) and `get_today_date`: randomness and the clock.
- time.py: the `schedule` library and its endless loop.
- The `%.2f` formatting in `degree_to_sign` and float rounding: the model uses exact reals, so a longitude just below 360 that Python would round is not distinguished.
- Zodiac.DegreeToSign: does not model NaN or infinite floats, which have no real counterpart.
- Text.Lower: lowers only A–Z, U+00C0–U+00DE except U+00D7, U+0400–U+042F, U+04C0, and the capitals of U+0460–U+052F that pair with the next code point. The rest of the Unicode case table keeps its capitals in the model: Latin Extended (for example U+0100 Ā), Greek, and the other scripts. So does U+0130 İ, which Python lowers to two characters. The stripped, lowered input stored for the financial and compatibility branches (Starbutts.py:219, 234, 259, 269) can therefore differ from Python's for text containing such letters.
- Logging and `print` output: no effect on the state.
