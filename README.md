# Word validation and the per-user word store of the Quizlet bot

This project models, in Dafny, the two parts of the bot's word-lookup pipeline that hold logic.

1. **The word validator.** It decides whether a chat message is an English word worth looking up. `WordValidator` strips the input once. `validate` then runs a five-step check chain, and the first failing check decides the outcome:
   - empty;
   - longer than 70 characters;
   - fails the regex `^(?!-+$)[a-zA-Z-]{2,}$`;
   - has a piece between hyphens shorter than 2 characters;
   - otherwise valid.

   `validate_word` returns the stripped word when it is valid. Otherwise it returns nothing and replies with the outcome's message from the `ValidationResult` enum.
2. **The per-user word store.** This is the `user_words` table, keyed by the Telegram id and the lower-cased word.
   - `add_user_word` inserts a row only if no row for that key exists. It reports whether it inserted.
   - `is_word_in_db` finds the row for a key.
   - `get_word_from_db_or_api` returns the stored record on a hit. On a miss it asks the dictionary API.

Files, one module each:

- `wrappers.dfy` — `Option`, for Python's `None`.
- `text.dfy` — `str.strip()` and `str.lower()` written out over characters.
- `constants.dfy` — `ValidationResult` and its messages.
- `validators.dfy` — the validator and `validate_word`.
- `db_requests.dfy` — the table, the save and the lookups.

How the model is built:

- **The regex** becomes an explicit predicate. The match needs at least two characters, every character must be in `[a-zA-Z-]`, and the input must not be hyphens only (the negative lookahead).
- **`split("-")`** is a recursive function. It is proved to round-trip with `"-".join`.
- **VALID** is proved equal to an independent description: the stripped word has at most 70 characters and is one or more runs of at least two ASCII letters joined by single hyphens.
- **The validator** is a datatype whose `word` is set once by `NewWordValidator`. So `Validate` is a function of that word alone: deterministic, and it cannot change `word`.
- **There are exactly five outcomes.** Those are the five constructors of `ValidationResult`.
- **The table** is a class holding a sequence of rows, and every lookup keys on `(tg_id, lower(word))`. The table's index is not unique (app/database/models.py:10), so "at most one row per key" is an invariant (`TableInvariant`). It is proved to hold because of the check in `add_user_word`. The ghost function `Contents()` views the table as a map from key to row. Every store property is also stated against that map.
- **The dictionary API** is a parameter `api: string -> Option<WordData>`. It is an oracle the model does not interpret.

Where the code and the design description of the system disagree, the model follows the code:

- The design says a valid word comes back lower-cased. `validate_word` returns the stripped word with its case unchanged. Lower-casing happens only in the store functions.
- The design folds leading, trailing and doubled hyphens into the regex step, as a "not alphabetic" rejection. The code's regex lets them through, and the piece check then rejects them as INVALID_PARTS. For example, `"-ab"` and `"ab--cd"` give INVALID_PARTS, not NOT_ENGLISH.
- The design asks for a uniqueness constraint or an atomic save. The code checks first and then inserts (modelled here as one sequential step).
- The design treats the stored fields as optional. The table stores plain strings, and the caller substitutes `''` for missing values.

## Model

| member | source | states |
|---|---|---|
| Constants.Message | app/utils/constants.py:4-10 | VALID carries no message (`None`); each of the four rejections carries a non-empty message |
| Constants.MessageInjective | app/utils/constants.py:6-10 | two outcomes have the same message only if they are the same outcome, so the reply identifies the rejection |
| Text.Strip | app/utils/validators.py:14 | `strip()` never lengthens the input and leaves no whitespace at either end |
| Text.TrimStartShape | app/utils/validators.py:14 | the leading-whitespace half of `strip()` removes a whitespace-only prefix and keeps the rest unchanged |
| Text.TrimEndShape | app/utils/validators.py:14 | the trailing-whitespace half of `strip()` removes a whitespace-only suffix and keeps the rest unchanged |
| Text.StripDecompose | app/utils/validators.py:14 | every input is its stripped form with whitespace before and after it |
| Text.StripUnique | app/utils/validators.py:14 | a trimmed string surrounded by any whitespace strips to exactly that string |
| Text.StripIdempotent | app/utils/validators.py:28-31 | stripping twice equals stripping once, so `validate_word`'s strip and the constructor's strip agree |
| Text.StripEmptyIffAllSpace | app/utils/validators.py:14-18 | the stripped word is empty exactly when the input is whitespace only |
| Text.Lower | app/database/db_requests.py:9 | `lower()` keeps the length and maps each character to its lower case, so no upper-case ASCII letter remains |
| Text.LowerIdempotent | app/database/db_requests.py:18-20 | lower-casing in `add_user_word` and again in `is_word_in_db` gives the same key as lower-casing once |
| Text.LowerEqualIffEqualIgnoringCase | app/database/db_requests.py:9-12 | two words give the same key exactly when they differ only in ASCII letter case |
| Validators.MatchesBaseRegex | app/utils/validators.py:11 | the full match of `^(?!-+$)[a-zA-Z-]{2,}$` holds exactly when the word has at least two characters, all in `[a-zA-Z-]`, and at least one of them is a letter |
| Validators.Split | app/utils/validators.py:23 | `split("-")` always yields at least one piece |
| Validators.SplitCount | app/utils/validators.py:23 | `split("-")` yields exactly one piece more than the word has hyphens |
| Validators.SplitPiecesHyphenFree | app/utils/validators.py:23 | no piece produced by `split("-")` contains a hyphen |
| Validators.SplitJoin | app/utils/validators.py:23 | joining the pieces of `split("-")` with hyphens gives back the word |
| Validators.JoinSplit | app/utils/validators.py:23 | splitting hyphen-free pieces joined by hyphens gives back exactly those pieces |
| Validators.SplitAppend | app/utils/validators.py:23 | a hyphen between two strings separates their pieces: `split(a + "-" + b)` is `split(a)` followed by `split(b)` |
| Validators.SplitLetters | app/utils/validators.py:21-23 | every character is a letter or a hyphen exactly when every piece consists of letters only |
| Validators.MisplacedHyphenGivesEmptyPart | app/utils/validators.py:23 | a leading, trailing or doubled hyphen makes `split("-")` produce an empty piece |
| Validators.RegexAndPartsIffRuns | app/utils/validators.py:21-24 | a word passes both the regex and the piece check exactly when every piece is a run of at least two ASCII letters |
| Validators.HyphenatedIffRuns | app/utils/validators.py:23 | a word is runs of two or more letters joined by single hyphens exactly when all its `split("-")` pieces are such runs |
| Validators.WordValidator.Validate | app/utils/validators.py:16-25 | each outcome in terms of the word alone: EMPTY exactly for the empty word, TOO_LONG exactly above 70 characters, NOT_ENGLISH exactly for a non-empty word within the limit that fails the regex, INVALID_PARTS exactly for a word within the limit that passes the regex but has a piece that is not a run of two or more letters, VALID exactly for a word within the limit whose pieces are all such runs |
| Validators.NewWordValidator | app/utils/validators.py:13-14 | the constructor keeps a word no longer than the input with no whitespace at either end; it is empty exactly when the input is whitespace only, and stripping it again changes nothing |
| Validators.ValidIffHyphenatedWord | app/utils/validators.py:16-25 | the chain on a stripped word ends in VALID exactly when the word has at most 70 characters and is runs of two or more letters joined by single hyphens |
| Validators.ValidExactly | app/utils/validators.py:11-25 | for a raw input: VALID exactly when the stripped input is at most 70 characters and is one or more letter runs of length 2 or more joined by single hyphens |
| Validators.EmptyExactly | app/utils/validators.py:14-18 | EMPTY exactly when the input is empty or whitespace only |
| Validators.TooLongWhateverTheCharacters | app/utils/validators.py:19-20 | TOO_LONG exactly when the stripped input exceeds 70 characters, whatever those characters are |
| Validators.NotEnglishExactly | app/utils/validators.py:21-22 | NOT_ENGLISH exactly when the stripped input is non-empty, within the limit and fails the regex |
| Validators.ForeignCharacterIsNotEnglish | app/utils/validators.py:21-22 | any character outside A-Z, a-z and '-' in a word within the limit gives NOT_ENGLISH (e.g. "123", "ab cd") |
| Validators.SingleCharacterIsNotEnglish | app/utils/validators.py:21-22 | any single non-space character, a letter included (e.g. "a"), gives NOT_ENGLISH |
| Validators.HyphensOnlyIsNotEnglish | app/utils/validators.py:21-22 | hyphens only (e.g. "--") gives NOT_ENGLISH: the lookahead refuses it before the piece check |
| Validators.InvalidPartsExactly | app/utils/validators.py:21-24 | INVALID_PARTS exactly when the stripped input is within the limit, passes the regex, and has a piece that is not a run of two or more letters |
| Validators.MisplacedHyphenIsInvalidParts | app/utils/validators.py:21-24 | a word that passes the regex but has a leading, trailing or doubled hyphen ("-ab", "ab-", "ab--cd") gives INVALID_PARTS, not NOT_ENGLISH |
| Validators.ShortPieceIsInvalidParts | app/utils/validators.py:21-24 | two letter runs joined by one hyphen, one of them a single letter ("a-b"), pass the regex and give INVALID_PARTS |
| Validators.SingleRunIsValid | app/utils/validators.py:16-25 | a run of 2 to 70 ASCII letters (e.g. "hello") is VALID |
| Validators.TwoRunsAreValid | app/utils/validators.py:16-25 | two runs of at least two letters joined by one hyphen, at most 70 characters (e.g. "well-being"), are VALID |
| Validators.ValidateIgnoresSurroundingSpace | app/utils/validators.py:14 | whitespace added around the input never changes the outcome |
| Validators.ValidateWord | app/utils/validators.py:28-37 | returns a word exactly when the outcome is VALID; that word is the stripped input, not lower-cased, and fits in 70 characters |
| Validators.ValidateWordRepliesOnRejection | app/utils/validators.py:33-35 | `validate_word` sends a message exactly when it returns nothing |
| Validators.LeadingHyphenExample | app/utils/validators.py:21-24 | `"-ab"` passes the regex and gives INVALID_PARTS |
| Validators.OneLetterPieceExample | app/utils/validators.py:21-24 | `"a-b"` passes the regex and gives INVALID_PARTS |
| Validators.HyphensOnlyExample | app/utils/validators.py:21-22 | `"--"` gives NOT_ENGLISH |
| Validators.SingleLetterExample | app/utils/validators.py:21-22 | `"a"` gives NOT_ENGLISH |
| Validators.HyphenatedExample | app/utils/validators.py:16-25 | `"well-being"` is VALID |
| Validators.ValidateWordExample | app/utils/validators.py:28-37 | `validate_word(" Hello\n")` returns `"Hello"`: stripped, case kept |
| DbRequests.Find | app/database/db_requests.py:10-14 | the query returns a row with the requested key, and returns nothing exactly when no row has that key |
| DbRequests.RowsOf | app/database/db_requests.py:12 | the rows kept are exactly the rows with the given `tg_id` |
| DbRequests.FindAgreesWithMap | app/database/db_requests.py:7-14 | with unique keys, the row the query returns is the map view's entry for the key |
| DbRequests.FindPrefix | app/database/db_requests.py:10-14 | under the model's earliest-match choice, rows appended later never change the row found once a match exists; with at most one row per key (`TableInvariant`) that row is the query's only answer |
| DbRequests.FindAppend | app/database/db_requests.py:10-14 | under the model's earliest-match choice, appending a row changes the result only when the key had no match, and then only if the new row carries that key; with at most one row per key this is the query's own behaviour |
| DbRequests.AddRow | app/database/db_requests.py:16-33 | the save succeeds exactly when no stored row has the new row's key; it never changes a stored row, appends exactly one row on success and none otherwise, and the appended row is the new one |
| DbRequests.AddRowKeepsInvariant | app/database/db_requests.py:16-33 | saving keeps the keys unique and every stored word lower-cased: no duplicate rows |
| DbRequests.AddRowContents | app/database/db_requests.py:16-33 | saving reports success exactly when the key is absent; it then adds exactly that entry; otherwise nothing changes, and existing rows are never overwritten |
| DbRequests.AddRowThenFind | app/database/db_requests.py:20-33 | after a save, the key is present, and a successful save is found by a later lookup unchanged |
| DbRequests.SecondAddRefused | app/database/db_requests.py:18-21 | a second save of the same key returns False and leaves the table as the first save left it |
| DbRequests.SameKeyIffEqualIgnoringCase | app/database/db_requests.py:18-25 | two saves for one user address the same entry exactly when their words differ only in letter case |
| DbRequests.FindScoped | app/database/db_requests.py:10-14 | a lookup for a user gives the same result on that user's rows alone |
| DbRequests.OtherUsersRowIsInvisible | app/database/db_requests.py:11-13 | another user's row for the same word never changes the result of `is_word_in_db` |
| DbRequests.RowsOfConcat | app/database/db_requests.py:12 | restricting to one user's rows commutes with concatenating tables |
| DbRequests.WordStore.IsWordInDb | app/database/db_requests.py:7-14 | returns the store's entry for `(tg_id, lower(word))`, or nothing when there is none |
| DbRequests.WordStore.GetWordFromDbOrApi | app/database/db_requests.py:35-53 | on a hit, returns the stored record's word and four fields; on a miss, returns exactly the API's answer for the lower-cased word, possibly None |
| DbRequests.WordStore.AddUserWord | app/database/db_requests.py:16-33 | insert-if-absent: returns False and leaves the store unchanged when the key exists; otherwise stores exactly one new entry for `(tg_id, lower(word))` with the four fields as given and returns True; the invariant is kept |
| DbRequests.WordStore.constructor | app/database/models.py:7-18 | a new store is empty and satisfies the invariant |
| DbRequests.HitIgnoresApi | app/database/db_requests.py:40-49 | on a hit, the result does not depend on the API oracle, so the API is never consulted |
| DbRequests.LookupIgnoresCase | app/database/db_requests.py:37-41 | words that differ only in letter case look up the same record and get the same result |

## Left out

- The reply `validate_word` sends is I/O. The model states only the return value, and which message (`Constants.Message`) belongs to the outcome.
- `strip()` uses the whitespace set of Python's `str.isspace`, written out. `lower()` is modelled for ASCII letters only, and other characters are kept. Python also lower-cases non-ASCII letters; that matters only for words that did not come through the validator.
- The dictionary API (`DictionaryAPI`, `WordData` construction, HTTP) is an uninterpreted oracle parameter. How it extracts transcription, audio and example is not modelled. `WordData`'s own definition is not part of this model, so its four fields are modelled as optional strings.
- The table's autoincrement `id` column and the SQL session are not modelled.
- The store checks no column width, the `word` column's included: `AddUserWord` stores a word of any length and reports success. The 70-character limit lives only in the validator, and the word saved is the one the lookup returned, not the validated input (app/handlers.py:103-109). In the source a value too wide for its column, like any other database error at `commit` (app/database/db_requests.py:32), raises an exception; the model has no outcome for that.
- `add_user_word`'s check followed by insert can race between two concurrent saves. The model runs saves one after another, so concurrent duplicate inserts are not captured.
- When several rows share a key (possible only through that race), the query in `is_word_in_db` has no ORDER BY and returns an unspecified one of them; `Find` returns the earliest, so `FindPrefix` and `FindAppend` describe the model's choice on such tables.
- Deleting words, clearing a dictionary, listing a user's words and CSV export are not in the modelled code.
- The Telegram handlers, keyboards, greeting filter, configuration and connection setup are UI and plumbing, not core logic.
- Literal examples are stated for the validator only (the `...Example` lemmas); `split("-")` is not evaluated on a literal such as `"ab--cd"`, which `MisplacedHyphenIsInvalidParts` covers in general.
