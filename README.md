# Terminal quiz: verified model

The program is a terminal quiz. It loads person records (name, years,
profession, descriptive text) and groups them by profession into a catalog.
Each round it picks a profession, samples up to four different records of
that profession, and shows the description of one of them. The user then
types the number of the matching name. The program keeps the counts of
correct and answered rounds until the user types `e`.

The Dafny model has five modules:

- `Collections` (`collections.dfy`): duplicate-free sequences, the element
  set of a sequence, and `Enumerate`. `Enumerate` lists a set in an
  arbitrary order, the way iterating a hash map or hash set and collecting
  into a vector does.
- `Catalog` (`catalog.dfy`): `Person` and `Test`, plus the grouping loop of
  `Test::new` as the method `GroupByProfession`, called by `NewTest`.
  `Bucket` is the reference definition of a bucket (the records of one profession, in input order). The lemmas
  say that the catalog holds every record under its own profession, keeps
  input order, and gives bucket sizes that sum to the input length.
- `Questions` (`questions.dfy`): `Test::next_question` as `NextQuestion`.
  The sampling loop is `SampleAnswers`. The verdict of `Question::answer`
  is `Answer`. The line structure of the question display is `Display` and
  that of the answer reveal is `Revealed`.
- `Session` (`session.dfy`): the `correct`/`total` loop of `main`, as
  `RunSession`, with one loop pass as `Score`. Each round first generates
  its question from its own draws and then reads its line, as the source
  does.
- `Scenarios` (`scenarios.dfy`): a two-doctor catalog worked through
  grouping and question generation.

Randomness is an explicit input. Each call `gen_range(0..n)` becomes a raw
draw `d` used as `d % n`, so every index in the range can be drawn and no
other. The sampling loop gets a finite list of draws. When the list runs out
before the set is full, the model reports `Exhausted` / `Unfinished`: at that
point the source would still be drawing. In the same way, a session that
uses up the supplied rounds reports `OutOfRounds`.

In these places the model follows the code where a reader might expect
otherwise:

- Options are kept apart by whole-record equality (the derived `Eq`/`Hash`
  on `Person`), so two records with the same `text` but another field
  different are two options.
- The sampling loop has no retry cap, and the option count is
  `min(4, persons.len())`. A bucket with fewer different records than that
  never finishes, and `NextQuestion` then reports `Unfinished` for every
  draw list (see Findings).
- Answer `0` is not judged "incorrect". The `usize` subtraction
  `answer - 1` panics on it (`Session.AnswerUnderflow`).
- There is no topic pinning, reverse mode or pause-before-reveal. The code
  has none of them.

## Model

| member | source | states |
|---|---|---|
| `Collections.Enumerate` | src/main.rs:39-61 | used for the profession keys (line 39) and the answer set (line 61): the result lists every element of the set exactly once (no duplicates, same members, same size), in an order the caller cannot rely on |
| `Catalog.Bucket` | src/main.rs:32-37 | a bucket holds only input records of its own profession and is no longer than the input |
| `Catalog.NewTest` | src/main.rs:31-43 | the map has a key exactly for each profession that occurs in the input; each key's bucket is that profession's records in input order; the profession list holds each key exactly once; no bucket is empty |
| `Catalog.GroupByProfession` | src/main.rs:31-37 | the map has a key exactly for the professions occurring in the input, and each key's bucket is the reference bucket: that profession's records in input order |
| `Catalog.GroupsAppend` | src/main.rs:33-36 | one loop pass (create the bucket if missing, then push) turns an exact grouping of the records so far into an exact grouping of those records plus the new one |
| `Catalog.PersonInOwnBucket` | src/main.rs:32-36 | every input record is in the bucket of its own profession |
| `Catalog.CatalogHoldsEveryPerson` | src/main.rs:31-43 | after construction, every input record's profession is a key and the record is in that key's bucket |
| `Catalog.BucketKeepsInputOrder` | src/main.rs:32-37 | the k-th record of a bucket is the input record at the k-th matching position; the positions strictly increase; a position is listed exactly when its record has the profession |
| `Catalog.BucketTotalCoversInput` | src/main.rs:32-37 | when a profession list without repeats covers every input profession, its bucket sizes add up to the input length |
| `Catalog.BucketSizesSumToInput` | src/main.rs:31-43 | the bucket sizes of the built catalog, summed over its profession list, equal the number of input records |
| `Questions.Picked` | src/main.rs:57-59 | the records selected by the first k draws are records of the bucket, and there are at most k of them |
| `Questions.SampleAnswers` | src/main.rs:56-60 | when sampling finishes, it holds exactly the wanted number of different records, namely those picked by the draws it used; it stops at the first draw that completes the set; it runs out of draws only if no prefix of the draws completes the set |
| `Questions.AnswersNum` | src/main.rs:54 | the source's option count is at most four and at most the bucket length, and it is one of the two |
| `Questions.NextQuestion` | src/main.rs:46-67 | the panic on an empty profession list; otherwise the topic is the drawn profession; an asked question has exactly min(4, bucket length) options, none repeated, all from the topic's bucket and of that profession, namely the records its draws picked, with no earlier draw completing the set; the expected index is the drawn one and lies inside the options; when the draws run out no prefix of them completes the set; a bucket with fewer different records than the count is never finished |
| `Questions.Answer` | src/main.rs:88-89 | for a generated question, the 1-based answer is judged correct exactly when it is one of the listed numbers and the record listed under it is the expected record, the one whose description was shown |
| `Questions.ExactlyOneCorrect` | src/main.rs:88-89 | of the offered numbers 1..len, exactly one is judged correct: the expected position plus one |
| `Questions.Choices` | src/main.rs:79-81 | one option line per answer, numbered consecutively, in list order |
| `Questions.Display` | src/main.rs:76-83 | the display, a pure function that leaves the question unchanged, is a rule line, then the expected record's description, then one line per answer numbered from 1 in list order |
| `Questions.AcceptedChoiceMatchesPrompt` | src/main.rs:77-89 | the number judged correct is the displayed choice that names the record whose description is the prompt |
| `Questions.Revealed` | src/main.rs:90-98 | the answer output is a blank line, the verdict, then every answer's name and description in list order |
| `Questions.RepeatedRecordNeverFinishes` | src/main.rs:54-60 | for a bucket holding one record twice, the source asks for two options, yet no number of draws ever picks two different records |
| `Questions.SourceCountUnreachable` | src/main.rs:54-60 | if a bucket has fewer different records than min(4, length), no prefix of any draw list reaches that count |
| `Questions.CorrectedCountReachable` | src/main.rs:54-60 | with the count min(4, different records), the draws that visit every position once reach the count, so some draw sequence ends the loop |
| `Questions.CountsAgreeWithoutRepeats` | src/main.rs:54 | on a bucket without repeated records, the corrected count equals min(4, bucket length) |
| `Session.Score` | src/main.rs:119-127 | the exit line, an unparsable line and end of input stop the loop with their own endings, answer 0 stops it with the underflow, and a pass that goes on was answered with a positive number and counts one more round |
| `Session.ScoreStep` | src/main.rs:124-127 | a pass that goes on raises correct by one exactly when the answer was right and keeps correct <= total within u32 range; a positive answer below the u32 limit always goes on |
| `Session.CorrectCount` | src/main.rs:124-127 | the number of rounds answered correctly is at most the number answered |
| `Session.RunSession` | src/main.rs:104-131 | correct <= total <= u32 max; total counts the answered rounds, each given a positive number; every answered question is the one its round's draws generate from the catalog (the source's option count, the picked records of the drawn profession, the drawn expected position); correct is exactly the number of rounds answered right; the ending names the line or failure that stopped the loop, a stop caused by the line comes after that round's question was generated, and the stopping round changes neither counter |
| `Session.LogDeterminesCorrect` | src/main.rs:107-127 | two answer logs of the same rounds over the same catalog give the same correct count, whatever order their options were listed in |
| `Scenarios.DoctorsCatalog` | src/main.rs:31-43 | two doctors group into one profession whose bucket holds both records in input order |
| `Scenarios.DoctorsQuestion` | src/main.rs:46-67 | for any draws, an asked question over the two doctors offers exactly both records, the expected position plus one is judged correct, and answering it as the first round raises both counters from 0 to 1 |

## Left out

- Reading `data.json` and the JSON parse (src/main.rs:25-29): file input and a foreign parser. `NewTest` takes the parsed records.
- The random source (src/main.rs:47-48, 51, 58, 62): it is foreign and random, so it is replaced by explicit draws reduced modulo the range. Uniformity is not modelled.
- Unfinished sampling: for random draws the loop ends with probability one when the count is reachable, but that is a probabilistic fact. The model shows only that a finishing draw sequence exists.
- Hash-map and hash-set iteration order (src/main.rs:39, 61): unspecified, so `Enumerate` chooses an arbitrary order.
- Reading standard input and parsing the number (src/main.rs:115-123): I/O and foreign parsing. Lines come already classified as the exit line, a number, an unparsable line, or end of input. At end of input the round's question is still generated; then the empty line does not parse, which is the `InputEnded` ending.
- Output text and number formatting (src/main.rs:77-80, 90-98, 112, 114, 128-130): only the line structure of the question and of the reveal is modelled. `RunSession` does not assemble the printed transcript.
- The `f32` percentage (src/main.rs:128): floating point.
- Session.RunSession: follows a build with overflow checks. Answer `0` and a counter past `u32` range end the session as panics. In a release build without those checks, answer `0` wraps to `usize::MAX` and is judged incorrect, and the counters wrap.
- The references from a question into the catalog (src/main.rs:70-73): a question holds copies of the records, which compare equal to the originals.

## Findings

| source | as written | input that shows it | evidently intended | confidence | as-written member | corrected member |
|---|---|---|---|---|---|---|
| src/main.rs:54-60 | the option count is `min(4, persons.len())`, and the loop draws until the hash set holds that many different records | a bucket holding the same record twice, `[p, p]`: the count is 2 but every draw inserts `p`, so the loop never ends | a count of min(4, number of different records in the bucket), which the draws can always reach | medium, not executed | `Questions.RepeatedRecordNeverFinishes` | `Questions.CorrectedCountReachable` |

The as-written count is `Questions.AnswersNum`. `Questions.NextQuestion`
uses it, as the source does, and reports `Unfinished` for every draw list
on such a bucket. The corrected count is `Questions.DistinctAnswersNum`.
`Questions.CountsAgreeWithoutRepeats` shows that the two counts agree on
every bucket without repeated records, so on such catalogs the correction
changes nothing.
