# chat_bot knowledge-base core, in Dafny

This project models the core of `main.py`, a console chat bot that answers
questions from a knowledge base of question/answer pairs and learns new
pairs from the user:

- **Store** (`store.dfy`): the knowledge base as the ordered sequence of
  `Entry(question, answer)` records held under `knowledge_base["questions"]`;
  `get_answer_for_question` as the loop method `GetAnswerForQuestion`,
  proved equal to the function `Lookup` (exact, case-sensitive
  comparison, the first entry in list order wins).
- **Matcher** (`matcher.dfy`): `find_best_match`, which calls
  `difflib.get_close_matches(query, questions, n=1, cutoff=0.6)`. The
  similarity measure is a parameter `sim` that returns the pair
  `Score(matched, total)` difflib's ratio is computed from (ratio = 2·M/T,
  and 1 when T = 0). `sim(query, candidate)` stands for
  `SequenceMatcher(None, candidate, query).ratio()`, the argument order
  `get_close_matches` uses. Comparisons of ratios and the 0.6 cutoff become integer
  cross-multiplications (`10·2M >= 6·T`). The one-element list that
  `get_close_matches(n=1)` returns is represented as an `Option`.
- **Chat** (`chat.dfy`): the `chat_bot` loop. `Turn` is one pass of the
  loop body as a function: quit, hit, miss then skip, miss then learn.
  `Session` runs it over the lines typed in a session. The class `ChatBot`
  holds the entries, a ghost snapshot of what `knowledge_base.json` last
  received, and a ghost count of saves. Its `Step` method (one pass) and
  `Run` method (the `while True` loop) are proved against `Turn` and
  `Session`.

Console input is a sequence of lines. The answer prompt on a miss reads the
next line, so `Step` gets that line as an `Option` (`None` when input has run
out). `if best_match:` treats an empty-string match as a miss. The learned
question is the raw user input, not the matched question.

Behaviour of main.py that the model keeps:
- Loading has no fallback to an empty knowledge base and raises no storage
  error of its own. The model starts from whatever entries were loaded.
- Saving is a plain overwrite of the whole file after each append, not an
  atomic write. It is modelled as the ghost snapshot assignment.
- Among equally similar candidates, difflib (not `main.py`) picks the winner
  by its own ordering of (score, string) pairs, not by first occurrence. The
  model's contract therefore promises only some maximal candidate.

## Model

| member | source | states |
|---|---|---|
| Store.Questions | main.py:77 | the candidate list has one question per entry, in list order |
| Store.FirstIndex | main.py:58-60 | the index found has a matching question and no earlier entry matches; none is found exactly when no entry matches |
| Store.Lookup | main.py:58-61 | an answer is found exactly when the query is one of the known questions |
| Store.LookupIsFirstEntry | main.py:58-60 | the lookup gives answer `a` iff `a` belongs to the lowest-index entry whose question equals the query |
| Store.FirstMatchWins | main.py:58-60 | the first entry asking a question answers it, and a later duplicate with a different answer never has its answer returned |
| Store.LookupNoneIff | main.py:58-61 | the lookup gives None iff no entry's question equals the query |
| Store.LookupAppend | main.py:85 | after appending an entry, known questions keep their answers; the new entry answers its question only if it was unknown |
| Store.LookupExtend | main.py:85 | extending the list at the end never changes an answer already given |
| Store.GetAnswerForQuestion | main.py:47-61 | the loop with early return yields exactly `Lookup`, and an answer iff some entry has the query as its question |
| Matcher.FindBestMatch | main.py:32-44 | None iff no candidate reaches ratio 0.6 (so always for an empty list); otherwise a member of the list that reaches 0.6 and that no candidate beats |
| Matcher.ExactQueryMatches | main.py:43-44 | a query equal to a candidate is matched to that candidate, since only identical strings have ratio 1 |
| Matcher.EmptyMatchNeedsEmptyQuery | main.py:43-44 | the empty question can be the best match only of the empty query |
| Chat.LowerMatchesWord | main.py:74 | `lower(s)` equals a lower-case word iff `s` spells that word with each letter in either case |
| Chat.QuitIgnoresCase | main.py:74-75 | the session ends exactly on the 16 case spellings of "quit" |
| Chat.SkipIgnoresCase | main.py:84 | teaching is declined exactly on the 16 case spellings of "skip" |
| Chat.Turn | main.py:73-87 | one pass of the loop body: it quits exactly on "quit"; otherwise it answers exactly when the best match is a non-empty question, naming that question; on a miss it ends with no reply left, skips exactly on "skip" and otherwise learns; the knowledge base changes only by learning, which appends exactly `{user_input, new_answer}` at the end |
| Chat.HitAnswersFirstEntry | main.py:77-80 | on a hit the input is not "quit", the matched question is a non-empty known question that reaches the cutoff and is not beaten, the answer is its exact lookup, and nothing changes |
| Chat.KnownQuestionAnswered | main.py:77-80 | a known non-empty question other than "quit" is answered with its own lookup and changes nothing |
| Chat.GreetingAnswered | main.py:77-80 | with the single entry ("hi", "hello!"), the input "hi" is answered "hello!" |
| Chat.MissLearnsOrSkips | main.py:81-86 | on a miss, "skip" changes nothing; any other answer appends exactly one entry at the end, keeps every earlier answer, and answers the raw input when it was unknown |
| Chat.LearnedWasUnknownOrEmpty | main.py:77-85 | a learned question was not known before, unless it is the empty string |
| Chat.EmptyQuestionRelearned | main.py:77-86 | the known empty question is treated as a miss, so a second "" entry is appended that lookup never reaches |
| Chat.Session | main.py:71-87 | the `while True` loop over the lines read: the loaded entries stay a prefix, and at most one entry is added per two lines read |
| Chat.SessionKeepsAnswers | main.py:71-87 | every answer the knowledge base gave at the start of a session it still gives at the end |
| Chat.ChatBot.constructor | main.py:69 | the bot starts from the loaded entries, which are also the saved file, with no saves yet |
| Chat.ChatBot.Step | main.py:72-87 | one pass of the loop yields `Turn`'s outcome and entries, saves exactly when it learns, and the file again equals the entries |
| Chat.ChatBot.Run | main.py:71-87 | the loop leaves the entries equal to `Session` of the lines read, extending the loaded entries, with exactly one save per learned entry and the file equal to the entries |

## Left out

- File I/O: `load_knowledge_base` and `save_knowledge_base` (`open`, `json.load`, `json.dump`, main.py:5-29). Loading is the constructor's argument; saving is the ghost snapshot `saved` and the ghost counter `saves`. Missing files, malformed JSON and a missing `"questions"` key raise Python exceptions that are not modelled.
- Console I/O: `input` and `print` (main.py:72, 80, 82-83, 87) and the `__main__` entry point (main.py:90-91). The lines typed are a parameter. When input runs out, Python raises `EOFError`; the model ends the session there with the entries unchanged.
- difflib's internals are not modelled: the matching-block computation, the `real_quick_ratio`/`quick_ratio` prefilters (upper bounds of the ratio, so they never change the result) and the floating-point ratio. The similarity is a parameter. The lemmas that need its behaviour assume `Matcher.WellFormed`: T = |a| + |b|, M is at most either length, identical strings match fully, and a full match of equal lengths means identical strings.
- Matcher.FindBestMatch: the contract promises some maximal candidate and not difflib's tie-break among equal ratios (by the larger string), which happens inside `get_close_matches`; the body keeps the first maximal candidate. `Turn` and `Step` use that body, so on a tie the question named in their `Answered` outcome (and the answer printed) can differ from the one main.py picks. Under `Matcher.WellFormed` the choice between hit and miss and the resulting entries do not depend on the tie-break: "" reaches the cutoff only against the empty query (`EmptyMatchNeedsEmptyQuery`), where it has ratio 1 and no other question ties with it (`ExactQueryMatches`).
- Matcher.FindBestMatch: the 0.6 cutoff and ratio comparisons are exact rational comparisons; the source compares floating-point values, which can differ only for strings far longer than any chat input.
- Chat.LowerMatchesWord: `str.lower()` is modelled on ASCII letters only; full Unicode case mapping is not modelled.
- Chat.SkipIgnoresCase: Python's `str.lower()` also maps U+212A KELVIN SIGN to `k`, so main.py:84 declines on spellings such as "s\u212Aip" as well (24 spellings, not 16); the model treats those replies as answers and learns them. "quit" has no such extra spellings.
