/**
 * The chat_bot loop of main.py: read a line, stop on "quit", answer a close
 * match, and otherwise ask for an answer that is learned (appended and saved)
 * unless it is "skip". Console input is a sequence of lines; saving to
 * knowledge_base.json is a ghost snapshot of the entries plus a count of saves.
 */
module Chat {
  import opened Wrappers
  import opened Store
  import opened Matcher

  /** str.lower() restricted to ASCII letters. */
  function LowerChar(c: char): char {
    if 'A' <= c <= 'Z' then (c as int + 32) as char else c
  }

  function Lower(s: string): string {
    if s == [] then [] else [LowerChar(s[0])] + Lower(s[1..])
  }

  lemma {:induction false} LowerAt(s: string)
    ensures |Lower(s)| == |s|
    ensures forall i :: 0 <= i < |s| ==> Lower(s)[i] == LowerChar(s[i])
  {
    if s != [] {
      LowerAt(s[1..]);
    }
  }

  /**
   * Comparing lower(s) with a lower-case word accepts exactly the spellings
   * of that word in any mix of upper and lower case.
   */
  lemma LowerMatchesWord(s: string, lower: string, upper: string)
    requires |lower| == |upper|
    requires forall i :: 0 <= i < |lower| ==> 'a' <= lower[i] <= 'z' && upper[i] as int == lower[i] as int - 32
    ensures Lower(s) == lower <==>
              |s| == |lower| && forall i :: 0 <= i < |s| ==> s[i] == lower[i] || s[i] == upper[i]
  {
    LowerAt(s);
    if |s| == |lower| {
      forall i | 0 <= i < |s| ensures Lower(s)[i] == lower[i] <==> s[i] == lower[i] || s[i] == upper[i] {
        LowerCharIs(s[i], lower[i], upper[i]);
      }
      if forall i :: 0 <= i < |s| ==> s[i] == lower[i] || s[i] == upper[i] {
        assert Lower(s) == lower;
      }
    }
  }

  lemma LowerCharIs(c: char, lower: char, upper: char)
    requires 'a' <= lower <= 'z' && upper as int == lower as int - 32
    ensures LowerChar(c) == lower <==> c == lower || c == upper
  {
  }

  /** "quit" ends the session whatever its case: exactly the 16 spellings of q-u-i-t. */
  lemma QuitIgnoresCase(s: string)
    ensures IsQuit(s) <==> |s| == 4 && forall i :: 0 <= i < 4 ==> s[i] == "quit"[i] || s[i] == "QUIT"[i]
  {
    LowerMatchesWord(s, "quit", "QUIT");
  }

  /** "skip" declines to teach whatever its case. */
  lemma SkipIgnoresCase(s: string)
    ensures IsSkip(s) <==> |s| == 4 && forall i :: 0 <= i < 4 ==> s[i] == "skip"[i] || s[i] == "SKIP"[i]
  {
    LowerMatchesWord(s, "skip", "SKIP");
  }

  /** `user_input.lower() == "quit"`. */
  predicate IsQuit(s: string) {
    Lower(s) == "quit"
  }

  /** `new_answer.lower() == 'skip'`. */
  predicate IsSkip(s: string) {
    Lower(s) == "skip"
  }

  /** What one pass of the loop body did. */
  datatype Outcome =
    | Quit                                       // "quit": the loop breaks
    | Answered(question: string, answer: string) // a close match was found and its answer printed
    | Skipped                                    // a miss, and the user typed "skip"
    | Learned                                    // a miss, and the typed answer was appended and saved
    | EndOfInput                                 // a miss, and no line was left to read as the answer

  datatype TurnResult = TurnResult(outcome: Outcome, kb: seq<Entry>)

  /**
   * One pass of the loop body on the knowledge base `kb`, with `userInput` as
   * the question and `reply` the next line of input, read only on a miss.
   * A best match that is the empty string is falsy in `if best_match:` and
   * takes the miss path; the learned question is the raw user input.
   * Only "quit" ends the session; otherwise the turn answers exactly when the
   * best match is a non-empty question, and names that question. A miss ends
   * the session when no reply is left, skips on "skip" and learns any other
   * reply. The knowledge base changes only by learning, which appends exactly
   * {user_input, new_answer} at the end.
   */
  function Turn(sim: (string, string) -> Score, kb: seq<Entry>, userInput: string, reply: Option<string>): (t: TurnResult)
    ensures t.outcome.Quit? <==> IsQuit(userInput)
    ensures t.outcome.Skipped? || t.outcome.Learned? ==> reply.Some?
    ensures t.outcome.Learned? ==> reply.Some? && t.kb == kb + [Entry(userInput, reply.value)]
    ensures !t.outcome.Learned? ==> t.kb == kb
    ensures !IsQuit(userInput) ==>
      var best := FindBestMatch(sim, userInput, Questions(kb));
      (t.outcome.Answered? <==> best.Some? && best.value != "") &&
      (t.outcome.Answered? ==> t.outcome.question == best.value)
    ensures !IsQuit(userInput) && !t.outcome.Answered? ==>
      (t.outcome.EndOfInput? <==> reply.None?) &&
      (t.outcome.Skipped? <==> reply.Some? && IsSkip(reply.value))
  {
    if IsQuit(userInput) then TurnResult(Quit, kb)
    else
      var best := FindBestMatch(sim, userInput, Questions(kb));
      if best.Some? && best.value != "" then
        TurnResult(Answered(best.value, Lookup(kb, best.value).value), kb)
      else if reply.None? then TurnResult(EndOfInput, kb)
      else if IsSkip(reply.value) then TurnResult(Skipped, kb)
      else TurnResult(Learned, kb + [Entry(userInput, reply.value)])
  }

  /**
   * The knowledge base after the loop has consumed the input `lines` (or
   * broken off): the entries it started from stay a prefix, and at most one
   * entry is added per two lines read.
   */
  function Session(sim: (string, string) -> Score, kb: seq<Entry>, lines: seq<string>): (r: seq<Entry>)
    ensures kb <= r
    ensures 2 * (|r| - |kb|) <= |lines|
    decreases |lines|
  {
    if lines == [] then kb
    else
      var t := Turn(sim, kb, lines[0], if |lines| > 1 then Some(lines[1]) else None);
      match t.outcome
      case Quit => kb
      case EndOfInput => kb
      case Answered(_, _) => Session(sim, kb, lines[1..])
      case _ => Session(sim, t.kb, lines[2..])
  }

  /**
   * The hit path: the matched question is a non-empty known question that
   * reaches the cutoff and that no known question beats, the answer printed
   * is its exact lookup (that of the first entry asking it, by
   * LookupIsFirstEntry), and nothing changes.
   */
  lemma HitAnswersFirstEntry(sim: (string, string) -> Score, kb: seq<Entry>, userInput: string, reply: Option<string>,
                             question: string, answer: string)
    requires Turn(sim, kb, userInput, reply).outcome == Answered(question, answer)
    ensures Turn(sim, kb, userInput, reply).kb == kb
    ensures !IsQuit(userInput) && question != "" && question in Questions(kb)
    ensures ReachesCutoff(sim(userInput, question))
    ensures forall c :: c in Questions(kb) ==> !Greater(sim(userInput, c), sim(userInput, question))
    ensures Lookup(kb, question) == Some(answer)
  {
    assert FindBestMatch(sim, userInput, Questions(kb)) == Some(question);
  }

  /** A known non-empty question that is not "quit" is answered from its first entry. */
  lemma KnownQuestionAnswered(sim: (string, string) -> Score, kb: seq<Entry>, userInput: string, reply: Option<string>)
    requires WellFormed(sim)
    requires userInput in Questions(kb) && userInput != "" && !IsQuit(userInput)
    ensures Turn(sim, kb, userInput, reply) == TurnResult(Answered(userInput, Lookup(kb, userInput).value), kb)
  {
    ExactQueryMatches(sim, userInput, Questions(kb));
  }

  /** The session of the greeting example: "hi" is answered with "hello!". */
  lemma GreetingAnswered(sim: (string, string) -> Score, reply: Option<string>)
    requires WellFormed(sim)
    ensures Turn(sim, [Entry("hi", "hello!")], "hi", reply).outcome == Answered("hi", "hello!")
  {
    var kb := [Entry("hi", "hello!")];
    assert Questions(kb)[0] == "hi";
    QuitIgnoresCase("hi");
    KnownQuestionAnswered(sim, kb, "hi", reply);
    FirstMatchWins(kb, 0);
  }

  /**
   * The miss path with an answer typed: "skip" changes nothing and saves
   * nothing; anything else appends {user_input, new_answer} at the end,
   * keeps the answer to every question already known, and makes the typed
   * answer the answer to user_input unless user_input was already known.
   */
  lemma MissLearnsOrSkips(sim: (string, string) -> Score, kb: seq<Entry>, userInput: string, newAnswer: string)
    requires !IsQuit(userInput)
    requires var best := FindBestMatch(sim, userInput, Questions(kb)); best.None? || best.value == ""
    ensures var t := Turn(sim, kb, userInput, Some(newAnswer));
      (IsSkip(newAnswer) ==> t == TurnResult(Skipped, kb)) &&
      (!IsSkip(newAnswer) ==>
         t == TurnResult(Learned, kb + [Entry(userInput, newAnswer)]) &&
         (forall q :: Lookup(kb, q).Some? ==> Lookup(t.kb, q) == Lookup(kb, q)) &&
         Lookup(t.kb, userInput) == if userInput in Questions(kb) then Lookup(kb, userInput) else Some(newAnswer))
  {
    if !IsSkip(newAnswer) {
      var kb' := kb + [Entry(userInput, newAnswer)];
      forall q | Lookup(kb, q).Some? ensures Lookup(kb', q) == Lookup(kb, q) {
        LookupAppend(kb, Entry(userInput, newAnswer), q);
      }
      LookupAppend(kb, Entry(userInput, newAnswer), userInput);
    }
  }

  /** What is learned is a question the knowledge base could not answer, or the empty string. */
  lemma LearnedWasUnknownOrEmpty(sim: (string, string) -> Score, kb: seq<Entry>, userInput: string, reply: Option<string>)
    requires WellFormed(sim)
    requires Turn(sim, kb, userInput, reply).outcome.Learned?
    ensures userInput !in Questions(kb) || userInput == ""
  {
    if userInput in Questions(kb) && userInput != "" {
      ExactQueryMatches(sim, userInput, Questions(kb));
    }
  }

  /**
   * An empty best match is falsy, so the empty question, though known, takes
   * the miss path: the typed answer is appended as a second "" entry that the
   * first-match lookup never reaches.
   */
  lemma EmptyQuestionRelearned(sim: (string, string) -> Score, kb: seq<Entry>, newAnswer: string)
    requires WellFormed(sim)
    requires "" in Questions(kb) && !IsSkip(newAnswer)
    ensures var t := Turn(sim, kb, "", Some(newAnswer));
      t == TurnResult(Learned, kb + [Entry("", newAnswer)]) &&
      Lookup(t.kb, "") == Lookup(kb, "")
  {
    assert Lower("") == "";
    ExactQueryMatches(sim, "", Questions(kb));
    MissLearnsOrSkips(sim, kb, "", newAnswer);
  }

  /** How Session continues after its first turn. */
  lemma SessionAfterTurn(sim: (string, string) -> Score, kb: seq<Entry>, lines: seq<string>)
    requires lines != []
    ensures var t := Turn(sim, kb, lines[0], if |lines| > 1 then Some(lines[1]) else None);
      (t.outcome.Quit? || t.outcome.EndOfInput? ==> Session(sim, kb, lines) == kb) &&
      (t.outcome.Answered? ==> Session(sim, kb, lines) == Session(sim, kb, lines[1..])) &&
      (t.outcome.Skipped? || t.outcome.Learned? ==>
         |lines| > 1 && Session(sim, kb, lines) == Session(sim, t.kb, lines[2..]))
  {
  }

  /** Every answer the knowledge base gave when the session started, it still gives at its end. */
  lemma SessionKeepsAnswers(sim: (string, string) -> Score, kb: seq<Entry>, lines: seq<string>)
    ensures forall q :: Lookup(kb, q).Some? ==> Lookup(Session(sim, kb, lines), q) == Lookup(kb, q)
  {
    var result := Session(sim, kb, lines);
    forall q | Lookup(kb, q).Some? ensures Lookup(result, q) == Lookup(kb, q) {
      assert result == kb + result[|kb|..];
      LookupExtend(kb, result[|kb|..], q);
    }
  }

  class ChatBot {
    /** knowledge_base["questions"], in memory. */
    var entries: seq<Entry>
    /** The entries as last written to knowledge_base.json. */
    ghost var saved: seq<Entry>
    /** How many times save_knowledge_base has been called. */
    ghost var saves: nat

    /** Every append is saved at once, so between turns the file holds the entries. */
    ghost predicate Valid()
      reads this
    {
      saved == entries
    }

    /** The knowledge base as load_knowledge_base returned it. */
    constructor (loaded: seq<Entry>)
      ensures Valid() && entries == loaded && saves == 0
    {
      entries := loaded;
      saved := loaded;
      saves := 0;
    }

    /** One pass of the `while True` body. */
    method Step(sim: (string, string) -> Score, userInput: string, reply: Option<string>) returns (outcome: Outcome)
      requires Valid()
      modifies this
      ensures Valid()
      ensures outcome == Turn(sim, old(entries), userInput, reply).outcome
      ensures entries == Turn(sim, old(entries), userInput, reply).kb
      ensures saves == old(saves) + (if outcome.Learned? then 1 else 0)
    {
      if IsQuit(userInput) {
        return Quit;
      }
      var best := FindBestMatch(sim, userInput, Questions(entries));
      if best.Some? && best.value != "" {
        var answer := GetAnswerForQuestion(best.value, entries);
        return Answered(best.value, answer.value);
      }
      if reply.None? {
        return EndOfInput;
      }
      if !IsSkip(reply.value) {
        entries := entries + [Entry(userInput, reply.value)];
        saved := entries;
        saves := saves + 1;
        return Learned;
      }
      return Skipped;
    }

    /** chat_bot's loop over the lines typed in a session. */
    method Run(sim: (string, string) -> Score, lines: seq<string>)
      requires Valid()
      modifies this
      ensures Valid()
      ensures entries == Session(sim, old(entries), lines)
      ensures old(entries) <= entries && saves == old(saves) + (|entries| - |old(entries)|)
    {
      var i := 0;
      while i < |lines|
        invariant 0 <= i <= |lines|
        invariant Valid()
        invariant old(entries) <= entries && saves == old(saves) + (|entries| - |old(entries)|)
        invariant Session(sim, old(entries), lines) == Session(sim, entries, lines[i..])
      {
        var rest := lines[i..];
        var reply := if i + 1 < |lines| then Some(lines[i + 1]) else None;
        assert rest[0] == lines[i] && (|rest| > 1 ==> rest[1] == lines[i + 1]);
        ghost var before := entries;
        SessionAfterTurn(sim, before, rest);
        var outcome := Step(sim, lines[i], reply);
        if outcome.Quit? || outcome.EndOfInput? {
          break;
        }
        if outcome.Answered? {
          assert rest[1..] == lines[i + 1..];
          i := i + 1;
        } else {
          assert rest[2..] == lines[i + 2..];
          i := i + 2;
        }
      }
    }
  }
}
