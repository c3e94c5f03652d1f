/**
 * The knowledge base held in memory by main.py: the list stored under
 * knowledge_base["questions"], each element a {"question", "answer"} record.
 * Lookup is by exact, case-sensitive string equality and the first entry in
 * list order wins.
 */
module Store {
  import opened Wrappers

  /** One record of knowledge_base["questions"]. */
  datatype Entry = Entry(question: string, answer: string)

  /** The candidate list built for the matcher: every entry's question, in list order. */
  function Questions(kb: seq<Entry>): (qs: seq<string>)
    ensures |qs| == |kb|
    ensures forall i :: 0 <= i < |kb| ==> qs[i] == kb[i].question
  {
    if kb == [] then [] else [kb[0].question] + Questions(kb[1..])
  }

  /** The position of the first entry whose question is exactly `question`, if any. */
  function FirstIndex(kb: seq<Entry>, question: string): (r: Option<nat>)
    ensures r.Some? ==> r.value < |kb| && kb[r.value].question == question
    ensures r.Some? ==> forall j :: 0 <= j < r.value ==> kb[j].question != question
    ensures r.None? <==> forall j :: 0 <= j < |kb| ==> kb[j].question != question
  {
    if kb == [] then None
    else if kb[0].question == question then Some(0)
    else match FirstIndex(kb[1..], question)
      case None => None
      case Some(i) => Some(i + 1)
  }

  /** The answer get_answer_for_question gives: that of the first entry asked exactly `question`. */
  function Lookup(kb: seq<Entry>, question: string): (r: Option<string>)
    ensures r.Some? <==> question in Questions(kb)
  {
    match FirstIndex(kb, question)
    case None => None
    case Some(i) => Some(kb[i].answer)
  }

  /** The first entry in list order whose question matches answers; any later duplicate is shadowed. */
  lemma FirstMatchWins(kb: seq<Entry>, i: nat)
    requires i < |kb|
    requires forall j :: 0 <= j < i ==> kb[j].question != kb[i].question
    ensures Lookup(kb, kb[i].question) == Some(kb[i].answer)
    ensures forall k :: i < k < |kb| && kb[k].question == kb[i].question && kb[k].answer != kb[i].answer ==>
              Lookup(kb, kb[k].question) != Some(kb[k].answer)
  {
    FirstIndexIs(kb, kb[i].question, i);
  }

  /** FirstIndex is determined by its contract: the one matching index with no match before it. */
  lemma FirstIndexIs(kb: seq<Entry>, question: string, i: nat)
    requires i < |kb| && kb[i].question == question
    requires forall j :: 0 <= j < i ==> kb[j].question != question
    ensures FirstIndex(kb, question) == Some(i)
  {
    assert FirstIndex(kb, question).Some?;
  }

  /** An answer is given exactly when it is that of the lowest-index entry asking `question`. */
  lemma LookupIsFirstEntry(kb: seq<Entry>, question: string, answer: string)
    ensures Lookup(kb, question) == Some(answer) <==>
              exists i :: 0 <= i < |kb| && kb[i].question == question && kb[i].answer == answer &&
                forall j :: 0 <= j < i ==> kb[j].question != question
  {
    if Lookup(kb, question) == Some(answer) {
      var i := FirstIndex(kb, question).value;
      assert kb[i].question == question && kb[i].answer == answer;
    }
    if exists i :: 0 <= i < |kb| && kb[i].question == question && kb[i].answer == answer &&
                   forall j :: 0 <= j < i ==> kb[j].question != question {
      var i :| 0 <= i < |kb| && kb[i].question == question && kb[i].answer == answer &&
               forall j :: 0 <= j < i ==> kb[j].question != question;
      FirstIndexIs(kb, question, i);
    }
  }

  /** No answer exactly when no entry's question equals the query. */
  lemma LookupNoneIff(kb: seq<Entry>, question: string)
    ensures Lookup(kb, question).None? <==> forall i :: 0 <= i < |kb| ==> kb[i].question != question
  {
    if Lookup(kb, question).None? {
      assert question !in Questions(kb);
      forall i | 0 <= i < |kb| ensures kb[i].question != question {
        assert Questions(kb)[i] == kb[i].question;
      }
    } else {
      assert question in Questions(kb);
      var i :| 0 <= i < |kb| && Questions(kb)[i] == question;
      assert kb[i].question == question;
    }
  }

  /**
   * Appending one entry keeps the answer to every question already present;
   * the new entry answers its question only when that question was unknown.
   */
  lemma LookupAppend(kb: seq<Entry>, e: Entry, question: string)
    ensures Lookup(kb + [e], question) ==
              if Lookup(kb, question).Some? then Lookup(kb, question)
              else if e.question == question then Some(e.answer)
              else None
  {
    var kb' := kb + [e];
    match FirstIndex(kb, question)
    case Some(i) =>
      assert kb'[i] == kb[i];
      forall j | 0 <= j < i ensures kb'[j].question != question {
        assert kb'[j] == kb[j];
      }
      FirstIndexIs(kb', question, i);
    case None =>
      forall j | 0 <= j < |kb| ensures kb'[j].question != question {
        assert kb'[j] == kb[j];
      }
      if e.question == question {
        FirstIndexIs(kb', question, |kb|);
      } else {
        assert kb'[|kb|] == e;
      }
  }

  /** Extending the knowledge base at the end never changes an answer it already gave. */
  lemma {:induction false} LookupExtend(kb: seq<Entry>, ext: seq<Entry>, question: string)
    requires Lookup(kb, question).Some?
    ensures Lookup(kb + ext, question) == Lookup(kb, question)
    decreases |ext|
  {
    if ext == [] {
      assert kb + ext == kb;
    } else {
      var front := ext[..|ext| - 1];
      assert kb + ext == (kb + front) + [ext[|ext| - 1]];
      LookupExtend(kb, front, question);
      LookupAppend(kb + front, ext[|ext| - 1], question);
    }
  }

  /**
   * get_answer_for_question: walks the entries in order and returns the
   * answer of the first whose question equals `question`, or None.
   */
  method GetAnswerForQuestion(question: string, kb: seq<Entry>) returns (answer: Option<string>)
    ensures answer == Lookup(kb, question)
    ensures answer.Some? <==> exists i :: 0 <= i < |kb| && kb[i].question == question
  {
    var i := 0;
    while i < |kb|
      invariant 0 <= i <= |kb|
      invariant forall j :: 0 <= j < i ==> kb[j].question != question
    {
      if kb[i].question == question {
        FirstIndexIs(kb, question, i);
        return Some(kb[i].answer);
      }
      i := i + 1;
    }
    return None;
  }
}
