/** `InterviewSession` and `get_explanation` of `interview_agent.py`: an
    ordered list of selected questions, a cursor that only moves forward and
    an answer map keyed by question id. Each method becomes a function from
    the session before the call to the session after it. */
module Sessions {
  import opened Results
  import opened Metadata
  import opened QuestionsLoader

  datatype Session = Session(
    sessionId: string,
    tech: string,
    role: string,
    years: int,
    selected: seq<Question>,
    cursor: nat,
    answers: map<string, string>)

  /** The cursor never runs past the end of the list. */
  predicate Valid(s: Session) {
    s.cursor <= |s.selected|
  }

  /** `InterviewSession(session_id, tech, role, years, selected_questions)`. */
  function NewSession(sessionId: string, tech: string, role: string, years: int, selected: seq<Question>): (s: Session)
    ensures Valid(s) && s.cursor == 0 && s.answers == map[]
    ensures s.sessionId == sessionId
    ensures s.selected == selected && s.tech == tech && s.role == role && s.years == years
  {
    Session(sessionId, tech, role, years, selected, 0, map[])
  }

  /** `is_finished()`: no question is left under the cursor. In a valid
      session that is exactly when the cursor sits at the end of the list. */
  predicate IsFinished(s: Session): (r: bool)
    ensures !r ==> s.cursor < |s.selected|
    ensures Valid(s) ==> (r <==> s.cursor == |s.selected|)
  {
    s.cursor >= |s.selected|
  }

  /** `get_next_question()`: the question under the cursor, the cursor moved
      one step; at the end, nothing, and the session as it was. */
  function GetNextQuestion(s: Session): (r: (Option<Question>, Session))
    ensures r.0.None? <==> IsFinished(s)
    ensures r.0.Some? ==> r.0.value in s.selected
    ensures r.1.selected == s.selected && r.1.answers == s.answers
    ensures s.cursor <= r.1.cursor <= s.cursor + 1
    ensures Valid(s) ==> Valid(r.1)
    ensures !IsFinished(s) ==> r.0 == Some(s.selected[s.cursor]) && r.1.cursor == s.cursor + 1
    ensures IsFinished(s) ==> r.1 == s
  {
    if s.cursor >= |s.selected| then (None, s)
    else (Some(s.selected[s.cursor]), s.(cursor := s.cursor + 1))
  }

  /** `record_answer(qid, answer)`: the answer for `qid` is set, replacing any
      earlier one. */
  function RecordAnswer(s: Session, qid: string, answer: string): (t: Session)
    ensures qid in t.answers && t.answers[qid] == answer
    ensures forall k :: k != qid ==> (k in t.answers <==> k in s.answers)
    ensures forall k :: k != qid && k in s.answers ==> t.answers[k] == s.answers[k]
    ensures t.(answers := s.answers) == s
  {
    s.(answers := s.answers[qid := answer])
  }

  /** Recording twice for the same question keeps only the second answer. */
  lemma RecordAnswerOverwrites(s: Session, qid: string, a: string, b: string)
    ensures RecordAnswer(RecordAnswer(s, qid, a), qid, b) == RecordAnswer(s, qid, b)
  {
    assert RecordAnswer(RecordAnswer(s, qid, a), qid, b).answers == RecordAnswer(s, qid, b).answers;
  }

  /** Answers to different questions do not interfere: their order does not matter. */
  lemma RecordAnswerCommutes(s: Session, p: string, a: string, q: string, b: string)
    requires p != q
    ensures RecordAnswer(RecordAnswer(s, p, a), q, b) == RecordAnswer(RecordAnswer(s, q, b), p, a)
  {
    assert RecordAnswer(RecordAnswer(s, p, a), q, b).answers == RecordAnswer(RecordAnswer(s, q, b), p, a).answers;
  }

  /** Recording an answer neither moves the cursor nor changes whether the
      interview is over or which question comes next. */
  lemma RecordAnswerKeepsProgress(s: Session, qid: string, answer: string)
    ensures IsFinished(RecordAnswer(s, qid, answer)) <==> IsFinished(s)
    ensures GetNextQuestion(RecordAnswer(s, qid, answer)).0 == GetNextQuestion(s).0
  {
  }

  /** `k` calls of `get_next_question()` in a row: what each returned, and
      the session after the last. */
  function AskMany(s: Session, k: nat): (r: (seq<Option<Question>>, Session))
    decreases k
    ensures |r.0| == k
    ensures r.1.selected == s.selected && r.1.answers == s.answers
  {
    if k == 0 then ([], s)
    else
      var (q, next) := GetNextQuestion(s);
      var (rest, last) := AskMany(next, k - 1);
      ([q] + rest, last)
  }

  /** From a valid session, `k` successive calls return the next `k`
      questions in list order while any are left, then nothing; the cursor
      ends `k` further on, stopping at the end of the list. */
  lemma {:induction false} AskManyInOrder(s: Session, k: nat)
    requires Valid(s)
    decreases k
    ensures Valid(AskMany(s, k).1)
    ensures AskMany(s, k).1.cursor == if s.cursor + k <= |s.selected| then s.cursor + k else |s.selected|
    ensures forall i :: 0 <= i < k && s.cursor + i < |s.selected| ==>
      AskMany(s, k).0[i] == Some(s.selected[s.cursor + i])
    ensures forall i :: 0 <= i < k && s.cursor + i >= |s.selected| ==> AskMany(s, k).0[i] == None
  {
    if k > 0 {
      var next := GetNextQuestion(s).1;
      AskManyInOrder(next, k - 1);
      var r := AskMany(s, k).0;
      var rest := AskMany(next, k - 1).0;
      assert r == [GetNextQuestion(s).0] + rest;
      forall i | 0 < i < k
        ensures r[i] == rest[i - 1]
      {
      }
    }
  }

  /** A fresh session hands out every selected question exactly once, in
      order, and from then on returns nothing. */
  lemma FreshSessionRunsThrough(sessionId: string, tech: string, role: string, years: int, selected: seq<Question>, extra: nat)
    ensures AskMany(NewSession(sessionId, tech, role, years, selected), |selected| + extra).0 ==
      seq(|selected|, i requires 0 <= i < |selected| => Some(selected[i])) + seq(extra, _ => None)
    ensures IsFinished(AskMany(NewSession(sessionId, tech, role, years, selected), |selected| + extra).1)
  {
    var s := NewSession(sessionId, tech, role, years, selected);
    AskManyInOrder(s, |selected| + extra);
    var got := AskMany(s, |selected| + extra).0;
    var want := seq(|selected|, i requires 0 <= i < |selected| => Some(selected[i])) + seq(extra, _ => None);
    forall i | 0 <= i < |selected| + extra
      ensures got[i] == want[i]
    {
    }
  }

  /** A fresh session is finished after exactly as many calls as it has
      questions, and not before. */
  lemma FinishedExactlyAtEnd(sessionId: string, tech: string, role: string, years: int, selected: seq<Question>, k: nat)
    ensures IsFinished(AskMany(NewSession(sessionId, tech, role, years, selected), k).1) <==> k >= |selected|
  {
    AskManyInOrder(NewSession(sessionId, tech, role, years, selected), k);
  }

  /** The interview driven to its end: `get_next_question()` called until it
      returns nothing. */
  method RunToEnd(s: Session) returns (asked: seq<Question>, t: Session)
    requires Valid(s)
    ensures asked == s.selected[s.cursor..]
    ensures IsFinished(t) && Valid(t)
    ensures t.selected == s.selected && t.answers == s.answers
  {
    asked := [];
    t := s;
    while true
      invariant Valid(t) && t.selected == s.selected && t.answers == s.answers
      invariant s.cursor <= t.cursor
      invariant asked == s.selected[s.cursor..t.cursor]
      decreases |t.selected| - t.cursor
    {
      var (q, next) := GetNextQuestion(t);
      if q.None? {
        assert t.cursor == |t.selected|;
        return;
      }
      asked := asked + [q.value];
      t := next;
    }
  }

  /** `get_explanation(question)`: the question's `explanation` value. */
  function GetExplanation(q: Question): Raw {
    q.explanation
  }

  /** The explanation offered for a question is what its block's header
      held under `explanation`, and nothing when the header had none or
      could not be parsed. */
  lemma ExplanationFromHeader(b: Block, tech: string, k: nat)
    requires ParseBlock(b, tech, k).Ok?
    ensures b.header.Mapping? ==>
      GetExplanation(ParseBlock(b, tech, k).value) == Lookup(b.header.fields, "explanation")
    ensures !b.header.Mapping? ==> GetExplanation(ParseBlock(b, tech, k).value) == Null
  {
    if b.header.Mapping? {
      ExplanationKept(b.header.fields, b.body, tech, k);
    } else {
      HeaderFallbacks(b, tech, k);
    }
  }
}
