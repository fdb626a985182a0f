/** `select_questions` of `interview_agent.py`: four candidate tiers that
    relax the filter step by step, CPython's `random.shuffle` with its random
    numbers passed in, and Python's `[:n]` slice. */
module Selection {
  import opened QuestionsLoader

  /** `role in q.roles or 'any' in q.roles`. */
  predicate RoleMatches(q: Question, role: string) {
    role in q.roles || AnyRole in q.roles
  }

  /** `q.min_years <= years <= q.max_years`. */
  predicate YearsMatch(q: Question, years: int) {
    q.minYears <= years <= q.maxYears
  }

  /** The four filters, strictest first. */
  datatype Tier = Strict | RelaxYears | RelaxRole | TechOnly

  /** Whether tier `t` admits `q`: every tier asks for the technology; the
      strict tier adds the role and the years, the second only the role, the
      third only the years. */
  predicate Admits(t: Tier, q: Question, tech: string, role: string, years: int) {
    && q.tech == tech
    && (t.Strict? || t.RelaxYears? ==> RoleMatches(q, role))
    && (t.Strict? || t.RelaxRole? ==> YearsMatch(q, years))
  }

  /** The list comprehension of tier `t` over the loaded questions, in order. */
  function Candidates(qs: seq<Question>, t: Tier, tech: string, role: string, years: int): (r: seq<Question>)
    ensures |r| <= |qs|
    ensures forall k :: 0 <= k < |r| ==> Admits(t, r[k], tech, role, years)
  {
    if qs == [] then []
    else
      var rest := Candidates(qs[1..], t, tech, role, years);
      if Admits(t, qs[0], tech, role, years) then [qs[0]] + rest else rest
  }

  /** A tier keeps every copy of each question it admits and no copy of any
      other: its candidates are exactly the admitted part of the input. */
  lemma {:induction false} CandidatesCount(qs: seq<Question>, t: Tier, tech: string, role: string, years: int, q: Question)
    ensures multiset(Candidates(qs, t, tech, role, years))[q] ==
      if Admits(t, q, tech, role, years) then multiset(qs)[q] else 0
  {
    if qs != [] {
      CandidatesCount(qs[1..], t, tech, role, years, q);
      assert qs == [qs[0]] + qs[1..];
    }
  }

  /** Whatever the strict tier admits, every other tier admits; whatever any
      tier admits, the technology-only tier admits. */
  lemma TierImplies(t: Tier, u: Tier, q: Question, tech: string, role: string, years: int)
    requires t.Strict? || u.TechOnly? || t == u
    ensures Admits(t, q, tech, role, years) ==> Admits(u, q, tech, role, years)
  {
  }

  /** A looser tier never has fewer candidates. */
  lemma {:induction false} CandidatesGrow(qs: seq<Question>, t: Tier, u: Tier, tech: string, role: string, years: int)
    requires t.Strict? || u.TechOnly? || t == u
    ensures |Candidates(qs, t, tech, role, years)| <= |Candidates(qs, u, tech, role, years)|
  {
    if qs != [] {
      CandidatesGrow(qs[1..], t, u, tech, role, years);
      TierImplies(t, u, qs[0], tech, role, years);
    }
  }

  /** A question whose year range is inverted is loaded as is but can never
      be chosen by the strict or the relax-role tier. */
  lemma InvertedRangeExcluded(qs: seq<Question>, t: Tier, tech: string, role: string, years: int, q: Question)
    requires q.minYears > q.maxYears
    requires t.Strict? || t.RelaxRole?
    ensures q !in Candidates(qs, t, tech, role, years)
  {
  }

  /** A question whose role list came out empty (`roles: ""`, `roles: " , "`
      or `roles: []` with no truthy `role`) matches no role, not even through
      the sentinel, so neither the strict nor the relax-years tier can choose
      it. */
  lemma NoRolesExcluded(qs: seq<Question>, t: Tier, tech: string, role: string, years: int, q: Question)
    requires q.roles == []
    requires t.Strict? || t.RelaxYears?
    ensures q !in Candidates(qs, t, tech, role, years)
  {
  }

  /** The tier `select_questions` settles on: the first of the first three
      with at least `n` candidates, otherwise the technology-only fallback,
      which is taken whatever its size. */
  function ChosenTier(qs: seq<Question>, tech: string, role: string, years: int, n: int): (r: Tier)
    ensures n <= 0 ==> r == Strict
    ensures n > |qs| ==> r == TechOnly
    ensures r != TechOnly ==> |Candidates(qs, r, tech, role, years)| >= n
  {
    if |Candidates(qs, Strict, tech, role, years)| >= n then Strict
    else if |Candidates(qs, RelaxYears, tech, role, years)| >= n then RelaxYears
    else if |Candidates(qs, RelaxRole, tech, role, years)| >= n then RelaxRole
    else TechOnly
  }

  /** The order in which the tiers are tried. */
  function Rank(t: Tier): nat {
    match t
    case Strict => 0
    case RelaxYears => 1
    case RelaxRole => 2
    case TechOnly => 3
  }

  /** The chosen tier is the first that qualifies: every tier tried before it
      has fewer than `n` candidates, and it has at least `n` unless it is the
      fallback. */
  lemma ChosenTierIsFirst(qs: seq<Question>, tech: string, role: string, years: int, n: int, t: Tier)
    ensures Rank(t) < Rank(ChosenTier(qs, tech, role, years, n)) ==> |Candidates(qs, t, tech, role, years)| < n
    ensures !ChosenTier(qs, tech, role, years, n).TechOnly? ==>
      |Candidates(qs, ChosenTier(qs, tech, role, years, n), tech, role, years)| >= n
  {
  }

  /** `s` with the elements at `i` and `j` exchanged. */
  function Swap<T>(s: seq<T>, i: nat, j: nat): (r: seq<T>)
    requires i < |s| && j < |s|
    ensures |r| == |s|
  {
    s[i := s[j]][j := s[i]]
  }

  /** An exchange moves the two elements and nothing else, so it keeps the
      multiset. */
  lemma SwapPermutes<T>(s: seq<T>, i: nat, j: nat)
    requires i < |s| && j < |s|
    ensures Swap(s, i, j)[i] == s[j] && Swap(s, i, j)[j] == s[i]
    ensures forall k :: 0 <= k < |s| && k != i && k != j ==> Swap(s, i, j)[k] == s[k]
    ensures multiset(Swap(s, i, j)) == multiset(s)
  {
  }

  /** The next number `random.shuffle` draws (0 once none are left) and the
      numbers after it. */
  function NextDraw(draws: seq<nat>): nat {
    if draws == [] then 0 else draws[0]
  }

  function LaterDraws(draws: seq<nat>): seq<nat> {
    if draws == [] then [] else draws[1..]
  }

  /** The loop of CPython's `random.shuffle` from position `i` down to 1:
      position `i` is exchanged with the position `randbelow(i + 1)` picks,
      here the next draw modulo `i + 1`. */
  function ShuffleFrom<T>(s: seq<T>, i: nat, draws: seq<nat>): (r: seq<T>)
    requires i < |s|
    decreases i
    ensures |r| == |s|
  {
    if i == 0 then s
    else ShuffleFrom(Swap(s, i, NextDraw(draws) % (i + 1)), i - 1, LaterDraws(draws))
  }

  /** `random.shuffle(s)`, with the random numbers it draws given as `draws`. */
  function Shuffle<T>(s: seq<T>, draws: seq<nat>): (r: seq<T>)
    ensures |r| == |s|
  {
    if |s| <= 1 then s else ShuffleFrom(s, |s| - 1, draws)
  }

  /** The shuffle loop only exchanges elements: it is a permutation. */
  lemma {:induction false} ShuffleFromPermutes<T>(s: seq<T>, i: nat, draws: seq<nat>)
    requires i < |s|
    decreases i
    ensures multiset(ShuffleFrom(s, i, draws)) == multiset(s)
  {
    if i > 0 {
      var j := NextDraw(draws) % (i + 1);
      SwapPermutes(s, i, j);
      ShuffleFromPermutes(Swap(s, i, j), i - 1, LaterDraws(draws));
    }
  }

  /** The shuffle leaves the elements already settled above `i` in place. */
  lemma {:induction false} ShuffleFromKeepsSettled<T>(s: seq<T>, i: nat, draws: seq<nat>, k: nat)
    requires i < k < |s|
    decreases i
    ensures ShuffleFrom(s, i, draws)[k] == s[k]
  {
    if i > 0 {
      var j := NextDraw(draws) % (i + 1);
      SwapPermutes(s, i, j);
      ShuffleFromKeepsSettled(Swap(s, i, j), i - 1, LaterDraws(draws), k);
    }
  }

  /** `random.shuffle` neither loses, duplicates nor invents an element. */
  lemma ShufflePermutes<T>(s: seq<T>, draws: seq<nat>)
    ensures multiset(Shuffle(s, draws)) == multiset(s)
  {
    if |s| > 1 {
      ShuffleFromPermutes(s, |s| - 1, draws);
    }
  }

  /** Draws that always pick the current position leave the order unchanged. */
  lemma {:induction false} ShuffleFromIdentity<T>(s: seq<T>, i: nat, draws: seq<nat>)
    requires i < |s| && |draws| >= i
    requires forall k :: 0 <= k < i ==> draws[k] == i - k
    decreases i
    ensures ShuffleFrom(s, i, draws) == s
  {
    if i > 0 {
      assert NextDraw(draws) % (i + 1) == i;
      SwapPermutes(s, i, i);
      assert Swap(s, i, i) == s;
      ShuffleFromIdentity(s, i - 1, LaterDraws(draws));
    }
  }

  /** Python's `s[:n]`: the first `n` elements, or for negative `n` all but
      the last `-n`. */
  function Take<T>(s: seq<T>, n: int): (r: seq<T>)
    ensures n >= 0 ==> |r| == if n <= |s| then n else |s|
    ensures n < 0 ==> |r| == if |s| + n >= 0 then |s| + n else 0
    ensures r == s[..|r|]
  {
    if n >= 0 then (if n <= |s| then s[..n] else s)
    else (if |s| + n >= 0 then s[..|s| + n] else [])
  }

  /** A prefix holds no more of any element than the whole. */
  lemma PrefixMultiset<T>(s: seq<T>, k: nat)
    requires k <= |s|
    ensures multiset(s[..k]) <= multiset(s)
  {
    assert s == s[..k] + s[k..];
  }

  /** `select_questions(questions, tech, role, years, n)`, with the random
      numbers the shuffle of the chosen tier draws given as `draws`. */
  function SelectQuestions(qs: seq<Question>, tech: string, role: string, years: int, n: int, draws: seq<nat>): (r: seq<Question>)
    ensures n >= 0 ==> |r| <= n
  {
    Take(Shuffle(Candidates(qs, ChosenTier(qs, tech, role, years, n), tech, role, years), draws), n)
  }

  /** The `n` of `select_questions` when the caller gives none. */
  const DefaultCount: int := 5

  /** `select_questions(questions, tech, role, years)`: at most five
      questions, fewer only when the technology has fewer. */
  function SelectDefault(qs: seq<Question>, tech: string, role: string, years: int, draws: seq<nat>): (r: seq<Question>)
    ensures |r| == var m := |Candidates(qs, TechOnly, tech, role, years)|; if 5 <= m then 5 else m
  {
    SelectedCount(qs, tech, role, years, DefaultCount, draws);
    SelectQuestions(qs, tech, role, years, DefaultCount, draws)
  }

  /** The result is a sub-multiset of the chosen tier's candidates, hence of
      the input: the selection never repeats or invents a question. */
  lemma SelectedFromTier(qs: seq<Question>, tech: string, role: string, years: int, n: int, draws: seq<nat>)
    ensures multiset(SelectQuestions(qs, tech, role, years, n, draws)) <=
      multiset(Candidates(qs, ChosenTier(qs, tech, role, years, n), tech, role, years))
    ensures multiset(SelectQuestions(qs, tech, role, years, n, draws)) <= multiset(qs)
  {
    var t := ChosenTier(qs, tech, role, years, n);
    var pool := Candidates(qs, t, tech, role, years);
    var shuffled := Shuffle(pool, draws);
    var r := SelectQuestions(qs, tech, role, years, n, draws);
    ShufflePermutes(pool, draws);
    PrefixMultiset(shuffled, |r|);
    forall q ensures multiset(pool)[q] <= multiset(qs)[q] {
      CandidatesCount(qs, t, tech, role, years, q);
    }
  }

  /** Every selected question is admitted by the chosen tier, so it is about
      the requested technology; when the strict tier has enough candidates,
      every selected question also matches the role and the years. */
  lemma SelectedAdmitted(qs: seq<Question>, tech: string, role: string, years: int, n: int, draws: seq<nat>)
    ensures forall q :: q in SelectQuestions(qs, tech, role, years, n, draws) ==>
      Admits(ChosenTier(qs, tech, role, years, n), q, tech, role, years)
    ensures forall q :: q in SelectQuestions(qs, tech, role, years, n, draws) ==> q.tech == tech
    ensures |Candidates(qs, Strict, tech, role, years)| >= n ==>
      forall q :: q in SelectQuestions(qs, tech, role, years, n, draws) ==> RoleMatches(q, role) && YearsMatch(q, years)
  {
    var t := ChosenTier(qs, tech, role, years, n);
    var pool := Candidates(qs, t, tech, role, years);
    var r := SelectQuestions(qs, tech, role, years, n, draws);
    SelectedFromTier(qs, tech, role, years, n, draws);
    forall q | q in r
      ensures Admits(t, q, tech, role, years)
    {
      assert multiset(r)[q] > 0;
      assert q in multiset(pool);
      var k :| 0 <= k < |pool| && pool[k] == q;
    }
  }

  /** For `n >= 0` the selection has `min(n, m)` questions, `m` being the
      number of questions about the technology: every tier is part of the
      technology-only pool, so a tier that qualifies has room for `n`. */
  lemma SelectedCount(qs: seq<Question>, tech: string, role: string, years: int, n: int, draws: seq<nat>)
    requires n >= 0
    ensures |SelectQuestions(qs, tech, role, years, n, draws)| ==
      var m := |Candidates(qs, TechOnly, tech, role, years)|; if n <= m then n else m
  {
    var t := ChosenTier(qs, tech, role, years, n);
    CandidatesGrow(qs, t, TechOnly, tech, role, years);
    ChosenTierIsFirst(qs, tech, role, years, n, t);
  }

  /** A negative `n` always settles on the strict tier, and `[:n]` then drops
      the last `-n` questions instead of returning nothing. */
  lemma NegativeCount(qs: seq<Question>, tech: string, role: string, years: int, n: int, draws: seq<nat>)
    requires n < 0
    ensures ChosenTier(qs, tech, role, years, n) == Strict
    ensures |SelectQuestions(qs, tech, role, years, n, draws)| ==
      var m := |Candidates(qs, Strict, tech, role, years)|; if m + n >= 0 then m + n else 0
  {
  }

  /** With no question about the technology, nothing is selected. */
  lemma NoQuestionsForTech(qs: seq<Question>, tech: string, role: string, years: int, n: int, draws: seq<nat>)
    requires forall k :: 0 <= k < |qs| ==> qs[k].tech != tech
    ensures SelectQuestions(qs, tech, role, years, n, draws) == []
  {
    var t := ChosenTier(qs, tech, role, years, n);
    var pool := Candidates(qs, t, tech, role, years);
    if pool != [] {
      assert Admits(t, pool[0], tech, role, years);
      CandidatesCount(qs, t, tech, role, years, pool[0]);
    }
  }
}
