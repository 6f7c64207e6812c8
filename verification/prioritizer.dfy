/** Choosing one output when several rules match a fact. */
module Prioritizers {
  import opened Rules

  /** Every rule is at least as high in priority as every rule after it. */
  ghost predicate SortedByPriority<Fact, Output>(s: seq<Rule<Fact, Output>>) {
    forall i, j :: 0 <= i < j < |s| ==> s[i].priority >= s[j].priority
  }

  /** Places `r` in front of the first rule whose priority is not higher
      than its own. In a sequence sorted by descending priority, `r` lands
      before the rules it ties with, which keeps the sort stable when `r`
      came first in the input. */
  function Insert<Fact, Output>(r: Rule<Fact, Output>, s: seq<Rule<Fact, Output>>): (t: seq<Rule<Fact, Output>>)
    ensures |t| == |s| + 1
    ensures |s| == 0 || r.priority >= s[0].priority ==> t[0] == r
    ensures |s| > 0 && r.priority < s[0].priority ==> t[0] == s[0]
  {
    if |s| == 0 || r.priority >= s[0].priority then [r] + s
    else [s[0]] + Insert(r, s[1..])
  }

  /** Insertion adds exactly `r`. */
  lemma {:induction false} InsertIsPermutation<Fact, Output>(r: Rule<Fact, Output>, s: seq<Rule<Fact, Output>>)
    ensures multiset(Insert(r, s)) == multiset(s) + multiset{r}
  {
    if |s| > 0 && r.priority < s[0].priority {
      InsertIsPermutation(r, s[1..]);
      assert s == [s[0]] + s[1..];
    }
  }

  /** A priority bound on `r` and on every rule of `s` bounds every rule of
      the insertion's result. */
  lemma {:induction false} InsertBounded<Fact, Output>(r: Rule<Fact, Output>, s: seq<Rule<Fact, Output>>, bound: Int32)
    requires r.priority <= bound
    requires forall i :: 0 <= i < |s| ==> s[i].priority <= bound
    ensures forall k :: 0 <= k < |Insert(r, s)| ==> Insert(r, s)[k].priority <= bound
  {
    if |s| > 0 && r.priority < s[0].priority {
      InsertBounded(r, s[1..], bound);
      var t := Insert(r, s);
      assert forall k :: 1 <= k < |t| ==> t[k] == Insert(r, s[1..])[k - 1];
    }
  }

  /** Insertion keeps a sequence sorted by descending priority sorted. */
  lemma {:induction false} InsertKeepsSorted<Fact, Output>(r: Rule<Fact, Output>, s: seq<Rule<Fact, Output>>)
    requires SortedByPriority(s)
    ensures SortedByPriority(Insert(r, s))
  {
    var t := Insert(r, s);
    if |s| > 0 && r.priority < s[0].priority {
      var tail := s[1..];
      var rest := Insert(r, tail);
      assert SortedByPriority(tail) by {
        forall i, j | 0 <= i < j < |tail|
          ensures tail[i].priority >= tail[j].priority
        {
          assert tail[i] == s[i + 1] && tail[j] == s[j + 1];
        }
      }
      InsertKeepsSorted(r, tail);
      InsertBounded(r, tail, s[0].priority);
      assert t == [s[0]] + rest;
      forall i, j | 0 <= i < j < |t|
        ensures t[i].priority >= t[j].priority
      {
        assert t[j] == rest[j - 1];
        if i > 0 {
          assert t[i] == rest[i - 1];
        }
      }
    }
  }

  /** The stable descending sort `OrderByDescending(r => r.Priority)`: a
      permutation of its input, sorted by descending priority. */
  function SortByPriority<Fact, Output>(s: seq<Rule<Fact, Output>>): (t: seq<Rule<Fact, Output>>)
    ensures |t| == |s|
    ensures SortedByPriority(t)
    ensures multiset(t) == multiset(s)
  {
    if |s| == 0 then []
    else
      var sorted := SortByPriority(s[1..]);
      InsertKeepsSorted(s[0], sorted);
      InsertIsPermutation(s[0], sorted);
      assert s == [s[0]] + s[1..];
      Insert(s[0], sorted)
  }

  /** Reference definition of the winner: the first rule, in input order,
      whose priority is maximal. */
  function FirstMaxIndex<Fact, Output>(s: seq<Rule<Fact, Output>>): (k: nat)
    requires |s| > 0
    ensures k < |s|
    ensures forall j :: 0 <= j < |s| ==> s[j].priority <= s[k].priority
    ensures forall j :: 0 <= j < k ==> s[j].priority < s[k].priority
  {
    if |s| == 1 then 0
    else
      var k := FirstMaxIndex(s[1..]);
      if s[0].priority >= s[1 + k].priority then 0 else 1 + k
  }

  /** The head of the stable descending sort is the first rule of maximal
      priority: this is what `.First()` picks. */
  lemma {:induction false} SortedHeadIsFirstMax<Fact, Output>(s: seq<Rule<Fact, Output>>)
    requires |s| > 0
    ensures SortByPriority(s)[0] == s[FirstMaxIndex(s)]
  {
    if |s| > 1 {
      SortedHeadIsFirstMax(s[1..]);
    }
  }

  /** `GetHighestPriorityOutput`: sort by descending priority, take the
      first rule, apply its consequence to the fact. `First()` throws on an
      empty sequence, hence the precondition. */
  function GetHighestPriorityOutput<Fact, Output>(triggeredRules: seq<Rule<Fact, Output>>, fact: Fact): (o: Output)
    requires |triggeredRules| > 0
    ensures exists k ::
      && 0 <= k < |triggeredRules|
      && o == triggeredRules[k].consequence(fact)
      && (forall j :: 0 <= j < |triggeredRules| ==> triggeredRules[j].priority <= triggeredRules[k].priority)
      && (forall j :: 0 <= j < k ==> triggeredRules[j].priority < triggeredRules[k].priority)
  {
    SortedHeadIsFirstMax(triggeredRules);
    SortByPriority(triggeredRules)[0].consequence(fact)
  }

  /** The output is the consequence of the first rule of maximal priority. */
  lemma HighestPriorityIsFirstMax<Fact, Output>(triggeredRules: seq<Rule<Fact, Output>>, fact: Fact)
    requires |triggeredRules| > 0
    ensures GetHighestPriorityOutput(triggeredRules, fact)
         == triggeredRules[FirstMaxIndex(triggeredRules)].consequence(fact)
  {
    SortedHeadIsFirstMax(triggeredRules);
  }

  /** A single triggered rule is the winner. */
  lemma SingleRuleWins<Fact, Output>(r: Rule<Fact, Output>, fact: Fact)
    ensures GetHighestPriorityOutput([r], fact) == r.consequence(fact)
  {
    HighestPriorityIsFirstMax([r], fact);
  }

  /** When every rule has the default priority 0, as every rule a template
      produces does, the first rule wins. */
  lemma {:induction false} DefaultPrioritiesPickFirst<Fact, Output>(triggeredRules: seq<Rule<Fact, Output>>, fact: Fact)
    requires |triggeredRules| > 0
    requires forall j :: 0 <= j < |triggeredRules| ==> triggeredRules[j].priority == 0
    ensures GetHighestPriorityOutput(triggeredRules, fact) == triggeredRules[0].consequence(fact)
  {
    HighestPriorityIsFirstMax(triggeredRules, fact);
  }

  /** The strategy an executer hands its matching rules to: the default
      priority-based one, or any other selection function the caller
      injects through the executer's constructor. */
  datatype Prioritizer<!Fact, !Output> =
    | PriorityConsequence
    | Custom(select: (seq<Rule<Fact, Output>>, Fact) -> Output)

  function Select<Fact, Output>(p: Prioritizer<Fact, Output>, triggeredRules: seq<Rule<Fact, Output>>, fact: Fact): Output
    requires |triggeredRules| > 0
  {
    match p
    case PriorityConsequence => GetHighestPriorityOutput(triggeredRules, fact)
    case Custom(select) => select(triggeredRules, fact)
  }
}
