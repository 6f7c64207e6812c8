/** The rule store: rules keyed by identifier, evaluated against a fact. */
module Executers {
  import opened Wrappers
  import opened Guids
  import opened Rules
  import opened Prioritizers

  /** The exceptions the store's dictionary throws. */
  datatype ExecError =
    | DuplicateKey(id: Guid)   // `Dictionary.Add` with a key already present
    | KeyNotFound(id: Guid)    // the indexer with a key that is absent

  /** The dictionary's entries in one possible enumeration order: insertion
      order, with removed entries dropped. */
  type Entries<!Fact, !Output> = seq<(Guid, Rule<Fact, Output>)>

  datatype RuleExecuter<!Fact, !Output> = RuleExecuter(
    entries: Entries<Fact, Output>,
    prioritizer: Prioritizer<Fact, Output>)

  /** The result of a successful add: the identifier and the new store. */
  datatype Added<!Fact, !Output> = Added(id: Guid, executer: RuleExecuter<Fact, Output>)

  function KeysOf<Fact, Output>(s: Entries<Fact, Output>): (keys: set<Guid>)
    ensures forall i :: 0 <= i < |s| ==> s[i].0 in keys
    ensures forall g :: g in keys ==> exists i :: 0 <= i < |s| && s[i].0 == g
  {
    if |s| == 0 then {} else {s[0].0} + KeysOf(s[1..])
  }

  /** No key occurs twice: the dictionary's own invariant. */
  ghost predicate DistinctKeys<Fact, Output>(s: Entries<Fact, Output>) {
    forall i, j :: 0 <= i < j < |s| ==> s[i].0 != s[j].0
  }

  ghost predicate Valid<Fact, Output>(e: RuleExecuter<Fact, Output>) {
    DistinctKeys(e.entries)
  }

  function Keys<Fact, Output>(e: RuleExecuter<Fact, Output>): set<Guid> {
    KeysOf(e.entries)
  }

  /** The rule stored under `id`, if any. */
  function Find<Fact, Output>(s: Entries<Fact, Output>, id: Guid): (r: Option<Rule<Fact, Output>>)
    ensures r.Some? <==> id in KeysOf(s)
  {
    if |s| == 0 then None
    else if s[0].0 == id then Some(s[0].1)
    else Find(s[1..], id)
  }

  /** What `Find` returns is stored under the key, and with distinct keys it
      is the rule of the one entry under that key. */
  lemma {:induction false} FindIsStoredEntry<Fact, Output>(s: Entries<Fact, Output>, id: Guid)
    ensures Find(s, id).Some? ==> exists i :: 0 <= i < |s| && s[i] == (id, Find(s, id).value)
    ensures DistinctKeys(s) ==> forall i :: 0 <= i < |s| && s[i].0 == id ==> Find(s, id) == Some(s[i].1)
  {
    if |s| > 0 && s[0].0 != id {
      FindIsStoredEntry(s[1..], id);
      var r := Find(s[1..], id);
      if r.Some? {
        var i :| 0 <= i < |s[1..]| && s[1..][i] == (id, r.value);
        assert s[i + 1] == (id, r.value);
      }
      if DistinctKeys(s) {
        DistinctTail(s);
        forall i | 0 <= i < |s| && s[i].0 == id
          ensures Find(s, id) == Some(s[i].1)
        {
          assert i > 0 && s[1..][i - 1] == s[i];
        }
      }
    }
  }

  function Lookup<Fact, Output>(e: RuleExecuter<Fact, Output>, id: Guid): Option<Rule<Fact, Output>> {
    Find(e.entries, id)
  }

  /** The default constructor: an empty store with the priority prioritizer. */
  function NewExecuter<Fact, Output>(): (e: RuleExecuter<Fact, Output>)
    ensures Valid(e) && RuleCount(e) == 0 && Keys(e) == {}
    ensures e.prioritizer.PriorityConsequence?
  {
    NewExecuterWith(PriorityConsequence)
  }

  /** The constructor taking a prioritizer: an empty store that uses it. */
  function NewExecuterWith<Fact, Output>(prioritizer: Prioritizer<Fact, Output>): (e: RuleExecuter<Fact, Output>)
    ensures Valid(e) && RuleCount(e) == 0 && Keys(e) == {}
    ensures e.prioritizer == prioritizer
  {
    RuleExecuter([], prioritizer)
  }

  /** `RuleCount`: the dictionary's `Count`. */
  function RuleCount<Fact, Output>(e: RuleExecuter<Fact, Output>): nat {
    |e.entries|
  }

  /** With distinct keys, the count is the number of distinct identifiers. */
  lemma {:induction false} CountIsNumberOfKeys<Fact, Output>(s: Entries<Fact, Output>)
    requires DistinctKeys(s)
    ensures |KeysOf(s)| == |s|
  {
    if |s| > 0 {
      CountIsNumberOfKeys(s[1..]);
      assert s[0].0 !in KeysOf(s[1..]);
    }
  }

  /** `AddRule(identifier, newRule)`: `Dictionary.Add` rejects a key that is
      already present and otherwise stores the rule; the identifier is
      returned. */
  function AddRuleWithId<Fact, Output>(e: RuleExecuter<Fact, Output>, id: Guid, newRule: Rule<Fact, Output>): (r: Result<Added<Fact, Output>, ExecError>)
    requires Valid(e)
    ensures r.Failure? <==> id in Keys(e)
    ensures r.Failure? ==> r.error == DuplicateKey(id)
    ensures r.Success? ==>
      && r.value.id == id
      && Valid(r.value.executer)
      && r.value.executer.prioritizer == e.prioritizer
      && RuleCount(r.value.executer) == RuleCount(e) + 1
      && Keys(r.value.executer) == Keys(e) + {id}
      && Lookup(r.value.executer, id) == Some(newRule)
      && (forall g :: g != id ==> Lookup(r.value.executer, g) == Lookup(e, g))
  {
    if id in Keys(e) then Failure(DuplicateKey(id))
    else
      var s := e.entries + [(id, newRule)];
      assert s[..|e.entries|] == e.entries;
      AppendFind(e.entries, id, newRule);
      Success(Added(id, e.(entries := s)))
  }

  /** Appending an entry under a new key: the new key finds the new rule, and
      every other key finds what it found before. */
  lemma {:induction false} AppendFind<Fact, Output>(s: Entries<Fact, Output>, id: Guid, newRule: Rule<Fact, Output>)
    requires id !in KeysOf(s)
    ensures KeysOf(s + [(id, newRule)]) == KeysOf(s) + {id}
    ensures Find(s + [(id, newRule)], id) == Some(newRule)
    ensures forall g :: g != id ==> Find(s + [(id, newRule)], g) == Find(s, g)
  {
    var t := s + [(id, newRule)];
    if |s| > 0 {
      assert t[1..] == s[1..] + [(id, newRule)];
      AppendFind(s[1..], id, newRule);
    } else {
      assert t[1..] == [];
    }
  }

  /** `AddRule(newRule)`: stores the rule under an identifier drawn from the
      oracle. The draw can only clash with a key the store was given
      explicitly, and then `Dictionary.Add` throws as it would for any
      duplicate. */
  function AddRule<Fact, Output>(e: RuleExecuter<Fact, Output>, newRule: Rule<Fact, Output>, src: GuidSource): (r: (Result<Added<Fact, Output>, ExecError>, GuidSource))
    requires Valid(e)
    ensures !Issued(src, NewGuid(src).0) && r.1 == NewGuid(src).1
    ensures r.0.Failure? <==> NewGuid(src).0 in Keys(e)
    ensures r.0.Failure? ==> r.0.error == DuplicateKey(NewGuid(src).0)
    ensures r.0.Success? ==>
      && r.0.value.id == NewGuid(src).0
      && r.0.value.id !in Keys(e)
      && Valid(r.0.value.executer)
      && r.0.value.executer.prioritizer == e.prioritizer
      && RuleCount(r.0.value.executer) == RuleCount(e) + 1
      && Keys(r.0.value.executer) == Keys(e) + {r.0.value.id}
      && Lookup(r.0.value.executer, r.0.value.id) == Some(newRule)
      && (forall g :: g != r.0.value.id ==> Lookup(r.0.value.executer, g) == Lookup(e, g))
  {
    var (id, src') := NewGuid(src);
    (AddRuleWithId(e, id, newRule), src')
  }

  /** Every stored identifier was issued by the oracle, as when rules only
      ever enter the store through `AddRule(newRule)`. */
  ghost predicate KeysIssued<Fact, Output>(e: RuleExecuter<Fact, Output>, src: GuidSource) {
    forall g :: g in Keys(e) ==> Issued(src, g)
  }

  /** When the oracle issued every stored identifier, `AddRule(newRule)`
      never clashes, and the new store again holds only issued identifiers,
      so any run of such adds succeeds. */
  lemma AddRuleSucceedsOnIssuedKeys<Fact, Output>(e: RuleExecuter<Fact, Output>, newRule: Rule<Fact, Output>, src: GuidSource)
    requires Valid(e) && KeysIssued(e, src)
    ensures AddRule(e, newRule, src).0.Success?
    ensures KeysIssued(AddRule(e, newRule, src).0.value.executer, AddRule(e, newRule, src).1)
  {
  }

  /** `GetRule`: the dictionary indexer, which throws when the key is absent. */
  function GetRule<Fact, Output>(e: RuleExecuter<Fact, Output>, id: Guid): (r: Result<Rule<Fact, Output>, ExecError>)
    requires Valid(e)
    ensures r.Success? <==> id in Keys(e)
    ensures r.Failure? ==> r.error == KeyNotFound(id)
    ensures r.Success? ==> exists i :: 0 <= i < |e.entries| && e.entries[i] == (id, r.value)
  {
    FindIsStoredEntry(e.entries, id);
    match Lookup(e, id)
    case Some(rule) => Success(rule)
    case None => Failure(KeyNotFound(id))
  }

  /** The entries with every entry under `id` removed. */
  function Remove<Fact, Output>(s: Entries<Fact, Output>, id: Guid): (t: Entries<Fact, Output>)
    ensures KeysOf(t) == KeysOf(s) - {id}
  {
    if |s| == 0 then []
    else if s[0].0 == id then Remove(s[1..], id)
    else [s[0]] + Remove(s[1..], id)
  }

  /** After removal the key finds nothing, and every other key finds what it
      found before. */
  lemma {:induction false} RemoveFind<Fact, Output>(s: Entries<Fact, Output>, id: Guid, g: Guid)
    ensures Find(Remove(s, id), id) == None
    ensures g != id ==> Find(Remove(s, id), g) == Find(s, g)
  {
    if |s| > 0 {
      RemoveFind(s[1..], id, g);
      if s[0].0 != id {
        var t := [s[0]] + Remove(s[1..], id);
        assert t[1..] == Remove(s[1..], id);
      }
    }
  }

  /** Removing an absent key changes nothing. */
  lemma {:induction false} RemoveAbsent<Fact, Output>(s: Entries<Fact, Output>, id: Guid)
    requires id !in KeysOf(s)
    ensures Remove(s, id) == s
  {
    if |s| > 0 {
      RemoveAbsent(s[1..], id);
      assert s == [s[0]] + s[1..];
    }
  }

  /** Dropping the first entry keeps keys distinct. */
  lemma DistinctTail<Fact, Output>(s: Entries<Fact, Output>)
    requires |s| > 0 && DistinctKeys(s)
    ensures DistinctKeys(s[1..])
    ensures s[0].0 !in KeysOf(s[1..])
  {
    forall i, j | 0 <= i < j < |s[1..]|
      ensures s[1..][i].0 != s[1..][j].0
    {
      assert s[1..][i] == s[i + 1] && s[1..][j] == s[j + 1];
    }
  }

  /** Removing keeps keys distinct. */
  lemma {:induction false} RemoveKeepsDistinct<Fact, Output>(s: Entries<Fact, Output>, id: Guid)
    requires DistinctKeys(s)
    ensures DistinctKeys(Remove(s, id))
  {
    if |s| > 0 {
      DistinctTail(s);
      var rest := Remove(s[1..], id);
      RemoveKeepsDistinct(s[1..], id);
      if s[0].0 != id {
        var t := [s[0]] + rest;
        forall i, j | 0 <= i < j < |t|
          ensures t[i].0 != t[j].0
        {
          assert t[j] == rest[j - 1];
          if i > 0 {
            assert t[i] == rest[i - 1];
          } else {
            assert rest[j - 1].0 in KeysOf(rest);
          }
        }
      }
    }
  }

  /** With distinct keys, removing a present key drops exactly one entry,
      and removing an absent one changes nothing. */
  lemma {:induction false} RemoveCount<Fact, Output>(s: Entries<Fact, Output>, id: Guid)
    requires DistinctKeys(s)
    ensures id in KeysOf(s) ==> |Remove(s, id)| == |s| - 1
    ensures id !in KeysOf(s) ==> Remove(s, id) == s
  {
    if id !in KeysOf(s) {
      RemoveAbsent(s, id);
    } else if |s| > 0 {
      DistinctTail(s);
      if s[0].0 == id {
        RemoveAbsent(s[1..], id);
      } else {
        RemoveCount(s[1..], id);
      }
    }
  }

  /** `DeleteRule`: `Dictionary.Remove`, which ignores an absent key. */
  function DeleteRule<Fact, Output>(e: RuleExecuter<Fact, Output>, id: Guid): (e': RuleExecuter<Fact, Output>)
    requires Valid(e)
    ensures Valid(e')
    ensures e'.prioritizer == e.prioritizer
    ensures Keys(e') == Keys(e) - {id}
    ensures id in Keys(e) ==> RuleCount(e') == RuleCount(e) - 1
    ensures id !in Keys(e) ==> e' == e
    ensures Lookup(e', id) == None
    ensures forall g :: g != id ==> Lookup(e', g) == Lookup(e, g)
  {
    RemoveKeepsDistinct(e.entries, id);
    RemoveCount(e.entries, id);
    RemoveFind(e.entries, id, id);
    assert forall g :: g != id ==> Lookup(e.(entries := Remove(e.entries, id)), g) == Lookup(e, g) by {
      forall g | g != id
        ensures Find(Remove(e.entries, id), g) == Find(e.entries, g)
      {
        RemoveFind(e.entries, id, g);
      }
    }
    e.(entries := Remove(e.entries, id))
  }

  /** Removing the entry just appended under a new key gives back the
      entries as they were. */
  lemma {:induction false} RemoveAppended<Fact, Output>(s: Entries<Fact, Output>, id: Guid, newRule: Rule<Fact, Output>)
    requires id !in KeysOf(s)
    ensures Remove(s + [(id, newRule)], id) == s
  {
    var t := s + [(id, newRule)];
    if |s| == 0 {
      assert t[1..] == [];
    } else {
      assert t[1..] == s[1..] + [(id, newRule)];
      RemoveAppended(s[1..], id, newRule);
      assert s == [s[0]] + s[1..];
    }
  }

  /** Adding a rule under a new identifier and then deleting that identifier
      gives back the store as it was. */
  lemma AddThenDeleteRestores<Fact, Output>(e: RuleExecuter<Fact, Output>, id: Guid, newRule: Rule<Fact, Output>)
    requires Valid(e) && id !in Keys(e)
    ensures AddRuleWithId(e, id, newRule).Success?
    ensures DeleteRule(AddRuleWithId(e, id, newRule).value.executer, id) == e
  {
    RemoveAppended(e.entries, id, newRule);
  }

  /** A rule that was never added, or was added and then deleted, is not
      found; a rule that was added is found as it was given. */
  lemma GetRuleAfterAddAndDelete<Fact, Output>(e: RuleExecuter<Fact, Output>, id: Guid, newRule: Rule<Fact, Output>)
    requires Valid(e) && id !in Keys(e)
    ensures GetRule(e, id) == Failure(KeyNotFound(id))
    ensures AddRuleWithId(e, id, newRule).Success?
    ensures GetRule(AddRuleWithId(e, id, newRule).value.executer, id) == Success(newRule)
    ensures GetRule(DeleteRule(AddRuleWithId(e, id, newRule).value.executer, id), id) == Failure(KeyNotFound(id))
  {
  }

  /** The entries with the rule under `id` given priority `p`: the same keys
      in the same order, every other rule as it was. */
  function Reprioritize<Fact, Output>(s: Entries<Fact, Output>, id: Guid, p: Int32): (t: Entries<Fact, Output>)
    ensures |t| == |s|
    ensures forall i :: 0 <= i < |s| ==> t[i].0 == s[i].0
  {
    seq(|s|, i requires 0 <= i < |s| => if s[i].0 == id then (id, WithPriority(s[i].1, p)) else s[i])
  }

  /** After reprioritizing, the key finds its old rule with the new priority,
      and every other key finds what it found before. */
  lemma {:induction false} ReprioritizeFind<Fact, Output>(s: Entries<Fact, Output>, id: Guid, p: Int32, g: Guid)
    ensures Find(Reprioritize(s, id, p), id) ==
      (if id in KeysOf(s) then Some(WithPriority(Find(s, id).value, p)) else None)
    ensures g != id ==> Find(Reprioritize(s, id, p), g) == Find(s, g)
  {
    if |s| > 0 {
      ReprioritizeFind(s[1..], id, p, g);
      assert Reprioritize(s, id, p)[1..] == Reprioritize(s[1..], id, p);
    }
  }

  /** Reprioritizing keeps the keys in place, so they stay distinct. */
  lemma ReprioritizeKeepsDistinct<Fact, Output>(s: Entries<Fact, Output>, id: Guid, p: Int32)
    requires DistinctKeys(s)
    ensures DistinctKeys(Reprioritize(s, id, p))
  {
    var t := Reprioritize(s, id, p);
    forall i, j | 0 <= i < j < |t|
      ensures t[i].0 != t[j].0
    {
      assert s[i].0 != s[j].0;
    }
  }

  /** `GetRule(id).Priority = p`: the indexer hands out the stored rule
      object itself, so setting its priority changes the rule the store
      holds; an absent key throws. */
  function SetPriority<Fact, Output>(e: RuleExecuter<Fact, Output>, id: Guid, p: Int32): (r: Result<RuleExecuter<Fact, Output>, ExecError>)
    requires Valid(e)
    ensures r.Failure? <==> id !in Keys(e)
    ensures r.Failure? ==> r.error == KeyNotFound(id)
    ensures r.Success? ==>
      && Valid(r.value) && r.value.prioritizer == e.prioritizer
      && Keys(r.value) == Keys(e) && RuleCount(r.value) == RuleCount(e)
      && Lookup(r.value, id) == Some(WithPriority(Lookup(e, id).value, p))
      && (forall g :: g != id ==> Lookup(r.value, g) == Lookup(e, g))
  {
    if id !in Keys(e) then Failure(KeyNotFound(id))
    else
      var e' := e.(entries := Reprioritize(e.entries, id, p));
      ReprioritizeKeepsDistinct(e.entries, id, p);
      ReprioritizeFind(e.entries, id, p, id);
      forall g | g != id
        ensures Find(e'.entries, g) == Find(e.entries, g)
      {
        ReprioritizeFind(e.entries, id, p, g);
      }
      assert Keys(e') == Keys(e) by {
        forall g ensures g in Keys(e') <==> g in Keys(e) {
          ReprioritizeFind(e.entries, id, p, g);
        }
      }
      Success(e')
  }

  /** With the default prioritizer, a matching entry whose priority every
      other matching entry's is strictly below decides the output. */
  lemma StrictTopWins<Fact, Output>(e: RuleExecuter<Fact, Output>, fact: Fact, i: nat)
    requires e.prioritizer.PriorityConsequence?
    requires i < |e.entries| && e.entries[i].1.condition(fact)
    requires forall j :: 0 <= j < |e.entries| && j != i && e.entries[j].1.condition(fact) ==>
      e.entries[j].1.priority < e.entries[i].1.priority
    ensures ExecuteFact(e, fact) == Some(e.entries[i].1.consequence(fact))
  {
    ExecuteFactPicksHighestPriority(e, fact);
  }

  /** Raising the entry at `i`, the one under `id`, above every other
      matching entry makes it the strict top among the matching entries. */
  lemma RaisedIsStrictTop<Fact, Output>(s: Entries<Fact, Output>, id: Guid, p: Int32, fact: Fact, i: nat)
    requires DistinctKeys(s) && i < |s| && s[i].0 == id && s[i].1.condition(fact)
    requires forall j :: 0 <= j < |s| && s[j].0 != id && s[j].1.condition(fact) ==> s[j].1.priority < p
    ensures Reprioritize(s, id, p)[i] == (id, WithPriority(s[i].1, p))
    ensures forall j :: 0 <= j < |s| && j != i && Reprioritize(s, id, p)[j].1.condition(fact) ==>
      Reprioritize(s, id, p)[j].1.priority < Reprioritize(s, id, p)[i].1.priority
  {
    var t := Reprioritize(s, id, p);
    forall j | 0 <= j < |s| && j != i && t[j].1.condition(fact)
      ensures t[j].1.priority < p
    {
      assert s[j].0 != id;
      assert t[j] == s[j];
    }
  }

  /** With the default prioritizer, a matching rule raised above every other
      matching rule's priority decides the output. */
  lemma RaisedPriorityWins<Fact, Output>(e: RuleExecuter<Fact, Output>, id: Guid, p: Int32, fact: Fact)
    requires Valid(e) && e.prioritizer.PriorityConsequence?
    requires id in Keys(e) && Lookup(e, id).value.condition(fact)
    requires forall j :: 0 <= j < |e.entries| && e.entries[j].0 != id && e.entries[j].1.condition(fact) ==>
      e.entries[j].1.priority < p
    ensures SetPriority(e, id, p).Success?
    ensures ExecuteFact(SetPriority(e, id, p).value, fact) == Some(Lookup(e, id).value.consequence(fact))
  {
    FindIsStoredEntry(e.entries, id);
    var i :| 0 <= i < |e.entries| && e.entries[i] == (id, Lookup(e, id).value);
    RaisedIsStrictTop(e.entries, id, p, fact, i);
    var e' := e.(entries := Reprioritize(e.entries, id, p));
    StrictTopWins(e', fact, i);
    assert SetPriority(e, id, p) == Success(e');
  }

  /** The stored rules whose condition holds for the fact, in enumeration
      order: the `Select(...).Where(...)` of `ExecuteFact`. */
  function Matches<Fact, Output>(s: Entries<Fact, Output>, fact: Fact): (m: seq<Rule<Fact, Output>>)
    ensures |m| <= |s|
    ensures forall i :: 0 <= i < |m| ==> m[i].condition(fact)
  {
    if |s| == 0 then []
    else if s[0].1.condition(fact) then [s[0].1] + Matches(s[1..], fact)
    else Matches(s[1..], fact)
  }

  /** A rule is among the matches exactly when it is stored and its
      condition holds; none matches exactly when no stored condition holds. */
  lemma {:induction false} MatchesAreMatchingStoredRules<Fact, Output>(s: Entries<Fact, Output>, fact: Fact)
    ensures forall i :: 0 <= i < |Matches(s, fact)| ==>
      exists j :: 0 <= j < |s| && s[j].1 == Matches(s, fact)[i]
    ensures forall j :: 0 <= j < |s| && s[j].1.condition(fact) ==> s[j].1 in Matches(s, fact)
    ensures |Matches(s, fact)| == 0 <==> forall j :: 0 <= j < |s| ==> !s[j].1.condition(fact)
  {
    if |s| > 0 {
      MatchesAreMatchingStoredRules(s[1..], fact);
      var m := Matches(s, fact);
      var rest := Matches(s[1..], fact);
      forall i | 0 <= i < |m|
        ensures exists j :: 0 <= j < |s| && s[j].1 == m[i]
      {
        if s[0].1.condition(fact) && i == 0 {
          assert s[0].1 == m[i];
        } else {
          var i' := if s[0].1.condition(fact) then i - 1 else i;
          assert m[i] == rest[i'];
          var j :| 0 <= j < |s[1..]| && s[1..][j].1 == rest[i'];
          assert s[j + 1].1 == m[i];
        }
      }
      forall j | 0 <= j < |s| && s[j].1.condition(fact)
        ensures s[j].1 in m
      {
        if j > 0 {
          assert s[1..][j - 1] == s[j];
        }
      }
    } else {
      assert Matches(s, fact) == [];
    }
  }

  /** The filter keeps order and multiplicity: one entry gives its rule
      exactly when its condition holds, and the matches of two runs of
      entries are the matches of the first followed by those of the second. */
  lemma {:induction false} MatchesKeepsOrder<Fact, Output>(s1: Entries<Fact, Output>, s2: Entries<Fact, Output>, fact: Fact)
    ensures |s1| == 1 ==> Matches(s1, fact) == (if s1[0].1.condition(fact) then [s1[0].1] else [])
    ensures Matches(s1 + s2, fact) == Matches(s1, fact) + Matches(s2, fact)
  {
    if |s1| == 0 {
      assert s1 + s2 == s2;
    } else {
      MatchesKeepsOrder(s1[1..], s2, fact);
      assert (s1 + s2)[1..] == s1[1..] + s2;
      if |s1| == 1 {
        assert Matches(s1[1..], fact) == [];
      }
    }
  }

  /** `ExecuteFact`: `None` (the source's `default(TOutput)`) when no stored
      condition holds; otherwise the prioritizer's choice among exactly the
      matching rules. The store itself is not changed. */
  function ExecuteFact<Fact, Output>(e: RuleExecuter<Fact, Output>, fact: Fact): (r: Option<Output>)
    ensures r.None? <==> forall j :: 0 <= j < |e.entries| ==> !e.entries[j].1.condition(fact)
    ensures r.Some? ==>
      && |Matches(e.entries, fact)| > 0
      && r.value == Select(e.prioritizer, Matches(e.entries, fact), fact)
  {
    MatchesAreMatchingStoredRules(e.entries, fact);
    var validRules := Matches(e.entries, fact);
    if |validRules| > 0 then Some(Select(e.prioritizer, validRules, fact))
    else None
  }

  /** With the default prioritizer the output is the consequence of a stored,
      matching rule whose priority no other matching rule exceeds, whatever
      order the store enumerates its entries in. */
  lemma ExecuteFactPicksHighestPriority<Fact, Output>(e: RuleExecuter<Fact, Output>, fact: Fact)
    requires e.prioritizer.PriorityConsequence?
    requires exists j :: 0 <= j < |e.entries| && e.entries[j].1.condition(fact)
    ensures ExecuteFact(e, fact).Some?
    ensures exists j ::
      && 0 <= j < |e.entries|
      && e.entries[j].1.condition(fact)
      && ExecuteFact(e, fact).value == e.entries[j].1.consequence(fact)
      && forall k :: 0 <= k < |e.entries| && e.entries[k].1.condition(fact) ==>
           e.entries[k].1.priority <= e.entries[j].1.priority
  {
    var m := Matches(e.entries, fact);
    MatchesAreMatchingStoredRules(e.entries, fact);
    HighestPriorityIsFirstMax(m, fact);
    var w := FirstMaxIndex(m);
    var j :| 0 <= j < |e.entries| && e.entries[j].1 == m[w];
    forall k | 0 <= k < |e.entries| && e.entries[k].1.condition(fact)
      ensures e.entries[k].1.priority <= e.entries[j].1.priority
    {
      var i :| 0 <= i < |m| && m[i] == e.entries[k].1;
    }
  }

  /** With the default prioritizer, when exactly one stored rule matches,
      its consequence is the output. */
  lemma {:induction false} SingleMatchIsOutput<Fact, Output>(e: RuleExecuter<Fact, Output>, fact: Fact, j: nat)
    requires j < |e.entries| && e.entries[j].1.condition(fact)
    requires forall k :: 0 <= k < |e.entries| && k != j ==> !e.entries[k].1.condition(fact)
    requires e.prioritizer.PriorityConsequence?
    ensures ExecuteFact(e, fact) == Some(e.entries[j].1.consequence(fact))
  {
    ExecuteFactPicksHighestPriority(e, fact);
  }
}
