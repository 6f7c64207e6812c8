# SimpleRules rule engine, modelled in Dafny

This project models the in-memory rule engine of SimpleRules and the context
that keeps it in step with a persistence repository.

- A **rule** pairs a condition over a fact with a consequence that produces an
  output. It also carries a priority.
- The **rule executer** stores rules under identifiers. It adds, gets and
  deletes them. Given a fact, it keeps the rules whose condition holds and
  hands them to a **prioritizer**.
- The default **PriorityConsequencePrioritizer** sorts the matching rules by
  descending priority, stably. It applies the consequence of the first rule
  of that order.
- A **rule template** turns a condition capability and a consequence
  capability into a rule of priority 0. A **template factory** rebuilds both
  capabilities from a (type tag, payload) pair.
- A **rule context** creates, loads, adds and deletes rules. Each operation
  changes the executer and issues the matching repository calls.

Files and modules, leaves first:

| file | module | models |
|---|---|---|
| `wrappers.dfy` | `Wrappers` | `Option` (the "no output" sentinel) and `Result` (thrown exceptions) |
| `guids.dfy` | `Guids` | identifiers and the fresh-identifier oracle that stands in for `Guid.NewGuid` |
| `rule.dfy` | `Rules` | `Rule.cs` |
| `prioritizer.dfy` | `Prioritizers` | `PriorityConsequencePrioritizer.cs` and the prioritizer interface |
| `executer.dfy` | `Executers` | `RuleExecuter.cs` |
| `template.dfy` | `Templating` | `RuleTemplate.cs` and the condition, consequence and factory interfaces |
| `context.dfy` | `Contexts` | `RuleContext.cs`, `RuleData.cs` and the repository interface |

Modelling choices:

- The generic `TFact` and `TOutput` become the type parameters `Fact` and
  `Output`.
- Conditions and consequences are total Dafny functions.
- Everything is an immutable value. Each operation returns the new state
  instead of mutating an object.
- The executer's `Dictionary` is a sequence of `(Guid, Rule)` pairs with
  distinct keys (`Executers.Valid`). The sequence order is one possible
  enumeration order: insertion order, with removed entries dropped.
  `Dictionary` promises no order, and after a `Remove` its next `Add` may
  take the freed slot, so the program can enumerate in another order.
  - Properties about which rule wins are stated in two ways. Some hold in
    any enumeration order (`ExecuteFactPicksHighestPriority`). Others are
    relative to the sequence handed to the prioritizer
    (`HighestPriorityIsFirstMax`).
  - No property claims that the earliest-inserted rule wins a tie.
- The exceptions the dictionary throws become `Result` failures:
  - `DuplicateKey` for `Dictionary.Add` with a key that is already present;
  - `KeyNotFound` for the indexer with a key that is absent.
- `ExecuteFact` returns `None` where the source returns `default(TOutput)`.
- The prioritizer is either the default one or any injected selection
  function (`Prioritizers.Prioritizer`).
- Repository: the core only ever sees what `GetRulesByContext` returns. That
  is modelled as a function from context identifier to a list of
  `RuleData` records.
- Context operations return the calls they issue to the executer and the
  repository, in order (`Contexts.Call`). This is how "exactly one
  repository call, after the executer mutation" is stated.
- `Guid.NewGuid` is a counter-based oracle (`Guids.GuidSource`). It never
  issues the same identifier twice.
- `RuleExecuter.AddRule(rule)` draws an identifier from the oracle. If the
  draw clashes with a key the store was given explicitly, the model fails
  with `DuplicateKey`, just as `Dictionary.Add` throws.

Behaviour of the code worth noting:

- `AddRule(identifier, rule)` with an identifier already present is
  rejected, because `Dictionary.Add` throws. It does not overwrite.
- `CreateContext` wraps whatever executer it is given. It does not create
  an empty one.
- `LoadContext` stops at the first record whose identifier is already in
  the executer or repeats an earlier record. The executer it was given keeps
  the rules added before that record.

## Model

| member | source | states |
|---|---|---|
| `Rules.NewRule` | SimpleRules/Rule.cs:19-23 | the public two-argument constructor stores the given condition and consequence and gives priority 0 |
| `Rules.WithPriority` | SimpleRules/Rule.cs:51 | setting `Priority` changes the priority only; condition and consequence stay as constructed |
| `Rules.NewRuleIsDefaultPriority` | SimpleRules/Rule.cs:19-36 | the two-argument constructor equals the three-argument one at priority 0; setting a priority afterwards equals the three-argument one at that priority |
| `Rules.WithPriorityLastWriteWins` | SimpleRules/Rule.cs:41-51 | the last priority written wins, and writing the current priority back leaves the rule unchanged |
| `Prioritizers.SortByPriority` | SimpleRules/PriorityConsequencePrioritizer.cs:17 | `OrderByDescending` on priority returns a permutation of the triggered rules (same length, same multiset), sorted by non-increasing priority |
| `Prioritizers.InsertKeepsSorted` | SimpleRules/PriorityConsequencePrioritizer.cs:17 | one step of the stable sort keeps the descending order |
| `Prioritizers.FirstMaxIndex` | SimpleRules/PriorityConsequencePrioritizer.cs:17 | reference winner: the position of the first rule whose priority no rule exceeds; every earlier rule has strictly lower priority |
| `Prioritizers.SortedHeadIsFirstMax` | SimpleRules/PriorityConsequencePrioritizer.cs:17 | the head of the stable descending sort (`First()`) is the first rule of maximal priority, so ties go to the earliest rule in input order |
| `Prioritizers.GetHighestPriorityOutput` | SimpleRules/PriorityConsequencePrioritizer.cs:15-18 | needs a non-empty input (`First()` throws otherwise); the output is the consequence, applied to the fact, of an input rule of maximal priority with no earlier rule of equal priority |
| `Prioritizers.HighestPriorityIsFirstMax` | SimpleRules/PriorityConsequencePrioritizer.cs:17 | the output is the consequence of the reference winner applied to the fact |
| `Prioritizers.SingleRuleWins` | SimpleRules/PriorityConsequencePrioritizer.cs:17 | with a single triggered rule, the output is that rule's consequence applied to the fact |
| `Prioritizers.DefaultPrioritiesPickFirst` | SimpleRules/PriorityConsequencePrioritizer.cs:17 | when every triggered rule has priority 0, as every template-built rule does, the first rule's consequence wins |
| `Executers.NewExecuter` | SimpleRules/RuleExecuter.cs:17-21 | the default constructor gives an empty store (`RuleCount` 0) using the priority prioritizer |
| `Executers.NewExecuterWith` | SimpleRules/RuleExecuter.cs:27-31 | the prioritizer constructor gives an empty store that uses the injected prioritizer |
| `Executers.CountIsNumberOfKeys` | SimpleRules/RuleExecuter.cs:36 | `RuleCount` is the number of distinct identifiers stored |
| `Executers.AddRuleWithId` | SimpleRules/RuleExecuter.cs:58-63 | fails with `DuplicateKey` exactly when the identifier is already stored, leaving nothing changed; otherwise returns the identifier, the count grows by one, the identifier now finds the rule, every other identifier finds what it found before |
| `Executers.AddRule` | SimpleRules/RuleExecuter.cs:47-50 | stores the rule under an identifier the oracle never issued before and that is not yet in the store, returns it, grows the count by one and keeps the prioritizer; the oracle is advanced either way; it fails exactly when the draw clashes with a key added explicitly, with `DuplicateKey` of the drawn identifier, as `Dictionary.Add` does |
| `Executers.AddRuleSucceedsOnIssuedKeys` | SimpleRules/RuleExecuter.cs:47-50 | when every stored identifier came from the oracle, `AddRule(newRule)` succeeds and the store again holds only issued identifiers, so a run of such adds never clashes |
| `Executers.GetRule` | SimpleRules/RuleExecuter.cs:71-74 | succeeds exactly when the identifier is stored, with the rule stored under it; otherwise fails with `KeyNotFound` |
| `Executers.SetPriority` | SimpleRules/Rule.cs:51 | setting `Priority` on the object `GetRule` returns (RuleExecuter.cs:71-74 hands out the stored object): an absent identifier fails with `KeyNotFound`; otherwise only that rule's priority changes, with the same keys, count and prioritizer, and every other identifier finds what it found before |
| `Executers.StrictTopWins` | SimpleRules/PriorityConsequencePrioritizer.cs:15-18 | with the default prioritizer, a stored matching rule that every other matching rule is strictly below in priority decides the output, whatever the enumeration order |
| `Executers.RaisedPriorityWins` | SimpleRules/Rule.cs:51 | raising a stored matching rule's priority above every other matching rule makes its consequence the output of `ExecuteFact` |
| `Executers.DeleteRule` | SimpleRules/RuleExecuter.cs:80-83 | a present identifier is removed and the count drops by one; an absent identifier leaves the store unchanged without failing; other entries are untouched |
| `Executers.AddThenDeleteRestores` | SimpleRules/RuleExecuter.cs:58-83 | adding under a new identifier and then deleting that identifier gives back the original store |
| `Executers.GetRuleAfterAddAndDelete` | SimpleRules/RuleExecuter.cs:58-83 | a never-added identifier is not found, an added one finds its rule, and a deleted one is not found again |
| `Executers.Matches` | SimpleRules/RuleExecuter.cs:92-93 | the `Select(rule => rule.Value).Where(rule => rule.Condition(fact))` filter keeps at most as many rules as are stored, and every rule it keeps has a condition that holds for the fact |
| `Executers.MatchesKeepsOrder` | SimpleRules/RuleExecuter.cs:92-93 | the filter keeps enumeration order and multiplicity: one entry yields its rule exactly when its condition holds, and the matches of two runs of entries are the first run's matches followed by the second's |
| `Executers.MatchesAreMatchingStoredRules` | SimpleRules/RuleExecuter.cs:92-93 | the filtered rules are stored rules whose condition holds, every stored rule whose condition holds is among them, and none are left exactly when no stored condition holds |
| `Executers.ExecuteFact` | SimpleRules/RuleExecuter.cs:90-103 | no output exactly when no stored condition holds for the fact, and then the prioritizer is not consulted; otherwise the prioritizer's choice among the matching rules; the store is not modified |
| `Executers.ExecuteFactPicksHighestPriority` | SimpleRules/RuleExecuter.cs:92-97 | with the default prioritizer, the output is the consequence of a stored matching rule whose priority no matching rule exceeds, whatever the enumeration order |
| `Executers.SingleMatchIsOutput` | SimpleRules/RuleExecuter.cs:92-97 | with the default prioritizer, when exactly one stored rule matches, the output is that rule's consequence applied to the fact |
| `Templating.RuleTemplate.Rule` | SimpleRules/Templating/RuleTemplate.cs:38-41 | the produced rule's condition is the condition capability's `GetCondition()`, its consequence the consequence capability's `GetConsequence()`, and its priority 0 |
| `Templating.RuleTemplate.WithCondition` | SimpleRules/Templating/RuleTemplate.cs:28 | the condition setter replaces the condition capability and keeps the consequence capability |
| `Templating.RuleTemplate.WithConsequence` | SimpleRules/Templating/RuleTemplate.cs:33 | the consequence setter replaces the consequence capability and keeps the condition capability |
| `Templating.ReplacingCapabilityRebuildsRule` | SimpleRules/Templating/RuleTemplate.cs:28-41 | the rule is recomputed on each access, so replacing a capability changes the next produced rule in that half only |
| `Templating.BuildRule` | SimpleRules/Context/RuleContext.cs:125-130 | the rule rebuilt from a (type, data) pair for each half has the factory's condition and consequence for those pairs and priority 0 |
| `Guids.NewGuid` | SimpleRules/RuleExecuter.cs:49 | a drawn identifier was never issued before and counts as issued afterwards; earlier identifiers stay issued |
| `Guids.DrawsAreDistinct` | SimpleRules/Context/RuleContext.cs:52 | successive draws from one oracle are pairwise distinct and were none of them issued before |
| `Contexts.CreateContextWithId` | SimpleRules/Context/RuleContext.cs:67-76 | issues exactly one repository call, `AddContext(contextId)`, and returns a context with that identifier, wrapping the supplied executer, repository and factory |
| `Contexts.CreateContext` | SimpleRules/Context/RuleContext.cs:47-57 | registers and wraps a never-before-issued identifier from the oracle, advancing the oracle, and keeps the supplied executer, repository and factory |
| `Contexts.CreatedContextsAreDistinct` | SimpleRules/Context/RuleContext.cs:47-57 | two contexts created one after the other get different identifiers |
| `Contexts.LoadStep` | SimpleRules/Context/RuleContext.cs:98-105 | one pass of the loop: adding the next record either keeps every earlier record findable, adds this one and leaves all other identifiers alone, or is rejected exactly when this record's identifier is already stored or appeared earlier in the list |
| `Contexts.AddRecords` | SimpleRules/Context/RuleContext.cs:96-106 | adds each record's factory-rebuilt rule under the record's own identifier, stopping exactly at the first identifier already stored or repeated; records added so far are findable and all other identifiers are untouched |
| `Contexts.AddCallsConcat` | SimpleRules/Context/RuleContext.cs:96-106 | the `foreach` issues one executer `AddRule(id, rule)` per record, in record order: the calls for two runs of records are the first run's calls followed by the second's, and one record gives one call with its identifier |
| `Contexts.LoadContext` | SimpleRules/Context/RuleContext.cs:86-109 | first reads `GetRulesByContext(identifier)` and never calls `AddContext`; succeeds exactly when the records' identifiers are new and distinct, and then the context has that identifier, one executer add call per record in order, the count grows by the number of records, and each record's identifier finds the rule rebuilt from its type and data fields; on the first record whose identifier is stored or repeated, fails naming it, after one executer add call per record up to and including it, and the executer holds exactly the records loaded before it: count grown by their number, each found with its rebuilt rule, every other identifier as before |
| `Contexts.AddRule` | SimpleRules/Context/RuleContext.cs:119-147 | fails, with `DuplicateKey` of the oracle's draw and no repository call, exactly when the draw is already a key of the executer; otherwise adds exactly one rule, built by the factory from the inputs, under the oracle's fresh draw, which it returns, and advances the oracle past that draw; then issues exactly one repository `AddRule` with the identifier, the context's identifier and the four inputs; if the executer throws, no repository call follows; the context identifier, repository, factory and prioritizer never change |
| `Contexts.DeleteRule` | SimpleRules/Context/RuleContext.cs:153-158 | calls the executer's `DeleteRule(ruleId)` and then the repository's `DeleteRule(ruleId)` with the same identifier; afterwards the identifier is not found, other rules are untouched, and the context identifier, repository, factory and prioritizer are unchanged |
| `Contexts.AddRuleSucceedsOnIssuedKeys` | SimpleRules/Context/RuleContext.cs:132 | when the oracle issued every identifier the executer holds, the context's `AddRule` succeeds and the executer again holds only issued identifiers, so a run of context adds never fails |
| `Contexts.PersistedRecordRebuildsRule` | SimpleRules/Context/RuleContext.cs:125-144 | the record `AddRule` persists carries the returned identifier and the context's identifier, and rebuilding it through the factory, as loading does, gives exactly the rule the executer holds |
| `Contexts.ReAddGetsNewId` | SimpleRules/Context/RuleContext.cs:132 | a rule added after an add and a delete of the first rule's identifier never gets the deleted identifier back, because `AddRule` draws from an oracle that never repeats |
| `Contexts.AddThenDeleteRestoresExecuter` | SimpleRules/Context/RuleContext.cs:119-158 | adding a rule and deleting its identifier restores the context, with calls add-to-executer, persist, remove-from-executer, remove-from-repository, in that order |

## Left out

- Asynchrony. `Task` and `await` are modelled as sequential steps. The
  `DeleteRule` repository task that the source does not await is treated as
  issued right after the executer call.
- Failures of the repository and of the factory. The source propagates them
  unchanged, with no retry and no rollback. The model treats every
  collaborator call as succeeding.
- What the repository stores. Writes are only recorded as calls, and reads
  come from a fixed function. Nothing relates an `AddRule` call to a later
  `GetRulesByContext` result.
- Guid width and randomness. Identifiers are unbounded naturals drawn from a
  counter. Only their distinctness matters to the core.
- Other executers. A context accepts any `IRuleExecuter`, but the model
  fixes the concrete `RuleExecuter`. The context clauses about identifiers,
  keys, counts and lookups hold only for that implementation. With another
  executer (a test double that returns a fixed identifier, say), only the
  order of the calls and the fields of the persisted records carry over.
- Reference sharing. In the source, the executer passed to a context is the
  same object the caller holds. The model passes values, and `LoadContext`
  returns the executer's state after loading.
- Rule aliasing. `Rule` is a class with a public `Priority` setter, and the
  executer stores the caller's own object. Setting the priority through a
  handle the caller kept after `AddRule` is not modelled, and neither is one
  object added under two identifiers so that a change shows under both. The
  case of a stored rule reached through `GetRule` is modelled by
  `Executers.SetPriority`, one identifier at a time.
- Enumeration order. The entry order is insertion order with removed
  entries dropped; `Dictionary` may reuse a freed slot, so ties between
  equal-priority matches, and the output of a custom prioritizer that
  depends on order, can differ from the program's after a delete. The
  results that hold in any order (`ExecuteFactPicksHighestPriority`,
  `StrictTopWins`) are unaffected.
- Factory determinism. The template factory is modelled as a pure
  function, so the same (type, data) pair always yields the same
  capabilities. The factory interface promises no such thing.
  `Contexts.PersistedRecordRebuildsRule` and the rebuilt-rule clauses of
  `Contexts.LoadContext` and `Contexts.AddRecords` depend on it.
- `null` arguments and `null` capabilities, which the source does not check.
- Capabilities whose `GetCondition` or `GetConsequence` return different
  functions on different calls. Each capability always yields the same
  function.
- Overriding of the virtual `ExecuteFact` in subclasses.
- Prioritizers.SortByPriority: does not state stability for the whole sorted sequence. Stability is proved only for its first element (`SortedHeadIsFirstMax`), which is the only element the source uses.
- Executers.AddRule: the identifier is fresh only relative to the oracle's own history. A clash with an identifier that entered the store through `AddRuleWithId` is modelled as the `DuplicateKey` failure that `Dictionary.Add` would raise.
