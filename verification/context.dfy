/** A rule context: one executer kept in step with a persistence repository.
    Every operation returns the calls it issues to its collaborators, in the
    order it issues them. */
module Contexts {
  import opened Wrappers
  import opened Guids
  import opened Rules
  import opened Templating
  import opened Executers

  /** The record the repository persists for one rule: enough to rebuild the
      rule through the factory, not the rule's functions themselves. */
  datatype RuleData = RuleData(
    id: Guid,
    contextId: Guid,
    conditionType: Int32,
    conditionData: string,
    consequenceType: Int32,
    consequenceData: string)

  /** A call issued to the executer or to the repository. The executer's
      two `AddRule` overloads are told apart: `ExecuterAddRuleWithId` passes
      a known identifier, `ExecuterAddRule` lets the executer draw one and
      carries the identifier drawn (which the call returns unless it
      throws). */
  datatype Call =
    | ExecuterAddRuleWithId(ruleId: Guid)
    | ExecuterAddRule(drawnId: Guid)
    | ExecuterDeleteRule(ruleId: Guid)
    | RepoGetRulesByContext(contextId: Guid)
    | RepoAddContext(contextId: Guid)
    | RepoAddRule(data: RuleData)
    | RepoDeleteRule(ruleId: Guid)

  /** The repository as far as the core can observe it: what
      `GetRulesByContext` returns for each context identifier. */
  datatype Repository = Repository(rulesByContext: Guid -> seq<RuleData>)

  /** The context: its identifier and the collaborators injected at creation.
      All fields are read-only after construction. */
  datatype RuleContext<!Fact, !Output> = RuleContext(
    contextId: Guid,
    ruleExecuter: RuleExecuter<Fact, Output>,
    repository: Repository,
    factory: TemplateFactory<Fact, Output>)

  /** A context after an operation, with the calls the operation issued. */
  datatype Changed<!Fact, !Output> = Changed(context: RuleContext<Fact, Output>, calls: seq<Call>)

  /** A context created with a freshly drawn identifier. */
  datatype Created<!Fact, !Output> = Created(context: RuleContext<Fact, Output>, guids: GuidSource, calls: seq<Call>)

  /** The outcome of adding a rule to a context. */
  datatype AddOutcome<!Fact, !Output> = AddOutcome(
    result: Result<Guid, ExecError>,
    context: RuleContext<Fact, Output>,
    guids: GuidSource,
    calls: seq<Call>)

  /** The rule a persisted record describes, rebuilt through the factory. */
  function RuleFromData<Fact, Output>(factory: TemplateFactory<Fact, Output>, data: RuleData): Rule<Fact, Output> {
    BuildRule(factory, data.conditionType, data.conditionData, data.consequenceType, data.consequenceData)
  }

  /** `CreateContext(contextId, ...)`: registers the identifier with the
      repository, then wraps the supplied collaborators. */
  function CreateContextWithId<Fact, Output>(
    contextId: Guid,
    ruleExecuter: RuleExecuter<Fact, Output>,
    repository: Repository,
    factory: TemplateFactory<Fact, Output>): (r: Changed<Fact, Output>)
    ensures r.calls == [RepoAddContext(contextId)]
    ensures r.context.contextId == contextId && r.context.ruleExecuter == ruleExecuter
    ensures r.context.repository == repository && r.context.factory == factory
  {
    Changed(RuleContext(contextId, ruleExecuter, repository, factory), [RepoAddContext(contextId)])
  }

  /** `CreateContext(...)`: the same, with an identifier drawn from the
      oracle. */
  function CreateContext<Fact, Output>(
    ruleExecuter: RuleExecuter<Fact, Output>,
    repository: Repository,
    factory: TemplateFactory<Fact, Output>,
    src: GuidSource): (r: Created<Fact, Output>)
    ensures !Issued(src, r.context.contextId) && Issued(r.guids, r.context.contextId)
    ensures forall g :: Issued(src, g) ==> Issued(r.guids, g)
    ensures r.calls == [RepoAddContext(r.context.contextId)]
    ensures r.context.ruleExecuter == ruleExecuter && r.context.factory == factory
    ensures r.context.repository == repository
  {
    var (newGuid, src') := NewGuid(src);
    var created := CreateContextWithId(newGuid, ruleExecuter, repository, factory);
    Created(created.context, src', created.calls)
  }

  /** Two contexts created one after the other from the same oracle have
      different identifiers. */
  lemma CreatedContextsAreDistinct<Fact, Output>(
    e1: RuleExecuter<Fact, Output>, e2: RuleExecuter<Fact, Output>,
    repository: Repository, factory: TemplateFactory<Fact, Output>, src: GuidSource)
    ensures var c1 := CreateContext(e1, repository, factory, src);
            var c2 := CreateContext(e2, repository, factory, c1.guids);
            c1.context.contextId != c2.context.contextId
  {
  }

  /** The identifiers of a list of records. */
  function RecordIds(records: seq<RuleData>): set<Guid> {
    set i | 0 <= i < |records| :: records[i].id
  }

  /** Records can all be added under their own identifiers: no identifier is
      already in the store, and none occurs twice. */
  ghost predicate Loadable(keys: set<Guid>, records: seq<RuleData>) {
    && (forall i :: 0 <= i < |records| ==> records[i].id !in keys)
    && (forall i, j :: 0 <= i < j < |records| ==> records[i].id != records[j].id)
  }

  /** Extending a prefix of the records by one record: its identifiers grow
      by that record's identifier, and the longer prefix is loadable exactly
      when the shorter one is and the new identifier is neither in the store
      nor among the earlier records. */
  lemma LoadablePrefix(keys: set<Guid>, records: seq<RuleData>, n: nat)
    requires n < |records|
    requires Loadable(keys, records[..n])
    ensures RecordIds(records[..n + 1]) == RecordIds(records[..n]) + {records[n].id}
    ensures Loadable(keys, records[..n + 1]) <==> records[n].id !in keys + RecordIds(records[..n])
    ensures !Loadable(keys, records[..n + 1]) ==> !Loadable(keys, records)
  {
    assert records[..n + 1] == records[..n] + [records[n]];
    if records[n].id in RecordIds(records[..n]) {
      var i :| 0 <= i < n && records[..n][i].id == records[n].id;
      assert records[..n + 1][i].id == records[..n + 1][n].id;
    }
  }

  /** Every one of the first `n` records finds its rebuilt rule in the store. */
  ghost predicate HoldsRecords<Fact, Output>(e: RuleExecuter<Fact, Output>, records: seq<RuleData>, n: nat, factory: TemplateFactory<Fact, Output>)
    requires n <= |records|
  {
    forall i :: 0 <= i < n ==> Lookup(e, records[i].id) == Some(RuleFromData(factory, records[i]))
  }

  /** Adding record `n` under its own, new identifier keeps the earlier
      records' rules and adds its own. */
  lemma HoldsNextRecord<Fact, Output>(
    e: RuleExecuter<Fact, Output>, e': RuleExecuter<Fact, Output>,
    records: seq<RuleData>, n: nat, factory: TemplateFactory<Fact, Output>)
    requires n < |records|
    requires HoldsRecords(e, records, n, factory)
    requires records[n].id !in RecordIds(records[..n])
    requires Lookup(e', records[n].id) == Some(RuleFromData(factory, records[n]))
    requires forall g :: g != records[n].id ==> Lookup(e', g) == Lookup(e, g)
    ensures HoldsRecords(e', records, n + 1, factory)
  {
    forall i | 0 <= i < n
      ensures Lookup(e', records[i].id) == Some(RuleFromData(factory, records[i]))
    {
      assert records[..n][i] == records[i];
    }
  }

  /** What holds after the first `n` records were added to `e0`, giving `e`:
      they were loadable, each sits in the store under its own identifier,
      and nothing else changed. */
  ghost predicate LoadState<Fact, Output>(
    e0: RuleExecuter<Fact, Output>, e: RuleExecuter<Fact, Output>,
    records: seq<RuleData>, n: nat, factory: TemplateFactory<Fact, Output>)
    requires n <= |records|
  {
    && Valid(e) && e.prioritizer == e0.prioritizer
    && Loadable(Keys(e0), records[..n])
    && RuleCount(e) == RuleCount(e0) + n
    && Keys(e) == Keys(e0) + RecordIds(records[..n])
    && HoldsRecords(e, records, n, factory)
    && (forall g :: g !in RecordIds(records[..n]) ==> Lookup(e, g) == Lookup(e0, g))
  }

  /** One step of the loading loop: adding record `n` either extends the
      state by that record or fails exactly when the records stop being
      loadable at `n`. */
  lemma LoadStep<Fact, Output>(
    e0: RuleExecuter<Fact, Output>, e: RuleExecuter<Fact, Output>,
    records: seq<RuleData>, n: nat, factory: TemplateFactory<Fact, Output>)
    requires n < |records|
    requires LoadState(e0, e, records, n, factory)
    ensures var added := AddRuleWithId(e, records[n].id, RuleFromData(factory, records[n]));
            && (added.Success? ==> LoadState(e0, added.value.executer, records, n + 1, factory))
            && (added.Failure? ==> !Loadable(Keys(e0), records[..n + 1]) && !Loadable(Keys(e0), records))
  {
    LoadablePrefix(Keys(e0), records, n);
    var added := AddRuleWithId(e, records[n].id, RuleFromData(factory, records[n]));
    if added.Success? {
      var e' := added.value.executer;
      HoldsNextRecord(e, e', records, n, factory);
      assert Loadable(Keys(e0), records[..n + 1]);
      assert Keys(e') == Keys(e0) + RecordIds(records[..n + 1]);
    }
  }

  /** The `foreach` of `LoadContext`: adds one rule per record, rebuilt
      through the factory, under the record's own identifier, and stops at
      the first record whose identifier `Dictionary.Add` rejects. `loaded`
      records were added. */
  method AddRecords<Fact, Output>(
    ruleExecuter: RuleExecuter<Fact, Output>,
    records: seq<RuleData>,
    factory: TemplateFactory<Fact, Output>)
    returns (loaded: nat, executer': RuleExecuter<Fact, Output>)
    requires Valid(ruleExecuter)
    ensures loaded <= |records|
    ensures LoadState(ruleExecuter, executer', records, loaded, factory)
    ensures loaded < |records| ==> !Loadable(Keys(ruleExecuter), records[..loaded + 1])
    ensures loaded < |records| <==> !Loadable(Keys(ruleExecuter), records)
  {
    executer' := ruleExecuter;
    loaded := 0;
    while loaded < |records|
      invariant loaded <= |records|
      invariant LoadState(ruleExecuter, executer', records, loaded, factory)
    {
      LoadStep(ruleExecuter, executer', records, loaded, factory);
      var added := AddRuleWithId(executer', records[loaded].id, RuleFromData(factory, records[loaded]));
      if added.Failure? {
        return;
      }
      executer' := added.value.executer;
      loaded := loaded + 1;
    }
    assert records[..loaded] == records;
  }

  /** `LoadContext`: reads the context's records and adds their rules to the
      executer; it never registers the context. The injected executer is
      changed in place, so `executer'` is its state afterwards, also when a
      duplicate identifier makes `Dictionary.Add` throw part-way through. */
  method LoadContext<Fact, Output>(
    identifier: Guid,
    ruleExecuter: RuleExecuter<Fact, Output>,
    repository: Repository,
    factory: TemplateFactory<Fact, Output>)
    returns (r: Result<RuleContext<Fact, Output>, ExecError>, executer': RuleExecuter<Fact, Output>, calls: seq<Call>)
    requires Valid(ruleExecuter)
    ensures Valid(executer') && executer'.prioritizer == ruleExecuter.prioritizer
    ensures |calls| >= 1 && calls[0] == RepoGetRulesByContext(identifier)
    ensures forall i :: 0 <= i < |calls| ==> !calls[i].RepoAddContext?
    ensures r.Success? <==> Loadable(Keys(ruleExecuter), repository.rulesByContext(identifier))
    ensures r.Success? ==>
      var records := repository.rulesByContext(identifier);
      && r.value == RuleContext(identifier, executer', repository, factory)
      && calls == [RepoGetRulesByContext(identifier)] + AddCalls(records)
      && RuleCount(executer') == RuleCount(ruleExecuter) + |records|
      && Keys(executer') == Keys(ruleExecuter) + RecordIds(records)
      && (forall i :: 0 <= i < |records| ==>
            GetRule(executer', records[i].id) == Success(RuleFromData(factory, records[i])))
      && (forall g :: g !in RecordIds(records) ==> Lookup(executer', g) == Lookup(ruleExecuter, g))
    ensures r.Failure? ==>
      var records := repository.rulesByContext(identifier);
      exists k ::
        && 0 <= k < |records|
        && !Loadable(Keys(ruleExecuter), records[..k + 1])
        && r.error == DuplicateKey(records[k].id)
        && calls == [RepoGetRulesByContext(identifier)] + AddCalls(records[..k + 1])
        && LoadState(ruleExecuter, executer', records, k, factory)
  {
    var records := repository.rulesByContext(identifier);
    var loaded;
    loaded, executer' := AddRecords(ruleExecuter, records, factory);
    if loaded < |records| {
      calls := [RepoGetRulesByContext(identifier)] + AddCalls(records[..loaded + 1]);
      r := Failure(DuplicateKey(records[loaded].id));
    } else {
      assert records[..loaded] == records;
      assert HoldsRecords(executer', records, |records|, factory);
      calls := [RepoGetRulesByContext(identifier)] + AddCalls(records);
      r := Success(RuleContext(identifier, executer', repository, factory));
    }
  }

  /** `AddRule`: builds the rule through the factory, adds it to the
      executer under a fresh identifier, then persists the matching record.
      When the executer throws, the repository is not called. */
  function AddRule<Fact, Output>(
    context: RuleContext<Fact, Output>,
    src: GuidSource,
    conditionTemplateType: Int32,
    conditionData: string,
    consequenceTemplateType: Int32,
    consequenceData: string): (r: AddOutcome<Fact, Output>)
    requires Valid(context.ruleExecuter)
    ensures r.guids == NewGuid(src).1 && !Issued(src, NewGuid(src).0)
    ensures r.result.Failure? <==> NewGuid(src).0 in Keys(context.ruleExecuter)
    ensures r.result.Failure? ==> r.result.error == DuplicateKey(NewGuid(src).0)
    ensures Valid(r.context.ruleExecuter)
    ensures r.context.ruleExecuter.prioritizer == context.ruleExecuter.prioritizer
    ensures r.context.contextId == context.contextId && r.context.factory == context.factory
    ensures r.context.repository == context.repository
    ensures r.result.Success? ==> r.result.value == NewGuid(src).0
    ensures r.result.Failure? ==> r.context == context && r.calls == [ExecuterAddRule(NewGuid(src).0)]
    ensures r.result.Success? ==>
      var id := r.result.value;
      var data := RuleData(id, context.contextId, conditionTemplateType, conditionData, consequenceTemplateType, consequenceData);
      && id !in Keys(context.ruleExecuter)
      && r.calls == [ExecuterAddRule(id), RepoAddRule(data)]
      && RuleCount(r.context.ruleExecuter) == RuleCount(context.ruleExecuter) + 1
      && Keys(r.context.ruleExecuter) == Keys(context.ruleExecuter) + {id}
      && GetRule(r.context.ruleExecuter, id) == Success(RuleFromData(context.factory, data))
      && (forall g :: g != id ==> Lookup(r.context.ruleExecuter, g) == Lookup(context.ruleExecuter, g))
  {
    var condition := context.factory.createCondition(conditionTemplateType, conditionData);
    var consequence := context.factory.createConsequence(consequenceTemplateType, consequenceData);
    var template := RuleTemplate(condition, consequence);
    var (added, src') := Executers.AddRule(context.ruleExecuter, template.Rule(), src);
    match added
    case Failure(err) => AddOutcome(Failure(err), context, src', [ExecuterAddRule(err.id)])
    case Success(a) =>
      var data := RuleData(a.id, context.contextId, conditionTemplateType, conditionData, consequenceTemplateType, consequenceData);
      AddOutcome(Success(a.id), context.(ruleExecuter := a.executer), src', [ExecuterAddRule(a.id), RepoAddRule(data)])
  }

  /** `DeleteRule`: removes the rule from the executer, then asks the
      repository to remove it, whether or not the executer held it. */
  function DeleteRule<Fact, Output>(context: RuleContext<Fact, Output>, ruleId: Guid): (r: Changed<Fact, Output>)
    requires Valid(context.ruleExecuter)
    ensures Valid(r.context.ruleExecuter)
    ensures r.context.ruleExecuter.prioritizer == context.ruleExecuter.prioritizer
    ensures r.context.contextId == context.contextId && r.context.factory == context.factory
    ensures r.context.repository == context.repository
    ensures r.calls == [ExecuterDeleteRule(ruleId), RepoDeleteRule(ruleId)]
    ensures Keys(r.context.ruleExecuter) == Keys(context.ruleExecuter) - {ruleId}
    ensures GetRule(r.context.ruleExecuter, ruleId) == Failure(KeyNotFound(ruleId))
    ensures forall g :: g != ruleId ==> Lookup(r.context.ruleExecuter, g) == Lookup(context.ruleExecuter, g)
  {
    Changed(
      context.(ruleExecuter := Executers.DeleteRule(context.ruleExecuter, ruleId)),
      [ExecuterDeleteRule(ruleId), RepoDeleteRule(ruleId)])
  }

  /** When the oracle issued every identifier the executer holds, as when
      the context's rules all came through `AddRule`, the add succeeds,
      and the context's executer again holds only issued identifiers. */
  lemma AddRuleSucceedsOnIssuedKeys<Fact, Output>(
    context: RuleContext<Fact, Output>, src: GuidSource,
    ct: Int32, cd: string, qt: Int32, qd: string)
    requires Valid(context.ruleExecuter) && KeysIssued(context.ruleExecuter, src)
    ensures AddRule(context, src, ct, cd, qt, qd).result.Success?
    ensures var out := AddRule(context, src, ct, cd, qt, qd);
            KeysIssued(out.context.ruleExecuter, out.guids)
  {
  }

  /** The record `AddRule` persists rebuilds, through the same factory,
      exactly the rule `AddRule` put in the executer: loading it back gives
      the rule the running context holds. */
  lemma PersistedRecordRebuildsRule<Fact, Output>(
    context: RuleContext<Fact, Output>, src: GuidSource,
    ct: Int32, cd: string, qt: Int32, qd: string)
    requires Valid(context.ruleExecuter)
    requires AddRule(context, src, ct, cd, qt, qd).result.Success?
    ensures var out := AddRule(context, src, ct, cd, qt, qd);
            && out.calls[1].RepoAddRule?
            && out.calls[1].data.id == out.result.value
            && out.calls[1].data.contextId == context.contextId
            && GetRule(out.context.ruleExecuter, out.result.value)
               == Success(RuleFromData(context.factory, out.calls[1].data))
  {
  }

  /** Adding a rule and then deleting the identifier it was given restores the
      executer, and issues exactly one persisting and one removing repository
      call for that identifier. */
  lemma AddThenDeleteRestoresExecuter<Fact, Output>(
    context: RuleContext<Fact, Output>, src: GuidSource,
    ct: Int32, cd: string, qt: Int32, qd: string)
    requires Valid(context.ruleExecuter)
    requires AddRule(context, src, ct, cd, qt, qd).result.Success?
    ensures var out := AddRule(context, src, ct, cd, qt, qd);
            var del := DeleteRule(out.context, out.result.value);
            && del.context == context
            && out.calls + del.calls == [
                 ExecuterAddRule(out.result.value),
                 RepoAddRule(RuleData(out.result.value, context.contextId, ct, cd, qt, qd)),
                 ExecuterDeleteRule(out.result.value),
                 RepoDeleteRule(out.result.value)]
  {
    var out := AddRule(context, src, ct, cd, qt, qd);
    var id := out.result.value;
    var rule := RuleFromData(context.factory, RuleData(id, context.contextId, ct, cd, qt, qd));
    AddThenDeleteRestores(context.ruleExecuter, id, rule);
  }

  /** A rule added after another was added and deleted gets a different
      identifier from the deleted one: the oracle never repeats a draw. */
  lemma ReAddGetsNewId<Fact, Output>(
    context: RuleContext<Fact, Output>, src: GuidSource,
    ct: Int32, cd: string, qt: Int32, qd: string,
    ct': Int32, cd': string, qt': Int32, qd': string)
    requires Valid(context.ruleExecuter)
    requires AddRule(context, src, ct, cd, qt, qd).result.Success?
    ensures var out := AddRule(context, src, ct, cd, qt, qd);
            var del := DeleteRule(out.context, out.result.value);
            var again := AddRule(del.context, out.guids, ct', cd', qt', qd');
            again.result.Success? ==> again.result.value != out.result.value
  {
  }

  /** The executer calls `LoadContext` issues for a list of records. */
  function AddCalls(records: seq<RuleData>): seq<Call> {
    seq(|records|, i requires 0 <= i < |records| => ExecuterAddRuleWithId(records[i].id))
  }

  /** The calls for records loaded in two runs are the calls of the first
      run followed by those of the second, and one record gives one call: so
      loading stopped after `k + 1` records has issued exactly the calls for
      `k` records and then the call that threw. */
  lemma AddCallsConcat(a: seq<RuleData>, b: seq<RuleData>)
    ensures AddCalls(a + b) == AddCalls(a) + AddCalls(b)
    ensures |b| == 1 ==> AddCalls(b) == [ExecuterAddRuleWithId(b[0].id)]
  {
    assert forall i :: 0 <= i < |a + b| ==> AddCalls(a + b)[i] == (AddCalls(a) + AddCalls(b))[i];
  }
}
