/** The registry's three type-keyed tables as a value, and every public
    operation of `DefinitionManager` as a function from the old tables to
    the new tables and the subscriber invocations it makes. */
module Registry {
  import opened Wrappers
  import opened DefinitionTypes
  import opened TypeResolver
  import opened UpdateNotifier

  /** `SerializedDefinitions`, `DefinitionDelegates` and `UpdateActions`.
      A stored `None` bundle is a `null` dictionary. */
  datatype State = State(
    definitions: map<TypeKey, map<string, Payload>>,
    delegates: map<TypeKey, map<string, Option<Bundle>>>,
    updateActions: map<TypeKey, seq<Handle>>)

  /** The outcome of a mutating operation: the new tables and the
      subscriber invocations, in the order they happen. */
  datatype Step = Step(state: State, events: seq<Event>)

  const Empty := State(map[], map[], map[])

  /** The two stores have one key set, and no two stored keys share a name. */
  ghost predicate Valid(s: State) {
    s.definitions.Keys == s.delegates.Keys && DistinctNames(s.definitions.Keys)
  }

  /** `GetClosestType`: only the definition store's keys are scanned. */
  ghost function Canonical(s: State, t: TypeKey): TypeKey {
    Resolve(s.definitions.Keys, t)
  }

  /** The definition store has an entry for the type `t` resolves to. */
  ghost predicate Known(s: State, t: TypeKey) {
    NameKnown(s.definitions.Keys, t.name)
  }

  /** `UpdateActions[k].Invoke(id, code)` when `k` has a list, nothing otherwise. */
  function Notify(s: State, k: TypeKey, id: string, kind: UpdateType): (r: seq<Event>)
    ensures k !in s.updateActions ==> r == []
    ensures k in s.updateActions ==> |r| == |s.updateActions[k]|
    ensures forall e :: e in r ==> e.id == id && e.code == kind.Code()
    ensures k in s.updateActions ==> forall i :: 0 <= i < |r| ==> r[i].handle == s.updateActions[k][i]
  {
    if k in s.updateActions then Fire(s.updateActions[k], id, kind.Code()) else []
  }

  ghost function Close(s: State): (r: State)
    ensures Valid(r)
    ensures r.updateActions == s.updateActions
    ensures forall t :: !Known(r, t)
  {
    State(map[], map[], s.updateActions)
  }

  ghost function RegisterDefinition(s: State, id: string, t: TypeKey, p: Payload): (r: Step)
    requires Valid(s)
    ensures Valid(r.state)
    ensures r.state.updateActions == s.updateActions
    ensures r.events == Notify(s, Canonical(s, t), id, NewOrUpdate)
  {
    var k := Canonical(s, t);
    AddResolvedKeepsDistinct(s.definitions.Keys, t);
    var defs := if k in s.definitions then s.definitions[k] else map[];
    var dels := if k in s.delegates then s.delegates[k] else map[];
    var s' := s.(definitions := s.definitions[k := defs[id := p]],
                 delegates := s.delegates[k := dels]);
    Step(s', Notify(s', k, id, NewOrUpdate))
  }

  /** The tables after `RegisterDefinition`, given the key `t` resolves to
      and the maps as the in-place update leaves them. */
  lemma RegisterDefinitionResult(s: State, id: string, t: TypeKey, p: Payload, k: TypeKey,
                                 defs: map<TypeKey, map<string, Payload>>,
                                 dels: map<TypeKey, map<string, Option<Bundle>>>)
    requires Valid(s) && k == Canonical(s, t)
    requires defs == s.definitions[k := (if k in s.definitions then s.definitions[k] else map[])[id := p]]
    requires dels == if k in s.delegates then s.delegates else s.delegates[k := map[]]
    ensures RegisterDefinition(s, id, t, p).state == State(defs, dels, s.updateActions)
    ensures Valid(State(defs, dels, s.updateActions))
  {
  }

  ghost function RegisterDelegates(s: State, id: string, t: TypeKey, b: Option<Bundle>): (r: Result<Step, Error>)
    requires Valid(s)
    ensures r.Failure? ==> r.error == InvalidOperation
    ensures r.Success? ==> Valid(r.value.state)
    ensures r.Success? ==> r.value.state.definitions == s.definitions
    ensures r.Success? ==> r.value.state.updateActions == s.updateActions
  {
    var k := Canonical(s, t);
    if k !in s.delegates then
      Failure(InvalidOperation)
    else
      var s' := s.(delegates := s.delegates[k := s.delegates[k][id := b]]);
      Success(Step(s', Notify(s', k, id, DelegateUpdate)))
  }

  ghost function RemoveDefinition(s: State, id: string, t: TypeKey): (r: Step)
    requires Valid(s)
    ensures Valid(r.state)
    ensures r.state.updateActions == s.updateActions
    ensures r.state.definitions.Keys == s.definitions.Keys
  {
    var k := Canonical(s, t);
    if k !in s.definitions then
      Step(s, [])
    else
      var s' := s.(definitions := s.definitions[k := s.definitions[k] - {id}],
                   delegates := s.delegates[k := s.delegates[k] - {id}]);
      Step(s', Notify(s', k, id, Removal))
  }

  ghost function GetDefinition(s: State, id: string, t: TypeKey): (r: Result<Payload, Error>)
    ensures r.Failure? ==> r.error in {KeyNotFound, InvalidDefinitionId}
    ensures r.Failure? && r.error == KeyNotFound <==> !Known(s, t)
  {
    var k := Canonical(s, t);
    if k !in s.definitions then Failure(KeyNotFound)
    else if id !in s.definitions[k] then Failure(InvalidDefinitionId)
    else Success(s.definitions[k][id])
  }

  ghost function GetDelegates(s: State, id: string, t: TypeKey): (r: Result<Option<Bundle>, Error>)
    requires Valid(s)
    ensures r.Failure? <==> !Known(s, t)
    ensures r.Failure? ==> r.error == KeyNotFound
  {
    var k := Canonical(s, t);
    if k !in s.delegates then Failure(KeyNotFound)
    else if id !in s.delegates[k] then Success(None)
    else Success(s.delegates[k][id])
  }

  ghost function GetDefinitionsOfType(s: State, t: TypeKey): (r: set<string>)
    ensures !Known(s, t) ==> r == {}
  {
    var k := Canonical(s, t);
    if k !in s.definitions then {} else s.definitions[k].Keys
  }

  ghost function HasDefinition(s: State, id: string, t: TypeKey): (r: bool)
    ensures r ==> Known(s, t)
  {
    var k := Canonical(s, t);
    k in s.definitions && id in s.definitions[k]
  }

  ghost function RegisterOnUpdate(s: State, t: TypeKey, h: Handle): (r: State)
    ensures r.definitions == s.definitions && r.delegates == s.delegates
    ensures r.updateActions == s.updateActions[Canonical(s, t) :=
              (if Canonical(s, t) in s.updateActions then s.updateActions[Canonical(s, t)] else []) + [h]]
  {
    var k := Canonical(s, t);
    var hs := if k in s.updateActions then s.updateActions[k] else [];
    s.(updateActions := s.updateActions[k := hs + [h]])
  }

  ghost function UnregisterOnUpdate(s: State, t: TypeKey, h: Handle): (r: State)
    ensures r.definitions == s.definitions && r.delegates == s.delegates
    ensures Canonical(s, t) !in s.updateActions ==> r == s
    ensures Canonical(s, t) in s.updateActions ==>
              r.updateActions == s.updateActions[Canonical(s, t) := RemoveLast(s.updateActions[Canonical(s, t)], h)]
  {
    var k := Canonical(s, t);
    if k !in s.updateActions then s
    else s.(updateActions := s.updateActions[k := RemoveLast(s.updateActions[k], h)])
  }
}
