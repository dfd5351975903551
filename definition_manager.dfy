/** `DefinitionManager`: the registry object whose three dictionaries the
    public operations update in place. Each method is proved against the
    matching function of module Registry. */
module Manager {
  import opened Wrappers
  import opened DefinitionTypes
  import opened TypeResolver
  import opened UpdateNotifier
  import Registry

  class DefinitionManager {
    var definitions: map<TypeKey, map<string, Payload>>
    var delegates: map<TypeKey, map<string, Option<Bundle>>>
    var updateActions: map<TypeKey, seq<Handle>>
    /** Every subscriber invocation made so far, in order. */
    ghost var log: seq<Event>

    ghost function Model(): Registry.State
      reads this
    {
      Registry.State(definitions, delegates, updateActions)
    }

    ghost predicate Valid()
      reads this
    {
      Registry.Valid(Model())
    }

    constructor ()
      ensures Valid() && Model() == Registry.Empty && log == []
    {
      definitions, delegates, updateActions := map[], map[], map[];
      log := [];
    }

    /** Clears both stores; subscriber lists are kept. */
    method Close()
      requires Valid()
      modifies this
      ensures Valid() && Model() == Registry.Close(old(Model())) && log == old(log)
    {
      definitions := map[];
      delegates := map[];
    }

    /** Scans the definition store's keys for one named like `t`. */
    method GetClosestType(t: TypeKey) returns (r: TypeKey)
      requires Valid()
      ensures r == Registry.Canonical(Model(), t)
    {
      var rest := definitions.Keys;
      while rest != {}
        invariant rest <= definitions.Keys
        invariant forall k :: k in definitions.Keys && k !in rest ==> k.name != t.name
        decreases rest
      {
        var k :| k in rest;
        if k.name == t.name {
          ResolveStored(definitions.Keys, t, k);
          return k;
        }
        rest := rest - {k};
      }
      return t;
    }

    /** Invokes every registration on `k`'s list, in order, with `(id, code)`. */
    method Notify(k: TypeKey, id: string, kind: UpdateType)
      modifies this`log
      ensures log == old(log) + Registry.Notify(Model(), k, id, kind)
    {
      if k in updateActions {
        var hs := updateActions[k];
        var code := kind.Code();
        for i := 0 to |hs|
          invariant log == old(log) + Fire(hs[..i], id, code)
        {
          assert hs[..i + 1] == hs[..i] + [hs[i]];
          FireAppend(hs[..i], hs[i], id, code);
          log := log + [Event(hs[i], id, code)];
        }
        assert hs[..|hs|] == hs;
        assert Registry.Notify(Model(), k, id, kind) == Fire(hs, id, code);
      }
    }

    method RegisterDefinition(id: string, t: TypeKey, p: Payload)
      requires Valid()
      modifies this
      ensures Valid()
      ensures var st := Registry.RegisterDefinition(old(Model()), id, t, p);
              Model() == st.state && log == old(log) + st.events
    {
      ghost var s := Model();
      var k := GetClosestType(t);
      if k !in definitions {
        definitions := definitions[k := map[]];
        delegates := delegates[k := map[]];
      }
      definitions := definitions[k := definitions[k][id := p]];
      Registry.RegisterDefinitionResult(s, id, t, p, k, definitions, delegates);
      Notify(k, id, NewOrUpdate);
    }

    method RegisterDelegates(id: string, t: TypeKey, b: Option<Bundle>) returns (r: Result<(), Error>)
      requires Valid()
      modifies this
      ensures Valid()
      ensures var st := Registry.RegisterDelegates(old(Model()), id, t, b);
              r.Failure? == st.Failure? &&
              (st.Failure? ==> r.error == st.error && Model() == old(Model()) && log == old(log)) &&
              (st.Success? ==> Model() == st.value.state && log == old(log) + st.value.events)
    {
      var k := GetClosestType(t);
      if k !in delegates {
        return Failure(InvalidOperation);
      }
      delegates := delegates[k := delegates[k][id := b]];
      Notify(k, id, DelegateUpdate);
      return Success(());
    }

    method RemoveDefinition(id: string, t: TypeKey)
      requires Valid()
      modifies this
      ensures Valid()
      ensures var st := Registry.RemoveDefinition(old(Model()), id, t);
              Model() == st.state && log == old(log) + st.events
    {
      var k := GetClosestType(t);
      if k !in definitions {
        return;
      }
      definitions := definitions[k := definitions[k] - {id}];
      delegates := delegates[k := delegates[k] - {id}];
      Notify(k, id, Removal);
    }

    method GetDefinition(id: string, t: TypeKey) returns (r: Result<Payload, Error>)
      requires Valid()
      ensures r == Registry.GetDefinition(Model(), id, t)
    {
      var k := GetClosestType(t);
      if k !in definitions {
        return Failure(KeyNotFound);
      }
      if id !in definitions[k] {
        return Failure(InvalidDefinitionId);
      }
      return Success(definitions[k][id]);
    }

    method GetDelegates(id: string, t: TypeKey) returns (r: Result<Option<Bundle>, Error>)
      requires Valid()
      ensures r == Registry.GetDelegates(Model(), id, t)
    {
      var k := GetClosestType(t);
      if k !in delegates {
        return Failure(KeyNotFound);
      }
      if id !in delegates[k] {
        return Success(None);
      }
      return Success(delegates[k][id]);
    }

    /** The stored ids of the type, each once, in the order the key set is enumerated. */
    method GetDefinitionsOfType(t: TypeKey) returns (ids: seq<string>)
      requires Valid()
      ensures forall x :: x in ids <==> x in Registry.GetDefinitionsOfType(Model(), t)
      ensures forall i, j :: 0 <= i < j < |ids| ==> ids[i] != ids[j]
    {
      var k := GetClosestType(t);
      if k !in definitions {
        return [];
      }
      var keys := definitions[k].Keys;
      var rest := keys;
      ids := [];
      while rest != {}
        invariant rest <= keys
        invariant forall x :: x in keys <==> x in ids || x in rest
        invariant forall x :: x in ids ==> x !in rest
        invariant forall i, j :: 0 <= i < j < |ids| ==> ids[i] != ids[j]
        decreases rest
      {
        var x :| x in rest;
        ids := ids + [x];
        rest := rest - {x};
      }
    }

    method HasDefinition(id: string, t: TypeKey) returns (r: bool)
      requires Valid()
      ensures r == Registry.HasDefinition(Model(), id, t)
    {
      var k := GetClosestType(t);
      return k in definitions && id in definitions[k];
    }

    /** `UpdateActions[type] += action`, creating the list first if absent. */
    method RegisterOnUpdate(t: TypeKey, h: Handle)
      requires Valid()
      modifies this
      ensures Valid()
      ensures Model() == Registry.RegisterOnUpdate(old(Model()), t, h) && log == old(log)
    {
      var k := GetClosestType(t);
      if k !in updateActions {
        updateActions := updateActions[k := []];
      }
      updateActions := updateActions[k := updateActions[k] + [h]];
    }

    /** `UpdateActions[type] -= action`, when the type has a list. */
    method UnregisterOnUpdate(t: TypeKey, h: Handle)
      requires Valid()
      modifies this
      ensures Valid()
      ensures Model() == Registry.UnregisterOnUpdate(old(Model()), t, h) && log == old(log)
    {
      var k := GetClosestType(t);
      if k !in updateActions {
        return;
      }
      updateActions := updateActions[k := RemoveLast(updateActions[k], h)];
    }
  }
}
