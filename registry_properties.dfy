/** What the registry promises across operations: round trips, overwrite,
    frames, error cases, and the subscription behaviour. */
module RegistryProperties {
  import opened Wrappers
  import opened DefinitionTypes
  import opened TypeResolver
  import opened UpdateNotifier
  import opened Registry

  // ---- Definition store ----

  /** A registered payload is read back under any descriptor of the same name. */
  lemma {:induction false} RegisterThenGet(s: State, id: string, t: TypeKey, p: Payload, t': TypeKey)
    requires Valid(s)
    requires t'.name == t.name
    ensures GetDefinition(RegisterDefinition(s, id, t, p).state, id, t') == Success(p)
    ensures HasDefinition(RegisterDefinition(s, id, t, p).state, id, t')
  {
    var s' := RegisterDefinition(s, id, t, p).state;
    var k := Canonical(s, t);
    ResolveStored(s'.definitions.Keys, t', k);
  }

  /** Registering again under the same id replaces the payload: no error,
      no second entry. */
  lemma {:induction false} RegisterOverwrites(s: State, id: string, t: TypeKey, p: Payload, q: Payload)
    requires Valid(s)
    ensures var s1 := RegisterDefinition(s, id, t, p).state;
            var s2 := RegisterDefinition(s1, id, t, q).state;
            GetDefinition(s2, id, t) == Success(q) &&
            GetDefinitionsOfType(s2, t) == GetDefinitionsOfType(s1, t)
  {
    var s1 := RegisterDefinition(s, id, t, p).state;
    var s2 := RegisterDefinition(s1, id, t, q).state;
    RegisterThenGet(s1, id, t, q, t);
    var k := Canonical(s, t);
    ResolveStored(s1.definitions.Keys, t, k);
    ResolveStored(s2.definitions.Keys, t, k);
  }

  /** After a type's first registration, its name is known. */
  lemma {:induction false} RegisterMakesKnown(s: State, id: string, t: TypeKey, p: Payload)
    requires Valid(s)
    ensures Known(RegisterDefinition(s, id, t, p).state, t)
    ensures Canonical(RegisterDefinition(s, id, t, p).state, t) == Canonical(s, t)
  {
    var s' := RegisterDefinition(s, id, t, p).state;
    ResolveStored(s'.definitions.Keys, t, Canonical(s, t));
  }

  /** Registration resolves every other name to the key it resolved to before. */
  lemma {:induction false} RegisterKeepsOtherNames(s: State, id: string, t: TypeKey, p: Payload, t2: TypeKey)
    requires Valid(s)
    requires t2.name != t.name
    ensures Canonical(RegisterDefinition(s, id, t, p).state, t2) == Canonical(s, t2)
  {
    var s' := RegisterDefinition(s, id, t, p).state;
    var k := Canonical(s, t);
    assert s'.definitions.Keys == s.definitions.Keys + {k};
    ResolveOtherName(s.definitions.Keys, k, t2);
  }

  /** Registration changes no other (type, id) entry. */
  lemma {:induction false} RegisterFrame(s: State, id: string, t: TypeKey, p: Payload, id2: string, t2: TypeKey)
    requires Valid(s)
    requires t2.name != t.name || id2 != id
    ensures var s' := RegisterDefinition(s, id, t, p).state;
            HasDefinition(s', id2, t2) == HasDefinition(s, id2, t2) &&
            (GetDefinition(s, id2, t2).Success? ==> GetDefinition(s', id2, t2) == GetDefinition(s, id2, t2)) &&
            (GetDelegates(s, id2, t2).Success? ==> GetDelegates(s', id2, t2) == GetDelegates(s, id2, t2))
  {
    var s' := RegisterDefinition(s, id, t, p).state;
    if t2.name != t.name {
      RegisterKeepsOtherNames(s, id, t, p, t2);
    } else {
      RegisterMakesKnown(s, id, t, p);
      ResolveByName(s'.definitions.Keys, t, t2);
      if Known(s, t) {
        ResolveByName(s.definitions.Keys, t, t2);
      }
    }
  }

  /** Re-registering a definition of a known type writes only the definition
      store: the bundle stored under that id, if any, survives. */
  lemma {:induction false} RegisterKeepsBundle(s: State, id: string, t: TypeKey, p: Payload)
    requires Valid(s) && Known(s, t)
    ensures GetDelegates(RegisterDefinition(s, id, t, p).state, id, t) == GetDelegates(s, id, t)
  {
    RegisterMakesKnown(s, id, t, p);
  }

  /** A type's first registration creates an empty delegate entry: every id
      of that name then reads back a `null` bundle, not a fault. */
  lemma {:induction false} FirstRegistrationHasNoBundles(s: State, id: string, t: TypeKey, p: Payload, id2: string, t2: TypeKey)
    requires Valid(s) && !Known(s, t)
    requires t2.name == t.name
    ensures GetDelegates(RegisterDefinition(s, id, t, p).state, id2, t2) == Success(None)
  {
    var s' := RegisterDefinition(s, id, t, p).state;
    RegisterMakesKnown(s, id, t, p);
    ResolveByName(s'.definitions.Keys, t, t2);
  }

  /** `HasDefinition` holds exactly when `GetDefinition` succeeds. */
  lemma HasIffGetSucceeds(s: State, id: string, t: TypeKey)
    ensures HasDefinition(s, id, t) <==> GetDefinition(s, id, t).Success?
  {
  }

  /** `GetDefinition` on a known type without the id is an invalid-id fault. */
  lemma GetMissingId(s: State, id: string, t: TypeKey)
    requires Known(s, t) && !HasDefinition(s, id, t)
    ensures GetDefinition(s, id, t) == Failure(InvalidDefinitionId)
  {
  }

  /** The listed ids are exactly those `HasDefinition` accepts. */
  lemma ListedIffHas(s: State, id: string, t: TypeKey)
    ensures id in GetDefinitionsOfType(s, t) <==> HasDefinition(s, id, t)
  {
  }

  // ---- Delegate store ----

  /** Delegates fail exactly when the type has not been registered, and a
      failure changes nothing and notifies no one (it carries no step). */
  lemma RegisterDelegatesFails(s: State, id: string, t: TypeKey, b: Option<Bundle>)
    requires Valid(s)
    ensures RegisterDelegates(s, id, t, b).Failure? <==> !Known(s, t)
  {
  }

  /** Stored delegates, `null` included, are read back under any descriptor
      of the same name, and subscribers hear code 2. */
  lemma {:induction false} RegisterDelegatesThenGet(s: State, id: string, t: TypeKey, b: Option<Bundle>, t': TypeKey)
    requires Valid(s) && Known(s, t)
    requires t'.name == t.name
    ensures RegisterDelegates(s, id, t, b).Success?
    ensures var st := RegisterDelegates(s, id, t, b).value;
            GetDelegates(st.state, id, t') == Success(b) &&
            st.events == Notify(s, Canonical(s, t), id, DelegateUpdate)
  {
    var st := RegisterDelegates(s, id, t, b).value;
    ResolveByName(st.state.definitions.Keys, t, t');
  }

  /** Storing a bundle changes no other (type, id) bundle. */
  lemma {:induction false} RegisterDelegatesFrame(s: State, id: string, t: TypeKey, b: Option<Bundle>, id2: string, t2: TypeKey)
    requires Valid(s) && Known(s, t)
    requires t2.name != t.name || id2 != id
    ensures RegisterDelegates(s, id, t, b).Success?
    ensures GetDelegates(RegisterDelegates(s, id, t, b).value.state, id2, t2) == GetDelegates(s, id2, t2)
  {
    if t2.name == t.name {
      ResolveByName(s.definitions.Keys, t, t2);
    }
  }

  // ---- Removal ----

  /** Removing under an unknown type returns before any change or notification. */
  lemma RemoveUnknownIsNoop(s: State, id: string, t: TypeKey)
    requires Valid(s) && !Known(s, t)
    ensures RemoveDefinition(s, id, t) == Step(s, [])
  {
  }

  /** Removing under a known type deletes the id from both stores and
      notifies with code 1, whether or not the id was stored. */
  lemma {:induction false} RemoveThenGet(s: State, id: string, t: TypeKey)
    requires Valid(s) && Known(s, t)
    ensures var st := RemoveDefinition(s, id, t);
            GetDefinition(st.state, id, t) == Failure(InvalidDefinitionId) &&
            !HasDefinition(st.state, id, t) &&
            GetDelegates(st.state, id, t) == Success(None) &&
            st.events == Notify(s, Canonical(s, t), id, Removal)
  {
    var st := RemoveDefinition(s, id, t);
    assert st.state.definitions.Keys == s.definitions.Keys;
  }

  /** Removal leaves every other (type, id) entry of both stores as it was. */
  lemma {:induction false} RemoveFrame(s: State, id: string, t: TypeKey, id2: string, t2: TypeKey)
    requires Valid(s)
    requires t2.name != t.name || id2 != id
    ensures var s' := RemoveDefinition(s, id, t).state;
            GetDefinition(s', id2, t2) == GetDefinition(s, id2, t2) &&
            GetDelegates(s', id2, t2) == GetDelegates(s, id2, t2)
  {
    var s' := RemoveDefinition(s, id, t).state;
    assert s'.definitions.Keys == s.definitions.Keys;
    if Known(s, t) && t2.name == t.name {
      ResolveByName(s.definitions.Keys, t, t2);
    }
  }

  // ---- Close ----

  /** After `Close` no definition is found, and subscriptions survive. */
  lemma CloseForgets(s: State, id: string, t: TypeKey)
    ensures GetDefinition(Close(s), id, t) == Failure(KeyNotFound)
    ensures GetDefinitionsOfType(Close(s), t) == {}
    ensures !HasDefinition(Close(s), id, t)
    ensures Close(s).updateActions == s.updateActions
  {
  }

  // ---- Subscriptions ----

  /** Subscribing then unsubscribing the same handle restores the tables
      when the type already had a list. */
  lemma {:induction false} SubscribeThenUnsubscribe(s: State, t: TypeKey, h: Handle)
    requires Canonical(s, t) in s.updateActions
    ensures UnregisterOnUpdate(RegisterOnUpdate(s, t, h), t, h) == s
  {
    var k := Canonical(s, t);
    AddThenRemove(s.updateActions[k], h);
  }

  /** Unsubscribing from a type without a list changes nothing. */
  lemma UnsubscribeWithoutList(s: State, t: TypeKey, h: Handle)
    requires Canonical(s, t) !in s.updateActions
    ensures UnregisterOnUpdate(s, t, h) == s
  {
  }

  /** A mutation invokes the resolved type's subscribers in registration
      order: the i-th invocation goes to the i-th registration. */
  lemma NotifyInRegistrationOrder(s: State, k: TypeKey, id: string, kind: UpdateType)
    requires k in s.updateActions
    ensures |Notify(s, k, id, kind)| == |s.updateActions[k]|
    ensures forall i :: 0 <= i < |s.updateActions[k]| ==>
              Notify(s, k, id, kind)[i] == Event(s.updateActions[k][i], id, kind.Code())
  {
  }

  /** A mutation invokes each registration of a handle once: registered
      n times, it is invoked n times. */
  lemma {:induction false} NotifyCountsRegistrations(s: State, k: TypeKey, id: string, kind: UpdateType, h: Handle)
    requires k in s.updateActions
    ensures multiset(Notify(s, k, id, kind))[Event(h, id, kind.Code())] == multiset(s.updateActions[k])[h]
  {
    FireOccurrences(s.updateActions[k], id, kind.Code(), h);
  }

  /** Registering the same handle twice on a fresh list makes the next
      definition registration invoke it twice. */
  lemma {:induction false} DoubleSubscriptionFiresTwice(s: State, t: TypeKey, h: Handle, id: string, p: Payload)
    requires Valid(s)
    requires Canonical(s, t) !in s.updateActions
    ensures var s2 := RegisterOnUpdate(RegisterOnUpdate(s, t, h), t, h);
            multiset(RegisterDefinition(s2, id, t, p).events)[Event(h, id, 0)] == 2
  {
    var k := Canonical(s, t);
    var s1 := RegisterOnUpdate(s, t, h);
    var s2 := RegisterOnUpdate(s1, t, h);
    assert Canonical(s1, t) == k;
    assert Canonical(s2, t) == k;
    assert s2.updateActions[k] == [h, h];
    RegisterMakesKnown(s2, id, t, p);
    NotifyCountsRegistrations(s2, k, id, NewOrUpdate, h);
    assert multiset([h, h])[h] == 2;
  }

  /** Subscribe, register: the subscriber is invoked once with code 0.
      Unsubscribe, register again: it is invoked no more. */
  lemma {:induction false} UnsubscribeSilences(s: State, t: TypeKey, h: Handle, id: string, p: Payload, q: Payload)
    requires Valid(s)
    requires Canonical(s, t) !in s.updateActions
    ensures var st1 := RegisterDefinition(RegisterOnUpdate(s, t, h), id, t, p);
            var s2 := UnregisterOnUpdate(st1.state, t, h);
            st1.events == [Event(h, id, 0)] && RegisterDefinition(s2, id, t, q).events == []
  {
    var k := Canonical(s, t);
    var s1 := RegisterOnUpdate(s, t, h);
    var st1 := RegisterDefinition(s1, id, t, p);
    assert s1.updateActions[k] == [h];
    RegisterMakesKnown(s1, id, t, p);
    var s2 := UnregisterOnUpdate(st1.state, t, h);
    AddThenRemove([], h);
    assert s2.updateActions[k] == [];
    assert Canonical(s2, t) == k;
  }

  // ---- Scenarios ----

  /** Register "Weapon"/"Laser", subscribe a counter, remove: the definition
      is gone and the counter was invoked once with the removal code. */
  lemma WeaponLaserScenario(weapon: TypeKey, counter: Handle)
    requires weapon.name == "Weapon"
    ensures var s1 := RegisterDefinition(Empty, "Laser", weapon, [1, 2, 3]).state;
            var s2 := RegisterOnUpdate(s1, weapon, counter);
            var st := RemoveDefinition(s2, "Laser", weapon);
            !HasDefinition(st.state, "Laser", weapon) && st.events == [Event(counter, "Laser", 1)]
  {
    var s1 := RegisterDefinition(Empty, "Laser", weapon, [1, 2, 3]).state;
    assert s1.definitions.Keys == {weapon};
    ResolveStored(s1.definitions.Keys, weapon, weapon);
  }

  /** Ids "a" and "b" registered on an unseen type are listed as exactly {"a", "b"}. */
  lemma ListTwoIds(t: TypeKey)
    ensures GetDefinitionsOfType(Empty, t) == {}
    ensures var s1 := RegisterDefinition(Empty, "a", t, []).state;
            var s2 := RegisterDefinition(s1, "b", t, []).state;
            GetDefinitionsOfType(s2, t) == {"a", "b"}
  {
    var s1 := RegisterDefinition(Empty, "a", t, []).state;
    assert s1.definitions.Keys == {t};
    ResolveStored(s1.definitions.Keys, t, t);
  }

  /** Resolution scans only the definition store: a subscription made under
      one descriptor before any definition exists is not notified when the
      first definition arrives under another descriptor of the same name. */
  lemma SubscriptionUnderOtherDescriptorMissed(h: Handle)
    ensures var a := TypeKey("Weapon", 1);
            var b := TypeKey("Weapon", 2);
            var s1 := RegisterOnUpdate(Empty, a, h);
            var st := RegisterDefinition(s1, "Laser", b, [7]);
            st.events == [] && a in st.state.updateActions && b in st.state.definitions
  {
  }
}
