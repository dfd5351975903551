# DefinitionHelper registry, modelled in Dafny

`DefinitionManager` is the in-process registry of DefinitionHelper. Mods
publish serialized definitions (byte arrays) under a reflection `Type` and a
string id. They attach named-delegate bundles to those definitions and
subscribe to change notifications per type. The registry keeps three
type-keyed dictionaries:

- `SerializedDefinitions`: type → (id → bytes);
- `DefinitionDelegates`: type → (id → bundle);
- `UpdateActions`: type → multicast `Action<string, int>`.

Every public operation first normalises its `Type` through `GetClosestType`.
That is a scan of the definition store's keys for one with the same `Name`.
The operation then reads or updates the dictionaries. Each update
synchronously invokes the type's subscribers with `(id, code)`, where the
codes are 0 for new-or-update, 1 for removal and 2 for a delegate update.

The model has two layers:

- `Registry` (registry.dfy) is the registry as a value. `State` holds the
  three tables. Each operation is a function from the old state to the new
  state plus the list of subscriber invocations, or to a query result.
  `Valid` is the invariant: both stores have the same key set, and no two
  stored keys share a name.
- `Manager.DefinitionManager` (definition_manager.dfy) is the registry as an
  object. Its three `map` fields are updated in place by its methods, and a
  ghost `log` records every subscriber invocation. Each method is proved to
  keep `Valid` and to agree with its `Registry` function.
  `GetClosestType` is a loop over the stored keys. `Notify` is a loop over
  the invocation list. `GetDefinitionsOfType` turns the key set into a
  sequence by enumerating it.

Supporting modules:

- `DefinitionTypes`: types are `TypeKey(name, ident)`, so that two
  descriptor instances of one name are distinct dictionary keys that the
  resolver merges. Callbacks are opaque `Handle`s. A `null` bundle is
  `None`. The three faults are distinct `Error` values.
- `TypeResolver`: the resolution function and its laws.
- `UpdateNotifier`: multicast invocation. It also models `-=`, which removes
  the last registration of a handle, as `Delegate.Remove` does.
- `RegistryProperties`: the cross-operation lemmas.

Three behaviours of the code are easy to miss, and the model keeps them:

- `GetDefinition` on an unknown type faults in the dictionary indexer
  (`KeyNotFound`). On a known type without the id it throws its own
  exception (`InvalidDefinitionId`). These are two different errors.
- `GetDelegates` on an unknown type also faults in the indexer. It returns
  `null` for a known type without that id, or when the stored bundle is
  `null`.
- A subscription made under one descriptor before any definition of that
  name exists is keyed by that descriptor. Resolution never consults
  `UpdateActions`. So a first definition registered under another
  descriptor of the same name does not notify it
  (`RegistryProperties.SubscriptionUnderOtherDescriptorMissed`).

## Model

| member | source | states |
|---|---|---|
| `DefinitionTypes.UpdateType.Code` | Data/Scripts/DefinitionHelper/Definitions/DefinitionManager.cs:166-171 | change codes lie in 0..2 |
| `DefinitionTypes.CodeInjective` | Data/Scripts/DefinitionHelper/Definitions/DefinitionManager.cs:166-171 | distinct change kinds have distinct codes |
| `TypeResolver.Resolve` | Data/Scripts/DefinitionHelper/Definitions/DefinitionManager.cs:158-164 | the result keeps the candidate's name; it is a stored key exactly when some stored key has that name, and otherwise it is the candidate unchanged |
| `TypeResolver.ResolveStored` | Data/Scripts/DefinitionHelper/Definitions/DefinitionManager.cs:158-164 | when stored names are distinct, the stored key of the candidate's name is the result, whatever order the scan takes |
| `TypeResolver.ResolveIdempotent` | Data/Scripts/DefinitionHelper/Definitions/DefinitionManager.cs:158-164 | resolving twice gives the same key as resolving once |
| `TypeResolver.ResolveByName` | Data/Scripts/DefinitionHelper/Definitions/DefinitionManager.cs:158-164 | two descriptors with one known name resolve to the same stored key |
| `TypeResolver.AddResolvedKeepsDistinct` | Data/Scripts/DefinitionHelper/Definitions/DefinitionManager.cs:32-39 | adding the resolved key of a registration keeps stored names pairwise distinct |
| `TypeResolver.ResolveStable` | Data/Scripts/DefinitionHelper/Definitions/DefinitionManager.cs:158-164 | once a name is known, adding keys never changes the key it resolves to |
| `TypeResolver.ResolveOtherName` | Data/Scripts/DefinitionHelper/Definitions/DefinitionManager.cs:35-38 | adding a key of another name does not change where a candidate resolves |
| `UpdateNotifier.Fire` | Data/Scripts/DefinitionHelper/Definitions/DefinitionManager.cs:45-46 | invoking a multicast list makes one invocation per registration, in registration order, each with the same id and code |
| `UpdateNotifier.FireAppend` | Data/Scripts/DefinitionHelper/Definitions/DefinitionManager.cs:142-146 | a handle added last is invoked after every earlier registration |
| `UpdateNotifier.FireOccurrences` | Data/Scripts/DefinitionHelper/Definitions/DefinitionManager.cs:142 | a handle registered n times is invoked n times |
| `UpdateNotifier.LastIndexOf` | Data/Scripts/DefinitionHelper/Definitions/DefinitionManager.cs:153 | finds a position exactly when the handle is registered; that position holds the handle and no later one does |
| `UpdateNotifier.RemoveLast` | Data/Scripts/DefinitionHelper/Definitions/DefinitionManager.cs:153 | `-=` of an unregistered handle changes nothing; otherwise it removes exactly one registration of it |
| `UpdateNotifier.AddThenRemove` | Data/Scripts/DefinitionHelper/Definitions/DefinitionManager.cs:142-153 | `+=` then `-=` of one handle restores the list |
| `UpdateNotifier.RemoveLastCutsLast` | Data/Scripts/DefinitionHelper/Definitions/DefinitionManager.cs:153 | removal cuts out the last registration and keeps the order of the rest |
| `Registry.Notify` | Data/Scripts/DefinitionHelper/Definitions/DefinitionManager.cs:45-46 | no invocations when the resolved type has no list; otherwise one per registration, the i-th going to the i-th registered handle, all with the operation's id and code |
| `Registry.Close` | Data/Scripts/DefinitionHelper/Definitions/DefinitionManager.cs:18-22 | both stores are emptied, so no type is known; subscription lists are kept |
| `Registry.RegisterDefinition` | Data/Scripts/DefinitionHelper/Definitions/DefinitionManager.cs:30-46 | keeps the store invariant, leaves subscriptions alone, and notifies the resolved type's list with code 0 |
| `Registry.RegisterDelegates` | Data/Scripts/DefinitionHelper/Definitions/DefinitionManager.cs:57-67 | fails only with the invalid-operation error; on success keeps the invariant and changes neither the definition store nor subscriptions |
| `Registry.RemoveDefinition` | Data/Scripts/DefinitionHelper/Definitions/DefinitionManager.cs:77-87 | keeps the invariant, the set of known types and the subscriptions |
| `Registry.GetDefinition` | Data/Scripts/DefinitionHelper/Definitions/DefinitionManager.cs:98-105 | fails only with the indexer fault or the invalid-id error; the indexer fault happens exactly when the type is unknown |
| `Registry.GetDelegates` | Data/Scripts/DefinitionHelper/Definitions/DefinitionManager.cs:113-120 | faults (indexer) exactly when the type is unknown; otherwise returns a bundle or null |
| `Registry.GetDefinitionsOfType` | Data/Scripts/DefinitionHelper/Definitions/DefinitionManager.cs:127-134 | empty for an unknown type |
| `Registry.HasDefinition` | Data/Scripts/DefinitionHelper/Definitions/DefinitionManager.cs:173-178 | true only for a known type |
| `Registry.RegisterOnUpdate` | Data/Scripts/DefinitionHelper/Definitions/DefinitionManager.cs:136-142 | leaves both stores and every other type's list alone; the resolved type's list becomes its old list (empty if absent) with the handle appended at the end |
| `Registry.UnregisterOnUpdate` | Data/Scripts/DefinitionHelper/Definitions/DefinitionManager.cs:147-153 | leaves both stores alone; a type without a list is a no-op; otherwise the resolved type's list loses its last registration of the handle and every other list stays |
| `RegistryProperties.RegisterThenGet` | Data/Scripts/DefinitionHelper/Definitions/DefinitionManager.cs:30-43 | after registering p, `GetDefinition` under any descriptor of the same name returns p, and `HasDefinition` holds |
| `RegistryProperties.RegisterOverwrites` | Data/Scripts/DefinitionHelper/Definitions/DefinitionManager.cs:41-43 | registering twice under one id keeps only the second payload and adds no id |
| `RegistryProperties.RegisterMakesKnown` | Data/Scripts/DefinitionHelper/Definitions/DefinitionManager.cs:35-38 | a registration makes its type known without changing the key the type resolves to |
| `RegistryProperties.RegisterKeepsOtherNames` | Data/Scripts/DefinitionHelper/Definitions/DefinitionManager.cs:32-39 | a registration does not change where any other name resolves |
| `RegistryProperties.RegisterFrame` | Data/Scripts/DefinitionHelper/Definitions/DefinitionManager.cs:30-43 | no other (type, id) changes presence, stored payload or stored bundle |
| `RegistryProperties.RegisterKeepsBundle` | Data/Scripts/DefinitionHelper/Definitions/DefinitionManager.cs:43 | re-registering a definition of a known type keeps the bundle stored under that id |
| `RegistryProperties.FirstRegistrationHasNoBundles` | Data/Scripts/DefinitionHelper/Definitions/DefinitionManager.cs:35-38 | a type's first registration creates an empty delegate entry, so every id under any same-named descriptor then reads back a null bundle |
| `RegistryProperties.HasIffGetSucceeds` | Data/Scripts/DefinitionHelper/Definitions/DefinitionManager.cs:98-105 | `HasDefinition` holds exactly when `GetDefinition` succeeds |
| `RegistryProperties.GetMissingId` | Data/Scripts/DefinitionHelper/Definitions/DefinitionManager.cs:102-103 | a known type without the id gives the invalid-id error |
| `RegistryProperties.ListedIffHas` | Data/Scripts/DefinitionHelper/Definitions/DefinitionManager.cs:127-134 | an id is listed exactly when `HasDefinition` holds for it |
| `RegistryProperties.RegisterDelegatesFails` | Data/Scripts/DefinitionHelper/Definitions/DefinitionManager.cs:59-62 | delegates fail exactly when the type is unknown; a failure carries no new state and no invocations |
| `RegistryProperties.RegisterDelegatesThenGet` | Data/Scripts/DefinitionHelper/Definitions/DefinitionManager.cs:64-67 | on a known type the bundle, null included, is read back under any descriptor of the same name, and the list hears code 2 |
| `RegistryProperties.RegisterDelegatesFrame` | Data/Scripts/DefinitionHelper/Definitions/DefinitionManager.cs:64 | storing a bundle leaves every other (type, id) bundle as it was |
| `RegistryProperties.RemoveUnknownIsNoop` | Data/Scripts/DefinitionHelper/Definitions/DefinitionManager.cs:79-82 | removal under an unknown type changes nothing and notifies no one |
| `RegistryProperties.RemoveThenGet` | Data/Scripts/DefinitionHelper/Definitions/DefinitionManager.cs:83-87 | on a known type the id is gone from both stores and code 1 is sent, whether or not the id was stored |
| `RegistryProperties.RemoveFrame` | Data/Scripts/DefinitionHelper/Definitions/DefinitionManager.cs:83-84 | removal leaves every other (type, id) lookup of both stores unchanged |
| `RegistryProperties.CloseForgets` | Data/Scripts/DefinitionHelper/Definitions/DefinitionManager.cs:18-22 | after `Close` every lookup is the unknown-type case and subscriptions are the same |
| `RegistryProperties.SubscribeThenUnsubscribe` | Data/Scripts/DefinitionHelper/Definitions/DefinitionManager.cs:136-153 | subscribe then unsubscribe of one handle restores the registry when the type already had a list |
| `RegistryProperties.UnsubscribeWithoutList` | Data/Scripts/DefinitionHelper/Definitions/DefinitionManager.cs:151-152 | unsubscribing from a type without a list changes nothing |
| `RegistryProperties.UnsubscribeSilences` | Data/Scripts/DefinitionHelper/Definitions/DefinitionManager.cs:136-156 | subscribe then register invokes the handle once with code 0; after unsubscribing, a new registration invokes nobody |
| `RegistryProperties.NotifyInRegistrationOrder` | Data/Scripts/DefinitionHelper/Definitions/DefinitionManager.cs:45-46 | the i-th invocation of a mutation goes to the i-th registration, with the operation's id and code |
| `RegistryProperties.NotifyCountsRegistrations` | Data/Scripts/DefinitionHelper/Definitions/DefinitionManager.cs:142 | each registration of a handle yields one invocation |
| `RegistryProperties.DoubleSubscriptionFiresTwice` | Data/Scripts/DefinitionHelper/Definitions/DefinitionManager.cs:140-146 | a handle subscribed twice to a type without a list, known or not, is invoked twice by the next registration |
| `RegistryProperties.WeaponLaserScenario` | Data/Scripts/DefinitionHelper/Definitions/DefinitionManager.cs:77-90 | register, subscribe, remove: the definition is gone and the subscriber was invoked once with code 1 |
| `RegistryProperties.ListTwoIds` | Data/Scripts/DefinitionHelper/Definitions/DefinitionManager.cs:127-134 | an unseen type lists nothing; after registering "a" and "b" it lists exactly those |
| `RegistryProperties.SubscriptionUnderOtherDescriptorMissed` | Data/Scripts/DefinitionHelper/Definitions/DefinitionManager.cs:158-164 | resolution ignores the subscription table, so a same-named descriptor registered first gets its own key and the subscriber is not invoked |
| `Manager.DefinitionManager.constructor` | Data/Scripts/DefinitionHelper/Definitions/DefinitionManager.cs:10-16 | starts with three empty tables and no invocations |
| `Manager.DefinitionManager.Close` | Data/Scripts/DefinitionHelper/Definitions/DefinitionManager.cs:18-22 | the new state is `Registry.Close` of the old one; nobody is invoked |
| `Manager.DefinitionManager.GetClosestType` | Data/Scripts/DefinitionHelper/Definitions/DefinitionManager.cs:158-164 | the scan returns the resolved key of the candidate |
| `Manager.DefinitionManager.Notify` | Data/Scripts/DefinitionHelper/Definitions/DefinitionManager.cs:45-46 | appends exactly `Registry.Notify`'s invocations to the log |
| `Manager.DefinitionManager.RegisterDefinition` | Data/Scripts/DefinitionHelper/Definitions/DefinitionManager.cs:30-46 | keeps the invariant; the new tables and invocations are those of `Registry.RegisterDefinition` |
| `Manager.DefinitionManager.RegisterDelegates` | Data/Scripts/DefinitionHelper/Definitions/DefinitionManager.cs:57-67 | fails exactly when `Registry.RegisterDelegates` does, then with nothing changed and nobody invoked; otherwise its new tables and invocations |
| `Manager.DefinitionManager.RemoveDefinition` | Data/Scripts/DefinitionHelper/Definitions/DefinitionManager.cs:77-87 | keeps the invariant; the new tables and invocations are those of `Registry.RemoveDefinition` |
| `Manager.DefinitionManager.GetDefinition` | Data/Scripts/DefinitionHelper/Definitions/DefinitionManager.cs:98-105 | returns `Registry.GetDefinition` of the current tables |
| `Manager.DefinitionManager.GetDelegates` | Data/Scripts/DefinitionHelper/Definitions/DefinitionManager.cs:113-120 | returns `Registry.GetDelegates` of the current tables |
| `Manager.DefinitionManager.GetDefinitionsOfType` | Data/Scripts/DefinitionHelper/Definitions/DefinitionManager.cs:127-134 | returns each id of `Registry.GetDefinitionsOfType` exactly once and nothing else |
| `Manager.DefinitionManager.HasDefinition` | Data/Scripts/DefinitionHelper/Definitions/DefinitionManager.cs:173-178 | returns `Registry.HasDefinition` of the current tables |
| `Manager.DefinitionManager.RegisterOnUpdate` | Data/Scripts/DefinitionHelper/Definitions/DefinitionManager.cs:136-142 | keeps the invariant; the new tables are those of `Registry.RegisterOnUpdate`; nobody is invoked |
| `Manager.DefinitionManager.UnregisterOnUpdate` | Data/Scripts/DefinitionHelper/Definitions/DefinitionManager.cs:147-153 | keeps the invariant; the new tables are those of `Registry.UnregisterOnUpdate`; nobody is invoked |

## Left out

- Logging through `HeartLog` is left out. It is advisory only and affects neither state nor results.
- The mod-message boundary (`ApiSender`, `DefinitionApiMethods`) is not part of this model. It covers channel registration, the version handshake and the name-to-delegate table, all of which go through the game engine's API.
- Callback bodies are left out. Subscribers and the delegates inside a bundle are opaque handles, and invocations are recorded in a ghost log. Re-entrant calls from a callback and exceptions thrown by a callback are not modelled.
- Exception message text is left out. Only which fault occurs is modelled.
- `null` ids, types, payloads and subscriber handles are left out. Only a `null` delegate bundle is modelled, as `None`.
- Aliasing of payloads and bundles is left out. The C# code stores and returns the caller's `byte[]` and `Dictionary<string, Delegate>` by reference, so a caller that later changes its array or dictionary changes what the registry returns. The model stores them as immutable values.
- `Manager.DefinitionManager.GetDefinitionsOfType`: the order of the returned ids follows dictionary enumeration, which is not modelled. The contract states only that each stored id appears exactly once.
- `Manager.DefinitionManager.GetClosestType`: the scan visits keys in an unspecified order rather than the dictionary's enumeration order. This changes nothing, because stored names are distinct, so at most one key matches.
- The no-op lambda that `RegisterOnUpdate` installs when a list is created is not a handle. A new list is empty, and it stays as an empty list after every handle has been removed.
