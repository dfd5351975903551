/** The values the definition registry stores and exchanges. */
module DefinitionTypes {

  /** A reflection `Type` as the registry sees it: its simple `Name` and an
      identity that tells apart two descriptor instances carrying that name
      (the same class loaded from two mod assemblies, say). Two keys are the
      same dictionary key only when both parts agree. */
  datatype TypeKey = TypeKey(name: string, ident: nat)

  /** A serialized definition: an uninterpreted byte array. */
  type Payload = seq<bv8>

  /** An opaque callback (an `Action<string, int>` or a `Delegate`); only its
      identity matters to the registry. */
  datatype Handle = Handle(ident: nat)

  /** A named-delegate bundle, `Dictionary<string, Delegate>`. */
  type Bundle = map<string, Handle>

  /** The change kinds passed to update subscribers, with their integer codes. */
  datatype UpdateType = NewOrUpdate | Removal | DelegateUpdate {
    function Code(): (c: int)
      ensures 0 <= c <= 2
    {
      match this
      case NewOrUpdate => 0
      case Removal => 1
      case DelegateUpdate => 2
    }
  }

  /** Distinct change kinds reach subscribers as distinct codes. */
  lemma CodeInjective(a: UpdateType, b: UpdateType)
    ensures a.Code() == b.Code() ==> a == b
  {
  }

  /** One invocation of a subscriber: `handle(id, code)`. */
  datatype Event = Event(handle: Handle, id: string, code: int)

  /** The faults the registry raises:
      KeyNotFound         -- a dictionary indexer applied to a type with no entry;
      InvalidDefinitionId -- GetDefinition on a known type without that id;
      InvalidOperation    -- RegisterDelegates before the type is registered. */
  datatype Error = KeyNotFound | InvalidDefinitionId | InvalidOperation
}
