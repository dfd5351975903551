/** Normalisation of a type argument to the key the store already uses for
    its name (`GetClosestType`). */
module TypeResolver {
  import opened DefinitionTypes

  /** No two stored keys share a name. */
  ghost predicate DistinctNames(keys: set<TypeKey>) {
    forall a, b :: a in keys && b in keys && a.name == b.name ==> a == b
  }

  /** Some stored key carries this name. */
  ghost predicate NameKnown(keys: set<TypeKey>, name: string) {
    exists k :: k in keys && k.name == name
  }

  /** The key `t` resolves to among `keys`: a stored key with the same name
      when there is one, otherwise `t` itself. */
  ghost function Resolve(keys: set<TypeKey>, t: TypeKey): (r: TypeKey)
    ensures r.name == t.name
    ensures r in keys <==> NameKnown(keys, t.name)
    ensures r !in keys ==> r == t
  {
    if NameKnown(keys, t.name) then
      var k :| k in keys && k.name == t.name; k
    else
      t
  }

  /** With distinct names, the stored key of the candidate's name is the one
      found, whatever order the scan visits the keys in. */
  lemma ResolveStored(keys: set<TypeKey>, t: TypeKey, k: TypeKey)
    requires DistinctNames(keys)
    requires k in keys && k.name == t.name
    ensures Resolve(keys, t) == k
  {
  }

  /** Resolving an already resolved key gives it back. */
  lemma ResolveIdempotent(keys: set<TypeKey>, t: TypeKey)
    requires DistinctNames(keys)
    ensures Resolve(keys, Resolve(keys, t)) == Resolve(keys, t)
  {
    var r := Resolve(keys, t);
    if r in keys {
      ResolveStored(keys, r, r);
    }
  }

  /** Two descriptors of a known name resolve to the same stored key. */
  lemma ResolveByName(keys: set<TypeKey>, t1: TypeKey, t2: TypeKey)
    requires DistinctNames(keys)
    requires t1.name == t2.name && NameKnown(keys, t1.name)
    ensures Resolve(keys, t1) == Resolve(keys, t2) && Resolve(keys, t1) in keys
  {
    var k := Resolve(keys, t1);
    ResolveStored(keys, t2, k);
  }

  /** Adding the resolved key of a candidate keeps names distinct: it is
      either already stored or carries a name no stored key has. */
  lemma AddResolvedKeepsDistinct(keys: set<TypeKey>, t: TypeKey)
    requires DistinctNames(keys)
    ensures DistinctNames(keys + {Resolve(keys, t)})
  {
  }

  /** Growing the key set by resolved keys never changes where a name that
      was already known resolves. */
  lemma ResolveStable(keys: set<TypeKey>, keys': set<TypeKey>, t: TypeKey)
    requires DistinctNames(keys')
    requires keys <= keys'
    requires NameKnown(keys, t.name)
    ensures Resolve(keys', t) == Resolve(keys, t)
  {
    var k := Resolve(keys, t);
    ResolveStored(keys', t, k);
  }

  /** Adding a key of another name does not change where `t` resolves. */
  lemma ResolveOtherName(keys: set<TypeKey>, k: TypeKey, t: TypeKey)
    requires DistinctNames(keys + {k})
    requires k.name != t.name
    ensures Resolve(keys + {k}, t) == Resolve(keys, t)
  {
    if NameKnown(keys, t.name) {
      ResolveStable(keys, keys + {k}, t);
    } else {
      assert !NameKnown(keys + {k}, t.name);
    }
  }
}
