/** The per-type multicast subscriber list (`Action<string, int>` with
    `+=` and `-=`) and its invocation. */
module UpdateNotifier {
  import opened Wrappers
  import opened DefinitionTypes

  /** The invocations of a multicast list `hs` called with `(id, code)`:
      one per registration, in registration order. */
  function Fire(hs: seq<Handle>, id: string, code: int): (r: seq<Event>)
    ensures |r| == |hs|
    ensures forall i :: 0 <= i < |hs| ==> r[i] == Event(hs[i], id, code)
  {
    if hs == [] then [] else [Event(hs[0], id, code)] + Fire(hs[1..], id, code)
  }

  /** A handle added with `+=` is invoked after all earlier registrations. */
  lemma {:induction false} FireAppend(hs: seq<Handle>, h: Handle, id: string, code: int)
    ensures Fire(hs + [h], id, code) == Fire(hs, id, code) + [Event(h, id, code)]
  {
    if hs != [] {
      assert (hs + [h])[1..] == hs[1..] + [h];
      FireAppend(hs[1..], h, id, code);
    }
  }

  /** A handle registered n times is invoked n times. */
  lemma {:induction false} FireOccurrences(hs: seq<Handle>, id: string, code: int, h: Handle)
    ensures multiset(Fire(hs, id, code))[Event(h, id, code)] == multiset(hs)[h]
  {
    if hs != [] {
      FireOccurrences(hs[1..], id, code, h);
      assert hs == [hs[0]] + hs[1..];
    }
  }

  /** The position of the last registration of `h`, as `Delegate.Remove`
      searches the invocation list from its end. */
  function LastIndexOf(hs: seq<Handle>, h: Handle): (r: Option<nat>)
    ensures r.None? <==> h !in hs
    ensures r.Some? ==> r.value < |hs| && hs[r.value] == h && h !in hs[r.value + 1..]
  {
    if hs == [] then None
    else if hs[|hs| - 1] == h then Some(|hs| - 1)
    else
      assert hs == hs[..|hs| - 1] + [hs[|hs| - 1]];
      LastIndexOf(hs[..|hs| - 1], h)
  }

  /** `hs -= h`: drops the last registration of `h`, if any. */
  function RemoveLast(hs: seq<Handle>, h: Handle): (r: seq<Handle>)
    ensures h !in hs ==> r == hs
    ensures h in hs ==> |r| == |hs| - 1 && multiset(r) == multiset(hs) - multiset{h}
  {
    match LastIndexOf(hs, h)
    case None => hs
    case Some(i) =>
      assert hs == hs[..i] + [hs[i]] + hs[i + 1..];
      hs[..i] + hs[i + 1..]
  }

  /** `+=` followed by `-=` of the same handle restores the list, because
      removal takes the most recent registration. */
  lemma {:induction false} AddThenRemove(hs: seq<Handle>, h: Handle)
    ensures RemoveLast(hs + [h], h) == hs
  {
    var i := LastIndexOf(hs + [h], h);
    assert (hs + [h])[|hs|] == h;
    assert i == Some(|hs|);
    assert (hs + [h])[..|hs|] == hs;
  }

  /** Removal keeps the relative order of the other registrations: what is
      left is the list with the last `h` cut out. */
  lemma RemoveLastCutsLast(hs: seq<Handle>, h: Handle)
    requires h in hs
    ensures exists i :: 0 <= i < |hs| && hs[i] == h && h !in hs[i + 1..] && RemoveLast(hs, h) == hs[..i] + hs[i + 1..]
  {
    var i := LastIndexOf(hs, h).value;
    assert hs[i] == h && h !in hs[i + 1..] && RemoveLast(hs, h) == hs[..i] + hs[i + 1..];
  }
}
