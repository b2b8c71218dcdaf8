/** The local list updates the management screens make after a successful
    action, without reloading: replace the entry with an id, append a new
    entry, drop the entries with an id. */
module ListUpdates {
  import opened Seqs
  import opened Records

  /** `list.map(x => x.id === id ? y : x)`: every entry with the id becomes
      `y`; every other entry keeps its value and its place. */
  function ReplaceById<T>(s: seq<T>, id: Id, y: T, idOf: T -> Id): (r: seq<T>)
    ensures |r| == |s|
    ensures forall i :: 0 <= i < |s| && idOf(s[i]) == id ==> r[i] == y
    ensures forall i :: 0 <= i < |s| && idOf(s[i]) != id ==> r[i] == s[i]
  {
    seq(|s|, i requires 0 <= i < |s| => if idOf(s[i]) == id then y else s[i])
  }

  /** `list.filter(x => x.id !== id)`: the entries with other ids, in their
      order. */
  function RemoveById<T(!new)>(s: seq<T>, id: Id, idOf: T -> Id): (r: seq<T>)
    ensures forall x :: x in r <==> x in s && idOf(x) != id
    ensures |r| <= |s|
  {
    Filter(s, x => idOf(x) != id)
  }

  /** `[...list, y]`. */
  function Append<T>(s: seq<T>, y: T): (r: seq<T>)
    ensures |r| == |s| + 1 && r[|s|] == y && r[..|s|] == s
  {
    s + [y]
  }

  /** One step of `RemoveById`, on the head of the list. */
  lemma RemoveCons<T(!new)>(s: seq<T>, id: Id, idOf: T -> Id)
    requires s != []
    ensures RemoveById(s, id, idOf) == (if idOf(s[0]) != id then [s[0]] else []) + RemoveById(s[1..], id, idOf)
  {
  }

  /** Replacing an entry by one with the same id and then dropping that id
      leaves what dropping it alone leaves: the replacement touches nothing
      else. */
  lemma {:induction false} RemoveAfterReplace<T(!new)>(s: seq<T>, y: T, idOf: T -> Id)
    ensures RemoveById(ReplaceById(s, idOf(y), y, idOf), idOf(y), idOf) == RemoveById(s, idOf(y), idOf)
    decreases |s|
  {
    var id := idOf(y);
    if s != [] {
      var r := ReplaceById(s, id, y, idOf);
      assert r[1..] == ReplaceById(s[1..], id, y, idOf);
      RemoveAfterReplace(s[1..], y, idOf);
      RemoveCons(r, id, idOf);
      RemoveCons(s, id, idOf);
    }
  }

  /** Replacing twice with the same entry is replacing once. */
  lemma ReplaceIdempotent<T>(s: seq<T>, y: T, idOf: T -> Id)
    ensures ReplaceById(ReplaceById(s, idOf(y), y, idOf), idOf(y), y, idOf) == ReplaceById(s, idOf(y), y, idOf)
  {
  }

  /** Appending an entry and then dropping its id gives the list with the id
      dropped: the appended entry goes, the rest keep their order. */
  lemma RemoveAfterAppend<T(!new)>(s: seq<T>, y: T, idOf: T -> Id)
    ensures RemoveById(Append(s, y), idOf(y), idOf) == RemoveById(s, idOf(y), idOf)
  {
    FilterAppend(s, [y], x => idOf(x) != idOf(y));
    assert Filter([y], x => idOf(x) != idOf(y)) == [];
  }

  /** Dropping an id twice is dropping it once. */
  lemma {:induction false} RemoveIdempotent<T(!new)>(s: seq<T>, id: Id, idOf: T -> Id)
    ensures RemoveById(RemoveById(s, id, idOf), id, idOf) == RemoveById(s, id, idOf)
    decreases |s|
  {
    if s != [] {
      RemoveIdempotent(s[1..], id, idOf);
      RemoveCons(s, id, idOf);
      var rest := RemoveById(s[1..], id, idOf);
      if idOf(s[0]) != id {
        RemoveCons([s[0]] + rest, id, idOf);
        assert ([s[0]] + rest)[1..] == rest;
      }
    }
  }
}
