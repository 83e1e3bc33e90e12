/**
  The task records the home page shows, and the list edits its handlers apply
  to them: the spread-append after a create, the `map` that swaps in an updated
  record, the `filter` that drops a deleted one, the `find` that picks the
  record to toggle, and the `filter(...).length` behind the remaining count.
 */
module TodoList {

  import opened Wrappers

  /** The server's `_id`, compared with `===`. */
  type Id = string

  /** One task as the server returns it: `{_id, text, completed}`. */
  datatype Todo = Todo(id: Id, text: string, completed: bool)

  /** No record of `s` carries `id`. */
  predicate IdAbsent(s: seq<Todo>, id: Id) {
    forall i :: 0 <= i < |s| ==> s[i].id != id
  }

  /** The identifiers of `s` are pairwise distinct. */
  predicate UniqueIds(s: seq<Todo>) {
    forall i, j :: 0 <= i < j < |s| ==> s[i].id != s[j].id
  }

  /** `[...todos, t]`: the list after a successful create. */
  function Append(s: seq<Todo>, t: Todo): (r: seq<Todo>)
    ensures |r| == |s| + 1
    ensures forall i :: 0 <= i < |s| ==> r[i] == s[i]
    ensures r[|s|] == t
  {
    s + [t]
  }

  /** `todos.map(t => t._id === id ? updated : t)`: the list after a successful update. */
  function ReplaceById(s: seq<Todo>, id: Id, updated: Todo): (r: seq<Todo>)
    ensures |r| == |s|
    ensures forall i :: 0 <= i < |s| && s[i].id == id ==> r[i] == updated
    ensures forall i :: 0 <= i < |s| && s[i].id != id ==> r[i] == s[i]
    ensures IdAbsent(s, id) ==> r == s
  {
    if s == [] then []
    else [if s[0].id == id then updated else s[0]] + ReplaceById(s[1..], id, updated)
  }

  /** `todos.filter(t => t._id !== id)`: the list after a successful delete. */
  function RemoveById(s: seq<Todo>, id: Id): (r: seq<Todo>)
    ensures |r| <= |s|
    ensures IdAbsent(r, id)
    ensures forall t :: t in r <==> t in s && t.id != id
    ensures r == s <==> IdAbsent(s, id)
  {
    if s == [] then []
    else if s[0].id == id then RemoveById(s[1..], id)
    else
      assert IdAbsent(s, id) ==> IdAbsent(s[1..], id);
      [s[0]] + RemoveById(s[1..], id)
  }

  /** `todos.find(t => t._id === id)`: the first record carrying `id`, `None` for `undefined`. */
  function FindById(s: seq<Todo>, id: Id): (r: Option<Todo>)
    ensures r.None? <==> IdAbsent(s, id)
    ensures r.Some? ==> r.value.id == id
    ensures r.Some? ==> exists k :: 0 <= k < |s| && s[k] == r.value && IdAbsent(s[..k], id)
  {
    if s == [] then None
    else if s[0].id == id then
      assert s[..0] == [];
      Some(s[0])
    else
      var r := FindById(s[1..], id);
      if r.Some? then
        var k :| 0 <= k < |s[1..]| && s[1..][k] == r.value && IdAbsent(s[1..][..k], id);
        assert s[..k + 1] == [s[0]] + s[1..][..k];
        r
      else r
  }

  /** `todos.filter(todo => !todo.completed)`: the records still to be done, in list order. */
  function Incomplete(s: seq<Todo>): (r: seq<Todo>)
    ensures forall t :: t in r <==> t in s && !t.completed
    ensures |r| <= |s|
    ensures |r| == |s| <==> forall i :: 0 <= i < |s| ==> !s[i].completed
    ensures r == [] <==> forall i :: 0 <= i < |s| ==> s[i].completed
  {
    if s == [] then []
    else if s[0].completed then Incomplete(s[1..])
    else [s[0]] + Incomplete(s[1..])
  }

  /** `remainingTodos`: how many records are not completed. */
  function Remaining(s: seq<Todo>): (n: nat)
    ensures n <= |s|
    ensures n == 0 <==> forall i :: 0 <= i < |s| ==> s[i].completed
    ensures n == |s| <==> forall i :: 0 <= i < |s| ==> !s[i].completed
  {
    |Incomplete(s)|
  }

  /** The remaining count of the empty list is zero. */
  lemma RemainingEmpty()
    ensures Remaining([]) == 0
  {
  }

  /** Removing by id keeps the relative order: it distributes over concatenation. */
  lemma {:induction false} RemoveByIdConcat(a: seq<Todo>, b: seq<Todo>, id: Id)
    ensures RemoveById(a + b, id) == RemoveById(a, id) + RemoveById(b, id)
  {
    if a == [] {
      assert a + b == b;
    } else {
      assert (a + b)[0] == a[0];
      assert (a + b)[1..] == a[1..] + b;
      RemoveByIdConcat(a[1..], b, id);
    }
  }

  /** Deleting an id twice leaves the same list as deleting it once. */
  lemma RemoveByIdIdempotent(s: seq<Todo>, id: Id)
    ensures RemoveById(RemoveById(s, id), id) == RemoveById(s, id)
  {
  }

  /** The tail of a list with unique ids has unique ids and lacks the head's id. */
  lemma UniqueTail(s: seq<Todo>)
    requires UniqueIds(s) && s != []
    ensures UniqueIds(s[1..]) && IdAbsent(s[1..], s[0].id)
  {
    var t := s[1..];
    forall i | 0 <= i < |t| ensures t[i].id != s[0].id {
      assert t[i] == s[i + 1];
    }
    forall i, j | 0 <= i < j < |t| ensures t[i].id != t[j].id {
      assert t[i] == s[i + 1] && t[j] == s[j + 1];
    }
  }

  /** With unique ids, deleting a present id removes exactly one record, the one at its position. */
  lemma RemoveByIdPresent(s: seq<Todo>, k: nat)
    requires UniqueIds(s) && k < |s|
    ensures RemoveById(s, s[k].id) == s[..k] + s[k + 1..]
    ensures |RemoveById(s, s[k].id)| == |s| - 1
  {
    var id, before, after := s[k].id, s[..k], s[k + 1..];
    UniqueAround(s, k);
    assert s == before + ([s[k]] + after);
    RemoveByIdConcat(before, [s[k]] + after, id);
    RemoveByIdConcat([s[k]], after, id);
    assert RemoveById([s[k]], id) == [] by {
      assert [s[k]][1..] == [];
    }
  }

  /** Dropping records never introduces an id. */
  lemma {:induction false} RemoveByIdKeepsAbsent(s: seq<Todo>, id: Id, other: Id)
    requires IdAbsent(s, other)
    ensures IdAbsent(RemoveById(s, id), other)
  {
    if s != [] {
      assert s == [s[0]] + s[1..];
      RemoveByIdCons(s[0], s[1..], id);
      RemoveByIdKeepsAbsent(s[1..], id, other);
    }
  }

  /** Filtering a list that starts with `x` decides `x` first and then filters the rest. */
  lemma RemoveByIdCons(x: Todo, rest: seq<Todo>, id: Id)
    ensures RemoveById([x] + rest, id) == (if x.id == id then [] else [x]) + RemoveById(rest, id)
  {
    assert ([x] + rest)[0] == x;
    assert ([x] + rest)[1..] == rest;
  }

  /** A record whose id is new in front of a list with unique ids keeps them unique. */
  lemma ConsUnique(x: Todo, rest: seq<Todo>)
    requires UniqueIds(rest) && IdAbsent(rest, x.id)
    ensures UniqueIds([x] + rest)
  {
    var r := [x] + rest;
    forall i, j | 0 <= i < j < |r| ensures r[i].id != r[j].id {
      assert r[j] == rest[j - 1];
      if i > 0 {
        assert r[i] == rest[i - 1];
      }
    }
  }

  /** Dropping records never introduces a duplicate id. */
  lemma {:induction false} RemoveByIdUnique(s: seq<Todo>, id: Id)
    requires UniqueIds(s)
    ensures UniqueIds(RemoveById(s, id))
  {
    if s != [] {
      UniqueTail(s);
      RemoveByIdUnique(s[1..], id);
      RemoveByIdKeepsAbsent(s[1..], id, s[0].id);
      if s[0].id != id {
        ConsUnique(s[0], RemoveById(s[1..], id));
      }
    }
  }

  /** Replacing the records of `id` by one that keeps `id` keeps the ids unique. */
  lemma ReplaceByIdUnique(s: seq<Todo>, id: Id, updated: Todo)
    requires UniqueIds(s) && updated.id == id
    ensures UniqueIds(ReplaceById(s, id, updated))
  {
    var r := ReplaceById(s, id, updated);
    forall i, j | 0 <= i < j < |r| ensures r[i].id != r[j].id {
      assert r[i].id == s[i].id && r[j].id == s[j].id;
    }
  }

  /** Appending a record whose id is new keeps the ids unique. */
  lemma AppendUnique(s: seq<Todo>, t: Todo)
    requires UniqueIds(s) && IdAbsent(s, t.id)
    ensures UniqueIds(Append(s, t))
  {
  }

  /** With unique ids, `find` returns the one record carrying the id. */
  lemma {:induction false} FindByIdUnique(s: seq<Todo>, k: nat)
    requires UniqueIds(s) && k < |s|
    ensures FindById(s, s[k].id) == Some(s[k])
  {
    if k > 0 {
      UniqueTail(s);
      assert s[1..][k - 1] == s[k];
      FindByIdUnique(s[1..], k - 1);
    }
  }

  /** The remaining count is additive over concatenation. */
  lemma {:induction false} RemainingConcat(a: seq<Todo>, b: seq<Todo>)
    ensures Remaining(a + b) == Remaining(a) + Remaining(b)
  {
    IncompleteConcat(a, b);
  }

  lemma {:induction false} IncompleteConcat(a: seq<Todo>, b: seq<Todo>)
    ensures Incomplete(a + b) == Incomplete(a) + Incomplete(b)
  {
    if a == [] {
      assert a + b == b;
    } else {
      assert (a + b)[0] == a[0];
      assert (a + b)[1..] == a[1..] + b;
      IncompleteConcat(a[1..], b);
    }
  }

  /** The head of a list adds one to the remaining count exactly when it is not completed. */
  lemma RemainingCons(x: Todo, rest: seq<Todo>)
    ensures Remaining([x] + rest) == (if x.completed then 0 else 1) + Remaining(rest)
  {
    assert ([x] + rest)[1..] == rest;
  }

  /**
    With unique ids, swapping the record at `k` for a copy whose `completed`
    is flipped moves the remaining count by exactly one.
   */
  lemma RemainingAfterFlip(s: seq<Todo>, k: nat, updated: Todo)
    requires UniqueIds(s) && k < |s|
    requires updated == s[k].(completed := !s[k].completed)
    ensures Remaining(ReplaceById(s, s[k].id, updated))
         == if s[k].completed then Remaining(s) + 1 else Remaining(s) - 1
  {
    var id, before, after := s[k].id, s[..k], s[k + 1..];
    UniqueAround(s, k);
    assert s == before + ([s[k]] + after);
    ReplaceByIdSplit(before, s[k], after, updated);
    RemainingConcat(before, [s[k]] + after);
    RemainingConcat(before, [updated] + after);
    RemainingCons(s[k], after);
    RemainingCons(updated, after);
  }

  /** With unique ids, the id at `k` occurs neither before nor after position `k`. */
  lemma UniqueAround(s: seq<Todo>, k: nat)
    requires UniqueIds(s) && k < |s|
    ensures IdAbsent(s[..k], s[k].id) && IdAbsent(s[k + 1..], s[k].id)
  {
    var before, after := s[..k], s[k + 1..];
    forall i | 0 <= i < |before| ensures before[i].id != s[k].id {
      assert before[i] == s[i];
    }
    forall i | 0 <= i < |after| ensures after[i].id != s[k].id {
      assert after[i] == s[k + 1 + i];
    }
  }

  /** Replacing an id that occurs once touches that position only. */
  lemma ReplaceByIdSplit(before: seq<Todo>, x: Todo, after: seq<Todo>, updated: Todo)
    requires IdAbsent(before, x.id) && IdAbsent(after, x.id)
    ensures ReplaceById(before + ([x] + after), x.id, updated) == before + ([updated] + after)
  {
    var s, t := before + ([x] + after), before + ([updated] + after);
    var r := ReplaceById(s, x.id, updated);
    forall i | 0 <= i < |s| ensures r[i] == t[i] {
      if i < |before| {
        assert s[i] == before[i] == t[i];
      } else if i > |before| {
        assert s[i] == after[i - |before| - 1] == t[i];
      }
    }
  }
}
