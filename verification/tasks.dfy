/**
 * The four list handlers of the root component (`handleAddItem`,
 * `handleDeleteItem`, `handleToggleItem`, `handleEditItem`): each builds a
 * new list from the old one by spread, `filter` or `map`.
 *
 * Ids are creation timestamps and nothing keeps them unique, so every
 * operation here acts on ALL tasks that carry the given id.
 */
module Tasks {

  /** One to-do entry: its timestamp id, its text and whether it is done. */
  datatype Task = Task(id: int, description: string, state: bool)

  /** True when no task of `items` carries `id`. */
  predicate Unknown(items: seq<Task>, id: int)
  {
    forall t :: t in items ==> t.id != id
  }

  // ---------------------------------------------------------------- add

  /** `[...items, item]`: the new task goes last, the rest stay as they were. */
  function Add(items: seq<Task>, item: Task): (r: seq<Task>)
    ensures |r| == |items| + 1
    ensures r[..|items|] == items
    ensures r[|items|] == item
  {
    items + [item]
  }

  // ------------------------------------------------------------- delete

  /** `items.filter(item => item.id !== id)`. */
  function Delete(items: seq<Task>, id: int): (r: seq<Task>)
    ensures |r| <= |items|
    ensures forall t :: t in r <==> t in items && t.id != id
  {
    if items == [] then []
    else if items[0].id != id then [items[0]] + Delete(items[1..], id)
    else Delete(items[1..], id)
  }

  /** Deleting an id no task carries leaves the list as it was. */
  lemma {:induction false} DeleteUnknown(items: seq<Task>, id: int)
    requires Unknown(items, id)
    ensures Delete(items, id) == items
  {
    if items != [] {
      assert items[0] in items;
      DeleteUnknown(items[1..], id);
      assert [items[0]] + items[1..] == items;
    }
  }

  /** Delete works piece by piece: the kept tasks stay in their relative order. */
  lemma {:induction false} DeleteAppend(a: seq<Task>, b: seq<Task>, id: int)
    ensures Delete(a + b, id) == Delete(a, id) + Delete(b, id)
  {
    if a == [] {
      assert a + b == b;
    } else {
      assert (a + b)[0] == a[0];
      assert (a + b)[1..] == a[1..] + b;
      DeleteAppend(a[1..], b, id);
    }
  }

  /**
   * Delete keeps every copy of a task whose id differs and no copy of a task
   * whose id matches.
   */
  lemma {:induction false} DeleteMultiplicity(items: seq<Task>, id: int, t: Task)
    ensures multiset(Delete(items, id))[t] == if t.id == id then 0 else multiset(items)[t]
  {
    if items != [] {
      DeleteMultiplicity(items[1..], id, t);
      assert items == [items[0]] + items[1..];
      assert multiset(items) == multiset{items[0]} + multiset(items[1..]);
    }
  }

  /** The positions of `items` below `n` whose task carries `id`. */
  function MatchingPositions(items: seq<Task>, id: int, n: nat): set<nat>
    requires n <= |items|
  {
    set i: nat | i < n && items[i].id == id
  }

  /** The length lost is exactly the number of tasks carrying `id`: all matches go, not only the first. */
  lemma DeleteLength(items: seq<Task>, id: int)
    ensures |Delete(items, id)| == |items| - |MatchingPositions(items, id, |items|)|
  {
    DeletePrefixLength(items, id, |items|);
    assert items[..|items|] == items;
  }

  /** `DeleteLength` for the first `n` tasks, by induction on `n`. */
  lemma {:induction false} DeletePrefixLength(items: seq<Task>, id: int, n: nat)
    requires n <= |items|
    ensures |Delete(items[..n], id)| == n - |MatchingPositions(items, id, n)|
  {
    if n > 0 {
      DeletePrefixLength(items, id, n - 1);
      assert items[..n] == items[..n - 1] + [items[n - 1]];
      DeleteAppend(items[..n - 1], [items[n - 1]], id);
      var before := MatchingPositions(items, id, n - 1);
      if items[n - 1].id == id {
        assert MatchingPositions(items, id, n) == before + {n - 1};
      } else {
        assert MatchingPositions(items, id, n) == before;
      }
    }
  }

  /** Deleting twice is deleting once. */
  lemma DeleteIdempotent(items: seq<Task>, id: int)
    ensures Delete(Delete(items, id), id) == Delete(items, id)
  {
  }

  /** Deleting right after adding removes the new task only if it has the id. */
  lemma DeleteAfterAdd(items: seq<Task>, item: Task, id: int)
    ensures Delete(Add(items, item), id)
         == if item.id == id then Delete(items, id) else Add(Delete(items, id), item)
  {
    DeleteAppend(items, [item], id);
    assert Delete([item], id) == if item.id == id then [] else [item];
  }

  // ------------------------------------------------------------- toggle

  /** One step of the toggle `map`: flip `state` when the id matches. */
  function Flip(t: Task, id: int): Task
  {
    if t.id == id then t.(state := !t.state) else t
  }

  /** `items.map(item => item.id === id ? {...item, state: !item.state} : item)`. */
  function Toggle(items: seq<Task>, id: int): (r: seq<Task>)
    ensures |r| == |items|
    ensures forall i :: 0 <= i < |r| ==>
      r[i].id == items[i].id && r[i].description == items[i].description &&
      (r[i].state != items[i].state <==> items[i].id == id)
    ensures forall i :: 0 <= i < |r| && items[i].id != id ==> r[i] == items[i]
  {
    if items == [] then [] else [Flip(items[0], id)] + Toggle(items[1..], id)
  }

  /** Toggling the same id twice restores the list. */
  lemma ToggleTwice(items: seq<Task>, id: int)
    ensures Toggle(Toggle(items, id), id) == items
  {
  }

  /** Toggling an id no task carries leaves the list as it was. */
  lemma ToggleUnknown(items: seq<Task>, id: int)
    requires Unknown(items, id)
    ensures Toggle(items, id) == items
  {
  }

  /** Toggles of two ids give the same list in either order. */
  lemma ToggleCommutes(items: seq<Task>, a: int, b: int)
    ensures Toggle(Toggle(items, a), b) == Toggle(Toggle(items, b), a)
  {
  }

  /** Deleting the toggled id forgets the toggle; other deletes commute with it. */
  lemma {:induction false} DeleteToggle(items: seq<Task>, toggled: int, deleted: int)
    ensures Delete(Toggle(items, toggled), deleted)
         == if toggled == deleted then Delete(items, deleted)
            else Toggle(Delete(items, deleted), toggled)
  {
    if items != [] {
      DeleteToggle(items[1..], toggled, deleted);
      assert Toggle(items, toggled)[1..] == Toggle(items[1..], toggled);
    }
  }

  // --------------------------------------------------------------- edit

  /** One step of the edit `map`: replace `description` when the id matches. */
  function Rename(t: Task, id: int, text: string): Task
  {
    if t.id == id then t.(description := text) else t
  }

  /** `items.map(item => item.id === id ? {...item, description: text} : item)`. */
  function Edit(items: seq<Task>, id: int, text: string): (r: seq<Task>)
    ensures |r| == |items|
    ensures forall i :: 0 <= i < |r| ==>
      r[i].id == items[i].id && r[i].state == items[i].state &&
      r[i].description == (if items[i].id == id then text else items[i].description)
  {
    if items == [] then [] else [Rename(items[0], id, text)] + Edit(items[1..], id, text)
  }

  /** Editing an id no task carries leaves the list as it was. */
  lemma EditUnknown(items: seq<Task>, id: int, text: string)
    requires Unknown(items, id)
    ensures Edit(items, id, text) == items
  {
  }

  /** A second edit of the same id overrides the first; so editing is idempotent. */
  lemma EditLastWins(items: seq<Task>, id: int, first: string, second: string)
    ensures Edit(Edit(items, id, first), id, second) == Edit(items, id, second)
  {
  }

  /** Editing and toggling touch different fields, so their order does not matter. */
  lemma EditToggleCommute(items: seq<Task>, edited: int, text: string, toggled: int)
    ensures Edit(Toggle(items, toggled), edited, text) == Toggle(Edit(items, edited, text), toggled)
  {
  }
}
