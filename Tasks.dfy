/** The task record and the three transforms the app applies to its list of
    tasks: append a new task, flip `done` on the tasks with an id, and drop
    the tasks with an id. */
module Tasks {

  /** One to-do item. The id is the text the app renders from the clock when
      the task is created; nothing makes it unique. */
  datatype Task = Task(id: string, title: string, done: bool)

  /** Some task in `ts` carries `id`. */
  predicate HasId(ts: seq<Task>, id: string)
  {
    exists i :: 0 <= i < |ts| && ts[i].id == id
  }

  /** No two tasks of `ts` share an id. */
  predicate IdsDistinct(ts: seq<Task>)
  {
    forall i, j :: 0 <= i < j < |ts| ==> ts[i].id != ts[j].id
  }

  /** `addTask`: the list with a new, not yet done task at its end. */
  function Add(ts: seq<Task>, id: string, title: string): (r: seq<Task>)
    ensures |r| == |ts| + 1
    ensures forall i :: 0 <= i < |ts| ==> r[i] == ts[i]
    ensures r[|ts|].id == id && r[|ts|].title == title && !r[|ts|].done
  {
    ts + [Task(id, title, false)]
  }

  /** One step of the map in `toggleTask`. */
  function Flip(t: Task, id: string): Task
  {
    if t.id == id then t.(done := !t.done) else t
  }

  /** `toggleTask`: every task whose id is `id` has its `done` negated; the
      list keeps its length and order and every id and title. */
  function Toggle(ts: seq<Task>, id: string): (r: seq<Task>)
    ensures |r| == |ts|
    ensures forall i :: 0 <= i < |ts| ==>
      r[i].id == ts[i].id && r[i].title == ts[i].title &&
      r[i].done == (if ts[i].id == id then !ts[i].done else ts[i].done)
    decreases |ts|
  {
    if ts == [] then [] else [Flip(ts[0], id)] + Toggle(ts[1..], id)
  }

  /** `deleteTask`: the tasks whose id differs from `id`, in their order.
      Written as a filter that looks at the last task first. */
  function Delete(ts: seq<Task>, id: string): (r: seq<Task>)
    ensures |r| <= |ts|
    ensures !HasId(r, id)
    ensures forall t :: t in r <==> t in ts && t.id != id
    decreases |ts|
  {
    if ts == [] then []
    else
      var rest := Delete(ts[..|ts| - 1], id);
      var last := ts[|ts| - 1];
      assert ts == ts[..|ts| - 1] + [last];
      if last.id == id then rest else rest + [last]
  }

  /** The positions of `ts` that a delete of `id` keeps, in increasing order. */
  function KeptIndices(ts: seq<Task>, id: string): (ks: seq<int>)
    ensures forall k :: 0 <= k < |ks| ==> 0 <= ks[k] < |ts|
    ensures forall p, q :: 0 <= p < q < |ks| ==> ks[p] < ks[q]
    ensures forall i :: 0 <= i < |ts| ==> (i in ks <==> ts[i].id != id)
    decreases |ts|
  {
    if ts == [] then []
    else
      var rest := KeptIndices(ts[..|ts| - 1], id);
      if ts[|ts| - 1].id == id then rest else rest + [|ts| - 1]
  }

  /** Delete keeps exactly the tasks at the positions KeptIndices lists, in
      that order: it is the order-preserving subsequence of the survivors. */
  lemma {:induction false} DeleteIsOrderedFilter(ts: seq<Task>, id: string)
    ensures |Delete(ts, id)| == |KeptIndices(ts, id)|
    ensures forall k :: 0 <= k < |KeptIndices(ts, id)| ==>
      Delete(ts, id)[k] == ts[KeptIndices(ts, id)[k]]
    decreases |ts|
  {
    if ts != [] {
      var init, last := ts[..|ts| - 1], ts[|ts| - 1];
      DeleteIsOrderedFilter(init, id);
      var r, ks := Delete(init, id), KeptIndices(init, id);
      assert forall i :: 0 <= i < |init| ==> init[i] == ts[i];
      if last.id != id {
        assert Delete(ts, id) == r + [last];
        assert KeptIndices(ts, id) == ks + [|ts| - 1];
      } else {
        assert Delete(ts, id) == r;
        assert KeptIndices(ts, id) == ks;
      }
    }
  }

  /** Toggling the same id twice gives the original list back. */
  lemma ToggleTwice(ts: seq<Task>, id: string)
    ensures Toggle(Toggle(ts, id), id) == ts
  {
    var r := Toggle(Toggle(ts, id), id);
    assert forall i :: 0 <= i < |ts| ==> r[i] == ts[i];
  }

  /** Toggling an id that no task carries changes nothing. */
  lemma ToggleAbsent(ts: seq<Task>, id: string)
    requires !HasId(ts, id)
    ensures Toggle(ts, id) == ts
  {
    var r := Toggle(ts, id);
    assert forall i :: 0 <= i < |ts| ==> r[i] == ts[i];
  }

  /** Toggle acts on every task with the id, not only on the first one. */
  lemma ToggleFlipsEveryMatch(ts: seq<Task>, id: string, i: int, j: int)
    requires 0 <= i < j < |ts| && ts[i].id == id && ts[j].id == id
    ensures Toggle(ts, id)[i].done != ts[i].done
    ensures Toggle(ts, id)[j].done != ts[j].done
  {
  }

  /** Deleting an id that no task carries changes nothing. */
  lemma {:induction false} DeleteAbsent(ts: seq<Task>, id: string)
    requires !HasId(ts, id)
    ensures Delete(ts, id) == ts
    decreases |ts|
  {
    if ts != [] {
      var init := ts[..|ts| - 1];
      assert forall i :: 0 <= i < |init| ==> init[i] == ts[i];
      DeleteAbsent(init, id);
      assert ts[|ts| - 1].id != id;
      assert ts == init + [ts[|ts| - 1]];
    }
  }

  /** Delete distributes over concatenation: the survivors of each part,
      one part after the other. */
  lemma {:induction false} DeleteAppend(a: seq<Task>, b: seq<Task>, id: string)
    ensures Delete(a + b, id) == Delete(a, id) + Delete(b, id)
    decreases |b|
  {
    if b == [] {
      assert a + b == a;
    } else {
      var init := b[..|b| - 1];
      assert (a + b)[..|a + b| - 1] == a + init;
      assert (a + b)[|a + b| - 1] == b[|b| - 1];
      DeleteAppend(a, init, id);
    }
  }

  /** With distinct ids, deleting the id of one task removes that task and
      nothing else, and the others keep their order: deleting B from
      [A, B, C] gives [A, C]. */
  lemma DeleteUnique(before: seq<Task>, t: Task, after: seq<Task>)
    requires IdsDistinct(before + [t] + after)
    ensures Delete(before + [t] + after, t.id) == before + after
  {
    var all := before + [t] + after;
    assert all[|before|] == t;
    assert forall i :: 0 <= i < |before| ==> all[i] == before[i];
    assert forall i :: 0 <= i < |after| ==> all[|before| + 1 + i] == after[i];
    DeleteAppend(before + [t], after, t.id);
    DeleteAppend(before, [t], t.id);
    DeleteAbsent(before, t.id);
    DeleteAbsent(after, t.id);
    assert Delete([t], t.id) == [] by {
      assert [t][..0] == [];
    }
  }

  /** With distinct ids, deleting an id that is present makes the list
      exactly one task shorter. */
  lemma {:induction false} DeleteUniqueShrinksByOne(ts: seq<Task>, id: string)
    requires IdsDistinct(ts) && HasId(ts, id)
    ensures |Delete(ts, id)| == |ts| - 1
  {
    var i :| 0 <= i < |ts| && ts[i].id == id;
    assert ts == ts[..i] + [ts[i]] + ts[i + 1..];
    DeleteUnique(ts[..i], ts[i], ts[i + 1..]);
  }

  /** Adding a task under an id no task carries keeps the ids distinct. */
  lemma AddKeepsDistinct(ts: seq<Task>, id: string, title: string)
    requires IdsDistinct(ts) && !HasId(ts, id)
    ensures IdsDistinct(Add(ts, id, title))
  {
    var r := Add(ts, id, title);
    forall i, j | 0 <= i < j < |r| ensures r[i].id != r[j].id {
      if j == |ts| {
        assert r[i] == ts[i];
      }
    }
  }

  /** Adding a task under an id that is already taken leaves two tasks with
      that id: uniqueness rests on the id being fresh. */
  lemma AddReusedIdDuplicates(ts: seq<Task>, id: string, title: string)
    requires HasId(ts, id)
    ensures !IdsDistinct(Add(ts, id, title))
  {
    var i :| 0 <= i < |ts| && ts[i].id == id;
    var r := Add(ts, id, title);
    assert r[i].id == r[|ts|].id;
  }

  /** Toggle keeps distinct ids distinct. */
  lemma ToggleKeepsDistinct(ts: seq<Task>, id: string)
    requires IdsDistinct(ts)
    ensures IdsDistinct(Toggle(ts, id))
  {
  }

  /** Delete keeps distinct ids distinct. */
  lemma DeleteKeepsDistinct(ts: seq<Task>, id: string)
    requires IdsDistinct(ts)
    ensures IdsDistinct(Delete(ts, id))
  {
    DeleteIsOrderedFilter(ts, id);
    var r, ks := Delete(ts, id), KeptIndices(ts, id);
    forall p, q | 0 <= p < q < |r| ensures r[p].id != r[q].id {
      assert r[p] == ts[ks[p]] && r[q] == ts[ks[q]] && ks[p] < ks[q];
    }
  }
}
