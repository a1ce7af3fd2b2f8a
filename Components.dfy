/** The two stateful components: `App`, which owns the task list and replaces
    it on every add, toggle and delete, and `TaskInput`, which owns the text
    of the field and forwards a trimmed, non-blank title to the app. */
module Components {
  import opened Text
  import opened Tasks
  import opened Entry

  /** The top-level component and its `tasks` state. */
  class App {
    var tasks: seq<Task>

    /** The list starts empty. */
    constructor ()
      ensures tasks == []
    {
      tasks := [];
    }

    /** `addTask`; `clock` stands for `Date.now().toString()` when it runs. */
    method AddTask(title: string, clock: string)
      modifies this
      ensures tasks == Add(old(tasks), clock, title)
      ensures IdsDistinct(old(tasks)) && !HasId(old(tasks), clock) ==> IdsDistinct(tasks)
    {
      if IdsDistinct(tasks) && !HasId(tasks, clock) { AddKeepsDistinct(tasks, clock, title); }
      tasks := Add(tasks, clock, title);
    }

    /** `toggleTask`. */
    method ToggleTask(id: string)
      modifies this
      ensures tasks == Toggle(old(tasks), id)
      ensures IdsDistinct(old(tasks)) ==> IdsDistinct(tasks)
      ensures !HasId(old(tasks), id) ==> tasks == old(tasks)
    {
      if IdsDistinct(tasks) { ToggleKeepsDistinct(tasks, id); }
      if !HasId(tasks, id) { ToggleAbsent(tasks, id); }
      tasks := Toggle(tasks, id);
    }

    /** `deleteTask`. */
    method DeleteTask(id: string)
      modifies this
      ensures tasks == Delete(old(tasks), id)
      ensures IdsDistinct(old(tasks)) ==> IdsDistinct(tasks)
      ensures !HasId(old(tasks), id) ==> tasks == old(tasks)
      ensures IdsDistinct(old(tasks)) && HasId(old(tasks), id) ==> |tasks| == |old(tasks)| - 1
    {
      if IdsDistinct(tasks) {
        DeleteKeepsDistinct(tasks, id);
        if HasId(tasks, id) { DeleteUniqueShrinksByOne(tasks, id); }
      }
      if !HasId(tasks, id) { DeleteAbsent(tasks, id); }
      tasks := Delete(tasks, id);
    }
  }

  /** The form component; `onAdd` is the app's `addTask`. */
  class TaskInput {
    var text: string
    const onAdd: App

    /** The field starts empty. */
    constructor (onAdd: App)
      ensures this.onAdd == onAdd && text == ""
    {
      this.onAdd := onAdd;
      text := "";
    }

    /** The user edits the field. */
    method ChangeText(t: string)
      modifies this
      ensures text == t
    {
      text := t;
    }

    /** `handleAdd`: trim the text; if nothing is left, return before any
        state changes; otherwise hand the trimmed title to the app and clear
        the field. */
    method HandleAdd(clock: string)
      modifies this, onAdd
      ensures Form(onAdd.tasks, text) == Submit(Form(old(onAdd.tasks), old(text)), clock)
      ensures IsBlank(old(text)) ==> onAdd.tasks == old(onAdd.tasks) && text == old(text)
      ensures !IsBlank(old(text)) ==>
        onAdd.tasks == Add(old(onAdd.tasks), clock, Trim(old(text))) && text == ""
    {
      var trimmed := Trim(text);
      if trimmed == [] {
        return;
      }
      onAdd.AddTask(trimmed, clock);
      text := "";
    }
  }

  /** The list values the session below passes through. */
  lemma WashDishesSteps(clock: string)
    ensures Trim("Wash dishes") == "Wash dishes" && !IsBlank("Wash dishes")
    ensures Add([], clock, "Wash dishes") == [Task(clock, "Wash dishes", false)]
    ensures Toggle([Task(clock, "Wash dishes", false)], clock) == [Task(clock, "Wash dishes", true)]
    ensures Delete([Task(clock, "Wash dishes", true)], clock) == []
  {
    assert [] + "Wash dishes" + [] == "Wash dishes";
    TrimOfPadded([], "Wash dishes", []);
    assert [Task(clock, "Wash dishes", true)][..0] == [];
  }

  /** A whole session through both components: a task is typed and added,
      toggled to done, then deleted, leaving the list empty again. */
  method WashDishesSession(clock: string) returns (added: seq<Task>, toggled: seq<Task>, deleted: seq<Task>)
    ensures added == [Task(clock, "Wash dishes", false)]
    ensures toggled == [Task(clock, "Wash dishes", true)]
    ensures deleted == []
  {
    WashDishesSteps(clock);
    var app := new App();
    var input := new TaskInput(app);
    input.ChangeText("Wash dishes");
    input.HandleAdd(clock);
    assert app.tasks == Add([], clock, "Wash dishes");
    added := app.tasks;
    app.ToggleTask(clock);
    toggled := app.tasks;
    app.DeleteTask(clock);
    deleted := app.tasks;
  }
}
