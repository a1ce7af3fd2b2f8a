/** The input gate of the task form (`handleAdd`): the typed text is trimmed;
    blank text is ignored, anything else becomes the title of a new task and
    the field is cleared. */
module Entry {
  import opened Text
  import opened Tasks

  /** The state the gate acts on: the task list and the text in the field. */
  datatype Form = Form(tasks: seq<Task>, text: string)

  /** One press of the add button (or the return key) while the field holds
      `f.text`; `clock` is the id the app would read from the clock. */
  function Submit(f: Form, clock: string): (r: Form)
    ensures IsBlank(f.text) ==> r == f
    ensures !IsBlank(f.text) ==>
      r.text == "" && |r.tasks| == |f.tasks| + 1 &&
      r.tasks[..|f.tasks|] == f.tasks &&
      r.tasks[|f.tasks|] == Task(clock, Trim(f.text), false)
  {
    var trimmed := Trim(f.text);
    if trimmed == [] then f
    else
      var tasks := Add(f.tasks, clock, trimmed);
      assert tasks[..|f.tasks|] == f.tasks;
      Form(tasks, "")
  }

  /** A title the gate can produce: not empty, no white space at either end. */
  predicate IsTitle(s: string)
  {
    s != [] && IsTrimmed(s)
  }

  /** Every task in the list carries a title the gate can produce. */
  predicate TitlesValid(ts: seq<Task>)
  {
    forall i :: 0 <= i < |ts| ==> IsTitle(ts[i].title)
  }

  /** The title a non-blank submission stores is a proper title and is
      unchanged by a second trim. */
  lemma SubmitTitleIsTrimmed(f: Form, clock: string)
    requires !IsBlank(f.text)
    ensures IsTitle(Submit(f, clock).tasks[|f.tasks|].title)
    ensures Trim(Submit(f, clock).tasks[|f.tasks|].title) == Submit(f, clock).tasks[|f.tasks|].title
  {
    TrimIdempotent(f.text);
  }

  /** Submitting keeps every title of the list a proper title; toggling and
      deleting do too. */
  lemma SubmitKeepsTitlesValid(f: Form, clock: string)
    requires TitlesValid(f.tasks)
    ensures TitlesValid(Submit(f, clock).tasks)
  {
  }

  lemma ToggleKeepsTitlesValid(ts: seq<Task>, id: string)
    requires TitlesValid(ts)
    ensures TitlesValid(Toggle(ts, id))
  {
  }

  lemma DeleteKeepsTitlesValid(ts: seq<Task>, id: string)
    requires TitlesValid(ts)
    ensures TitlesValid(Delete(ts, id))
  {
    DeleteIsOrderedFilter(ts, id);
    var r, ks := Delete(ts, id), KeptIndices(ts, id);
    forall k | 0 <= k < |r| ensures IsTitle(r[k].title) {
      assert r[k] == ts[ks[k]];
    }
  }

  /** One use of the form: the text typed into the field, and the clock
      reading at the moment the button is pressed. */
  datatype Attempt = Attempt(text: string, clock: string)

  /** The task list after a series of attempts, each typed into the field and
      submitted in turn. */
  function SubmitAll(ts: seq<Task>, attempts: seq<Attempt>): seq<Task>
    decreases |attempts|
  {
    if attempts == [] then ts
    else SubmitAll(Submit(Form(ts, attempts[0].text), attempts[0].clock).tasks, attempts[1..])
  }

  /** How many of the attempts hold text that is not blank. */
  function NonBlankCount(attempts: seq<Attempt>): nat
    decreases |attempts|
  {
    if attempts == [] then 0
    else (if IsBlank(attempts[0].text) then 0 else 1) + NonBlankCount(attempts[1..])
  }

  /** No clock reading of a non-blank attempt was used before or by another
      non-blank attempt. A blank attempt never reads the clock, since the
      clock is read only inside `addTask`. */
  predicate FreshClocks(ts: seq<Task>, attempts: seq<Attempt>)
  {
    && (forall k :: 0 <= k < |attempts| && !IsBlank(attempts[k].text) ==>
          !HasId(ts, attempts[k].clock))
    && (forall k, m :: 0 <= k < m < |attempts| && !IsBlank(attempts[k].text) && !IsBlank(attempts[m].text) ==>
          attempts[k].clock != attempts[m].clock)
  }

  /** Each non-blank attempt adds exactly one task, each blank one none. */
  lemma {:induction false} SubmitAllLength(ts: seq<Task>, attempts: seq<Attempt>)
    ensures |SubmitAll(ts, attempts)| == |ts| + NonBlankCount(attempts)
    decreases |attempts|
  {
    if attempts != [] {
      SubmitAllLength(Submit(Form(ts, attempts[0].text), attempts[0].clock).tasks, attempts[1..]);
    }
  }

  /** Ids stay distinct across a series of attempts when every clock reading
      is fresh: the source's uniqueness rests on the clock never repeating. */
  lemma {:induction false} SubmitAllKeepsDistinct(ts: seq<Task>, attempts: seq<Attempt>)
    requires IdsDistinct(ts) && FreshClocks(ts, attempts)
    ensures IdsDistinct(SubmitAll(ts, attempts))
    decreases |attempts|
  {
    if attempts != [] {
      var a := attempts[0];
      var next := Submit(Form(ts, a.text), a.clock).tasks;
      if !IsBlank(a.text) {
        AddKeepsDistinct(ts, a.clock, Trim(a.text));
        assert next == Add(ts, a.clock, Trim(a.text));
      }
      assert FreshClocks(next, attempts[1..]) by {
        forall k | 0 <= k < |attempts[1..]| && !IsBlank(attempts[1..][k].text)
          ensures !HasId(next, attempts[1..][k].clock)
        {
          var c := attempts[1..][k].clock;
          assert attempts[1..][k] == attempts[k + 1];
          assert !HasId(ts, c);
          if IsBlank(a.text) {
            assert next == ts;
          } else {
            assert c != a.clock;
            assert forall i :: 0 <= i < |ts| ==> next[i] == ts[i];
          }
        }
        forall k, m | 0 <= k < m < |attempts[1..]| && !IsBlank(attempts[1..][k].text) && !IsBlank(attempts[1..][m].text)
          ensures attempts[1..][k].clock != attempts[1..][m].clock
        {
          assert attempts[1..][k] == attempts[k + 1] && attempts[1..][m] == attempts[m + 1];
        }
      }
      SubmitAllKeepsDistinct(next, attempts[1..]);
    }
  }

  /** A series of attempts keeps every title a proper title. */
  lemma {:induction false} SubmitAllKeepsTitlesValid(ts: seq<Task>, attempts: seq<Attempt>)
    requires TitlesValid(ts)
    ensures TitlesValid(SubmitAll(ts, attempts))
    decreases |attempts|
  {
    if attempts != [] {
      SubmitKeepsTitlesValid(Form(ts, attempts[0].text), attempts[0].clock);
      SubmitAllKeepsTitlesValid(Submit(Form(ts, attempts[0].text), attempts[0].clock).tasks, attempts[1..]);
    }
  }

  /** Empty and all-space text never changes the form. */
  lemma BlankSubmissionsIgnored(ts: seq<Task>, clock: string)
    ensures Submit(Form(ts, ""), clock) == Form(ts, "")
    ensures Submit(Form(ts, "   "), clock) == Form(ts, "   ")
  {
  }

  /** Typing "  Buy milk  " and pressing add stores the title "Buy milk". */
  lemma SubmitBuyMilk(ts: seq<Task>, clock: string)
    ensures Submit(Form(ts, "  Buy milk  "), clock) == Form(ts + [Task(clock, "Buy milk", false)], "")
  {
    TrimBuyMilk();
  }
}
