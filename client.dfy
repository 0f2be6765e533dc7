/**
 * The client's state and its handlers, without rendering. Every network call is
 * awaited inside a `try`, so its outcome is a parameter: the response data, or
 * a rejection after which the handler changes nothing.
 */
module Client {
  import opened Wrappers
  import opened Strings

  /** A task as the client holds it. */
  datatype Task = Task(id: int, title: string, completed: bool)

  /** The outcome of an awaited axios call. */
  datatype Net<+T> = Ok(data: T) | Failed

  /** The body of POST /api/login or /api/register. */
  datatype Credentials = Credentials(email: string, password: string)

  /** A PUT /api/tasks/:id request: the id in the path, the body's title and completed. */
  datatype TaskUpdate = TaskUpdate(id: int, title: string, completed: bool)

  // ---------------------------------------------------------------------------
  // The list updates

  /** `tasks.find(t => t.id === id)`. */
  function Find(tasks: seq<Task>, id: int): (r: Option<Task>)
    ensures r.None? <==> forall t :: t in tasks ==> t.id != id
    ensures r.Some? ==> r.value in tasks && r.value.id == id
  {
    if tasks == [] then None
    else if tasks[0].id == id then Some(tasks[0])
    else
      assert forall t :: t in tasks ==> t == tasks[0] || t in tasks[1..];
      Find(tasks[1..], id)
  }

  /** The entry `find` returns is the first one with the id. */
  lemma {:induction false} FindFirst(tasks: seq<Task>, id: int, i: nat)
    requires i < |tasks| && tasks[i].id == id
    ensures Find(tasks, id).Some?
    ensures exists k :: 0 <= k <= i && tasks[k] == Find(tasks, id).value &&
                        forall j :: 0 <= j < k ==> tasks[j].id != id
    decreases i
  {
    assert tasks[i] in tasks;
    if tasks[0].id != id {
      FindFirst(tasks[1..], id, i - 1);
      var k :| 0 <= k <= i - 1 && tasks[1..][k] == Find(tasks[1..], id).value &&
               forall j :: 0 <= j < k ==> tasks[1..][j].id != id;
      assert tasks[k + 1] == tasks[1..][k];
      forall j | 0 <= j < k + 1 ensures tasks[j].id != id {
        if j > 0 { assert tasks[j] == tasks[1..][j - 1]; }
      }
    }
  }

  /** `tasks.map(t => t.id === id ? { ...t, completed: !completed } : t)`. */
  function Toggled(tasks: seq<Task>, id: int, completed: bool): (r: seq<Task>)
    ensures |r| == |tasks|
  {
    if tasks == [] then []
    else
      var t := tasks[0];
      [if t.id == id then t.(completed := !completed) else t] + Toggled(tasks[1..], id, completed)
  }

  /** Only entries with the id change, and only their `completed`; ids, titles and order are kept. */
  lemma {:induction false} ToggledAt(tasks: seq<Task>, id: int, completed: bool)
    ensures forall i :: 0 <= i < |tasks| ==>
              Toggled(tasks, id, completed)[i] ==
              (if tasks[i].id == id then tasks[i].(completed := !completed) else tasks[i])
    decreases |tasks|
  {
    if tasks != [] {
      ToggledAt(tasks[1..], id, completed);
      var r := Toggled(tasks, id, completed);
      forall i | 0 < i < |tasks| ensures r[i] == Toggled(tasks[1..], id, completed)[i - 1] {
      }
    }
  }

  /** `tasks.filter(t => t.id !== id)`. */
  function Removed(tasks: seq<Task>, id: int): (r: seq<Task>)
    ensures |r| <= |tasks|
  {
    if tasks == [] then []
    else if tasks[0].id == id then Removed(tasks[1..], id)
    else [tasks[0]] + Removed(tasks[1..], id)
  }

  /** `tasks.map(t => t.id === id ? { ...t, title } : t)`. */
  function Retitled(tasks: seq<Task>, id: int, title: string): (r: seq<Task>)
    ensures |r| == |tasks|
  {
    if tasks == [] then []
    else
      var t := tasks[0];
      [if t.id == id then t.(title := title) else t] + Retitled(tasks[1..], id, title)
  }

  /** Only entries with the id change, and only their title; ids, `completed` and order are kept. */
  lemma {:induction false} RetitledAt(tasks: seq<Task>, id: int, title: string)
    ensures forall i :: 0 <= i < |tasks| ==>
              Retitled(tasks, id, title)[i] == (if tasks[i].id == id then tasks[i].(title := title) else tasks[i])
    decreases |tasks|
  {
    if tasks != [] {
      RetitledAt(tasks[1..], id, title);
      var r := Retitled(tasks, id, title);
      forall i | 0 < i < |tasks| ensures r[i] == Retitled(tasks[1..], id, title)[i - 1] {
      }
    }
  }

  /**
   * The PUT that `toggleTask(id, completed)` sends: none when no entry has the
   * id (reading `task.title` throws first), else the entry's title and `!completed`.
   */
  function ToggleRequest(tasks: seq<Task>, id: int, completed: bool): (r: Option<TaskUpdate>)
    ensures r.None? <==> forall t :: t in tasks ==> t.id != id
    ensures r.Some? ==> r.value.id == id && r.value.completed == !completed &&
                        exists t :: t in tasks && t.id == id && r.value.title == t.title
  {
    match Find(tasks, id)
    case None => None
    case Some(t) => Some(TaskUpdate(id, t.title, !completed))
  }

  /**
   * The PUT that `saveEdit(id)` sends: none for blank edit text or when no
   * entry has the id, else the edit text and the entry's own `completed`.
   */
  function EditRequest(tasks: seq<Task>, id: int, text: string): (r: Option<TaskUpdate>)
    ensures r.None? <==> IsBlank(text) || forall t :: t in tasks ==> t.id != id
    ensures r.Some? ==> r.value.id == id && r.value.title == text &&
                        exists t :: t in tasks && t.id == id && r.value.completed == t.completed
  {
    TrimEmptyIffBlank(text);
    if Trim(text) == "" then None
    else match Find(tasks, id)
      case None => None
      case Some(t) => Some(TaskUpdate(id, text, t.completed))
  }

  /** Deleting removes every entry with the id and keeps every other entry. */
  lemma {:induction false} RemovedMembers(tasks: seq<Task>, id: int)
    ensures forall t :: t in Removed(tasks, id) <==> t in tasks && t.id != id
    decreases |tasks|
  {
    if tasks != [] {
      RemovedMembers(tasks[1..], id);
      assert tasks == [tasks[0]] + tasks[1..];
    }
  }

  /** Deleting keeps the surviving entries in their original order. */
  lemma {:induction false} RemovedDistributes(a: seq<Task>, b: seq<Task>, id: int)
    ensures Removed(a + b, id) == Removed(a, id) + Removed(b, id)
    decreases |a|
  {
    if a == [] {
      assert a + b == b;
    } else {
      var ab := a + b;
      assert ab[0] == a[0] && ab[1..] == a[1..] + b;
      RemovedDistributes(a[1..], b, id);
      if a[0].id != id {
        assert [a[0]] + (Removed(a[1..], id) + Removed(b, id))
            == ([a[0]] + Removed(a[1..], id)) + Removed(b, id);
      }
    }
  }

  /** Deleting an id no entry has leaves the list as it was. */
  lemma {:induction false} RemovedAbsent(tasks: seq<Task>, id: int)
    requires forall t :: t in tasks ==> t.id != id
    ensures Removed(tasks, id) == tasks
    decreases |tasks|
  {
    if tasks != [] {
      assert tasks[0] in tasks;
      assert forall t :: t in tasks[1..] ==> t in tasks;
      RemovedAbsent(tasks[1..], id);
    }
  }

  /** The filter drops at least one entry exactly when some entry has the id. */
  lemma {:induction false} RemovedShrinks(tasks: seq<Task>, id: int)
    ensures |Removed(tasks, id)| < |tasks| <==> exists t :: t in tasks && t.id == id
    decreases |tasks|
  {
    if tasks != [] {
      RemovedShrinks(tasks[1..], id);
      assert tasks[0] in tasks;
      assert forall t :: t in tasks <==> t == tasks[0] || t in tasks[1..];
    }
  }

  /** Toggling back with the flag just set restores the list, when the flag was each entry's own. */
  lemma ToggleTwice(tasks: seq<Task>, id: int, completed: bool)
    requires forall t :: t in tasks && t.id == id ==> t.completed == completed
    ensures Toggled(Toggled(tasks, id, completed), id, !completed) == tasks
  {
    var once := Toggled(tasks, id, completed);
    var twice := Toggled(once, id, !completed);
    ToggledAt(tasks, id, completed);
    ToggledAt(once, id, !completed);
    forall i | 0 <= i < |tasks| ensures twice[i] == tasks[i] {
      assert tasks[i] in tasks;
    }
  }

  /** Of two edits of the same entry, the later title wins. */
  lemma RetitleLastWins(tasks: seq<Task>, id: int, first: string, second: string)
    ensures Retitled(Retitled(tasks, id, first), id, second) == Retitled(tasks, id, second)
  {
    var once := Retitled(tasks, id, first);
    var a := Retitled(once, id, second);
    var b := Retitled(tasks, id, second);
    RetitledAt(tasks, id, first);
    RetitledAt(once, id, second);
    RetitledAt(tasks, id, second);
    forall i | 0 <= i < |tasks| ensures a[i] == b[i] {
    }
  }

  // ---------------------------------------------------------------------------
  // The component state

  class App {
    var token: Option<string>
    var tasks: seq<Task>
    var newTask: string
    var email: string
    var password: string
    var editingId: Option<int>
    var editText: string

    /** The first render: the token comes from local storage, everything else is empty. */
    constructor(stored: Option<string>)
      ensures token == stored && tasks == [] && newTask == "" && email == "" && password == ""
      ensures editingId == None && editText == ""
    {
      token := stored;
      tasks := [];
      newTask, email, password := "", "", "";
      editingId := None;
      editText := "";
    }

    /** `fetchTasks`: on success the list becomes the server's rows. */
    method FetchTasks(response: Net<seq<Task>>)
      modifies this`tasks
      ensures tasks == (if response.Ok? then response.data else old(tasks))
    {
      if response.Ok? {
        tasks := response.data;
      }
    }

    /**
     * `handleAuth`: with an empty email or password no request is sent; on
     * success the token is stored and both fields are cleared.
     */
    method HandleAuth(response: Net<string>) returns (sent: Option<Credentials>)
      modifies this`token, this`email, this`password
      ensures old(email) == "" || old(password) == "" ==>
                sent == None && token == old(token) && email == old(email) && password == old(password)
      ensures old(email) != "" && old(password) != "" ==> sent == Some(Credentials(old(email), old(password)))
      ensures sent.Some? && response.Ok? ==> token == Some(response.data) && email == "" && password == ""
      ensures response.Failed? ==> token == old(token) && email == old(email) && password == old(password)
    {
      if email == "" || password == "" {
        return None;
      }
      sent := Some(Credentials(email, password));
      if response.Ok? {
        token := Some(response.data);
        email, password := "", "";
      }
    }

    /**
     * `addTask`: whitespace-only input sends nothing; on success the server's
     * task is appended after the existing entries and the input is cleared.
     */
    method AddTask(response: Net<Task>) returns (sent: Option<string>)
      modifies this`tasks, this`newTask
      ensures IsBlank(old(newTask)) ==> sent == None && tasks == old(tasks) && newTask == old(newTask)
      ensures !IsBlank(old(newTask)) ==> sent == Some(old(newTask))
      ensures sent.Some? && response.Ok? ==> tasks == old(tasks) + [response.data] && newTask == ""
      ensures response.Failed? ==> tasks == old(tasks) && newTask == old(newTask)
    {
      TrimEmptyIffBlank(newTask);
      if Trim(newTask) == "" {
        return None;
      }
      sent := Some(newTask);
      if response.Ok? {
        tasks := tasks + [response.data];
        newTask := "";
      }
    }

    /** `toggleTask`: on success the entries with the id get `completed := !completed`. */
    method ToggleTask(id: int, completed: bool, response: Net<()>) returns (sent: Option<TaskUpdate>)
      modifies this`tasks
      ensures sent == ToggleRequest(old(tasks), id, completed)
      ensures tasks == (if sent.Some? && response.Ok? then Toggled(old(tasks), id, completed) else old(tasks))
    {
      sent := ToggleRequest(tasks, id, completed);
      if sent.Some? && response.Ok? {
        tasks := Toggled(tasks, id, completed);
      }
    }

    /** `deleteTask`: on success every entry with the id is dropped. */
    method DeleteTask(id: int, response: Net<()>)
      modifies this`tasks
      ensures tasks == (if response.Ok? then Removed(old(tasks), id) else old(tasks))
    {
      if response.Ok? {
        tasks := Removed(tasks, id);
      }
    }

    /** `startEdit`: enters edit mode for one entry with its current title. */
    method StartEdit(id: int, title: string)
      modifies this`editingId, this`editText
      ensures editingId == Some(id) && editText == title
    {
      editingId := Some(id);
      editText := title;
    }

    /**
     * `saveEdit`: on success the entries with the id take the new title and keep
     * `completed`, and edit mode ends; otherwise nothing changes.
     */
    method SaveEdit(id: int, response: Net<()>) returns (sent: Option<TaskUpdate>)
      modifies this`tasks, this`editingId, this`editText
      ensures sent == EditRequest(old(tasks), id, old(editText))
      ensures sent.Some? && response.Ok? ==>
                tasks == Retitled(old(tasks), id, old(editText)) && editingId == None && editText == ""
      ensures !(sent.Some? && response.Ok?) ==>
                tasks == old(tasks) && editingId == old(editingId) && editText == old(editText)
    {
      sent := EditRequest(tasks, id, editText);
      if sent.Some? && response.Ok? {
        tasks := Retitled(tasks, id, editText);
        editingId, editText := None, "";
      }
    }

    /** `cancelEdit`. */
    method CancelEdit()
      modifies this`editingId, this`editText
      ensures editingId == None && editText == ""
    {
      editingId := None;
      editText := "";
    }

    /** `logout`: forgets the token and empties the list. */
    method Logout()
      modifies this`token, this`tasks
      ensures token == None && tasks == []
    {
      token := None;
      tasks := [];
    }
  }
}
