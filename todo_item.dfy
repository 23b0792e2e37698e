/**
 The `TodoItem` component's state and the transitions its handlers make on it.
 The network is not part of the model: each handler takes the server's reply
 as a parameter and returns the request it issues, so that "no request is
 made" is visible in its contract.
 */
module TodoItemComponent {
  import JsString
  import opened Tasks

  /** What a request yields: the decoded response body, or a failure thrown by
      `fetch` or by `response.json()`. */
  datatype Reply<T> = Answered(body: T) | Threw

  /** The requests the component sends to the task API. A `Post` or `Put` body
      carries the title and nothing else. */
  datatype Request = List | Post(title: string) | Put(id: int, title: string) | Delete(id: int)

  /** `newTask.trim() === ""` */
  predicate IsBlank(s: string) {
    JsString.Trim(s) == ""
  }

  class TodoItem {
    /** the rows shown, newest first as the server lists them */
    var tasks: seq<Task>
    /** the text of the add box */
    var newTask: string
    /** the text of the edit box */
    var editTask: string
    /** the position of the row being edited, or none */
    var editIndex: Option<nat>

    constructor ()
      ensures tasks == [] && newTask == "" && editTask == "" && editIndex == None
    {
      tasks := [];
      newTask := "";
      editTask := "";
      editIndex := None;
    }

    /** `fetchTodos`, run once when the component mounts: the server's list
        replaces the local one wholesale. It has no `catch`, so a failure leaves
        the state as it was. */
    method LoadTodos(reply: Reply<seq<Task>>) returns (sent: Request)
      modifies this
      ensures sent == List
      ensures reply.Answered? ==> tasks == reply.body
      ensures reply.Threw? ==> tasks == old(tasks)
      ensures newTask == old(newTask) && editTask == old(editTask) && editIndex == old(editIndex)
    {
      sent := List;
      if reply.Answered? {
        tasks := reply.body;
      }
    }

    /** The add box's `onChange`. */
    method TypeNewTask(text: string)
      modifies this
      ensures newTask == text
      ensures tasks == old(tasks) && editTask == old(editTask) && editIndex == old(editIndex)
    {
      newTask := text;
    }

    /** The edit box's `onChange`. */
    method TypeEditTask(text: string)
      modifies this
      ensures editTask == text
      ensures tasks == old(tasks) && newTask == old(newTask) && editIndex == old(editIndex)
    {
      editTask := text;
    }

    /** `handleAdd`: a blank add box sends nothing and changes nothing; otherwise
        the untrimmed text is posted and the record the server returns goes in
        front of the list, after which the add box is cleared. A failure is only
        logged. */
    method HandleAdd(reply: Reply<Task>) returns (sent: Option<Request>)
      modifies this
      ensures sent == None <==> IsBlank(old(newTask))
      ensures sent != None ==> sent == Some(Post(old(newTask)))
      ensures sent != None && reply.Answered? ==>
                tasks == [reply.body] + old(tasks) && newTask == ""
      ensures sent == None || reply.Threw? ==> tasks == old(tasks) && newTask == old(newTask)
      ensures editTask == old(editTask) && editIndex == old(editIndex)
    {
      if JsString.Trim(newTask) == "" {
        return None;
      }
      sent := Some(Post(newTask));
      if reply.Answered? {
        tasks := [reply.body] + tasks;
        newTask := "";
      }
    }

    /** `toggleComplete`: flips `completed` of one row, locally only; no
        request is sent. */
    method ToggleComplete(index: int)
      modifies this
      ensures tasks == ToggleAt(old(tasks), index)
      ensures newTask == old(newTask) && editTask == old(editTask) && editIndex == old(editIndex)
    {
      tasks := ToggleAt(tasks, index);
    }

    /** `handleEdit`: loads the row's title into the edit box and marks the row
        as being edited. The Edit button is rendered only for a row that is not
        completed and not already being edited. */
    method HandleEdit(index: nat)
      requires index < |tasks| && !tasks[index].completed && editIndex != Some(index)
      modifies this
      ensures tasks == old(tasks) && newTask == old(newTask)
      ensures editTask == tasks[index].title && editIndex == Some(index)
    {
      editTask := tasks[index].title;
      editIndex := Some(index);
    }

    /** `handleSave`: puts the edit box's text under the edited row's id; every
        row with that id becomes exactly the record the server returns (so a
        local completion toggle on it is dropped) and edit mode ends. A failure
        is only logged. The Save button is rendered only on the row whose
        position is `editIndex`. */
    method HandleSave(reply: Reply<Task>) returns (sent: Request)
      requires editIndex.Some? && editIndex.value < |tasks|
      modifies this
      ensures sent == Put(old(tasks)[old(editIndex).value].id, old(editTask))
      ensures reply.Answered? ==>
                tasks == ReplaceById(old(tasks), sent.id, reply.body)
                && tasks[old(editIndex).value] == reply.body
                && editIndex == None
      ensures reply.Threw? ==> tasks == old(tasks) && editIndex == old(editIndex)
      ensures newTask == old(newTask) && editTask == old(editTask)
    {
      var id := tasks[editIndex.value].id;
      sent := Put(id, editTask);
      if reply.Answered? {
        tasks := ReplaceById(tasks, id, reply.body);
        editIndex := None;
      }
    }

    /** `handleDelete`: asks the server to delete `id` and, if the response is
        ok, drops every row with that id. A response that is not ok is only
        logged; a thrown failure is not caught and leaves the state as it was.
        The edit position is left alone either way. */
    method HandleDelete(id: int, reply: Reply<bool>) returns (sent: Request)
      modifies this
      ensures sent == Delete(id)
      ensures reply == Answered(true) ==> tasks == RemoveById(old(tasks), id)
      ensures reply != Answered(true) ==> tasks == old(tasks)
      ensures newTask == old(newTask) && editTask == old(editTask) && editIndex == old(editIndex)
    {
      sent := Delete(id);
      if reply == Answered(true) {
        tasks := RemoveById(tasks, id);
      }
    }
  }

  /** Editing a row and saving it with the server's copy rewrites that row and
      nothing else, provided ids are unique. */
  method EditThenSave(item: TodoItem, k: nat, title: string, updated: Task) returns (sent: Request)
    requires UniqueIds(item.tasks) && k < |item.tasks|
    requires !item.tasks[k].completed && item.editIndex != Some(k)
    modifies item
    ensures sent == Put(old(item.tasks[k].id), title)
    ensures item.tasks == old(item.tasks)[k := updated]
    ensures item.editIndex == None && item.editTask == title && item.newTask == old(item.newTask)
  {
    item.HandleEdit(k);
    item.TypeEditTask(title);
    sent := item.HandleSave(Answered(updated));
    ReplaceByIdAtUnique(old(item.tasks), k, updated);
  }

  /** Deleting a row in front of the one being edited leaves `editIndex` where it
      was, so the edit box moves to the next task, whose id the next save uses. */
  method DeleteWhileEditing(item: TodoItem, j: nat, k: nat)
    requires UniqueIds(item.tasks) && j < k < |item.tasks| - 1
    requires !item.tasks[k].completed && item.editIndex != Some(k)
    modifies item
    ensures item.editIndex == Some(k) && k < |item.tasks|
    ensures item.tasks[k] == old(item.tasks[k + 1]) && item.tasks[k].id != old(item.tasks[k].id)
  {
    item.HandleEdit(k);
    var _ := item.HandleDelete(item.tasks[j].id, Answered(true));
    DeleteShiftsEditedRow(old(item.tasks), j, k);
  }
}
