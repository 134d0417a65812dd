/**
 * The task-list store of core/task_manager.py: one document per task list,
 * holding an ordered list of tasks, each with its own list of comments.
 */
module Tasks {
  import opened Common

  datatype Comment = Comment(comment: string, timestamp: string)

  /** A value stored under a task key. */
  datatype Value = Text(text: string) | CommentList(comments: seq<Comment>)

  /** A task object: its "task_id" and the rest of its keys. */
  datatype Task = Task(taskId: string, fields: map<string, Value>)

  /** The whole task-list document. */
  datatype TaskList = TaskList(
    version: string, name: string, association: string,
    createdBy: string, createdOn: string, tasks: seq<Task>)

  /** `task_lists/<name>.json` as the constructor finds it. */
  datatype TaskFile =
    | Absent           // `os.path.exists` is False
    | Unreadable       // exists, but opening or reading it raises IOError
    | Corrupt          // exists, but `json.load` raises JSONDecodeError
    | Stored(doc: TaskList)

  const Version: string := "1.0.0"

  /** The "task_id" is held apart from the other keys, so it cannot also be one of them. */
  predicate WellFormed(doc: TaskList)
  {
    forall t :: t in doc.tasks ==> "task_id" !in t.fields
  }

  predicate UniqueIds(tasks: seq<Task>)
  {
    forall i, j :: 0 <= i < j < |tasks| ==> tasks[i].taskId != tasks[j].taskId
  }

  /** The task `add_task` builds. */
  function NewTask(taskId: string, subject: string, description: string, priority: string,
                   status: string, dateCreated: string): (t: Task)
    ensures t.taskId == taskId && "task_id" !in t.fields
    ensures t.fields.Keys == {"subject", "description", "status", "date_created", "priority", "comments"}
    ensures t.fields["comments"] == CommentList([])
    ensures forall k :: k in t.fields && k != "comments" ==> t.fields[k].Text?
  {
    Task(taskId, map[
      "subject" := Text(subject),
      "description" := Text(description),
      "status" := Text(status),
      "date_created" := Text(dateCreated),
      "priority" := Text(priority),
      "comments" := CommentList([])])
  }

  /** The position of the first task with the given id, as a front-to-back scan finds it. */
  function FirstIndex(tasks: seq<Task>, taskId: string): (r: Option<nat>)
    ensures r.None? <==> forall k :: 0 <= k < |tasks| ==> tasks[k].taskId != taskId
    ensures r.Some? ==> r.value < |tasks| && tasks[r.value].taskId == taskId &&
                        forall k :: 0 <= k < r.value ==> tasks[k].taskId != taskId
  {
    if tasks == [] then None
    else if tasks[0].taskId == taskId then Some(0)
    else match FirstIndex(tasks[1..], taskId)
      case None => None
      case Some(i) => Some(i + 1)
  }

  /** How many tasks carry the given id. */
  function Count(tasks: seq<Task>, taskId: string): (n: nat)
    ensures n <= |tasks|
    ensures n == 0 <==> forall k :: 0 <= k < |tasks| ==> tasks[k].taskId != taskId
  {
    if tasks == [] then 0
    else
      var init := tasks[..|tasks| - 1];
      assert forall k :: 0 <= k < |init| ==> init[k] == tasks[k];
      Count(init, taskId) + (if tasks[|tasks| - 1].taskId == taskId then 1 else 0)
  }

  /** `[task for task in tasks if task["task_id"] != task_id]`. */
  function Without(tasks: seq<Task>, taskId: string): (r: seq<Task>)
    ensures IsSubsequence(r, tasks)
    ensures forall t :: t in r <==> t in tasks && t.taskId != taskId
    ensures |r| == |tasks| - Count(tasks, taskId)
    ensures Count(tasks, taskId) == 0 ==> r == tasks
  {
    if tasks == [] then []
    else
      var init := tasks[..|tasks| - 1];
      var last := tasks[|tasks| - 1];
      var kept := Without(init, taskId);
      assert tasks == init + [last];
      if last.taskId != taskId then
        var r := kept + [last];
        assert r[..|r| - 1] == kept;
        r
      else kept
  }

  /** With unique ids there is at most one task per id. */
  lemma {:induction false} CountUnique(tasks: seq<Task>, taskId: string)
    requires UniqueIds(tasks)
    ensures Count(tasks, taskId) <= 1
  {
    if tasks != [] {
      var init := tasks[..|tasks| - 1];
      assert UniqueIds(init);
      CountUnique(init, taskId);
    }
  }

  /** Deleting a present id from a list with unique ids removes exactly one task. */
  lemma DeleteUniqueRemovesOne(tasks: seq<Task>, taskId: string)
    requires UniqueIds(tasks)
    requires FirstIndex(tasks, taskId).Some?
    ensures |Without(tasks, taskId)| == |tasks| - 1
  {
    CountUnique(tasks, taskId);
  }

  /** After filtering no task has the id, and filtering shortened the list iff some task had it. */
  lemma WithoutRemovesId(tasks: seq<Task>, taskId: string)
    ensures FirstIndex(Without(tasks, taskId), taskId).None?
    ensures FirstIndex(tasks, taskId).Some? <==> |Without(tasks, taskId)| < |tasks|
  {
    var r := Without(tasks, taskId);
    forall k | 0 <= k < |r| ensures r[k].taskId != taskId {
      assert r[k] in r;
    }
  }

  /** A task whose id none of a list with unique ids has may be appended to it. */
  lemma UniqueIdsAppend(tasks: seq<Task>, t: Task)
    requires UniqueIds(tasks)
    requires forall u :: u in tasks ==> u.taskId != t.taskId
    ensures UniqueIds(tasks + [t])
  {
    forall i, j | 0 <= i < j < |tasks + [t]| ensures (tasks + [t])[i].taskId != (tasks + [t])[j].taskId {
      if j == |tasks| {
        assert (tasks + [t])[i] in tasks;
      }
    }
  }

  /** Filtering keeps the ids unique. */
  lemma {:induction false} WithoutKeepsUniqueIds(tasks: seq<Task>, taskId: string)
    requires UniqueIds(tasks)
    ensures UniqueIds(Without(tasks, taskId))
  {
    if tasks != [] {
      var init := tasks[..|tasks| - 1];
      var last := tasks[|tasks| - 1];
      assert UniqueIds(init);
      WithoutKeepsUniqueIds(init, taskId);
      var kept := Without(init, taskId);
      assert Without(tasks, taskId) == if last.taskId != taskId then kept + [last] else kept;
      if last.taskId != taskId {
        forall u | u in kept ensures u.taskId != last.taskId {
          var j :| 0 <= j < |init| && init[j] == u;
          assert tasks[j] == u;
        }
        UniqueIdsAppend(kept, last);
      }
    }
  }

  /** Python's `for key, value in kwargs.items(): if key in task: task[key] = value`. */
  function Overwrite(fields: map<string, Value>, kwargs: map<string, Value>): (r: map<string, Value>)
    ensures r.Keys == fields.Keys
    ensures forall k :: k in fields && k in kwargs ==> r[k] == kwargs[k]
    ensures forall k :: k in fields && k !in kwargs ==> r[k] == fields[k]
  {
    map k | k in fields :: if k in kwargs then kwargs[k] else fields[k]
  }

  /** Updating a task twice with the same keyword arguments leaves it as one update does. */
  lemma OverwriteIdempotent(fields: map<string, Value>, kwargs: map<string, Value>)
    ensures Overwrite(Overwrite(fields, kwargs), kwargs) == Overwrite(fields, kwargs)
  {
  }

  /** A map with the keys of `fields`, each holding the value from `kwargs` when there is one, is their overwrite. */
  lemma OverwriteByKeys(result: map<string, Value>, fields: map<string, Value>, kwargs: map<string, Value>)
    requires result.Keys == fields.Keys
    requires forall k :: k in result ==> result[k] == if k in kwargs then kwargs[k] else fields[k]
    ensures result == Overwrite(fields, kwargs)
    ensures Overwrite(fields, kwargs).Keys == fields.Keys
  {
  }

  /** One task list opened by name. */
  class TaskManager {
    const taskListName: string
    /** `self.task_data`: the document in memory, None when it could not be loaded. */
    var taskData: Option<TaskList>
    /** The contents of `task_lists/<name>.json`. */
    var disk: TaskFile

    ghost predicate Valid()
      reads this
    {
      taskData.Some? ==> WellFormed(taskData.value)
    }

    function Tasks(): seq<Task>
      reads this
      requires taskData.Some?
    {
      taskData.value.tasks
    }

    /**
     * `__init__`: an existing document is loaded and the creator and
     * association arguments are ignored; an unreadable or undecodable one
     * leaves no document; a missing one is created from the arguments and
     * written at once.
     */
    constructor (taskListName: string, createdBy: string, association: string,
                 createdOn: string, existing: TaskFile)
      requires existing.Stored? ==> WellFormed(existing.doc)
      ensures Valid() && this.taskListName == taskListName
      ensures existing.Absent? ==>
                taskData == Some(TaskList(Version, taskListName, association, createdBy, createdOn, [])) &&
                disk == Stored(taskData.value)
      ensures existing.Stored? ==> taskData == Some(existing.doc) && disk == existing
      ensures existing.Unreadable? || existing.Corrupt? ==> taskData == None && disk == existing
    {
      this.taskListName := taskListName;
      taskData := None;
      disk := existing;
      new;
      if existing.Absent? {
        taskData := Some(TaskList(Version, taskListName, association, createdBy, createdOn, []));
        SaveTaskList();
      } else {
        LoadTaskList();
      }
    }

    /** `_save_task_list`: writes the whole document. */
    method SaveTaskList()
      requires taskData.Some?
      modifies this`disk
      ensures disk == Stored(taskData.value)
    {
      disk := Stored(taskData.value);
    }

    /**
     * `_load_task_list`: a decode error sets no document; a read error
     * leaves the document as it was.
     */
    method LoadTaskList()
      requires Valid()
      requires disk.Stored? ==> WellFormed(disk.doc)
      modifies this`taskData
      ensures Valid()
      ensures disk.Stored? ==> taskData == Some(disk.doc)
      ensures disk.Corrupt? ==> taskData == None
      ensures disk.Absent? || disk.Unreadable? ==> taskData == old(taskData)
    {
      match disk {
        case Stored(doc) => taskData := Some(doc);
        case Corrupt => taskData := None;
        case _ =>
      }
    }

    /** The scan shared by `get_task_by_id` and `add_comment_to_task`. */
    method FindTask(taskId: string) returns (index: Option<nat>)
      requires taskData.Some?
      ensures index == FirstIndex(Tasks(), taskId)
    {
      var tasks := Tasks();
      var i := 0;
      while i < |tasks|
        invariant 0 <= i <= |tasks|
        invariant forall k :: 0 <= k < i ==> tasks[k].taskId != taskId
      {
        if tasks[i].taskId == taskId {
          return Some(i);
        }
        i := i + 1;
      }
      return None;
    }

    /** `get_task_by_id`: the first task with the id, or None. */
    method GetTaskById(taskId: string) returns (task: Option<Task>)
      requires taskData.Some?
      ensures task.None? <==> forall t :: t in Tasks() ==> t.taskId != taskId
      ensures task.Some? ==> task.value.taskId == taskId && task.value in Tasks()
      ensures task.Some? ==> task.value == Tasks()[FirstIndex(Tasks(), taskId).value]
    {
      var index := FindTask(taskId);
      if index.None? {
        return None;
      }
      task := Some(Tasks()[index.value]);
    }

    /**
     * `add_task`: appends one task with the given values, a fresh id and no
     * comments, writes the document and returns the task.
     */
    method AddTask(newId: string, now: string, subject: string, description: string,
                   priority: string, status: string := "open") returns (task: Task)
      requires Valid() && taskData.Some?
      requires forall t :: t in Tasks() ==> t.taskId != newId
      modifies this`taskData, this`disk
      ensures Valid() && taskData.Some?
      ensures task == NewTask(newId, subject, description, priority, status, now)
      ensures taskData == Some(old(taskData.value).(tasks := old(Tasks()) + [task]))
      ensures disk == Stored(taskData.value)
      ensures UniqueIds(old(Tasks())) ==> UniqueIds(Tasks())
    {
      task := NewTask(newId, subject, description, priority, status, now);
      taskData := Some(taskData.value.(tasks := taskData.value.tasks + [task]));
      SaveTaskList();
    }

    /**
     * `add_comment_to_task`: appends a comment to the first task with the
     * id and writes the document; an unknown id gives False and no write; a
     * task without a comment list raises, also without a write.
     */
    method AddCommentToTask(taskId: string, commentText: string, now: string) returns (r: Result<bool>)
      requires Valid() && taskData.Some?
      modifies this`taskData, this`disk
      ensures Valid() && taskData.Some?
      ensures r == Ok(false) <==> FirstIndex(old(Tasks()), taskId).None?
      ensures r != Ok(true) ==> taskData == old(taskData) && disk == old(disk)
      ensures r.Err? ==> r.error == NoCommentList(taskId)
      ensures r == Ok(true) ==>
                var i := FirstIndex(old(Tasks()), taskId).value;
                var before := old(Tasks())[i].fields;
                "comments" in before && before["comments"].CommentList? &&
                taskData == Some(old(taskData.value).(tasks := old(Tasks())[i :=
                  Task(taskId, before["comments" := CommentList(before["comments"].comments + [Comment(commentText, now)])])])) &&
                disk == Stored(taskData.value)
      ensures FirstIndex(old(Tasks()), taskId).Some? ==>
                var before := old(Tasks())[FirstIndex(old(Tasks()), taskId).value].fields;
                (r == Ok(true) <==> "comments" in before && before["comments"].CommentList?)
    {
      var index := FindTask(taskId);
      if index.None? {
        return Ok(false);
      }
      var i := index.value;
      var task := Tasks()[i];
      if "comments" !in task.fields || !task.fields["comments"].CommentList? {
        return Err(NoCommentList(taskId));
      }
      var comments := task.fields["comments"].comments + [Comment(commentText, now)];
      var updated := Task(taskId, task.fields["comments" := CommentList(comments)]);
      assert "task_id" !in updated.fields;
      taskData := Some(taskData.value.(tasks := taskData.value.tasks[i := updated]));
      SaveTaskList();
      return Ok(true);
    }

    /**
     * `update_task`: on the first task with the id, overwrites the keys it
     * already has with the given values, ignores the others, and writes the
     * document; an unknown id gives False and no write.
     */
    method UpdateTask(taskId: string, kwargs: map<string, Value>) returns (found: bool)
      requires Valid() && taskData.Some?
      requires "task_id" !in kwargs
      modifies this`taskData, this`disk
      ensures Valid() && taskData.Some?
      ensures found <==> FirstIndex(old(Tasks()), taskId).Some?
      ensures !found ==> taskData == old(taskData) && disk == old(disk)
      ensures found ==>
                var i := FirstIndex(old(Tasks()), taskId).value;
                var before := old(Tasks())[i].fields;
                taskData == Some(old(taskData.value).(tasks := old(Tasks())[i := Task(taskId, Overwrite(before, kwargs))])) &&
                Tasks()[i].fields.Keys == before.Keys &&
                disk == Stored(taskData.value)
    {
      var index := FindTask(taskId);
      if index.None? {
        return false;
      }
      var i := index.value;
      var before := Tasks()[i].fields;
      var fields := before;
      var pending := kwargs.Keys;
      while pending != {}
        invariant pending <= kwargs.Keys
        invariant fields.Keys == before.Keys
        invariant forall k :: k in fields ==>
                    fields[k] == if k in kwargs && k !in pending then kwargs[k] else before[k]
        decreases pending
      {
        var key :| key in pending;
        if key in fields {
          fields := fields[key := kwargs[key]];
        }
        pending := pending - {key};
      }
      OverwriteByKeys(fields, before, kwargs);
      taskData := Some(taskData.value.(tasks := taskData.value.tasks[i := Task(taskId, fields)]));
      SaveTaskList();
      return true;
    }

    /**
     * `delete_task`: keeps the tasks whose id differs, in order, and writes
     * the document only when that removed something.
     */
    method DeleteTask(taskId: string) returns (deleted: bool)
      requires Valid() && taskData.Some?
      modifies this`taskData, this`disk
      ensures Valid() && taskData.Some?
      ensures taskData == Some(old(taskData.value).(tasks := Without(old(Tasks()), taskId)))
      ensures deleted <==> |Tasks()| < |old(Tasks())|
      ensures deleted <==> FirstIndex(old(Tasks()), taskId).Some?
      ensures deleted ==> disk == Stored(taskData.value)
      ensures !deleted ==> taskData == old(taskData) && disk == old(disk)
      ensures FirstIndex(Tasks(), taskId).None?
      ensures UniqueIds(old(Tasks())) ==> UniqueIds(Tasks())
      ensures UniqueIds(old(Tasks())) && deleted ==> |Tasks()| == |old(Tasks())| - 1
    {
      var initialLen := |Tasks()|;
      WithoutRemovesId(Tasks(), taskId);
      taskData := Some(taskData.value.(tasks := Without(taskData.value.tasks, taskId)));
      if UniqueIds(old(Tasks())) {
        WithoutKeepsUniqueIds(old(Tasks()), taskId);
        if FirstIndex(old(Tasks()), taskId).Some? {
          DeleteUniqueRemovesOne(old(Tasks()), taskId);
        }
      }
      if |Tasks()| < initialLen {
        SaveTaskList();
        return true;
      }
      return false;
    }
  }

  /** Re-opening an existing list keeps its creator and association, whatever the arguments. */
  method ReopenKeepsCreator(name: string, doc: TaskList, otherCreator: string, otherAssociation: string, now: string)
    returns (manager: TaskManager)
    requires WellFormed(doc)
    ensures manager.taskData.Some?
    ensures manager.taskData.value.createdBy == doc.createdBy
    ensures manager.taskData.value.association == doc.association
    ensures manager.disk == Stored(doc)
  {
    manager := new TaskManager(name, otherCreator, otherAssociation, now, Stored(doc));
  }
}
