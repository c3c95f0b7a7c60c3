/**
 * TaskController: list, create, update and delete the current user's tasks.
 * Every handler first takes the current user from the security context and
 * only then touches the task repository.
 */
module TaskController {
  import opened Wrappers
  import opened Entities
  import opened Repositories
  import opened Security

  /**
   * The RuntimeExceptions the handlers throw, with the messages
   * "No authenticated user", "Invalid user principal", "Task not found" and
   * "Unauthorized".
   */
  datatype TaskError = NoAuthenticatedUser | InvalidUserPrincipal | TaskNotFound | Unauthorized

  /** The request body of create and update. */
  datatype CreateTaskRequest = CreateTaskRequest(title: string, description: string)

  /** The TaskResponse record returned to the client. */
  datatype TaskResponse = TaskResponse(id: TaskId, title: string, description: string, completed: bool)

  function ToResponse(t: Task): (resp: TaskResponse)
    ensures resp.id == t.id && resp.title == t.title && resp.description == t.description
    ensures resp.completed == t.completed
  {
    TaskResponse(t.id, t.title, t.description, t.completed)
  }

  /**
   * getCurrentUser: fails with "No authenticated user" when the slot is empty
   * or not authenticated, with "Invalid user principal" when the principal is
   * not a User, and otherwise returns that User.
   */
  function GetCurrentUser(auth: Option<Authentication>): (r: Result<User, TaskError>)
    ensures r == Failure(NoAuthenticatedUser) <==> auth.None? || !auth.value.authenticated
    ensures r == Failure(InvalidUserPrincipal) <==>
              auth.Some? && auth.value.authenticated && !auth.value.principal.UserPrincipal?
    ensures r.Success? <==> auth.Some? && auth.value.authenticated && auth.value.principal.UserPrincipal?
    ensures r.Success? ==> auth.Some? && auth.value.principal == UserPrincipal(r.value)
  {
    if auth.None? || !auth.value.authenticated then Failure(NoAuthenticatedUser)
    else
      match auth.value.principal
      case UserPrincipal(u) => Success(u)
      case OtherPrincipal(_) => Failure(InvalidUserPrincipal)
  }

  /** findByUserId followed by the stream map to TaskResponse, keyed by task id. */
  function TasksOf(tasks: map<TaskId, Task>, owner: UserId): (list: map<TaskId, TaskResponse>)
    ensures forall id :: id in list <==> id in tasks && tasks[id].owner == owner
  {
    map id | id in tasks && tasks[id].owner == owner :: ToResponse(tasks[id])
  }

  /**
   * getTasks: for the current user, one response per task it owns, carrying
   * that task's id, title, description and completed flag; no other task.
   */
  function GetTasks(repo: TaskRepository, auth: Option<Authentication>): (r: Result<map<TaskId, TaskResponse>, TaskError>)
    reads repo
    requires repo.Valid()
    ensures r.Failure? <==> GetCurrentUser(auth).Failure?
    ensures r.Failure? ==> r.error == GetCurrentUser(auth).error
    ensures r.Success? ==>
              forall id :: id in r.value <==> id in repo.tasks && repo.tasks[id].owner == GetCurrentUser(auth).value.id
    ensures r.Success? ==>
              forall id :: id in r.value ==>
                && r.value[id].id == id
                && r.value[id].title == repo.tasks[id].title
                && r.value[id].description == repo.tasks[id].description
                && r.value[id].completed == repo.tasks[id].completed
  {
    match GetCurrentUser(auth)
    case Failure(e) => Failure(e)
    case Success(u) => Success(TasksOf(repo.tasks, u.id))
  }

  /** No stored task is marked completed. */
  ghost predicate AllOpen(tasks: map<TaskId, Task>) {
    forall id :: id in tasks ==> !tasks[id].completed
  }

  /**
   * createTask: stores one new task with the request's title and description,
   * owned by the current user and not completed, under a fresh id; every
   * other task stays as it was.
   */
  method CreateTask(repo: TaskRepository, auth: Option<Authentication>, request: CreateTaskRequest)
    returns (r: Result<TaskResponse, TaskError>)
    requires repo.Valid()
    modifies repo
    ensures repo.Valid()
    ensures GetCurrentUser(auth).Failure? ==>
              && r == Failure(GetCurrentUser(auth).error)
              && repo.tasks == old(repo.tasks) && repo.nextId == old(repo.nextId)
    ensures GetCurrentUser(auth).Success? ==>
              var t := Task(old(repo.nextId), request.title, request.description, false, GetCurrentUser(auth).value.id);
              && t.id !in old(repo.tasks)
              && repo.tasks == old(repo.tasks)[t.id := t]
              && repo.nextId == old(repo.nextId) + 1
              && r == Success(ToResponse(t))
    ensures AllOpen(old(repo.tasks)) ==> AllOpen(repo.tasks)
  {
    var current := GetCurrentUser(auth);
    if current.Failure? {
      r := Failure(current.error);
      return;
    }
    var task := Task(repo.nextId, request.title, request.description, false, current.value.id);
    repo.tasks := repo.tasks[task.id := task];
    repo.nextId := repo.nextId + 1;
    r := Success(ToResponse(task));
  }

  /**
   * updateTask: "Task not found" for an absent id, "Unauthorized" for a task
   * another user owns (both leaving the store unchanged); otherwise only the
   * task's title and description change.
   */
  method UpdateTask(repo: TaskRepository, auth: Option<Authentication>, id: TaskId, request: CreateTaskRequest)
    returns (r: Result<TaskResponse, TaskError>)
    requires repo.Valid()
    modifies repo
    ensures repo.Valid() && repo.nextId == old(repo.nextId)
    ensures GetCurrentUser(auth).Failure? ==> r == Failure(GetCurrentUser(auth).error) && repo.tasks == old(repo.tasks)
    ensures GetCurrentUser(auth).Success? && id !in old(repo.tasks) ==>
              r == Failure(TaskNotFound) && repo.tasks == old(repo.tasks)
    ensures GetCurrentUser(auth).Success? && id in old(repo.tasks) && old(repo.tasks)[id].owner != GetCurrentUser(auth).value.id ==>
              r == Failure(Unauthorized) && repo.tasks == old(repo.tasks)
    ensures GetCurrentUser(auth).Success? && id in old(repo.tasks) && old(repo.tasks)[id].owner == GetCurrentUser(auth).value.id ==>
              var t := old(repo.tasks)[id].(title := request.title, description := request.description);
              && repo.tasks == old(repo.tasks)[id := t]
              && r == Success(ToResponse(t))
    ensures AllOpen(old(repo.tasks)) ==> AllOpen(repo.tasks)
  {
    var current := GetCurrentUser(auth);
    if current.Failure? {
      r := Failure(current.error);
      return;
    }
    if id !in repo.tasks {
      r := Failure(TaskNotFound);
      return;
    }
    var task := repo.tasks[id];
    if task.owner != current.value.id {
      r := Failure(Unauthorized);
      return;
    }
    task := task.(title := request.title, description := request.description);
    repo.tasks := repo.tasks[id := task];
    r := Success(ToResponse(task));
  }

  /**
   * deleteTask: the same "Task not found" and "Unauthorized" failures as
   * update; the owner's call removes exactly that id.
   */
  method DeleteTask(repo: TaskRepository, auth: Option<Authentication>, id: TaskId)
    returns (r: Result<(), TaskError>)
    requires repo.Valid()
    modifies repo
    ensures repo.Valid() && repo.nextId == old(repo.nextId)
    ensures GetCurrentUser(auth).Failure? ==> r == Failure(GetCurrentUser(auth).error) && repo.tasks == old(repo.tasks)
    ensures GetCurrentUser(auth).Success? && id !in old(repo.tasks) ==>
              r == Failure(TaskNotFound) && repo.tasks == old(repo.tasks)
    ensures GetCurrentUser(auth).Success? && id in old(repo.tasks) && old(repo.tasks)[id].owner != GetCurrentUser(auth).value.id ==>
              r == Failure(Unauthorized) && repo.tasks == old(repo.tasks)
    ensures GetCurrentUser(auth).Success? && id in old(repo.tasks) && old(repo.tasks)[id].owner == GetCurrentUser(auth).value.id ==>
              r == Success(()) && repo.tasks == old(repo.tasks) - {id}
    ensures AllOpen(old(repo.tasks)) ==> AllOpen(repo.tasks)
  {
    var current := GetCurrentUser(auth);
    if current.Failure? {
      r := Failure(current.error);
      return;
    }
    if id !in repo.tasks {
      r := Failure(TaskNotFound);
      return;
    }
    if repo.tasks[id].owner != current.value.id {
      r := Failure(Unauthorized);
      return;
    }
    repo.tasks := repo.tasks - {id};
    r := Success(());
  }

  /** The authentication the filter binds is accepted as its user by every handler. */
  lemma FilterBindingIsCurrentUser(u: User)
    ensures GetCurrentUser(Some(UserAuthentication(u))) == Success(u)
  {
  }

  /** Inserting a task under a fresh id adds its response to its owner's list and leaves every other list alone. */
  lemma ListAfterInsert(tasks: map<TaskId, Task>, t: Task, owner: UserId)
    requires t.id !in tasks
    ensures TasksOf(tasks[t.id := t], owner) ==
              if owner == t.owner then TasksOf(tasks, owner)[t.id := ToResponse(t)] else TasksOf(tasks, owner)
  {
    var after := TasksOf(tasks[t.id := t], owner);
    var expected := if owner == t.owner then TasksOf(tasks, owner)[t.id := ToResponse(t)] else TasksOf(tasks, owner);
    assert after.Keys == expected.Keys;
  }

  /** Replacing a task by one with the same owner changes only that entry of that owner's list. */
  lemma ListAfterReplace(tasks: map<TaskId, Task>, id: TaskId, t: Task, owner: UserId)
    requires id in tasks && t.id == id && t.owner == tasks[id].owner
    ensures TasksOf(tasks[id := t], owner) ==
              if owner == t.owner then TasksOf(tasks, owner)[id := ToResponse(t)] else TasksOf(tasks, owner)
  {
    var after := TasksOf(tasks[id := t], owner);
    var expected := if owner == t.owner then TasksOf(tasks, owner)[id := ToResponse(t)] else TasksOf(tasks, owner);
    assert after.Keys == expected.Keys;
  }

  /** Removing a task takes exactly its entry out of every list. */
  lemma ListAfterRemove(tasks: map<TaskId, Task>, id: TaskId, owner: UserId)
    ensures TasksOf(tasks - {id}, owner) == TasksOf(tasks, owner) - {id}
  {
    assert TasksOf(tasks - {id}, owner).Keys == (TasksOf(tasks, owner) - {id}).Keys;
  }
}
