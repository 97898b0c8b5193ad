/** The middleware that lets managers through and answers 404 to everyone else. */
module ManagerCheck {
  import opened Prelude
  import opened Schema
  import TaskController

  /** PHP's loose `manager_id == null` on an integer column: null and 0 both compare equal. */
  predicate LooselyNull(managerId: Option<nat>)
  {
    managerId == None || managerId == Some(0)
  }

  /** Either the next handler's response or an abort with an HTTP status. */
  datatype Gate<+R> = Forward(response: R) | Abort(status: nat)

  function Handle<Q, R>(user: User, request: Q, next: Q -> R): (r: Gate<R>)
    ensures r.Forward? <==> LooselyNull(user.managerId)
    ensures r.Forward? ==> r.response == next(request)
    ensures r.Abort? ==> r.status == 404
  {
    if LooselyNull(user.managerId) then Forward(next(request)) else Abort(404)
  }

  /** The decision reads the caller's manager_id only: not the request, not the next handler, not the id. */
  lemma DecisionIgnoresRequest<Q, R>(u1: User, u2: User, q1: Q, q2: Q, n1: Q -> R, n2: Q -> R)
    requires u1.managerId == u2.managerId
    ensures Handle(u1, q1, n1).Forward? == Handle(u2, q2, n2).Forward?
  {
  }

  /** Every manager the task listing recognises is let through. */
  lemma ListingManagersPass<Q, R>(user: User, request: Q, next: Q -> R)
    requires TaskController.IsManager(user)
    ensures Handle(user, request, next) == Forward(next(request))
  {
  }

  /**
   * The loose and the strict test disagree on manager_id 0: such a caller passes this guard
   * as a manager, yet the task listing shows them the tasks assigned to them.
   */
  lemma ZeroManagerIdPassesButListsAsEmployee<Q, R>(id: nat, request: Q, next: Q -> R, tasks: map<nat, Task>)
    ensures var user := User(id, Some(0));
            && Handle(user, request, next).Forward?
            && !TaskController.IsManager(user)
            && TaskController.Index(tasks, user) == map k | k in tasks && tasks[k].employeeId == Some(id) :: tasks[k]
  {
  }
}
