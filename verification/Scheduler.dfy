/** The cooperative scheduler of src/lib/smw.c. A callback is represented by what it does to the task
    list: it creates tasks and may destroy its own. What it does may depend on the context of its
    task and on the number of the visit, so nothing bounds what the callbacks create in all. */
module Scheduler {
  import opened Collections
  import opened LinkedLists

  /** SmwTask; callback says whether the function pointer is set. */
  class SmwTask {
    const context: int
    const callback: bool

    constructor (context: int, callback: bool)
      ensures this.context == context && this.callback == callback
    {
      this.context, this.callback := context, callback;
    }
  }

  type TaskNode = Node<SmwTask>

  datatype Action = Create(context: int, callback: bool) | DestroySelf

  /** What the callbacks do: the actions for the context of a task and the number of the visit. */
  type Behaviour = (int, nat) -> seq<Action>

  /** The actions of visit i; a task without a callback does nothing. */
  function ActionsOf(b: Behaviour, i: nat, task: SmwTask): seq<Action> {
    if task.callback then b(task.context, i) else []
  }

  /** The tasks that a list of actions creates, in order. */
  function Wanted(actions: seq<Action>): seq<(int, bool)> {
    if actions == [] then []
    else
      var last := actions[|actions| - 1];
      Wanted(actions[..|actions| - 1]) + if last.Create? then [(last.context, last.callback)] else []
  }

  ghost predicate Creates(actions: seq<Action>, created: seq<TaskNode>) {
    && |created| == |Wanted(actions)|
    && forall j | 0 <= j < |created| :: (created[j].item.context, created[j].item.callback) == Wanted(actions)[j]
  }

  lemma CreatesNothing()
    ensures Creates([], [])
  {
  }

  lemma CreatesSnoc(actions: seq<Action>, created: seq<TaskNode>, action: Action, created': seq<TaskNode>)
    requires Creates(actions, created)
    requires action.DestroySelf? ==> created' == created
    requires action.Create? ==>
               && |created'| == |created| + 1 && created'[..|created|] == created
               && (created'[|created|].item.context, created'[|created|].item.callback)
                  == (action.context, action.callback)
    ensures Creates(actions + [action], created')
    ensures (DestroySelf in actions + [action]) == (DestroySelf in actions || action.DestroySelf?)
    ensures forall n | n in created' :: n in created || (action.Create? && n == created'[|created|])
  {
    assert (actions + [action])[..|actions|] == actions;
    assert forall j | 0 <= j < |created| :: created'[j] == created'[..|created|][j];
  }

  /** The tasks of the visited nodes that have a callback: the calls made, in order. */
  ghost function Called(visited: seq<TaskNode>): seq<SmwTask> {
    if visited == [] then []
    else
      var last := visited[|visited| - 1].item;
      Called(visited[..|visited| - 1]) + if last.callback then [last] else []
  }

  lemma CalledEmpty()
    ensures Called([]) == []
  {
  }

  lemma {:induction false} CalledSnoc(visited: seq<TaskNode>, n: TaskNode)
    ensures Called(visited + [n]) == Called(visited) + if n.item.callback then [n.item] else []
  {
    assert (visited + [n])[..|visited|] == visited;
  }

  /** The nodes whose flag is not set, in order. */
  ghost function Kept<T>(s: seq<T>, gone: seq<bool>): seq<T>
    requires |s| == |gone|
  {
    if s == [] then []
    else
      Kept(s[..|s| - 1], gone[..|s| - 1]) + if gone[|s| - 1] then [] else [s[|s| - 1]]
  }

  lemma {:induction false} KeptSnoc<T>(s: seq<T>, gone: seq<bool>, x: T, g: bool)
    requires |s| == |gone|
    ensures Kept(s + [x], gone + [g]) == Kept(s, gone) + if g then [] else [x]
  {
    assert (s + [x])[..|s|] == s && (gone + [g])[..|s|] == gone;
  }

  /** The record of a pass: the nodes visited in order, the list as it was when each visit began,
      what the callback of each visit created, and whether it destroyed its own task. */
  datatype Pass = Pass(
    visited: seq<TaskNode>,
    lists: seq<seq<TaskNode>>,
    created: seq<seq<TaskNode>>,
    gone: seq<bool>)

  ghost predicate SameLengths(pass: Pass) {
    |pass.lists| == |pass.visited| == |pass.created| == |pass.gone|
  }

  /** All nodes that have been in the list since the pass started, in list order. */
  ghost function AllNodes(start: seq<TaskNode>, pass: Pass): seq<TaskNode> {
    start + Flatten(pass.created)
  }

  /** The nodes the list had seen when visit j began. */
  ghost function SeenAt(start: seq<TaskNode>, pass: Pass, j: nat): seq<TaskNode>
    requires j <= |pass.created|
  {
    start + Flatten(pass.created[..j])
  }

  /** The nodes the list had seen when the last visit saved its successor. */
  ghost function SeenBefore(start: seq<TaskNode>, pass: Pass): seq<TaskNode> {
    if pass.created == [] then start else SeenAt(start, pass, |pass.created| - 1)
  }

  /** The list when visit j began: the kept ones of the nodes visited before, and then all others. */
  ghost function ListAt(start: seq<TaskNode>, pass: Pass, j: nat): seq<TaskNode>
    requires SameLengths(pass) && j < |pass.visited| && j < |SeenAt(start, pass, j)|
  {
    Kept(pass.visited[..j], pass.gone[..j]) + SeenAt(start, pass, j)[j..]
  }

  /** Visit j ran on that list; a visit with another one behind it had a successor when it began. */
  ghost predicate VisitAt(start: seq<TaskNode>, pass: Pass, j: nat)
    requires SameLengths(pass) && j < |pass.visited|
  {
    && j < |SeenAt(start, pass, j)|
    && pass.lists[j] == ListAt(start, pass, j)
    && (j + 1 < |pass.visited| ==> j + 1 < |SeenAt(start, pass, j)|)
  }

  ghost predicate Recorded(start: seq<TaskNode>, pass: Pass)
    requires SameLengths(pass)
  {
    forall j: nat {:trigger VisitAt(start, pass, j)} | j < |pass.visited| :: VisitAt(start, pass, j)
  }

  /** What holds between two visits, when node is to be visited next and nodes is the list. */
  ghost predicate Progress(start: seq<TaskNode>, pass: Pass, nodes: seq<TaskNode>, node: Node?<SmwTask>) {
    var i := |pass.visited|;
    var all := AllNodes(start, pass);
    && SameLengths(pass)
    && i <= |SeenBefore(start, pass)| <= |all|
    && node == At(SeenBefore(start, pass), i)
    && Distinct(all)
    && pass.visited == all[..i]
    && nodes == Kept(pass.visited, pass.gone) + all[i..]
  }

  ghost function Visit(pass: Pass, node: TaskNode, nodes: seq<TaskNode>, created: seq<TaskNode>, g: bool): Pass {
    Pass(pass.visited + [node], pass.lists + [nodes], pass.created + [created], pass.gone + [g])
  }

  /** Every visit did what its callback does. */
  ghost predicate Follows(b: Behaviour, pass: Pass)
    requires SameLengths(pass)
  {
    forall i | 0 <= i < |pass.visited| ::
      && Creates(ActionsOf(b, i, pass.visited[i].item), pass.created[i])
      && pass.gone[i] == (DestroySelf in ActionsOf(b, i, pass.visited[i].item))
  }

  /** A whole pass over a list that starts as start: the visited nodes are all those of the start
      and then all those created by any visit but the last, each exactly once and in order; every
      visit but the last had a successor when it began. */
  ghost predicate CompletePass(start: seq<TaskNode>, b: Behaviour, pass: Pass) {
    && SameLengths(pass)
    && Follows(b, pass)
    && Distinct(AllNodes(start, pass))
    && pass.visited == SeenBefore(start, pass)
    && Recorded(start, pass)
  }

  // ---------- What a complete pass means ----------

  /** Every task present at the start is visited exactly once and in order. */
  lemma StartingTasksOnce(start: seq<TaskNode>, b: Behaviour, pass: Pass, i: nat)
    requires CompletePass(start, b, pass) && i < |start|
    ensures |start| <= |pass.visited| && pass.visited[i] == start[i]
    ensures forall j | 0 <= j < |pass.visited| && pass.visited[j] == start[i] :: j == i
  {
    SeenIsPrefix(start, pass);
    var all := AllNodes(start, pass);
    assert forall j | 0 <= j < |pass.visited| :: pass.visited[j] == all[j];
  }

  // ---------- What visits do, action by action ----------

  /** How many of the first k actions create a task. */
  function Creations(actions: seq<Action>, k: nat): nat
    requires k <= |actions|
  {
    if k == 0 then 0 else Creations(actions, k - 1) + if actions[k - 1].Create? then 1 else 0
  }

  lemma {:induction false} WantedAt(actions: seq<Action>, k: nat, m: nat)
    requires m < k <= |actions| && actions[m].Create?
    ensures Creations(actions, m) < Creations(actions, k) == |Wanted(actions[..k])|
    ensures Wanted(actions[..k])[Creations(actions, m)] == (actions[m].context, actions[m].callback)
    decreases k
  {
    assert actions[..k][..k - 1] == actions[..k - 1];
    if m < k - 1 {
      WantedAt(actions, k - 1, m);
    } else {
      WantedCount(actions, m);
    }
  }

  lemma {:induction false} WantedCount(actions: seq<Action>, k: nat)
    requires k <= |actions|
    ensures Creations(actions, k) == |Wanted(actions[..k])|
  {
    if k > 0 {
      assert actions[..k][..k - 1] == actions[..k - 1];
      WantedCount(actions, k - 1);
    }
  }

  /** The visit of a task with a callback creates one task for each Create action of the callback, in
      order, with its context and its callback, and destroys its own exactly when the callback does. */
  lemma VisitActs(start: seq<TaskNode>, b: Behaviour, pass: Pass, i: nat)
    requires CompletePass(start, b, pass) && i < |pass.visited| && pass.visited[i].item.callback
    ensures var actions, created := b(pass.visited[i].item.context, i), pass.created[i];
            && |created| == Creations(actions, |actions|)
            && (forall m: nat | m < |actions| && actions[m].Create? ::
                  && Creations(actions, m) < |created|
                  && created[Creations(actions, m)].item.context == actions[m].context
                  && created[Creations(actions, m)].item.callback == actions[m].callback)
            && (pass.gone[i] <==> DestroySelf in actions)
  {
    var actions, created := b(pass.visited[i].item.context, i), pass.created[i];
    assert Creates(actions, created);
    assert actions[..|actions|] == actions;
    WantedCount(actions, |actions|);
    hide Wanted, Creations;
    forall m: nat | m < |actions| && actions[m].Create?
      ensures Creations(actions, m) < |created|
      ensures created[Creations(actions, m)].item.context == actions[m].context
      ensures created[Creations(actions, m)].item.callback == actions[m].callback
    {
      WantedAt(actions, |actions|, m);
    }
  }

  /** The visit of a task without one does nothing. */
  lemma VisitWithoutCallback(start: seq<TaskNode>, b: Behaviour, pass: Pass, i: nat)
    requires CompletePass(start, b, pass) && i < |pass.visited| && !pass.visited[i].item.callback
    ensures pass.created[i] == [] && !pass.gone[i]
  {
    assert Creates([], pass.created[i]);
  }

  /** How many of the first k visits are of tasks with a callback. */
  ghost function Callbacks(visited: seq<TaskNode>, k: nat): nat
    requires k <= |visited|
  {
    if k == 0 then 0 else Callbacks(visited, k - 1) + if visited[k - 1].item.callback then 1 else 0
  }

  /** The calls of a pass are one for each visit of a task with a callback, in the order of the visits,
      and no others. */
  lemma {:induction false} CalledExactly(visited: seq<TaskNode>)
    ensures |Called(visited)| == Callbacks(visited, |visited|)
    ensures forall i: nat | i < |visited| && visited[i].item.callback ::
              Callbacks(visited, i) < |Called(visited)| && Called(visited)[Callbacks(visited, i)] == visited[i].item
    decreases |visited|
  {
    if visited != [] {
      var front := visited[..|visited| - 1];
      CalledExactly(front);
      forall i: nat | i <= |front|
        ensures Callbacks(visited, i) == Callbacks(front, i)
      {
        CallbacksPrefix(visited, |front|, i);
      }
    }
  }

  lemma {:induction false} CallbacksPrefix(visited: seq<TaskNode>, n: nat, k: nat)
    requires k <= n <= |visited|
    ensures Callbacks(visited[..n], k) == Callbacks(visited, k)
    decreases k
  {
    if k > 0 {
      CallbacksPrefix(visited, n, k - 1);
    }
  }

  // ---------- Order, successors and the tail ----------

  lemma SeenAtPrefix(start: seq<TaskNode>, pass: Pass, j: nat)
    requires j <= |pass.created|
    ensures SeenAt(start, pass, j) <= AllNodes(start, pass)
  {
    FlattenPrefix(pass.created, j);
  }

  /** The node of every visit is in the list when the visit begins, so no removed node is touched;
      the next visit goes to its successor in that list, and the pass ends when it has none there. */
  lemma NextIsTheSavedSuccessor(start: seq<TaskNode>, b: Behaviour, pass: Pass, j: nat) returns (p: nat)
    requires CompletePass(start, b, pass) && j < |pass.visited|
    ensures p < |pass.lists[j]| && pass.lists[j][p] == pass.visited[j]
    ensures At(pass.lists[j], p + 1) == At(pass.visited, j + 1)
    ensures p == |Kept(pass.visited[..j], pass.gone[..j])|
  {
    hide Flatten, Follows, Distinct, Kept;
    assert VisitAt(start, pass, j);
    p := |Kept(pass.visited[..j], pass.gone[..j])|;
    SeenAtPrefix(start, pass, j);
    SeenIsPrefix(start, pass);
    var all := AllNodes(start, pass);
    assert pass.visited[j] == all[j];
    if j + 1 < |pass.visited| {
      assert pass.visited[j + 1] == all[j + 1];
    } else {
      assert pass.visited == SeenAt(start, pass, j);
    }
  }

  lemma NextSteps(start: seq<TaskNode>, pass: Pass, j: nat)
    requires SameLengths(pass) && j < |pass.visited|
    ensures SeenAt(start, pass, j + 1) == SeenAt(start, pass, j) + pass.created[j]
    ensures Kept(pass.visited[..j + 1], pass.gone[..j + 1])
            == Kept(pass.visited[..j], pass.gone[..j]) + if pass.gone[j] then [] else [pass.visited[j]]
  {
    hide Flatten, Kept;
    assert pass.created[..j + 1] == pass.created[..j] + [pass.created[j]];
    FlattenSnoc(pass.created[..j], pass.created[j]);
    assert pass.visited[..j + 1] == pass.visited[..j] + [pass.visited[j]];
    assert pass.gone[..j + 1] == pass.gone[..j] + [pass.gone[j]];
    KeptSnoc(pass.visited[..j], pass.gone[..j], pass.visited[j], pass.gone[j]);
  }

  lemma VisitedIsSeen(start: seq<TaskNode>, b: Behaviour, pass: Pass, j: nat)
    requires CompletePass(start, b, pass) && j < |pass.visited|
    ensures j < |SeenAt(start, pass, j)| && SeenAt(start, pass, j)[j] == pass.visited[j]
    ensures pass.lists[j] == ListAt(start, pass, j)
  {
    hide Flatten, Follows, Distinct, Kept, ListAt;
    assert VisitAt(start, pass, j);
    SeenAtPrefix(start, pass, j);
    SeenIsPrefix(start, pass);
  }

  /** The first visit runs on the list of the start. Of two visits in a row, what the first one
      destroyed is missing in the list of the second, and what it created is at the end. */
  lemma ListsFollow(start: seq<TaskNode>, b: Behaviour, pass: Pass, j: nat, p: nat)
    requires CompletePass(start, b, pass) && j < |pass.visited| && p == |Kept(pass.visited[..j], pass.gone[..j])|
    ensures j == 0 ==> pass.lists[j] == start
    ensures j + 1 < |pass.visited| ==>
              && p < |pass.lists[j]|
              && pass.lists[j + 1]
                 == (if pass.gone[j] then Without(pass.lists[j], p) else pass.lists[j]) + pass.created[j]
  {
    hide Flatten, Follows, Distinct, Recorded, Without;
    VisitedIsSeen(start, b, pass, j);
    if j == 0 {
      FirstList(start, pass);
    }
    if j + 1 < |pass.visited| {
      VisitedIsSeen(start, b, pass, j + 1);
      NextSteps(start, pass, j);
      var kept, seen := Kept(pass.visited[..j], pass.gone[..j]), SeenAt(start, pass, j);
      hide Kept, CompletePass, SeenAt;
      ListAfterVisit(kept, seen, j, pass.created[j], pass.gone[j]);
    }
  }

  /** What Work leaves: the list of the last visit, without what that visit destroyed and with what it
      created at the end. */
  lemma FinalList(start: seq<TaskNode>, b: Behaviour, pass: Pass, j: nat, p: nat)
    requires CompletePass(start, b, pass) && j + 1 == |pass.visited|
    requires p == |Kept(pass.visited[..j], pass.gone[..j])|
    ensures p < |pass.lists[j]|
    ensures Kept(pass.visited, pass.gone) + pass.created[j]
            == (if pass.gone[j] then Without(pass.lists[j], p) else pass.lists[j]) + pass.created[j]
  {
    hide Flatten, Follows, Distinct, Recorded, Without;
    VisitedIsSeen(start, b, pass, j);
    NextSteps(start, pass, j);
    assert pass.visited[..j + 1] == pass.visited && pass.gone[..j + 1] == pass.gone;
    var kept, seen := Kept(pass.visited[..j], pass.gone[..j]), SeenAt(start, pass, j);
    SeenIsPrefix(start, pass);
    assert pass.visited == seen;
    hide Kept, CompletePass, SeenAt;
    ListAfterVisit(kept, seen, j, pass.created[j], pass.gone[j]);
    assert (seen + pass.created[j])[j + 1..] == pass.created[j];
  }

  lemma FirstList(start: seq<TaskNode>, pass: Pass)
    requires SameLengths(pass) && 0 < |pass.visited| && 0 < |SeenAt(start, pass, 0)|
    ensures ListAt(start, pass, 0) == start
  {
    assert start + [] == start;
  }

  /** A task that a callback creates runs in the same pass if and only if the creator was not at the
      tail of the list when its callback began. */
  lemma CreatedRunsUnlessByTail(start: seq<TaskNode>, b: Behaviour, pass: Pass, j: nat, n: TaskNode)
    requires CompletePass(start, b, pass) && j < |pass.visited| && n in pass.created[j]
    ensures pass.lists[j] != []
    ensures n in pass.visited <==> pass.visited[j] != pass.lists[j][|pass.lists[j]| - 1]
  {
    hide Flatten, Follows, Distinct, Kept;
    var p := NextIsTheSavedSuccessor(start, b, pass, j);
    LastIsTail(start, b, pass, j, p);
    var m := |pass.created|;
    if j < m - 1 {
      InFlatten(pass.created[..m - 1], j, n);
    } else {
      SeenIsPrefix(start, pass);
      DistinctParts(pass.visited, pass.created[m - 1]);
    }
  }

  lemma LastIsTail(start: seq<TaskNode>, b: Behaviour, pass: Pass, j: nat, p: nat)
    requires CompletePass(start, b, pass) && j < |pass.visited|
    requires p < |pass.lists[j]| && pass.lists[j][p] == pass.visited[j]
    requires At(pass.lists[j], p + 1) == At(pass.visited, j + 1)
    requires p == |Kept(pass.visited[..j], pass.gone[..j])|
    ensures pass.visited[j] == pass.lists[j][|pass.lists[j]| - 1] <==> j == |pass.visited| - 1
  {
    hide Flatten, Follows, Kept;
    assert VisitAt(start, pass, j);
    var seen := SeenAt(start, pass, j);
    SeenAtPrefix(start, pass, j);
    SeenIsPrefix(start, pass);
    assert pass.visited[j] == seen[j];
    if j + 1 < |pass.visited| {
      assert pass.lists[j][|pass.lists[j]| - 1] == seen[|seen| - 1] == AllNodes(start, pass)[|seen| - 1];
    }
  }

  lemma DistinctParts(s: seq<TaskNode>, t: seq<TaskNode>)
    requires Distinct(s + t)
    ensures forall n | n in t :: n !in s
  {
    forall n | n in t
      ensures n !in s
    {
      var j :| 0 <= j < |t| && t[j] == n;
      assert (s + t)[|s| + j] == n;
      assert forall i | 0 <= i < |s| :: (s + t)[i] == s[i];
    }
  }

  // ---------- How long a pass can be ----------

  // A task of weight w(context) may create tasks as long as each of them, with its own weight, is
  // paid for. Where that holds for every callback a pass ends, within the budget of its start.

  /** What a list of actions costs: for each task created, its visit and its weight. */
  function Cost(actions: seq<Action>, w: int -> nat): nat {
    if actions == [] then 0
    else
      var last := actions[|actions| - 1];
      Cost(actions[..|actions| - 1], w) + if last.Create? then 1 + w(last.context) else 0
  }

  /** From visit q on, no callback creates more than the weight of its task pays for. */
  ghost predicate Pays(b: Behaviour, w: int -> nat, q: nat) {
    forall context: int, i: nat {:trigger b(context, i)} | q <= i :: Cost(b(context, i), w) <= w(context)
  }

  ghost function Budget(s: seq<TaskNode>, w: int -> nat): nat {
    if s == [] then 0 else Budget(s[..|s| - 1], w) + 1 + w(s[|s| - 1].item.context)
  }

  lemma {:induction false} BudgetAppend(s: seq<TaskNode>, t: seq<TaskNode>, w: int -> nat)
    ensures Budget(s + t, w) == Budget(s, w) + Budget(t, w)
    decreases |t|
  {
    if t == [] {
      assert s + t == s;
    } else {
      assert (s + t)[..|s + t| - 1] == s + t[..|t| - 1];
      BudgetAppend(s, t[..|t| - 1], w);
    }
  }

  lemma {:induction false} CreatesCost(actions: seq<Action>, created: seq<TaskNode>, w: int -> nat)
    requires Creates(actions, created)
    ensures Budget(created, w) == Cost(actions, w)
    decreases |actions|
  {
    if actions != [] {
      var front := actions[..|actions| - 1];
      if actions[|actions| - 1].Create? {
        var wanted := Wanted(front);
        assert forall j | 0 <= j < |wanted| :: Wanted(actions)[j] == wanted[j];
        assert Wanted(actions)[|wanted|] == (actions[|actions| - 1].context, actions[|actions| - 1].callback);
        CreatesCost(front, created[..|created| - 1], w);
      } else {
        CreatesCost(front, created, w);
      }
    }
  }

  /** Tasks that pay for what they create. */
  lemma {:induction false} CreatedBound(visited: seq<TaskNode>, created: seq<seq<TaskNode>>, w: int -> nat)
    requires |created| == |visited|
    requires forall j | 0 <= j < |visited| :: Budget(created[j], w) <= w(visited[j].item.context)
    ensures Budget(Flatten(created), w) + |visited| <= Budget(visited, w)
    decreases |visited|
  {
    if visited != [] {
      var m := |visited| - 1;
      CreatedBound(visited[..m], created[..m], w);
      BudgetAppend(Flatten(created[..m]), created[m], w);
    }
  }

  lemma CreatedIsPaid(b: Behaviour, pass: Pass, w: int -> nat, q: nat, j: nat)
    requires SameLengths(pass) && Follows(b, pass) && Pays(b, w, q) && q <= j < |pass.visited|
    ensures Budget(pass.created[j], w) <= w(pass.visited[j].item.context)
  {
    hide Creates;
    CreatesCost(ActionsOf(b, j, pass.visited[j].item), pass.created[j], w);
  }

  lemma {:induction false} BudgetLast(s: seq<TaskNode>, w: int -> nat)
    requires s != []
    ensures Budget(s, w) > Budget(s[..|s| - 1], w)
  {
  }

  /** A pass whose callbacks pay for what they create stays within the budget of its start. */
  lemma {:induction false} PassWithinBudget(start: seq<TaskNode>, b: Behaviour, pass: Pass, w: int -> nat)
    requires CompletePass(start, b, pass) && Pays(b, w, 0)
    ensures |pass.visited| <= Budget(start, w)
  {
    hide Flatten, Distinct, Recorded, Follows, Pays, Budget;
    if pass.visited != [] {
      var m := |pass.visited| - 1;
      forall j | 0 <= j < m
        ensures Budget(pass.created[j], w) <= w(pass.visited[j].item.context)
      {
        CreatedIsPaid(b, pass, w, 0, j);
      }
      CreatedBound(pass.visited[..m], pass.created[..m], w);
      BudgetAppend(start, Flatten(pass.created[..m]), w);
      BudgetLast(pass.visited, w);
    }
  }

  ghost function Count(s: seq<TaskNode>, f: int -> bool): nat {
    if s == [] then 0 else Count(s[..|s| - 1], f) + if f(s[|s| - 1].item.context) then 1 else 0
  }

  /** The callbacks of the server: an acceptor creates at most one task a call and no acceptor, and
      nobody else creates any. */
  ghost predicate AcceptorsOnly(b: Behaviour, f: int -> bool) {
    forall context: int, i: nat {:trigger b(context, i)} ::
      && |Wanted(b(context, i))| <= (if f(context) then 1 else 0)
      && forall task | task in Wanted(b(context, i)) :: !f(task.0)
  }

  function AcceptorWeight(f: int -> bool): int -> nat {
    context => if f(context) then 1 else 0
  }

  lemma {:induction false} AcceptorCost(actions: seq<Action>, f: int -> bool)
    requires forall task | task in Wanted(actions) :: !f(task.0)
    ensures Cost(actions, AcceptorWeight(f)) == |Wanted(actions)|
    decreases |actions|
  {
    if actions != [] {
      var last := actions[|actions| - 1];
      assert last.Create? ==> (last.context, last.callback) in Wanted(actions);
      AcceptorCost(actions[..|actions| - 1], f);
    }
  }

  lemma {:induction false} AcceptorBudget(s: seq<TaskNode>, f: int -> bool)
    ensures Budget(s, AcceptorWeight(f)) == |s| + Count(s, f)
    decreases |s|
  {
    if s != [] {
      AcceptorBudget(s[..|s| - 1], f);
    }
  }

  lemma AcceptorsPay(b: Behaviour, f: int -> bool)
    requires AcceptorsOnly(b, f)
    ensures Pays(b, AcceptorWeight(f), 0)
  {
    forall context: int, i: nat
      ensures Cost(b(context, i), AcceptorWeight(f)) <= AcceptorWeight(f)(context)
    {
      AcceptorCost(b(context, i), f);
    }
  }

  /** So when only acceptors create, a pass makes at most as many visits as there are tasks and
      acceptors at its start. */
  lemma {:induction false} PassLengthBound(start: seq<TaskNode>, b: Behaviour, pass: Pass, f: int -> bool)
    requires CompletePass(start, b, pass) && AcceptorsOnly(b, f)
    ensures |pass.visited| <= |start| + Count(start, f)
  {
    hide CompletePass, AcceptorsOnly;
    AcceptorsPay(b, f);
    PassWithinBudget(start, b, pass, AcceptorWeight(f));
    AcceptorBudget(start, f);
  }

  /** Some such condition is needed: when the list starts with two tasks or more and every callback
      creates one, there is no complete pass at all. */
  lemma EndlessPass(start: seq<TaskNode>, b: Behaviour, pass: Pass)
    requires |start| >= 2 && SameLengths(pass) && Follows(b, pass)
    requires forall j | 0 <= j < |pass.visited| :: Wanted(ActionsOf(b, j, pass.visited[j].item)) != []
    ensures !CompletePass(start, b, pass)
  {
    if pass.created != [] {
      var m := |pass.created| - 1;
      FlattenLength(pass.created[..m]);
    }
  }

  lemma {:induction false} FlattenLength(ss: seq<seq<TaskNode>>)
    requires forall j | 0 <= j < |ss| :: ss[j] != []
    ensures |Flatten(ss)| >= |ss|
    decreases |ss|
  {
    if ss != [] {
      FlattenLength(ss[..|ss| - 1]);
    }
  }

  /** The behaviour b that falls silent after k visits. */
  function Until(b: Behaviour, k: nat): Behaviour {
    (context: int, i: nat) => if i < k then b(context, i) else []
  }

  /** On the other hand every complete pass is one of callbacks that pay from some visit on. */
  lemma EveryCompletePassPays(start: seq<TaskNode>, b: Behaviour, pass: Pass)
    requires CompletePass(start, b, pass)
    ensures CompletePass(start, Until(b, |pass.visited|), pass)
    ensures Pays(Until(b, |pass.visited|), _ => 0, |pass.visited|)
  {
    hide Creates;
    var c := Until(b, |pass.visited|);
    assert forall i | 0 <= i < |pass.visited| ::
        ActionsOf(c, i, pass.visited[i].item) == ActionsOf(b, i, pass.visited[i].item);
  }

  // ---------- The steps of a pass ----------

  /** The node to be visited is in the list, behind the kept ones, and its successor in the list is
      the next node of all those seen so far. */
  lemma VisitedIsLive(start: seq<TaskNode>, pass: Pass, nodes: seq<TaskNode>, node: TaskNode)
    returns (p: nat)
    requires Progress(start, pass, nodes, node)
    ensures p < |nodes| && nodes[p] == node
    ensures At(nodes, p + 1) == At(AllNodes(start, pass), |pass.visited| + 1)
    ensures |pass.visited| < |AllNodes(start, pass)| && AllNodes(start, pass)[|pass.visited|] == node
    ensures p == |Kept(pass.visited, pass.gone)|
  {
    SeenIsPrefix(start, pass);
    p := |Kept(pass.visited, pass.gone)|;
  }

  lemma SeenIsPrefix(start: seq<TaskNode>, pass: Pass)
    ensures SeenBefore(start, pass) <= AllNodes(start, pass)
    ensures pass.created != [] ==> AllNodes(start, pass) == SeenBefore(start, pass) + pass.created[|pass.created| - 1]
  {
    var seen, all := SeenBefore(start, pass), AllNodes(start, pass);
    if pass.created == [] {
      assert all == start + [] == start;
    } else {
      var before, last := pass.created[..|pass.created| - 1], pass.created[|pass.created| - 1];
      assert pass.created == before + [last];
      FlattenSnoc(before, last);
      assert all == seen + last;
    }
    assert all[..|seen|] == seen;
  }

  lemma VisitFields(pass: Pass, node: TaskNode, nodes: seq<TaskNode>, created: seq<TaskNode>, g: bool)
    ensures var pass' := Visit(pass, node, nodes, created, g);
            && pass'.visited == pass.visited + [node] && pass'.lists == pass.lists + [nodes]
            && pass'.gone == pass.gone + [g]
            && |pass'.created| == |pass.created| + 1 && pass'.created[..|pass.created|] == pass.created
            && pass'.created[|pass.created|] == created
  {
  }

  lemma ListAfterVisit(kept: seq<TaskNode>, all: seq<TaskNode>, i: nat, created: seq<TaskNode>, g: bool)
    requires i < |all|
    ensures var nodes := kept + all[i..];
            (if g then Without(nodes, |kept|) else nodes) + created
            == kept + (if g then [] else [all[i]]) + (all + created)[i + 1..]
  {
  }

  lemma DistinctTail(s: seq<TaskNode>, t: seq<TaskNode>)
    requires Distinct(s + t)
    ensures Distinct(t)
  {
    assert forall i | 0 <= i < |t| :: (s + t)[|s| + i] == t[i];
  }

  lemma DistinctAppend(all: seq<TaskNode>, created: seq<TaskNode>)
    requires Distinct(all) && Distinct(created) && forall n | n in created :: n !in all
    ensures Distinct(all + created)
  {
    forall i, j | 0 <= i < j < |all + created|
      ensures (all + created)[i] != (all + created)[j]
    {
      if i < |all| <= j {
        assert (all + created)[j] in created;
      }
    }
  }

  lemma AllNodesAfterVisit(start: seq<TaskNode>, pass: Pass, node: TaskNode, nodes: seq<TaskNode>,
                           created: seq<TaskNode>, g: bool)
    ensures AllNodes(start, Visit(pass, node, nodes, created, g)) == AllNodes(start, pass) + created
  {
    FlattenSnoc(pass.created, created);
    assert start + (Flatten(pass.created) + created) == start + Flatten(pass.created) + created;
  }

  lemma Advance(start: seq<TaskNode>, pass: Pass, nodes: seq<TaskNode>, node: TaskNode, p: nat,
                created: seq<TaskNode>, g: bool, nodes': seq<TaskNode>)
    requires Progress(start, pass, nodes, node) && p == |Kept(pass.visited, pass.gone)|
    requires Distinct(created) && forall n | n in created :: n !in AllNodes(start, pass)
    requires p < |nodes| && nodes' == (if g then Without(nodes, p) else nodes) + created
    ensures Progress(start, Visit(pass, node, nodes, created, g), nodes', At(AllNodes(start, pass), |pass.visited| + 1))
  {
    var i, all := |pass.visited|, AllNodes(start, pass);
    var pass' := Visit(pass, node, nodes, created, g);
    var p' := VisitedIsLive(start, pass, nodes, node);
    AllNodesAfterVisit(start, pass, node, nodes, created, g);
    assert pass'.created[..i] == pass.created;
    DistinctAppend(all, created);
    KeptSnoc(pass.visited, pass.gone, node, g);
    ListAfterVisit(Kept(pass.visited, pass.gone), all, i, created, g);
    assert (all + created)[..i + 1] == pass'.visited;
  }

  lemma StartProgress(start: seq<TaskNode>)
    requires Distinct(start)
    ensures Progress(start, Pass([], [], [], []), start, At(start, 0))
    ensures AllNodes(start, Pass([], [], [], [])) == start
  {
    assert start + [] == start && [] + start[0..] == start;
  }

  /** The budget of the known nodes that are still to be visited. */
  ghost function Remaining(start: seq<TaskNode>, pass: Pass, w: int -> nat): nat {
    if |AllNodes(start, pass)| <= |pass.visited| then 0 else Budget(AllNodes(start, pass)[|pass.visited|..], w)
  }

  /** A visit that pays for what it creates leaves less to be done. */
  lemma VisitLeavesLess(start: seq<TaskNode>, pass: Pass, pass': Pass, node: TaskNode, w: int -> nat)
    requires |pass'.visited| == |pass.visited| + 1
    requires |pass.visited| < |AllNodes(start, pass)| && AllNodes(start, pass)[|pass.visited|] == node
    requires |pass'.created| == |pass.created| + 1 && pass'.created[..|pass.created|] == pass.created
    requires Budget(pass'.created[|pass.created|], w) <= w(node.item.context)
    ensures Remaining(start, pass', w) < Remaining(start, pass, w)
  {
    var i, all := |pass.visited|, AllNodes(start, pass);
    var created := pass'.created[|pass.created|];
    assert pass'.created == pass.created + [created];
    FlattenSnoc(pass.created, created);
    hide Flatten;
    assert AllNodes(start, pass') == all + created;
    BudgetOne(node, w);
    hide Budget, AllNodes;
    BudgetAppend([node], all[i + 1..], w);
    assert [node] + all[i + 1..] == all[i..];
    BudgetAppend(all[i + 1..], created, w);
    assert all[i + 1..] + created == (all + created)[i + 1..];
  }

  lemma BudgetOne(node: TaskNode, w: int -> nat)
    ensures Budget([node], w) == 1 + w(node.item.context)
  {
    assert [node][..0] == [];
  }

  lemma FollowsVisit(b: Behaviour, pass: Pass, pass': Pass, i: nat)
    requires SameLengths(pass) && |pass.visited| == i && SameLengths(pass') && |pass'.visited| == i + 1
    requires pass'.visited[..i] == pass.visited && pass'.created[..i] == pass.created && pass'.gone[..i] == pass.gone
    requires Creates(ActionsOf(b, i, pass'.visited[i].item), pass'.created[i])
    requires pass'.gone[i] == (DestroySelf in ActionsOf(b, i, pass'.visited[i].item))
    requires Follows(b, pass)
    ensures Follows(b, pass')
  {
    hide Creates, ActionsOf;
    assert forall j | 0 <= j < i ::
        pass'.visited[j] == pass.visited[j] && pass'.created[j] == pass.created[j] && pass'.gone[j] == pass.gone[j];
  }

  /** The record of one more visit: it ran on the list that was there, and if another visit came
      before it, that one had a successor. */
  lemma RecordedVisit(start: seq<TaskNode>, pass: Pass, nodes: seq<TaskNode>, node: TaskNode, pass': Pass, i: nat)
    requires Progress(start, pass, nodes, node) && Recorded(start, pass)
    requires |pass.visited| == i && SameLengths(pass') && |pass'.visited| == i + 1
    requires pass'.visited[..i] == pass.visited && pass'.created[..i] == pass.created && pass'.gone[..i] == pass.gone
    requires pass'.lists == pass.lists + [nodes]
    ensures Recorded(start, pass')
  {
    var p := VisitedIsLive(start, pass, nodes, node);
    hide Flatten, Kept, Distinct;
    forall j: nat | j < i + 1
      ensures VisitAt(start, pass', j)
    {
      if j < i {
        assert VisitAt(start, pass, j);
        assert pass'.created[..j] == pass.created[..j];
        assert pass'.visited[..j] == pass.visited[..j] && pass'.gone[..j] == pass.gone[..j];
      } else {
        assert pass.created[..i] == pass.created;
      }
    }
  }

  lemma EmptyPass(start: seq<TaskNode>, pass: Pass)
    requires pass.created == []
    ensures AllNodes(start, pass) == start
  {
    assert start + [] == start;
  }

  lemma EndOfPass(start: seq<TaskNode>, b: Behaviour, pass: Pass, nodes: seq<TaskNode>)
    requires SameLengths(pass) && Follows(b, pass) && Recorded(start, pass)
    requires Progress(start, pass, nodes, null)
    ensures CompletePass(start, b, pass)
    ensures nodes == Kept(pass.visited, pass.gone)
                  + (if pass.visited == [] then [] else pass.created[|pass.created| - 1])
  {
    hide Follows, Recorded, Flatten, Kept, Distinct;
    SeenIsPrefix(start, pass);
    var all := AllNodes(start, pass);
    assert pass.visited == SeenBefore(start, pass);
    if pass.created == [] {
      assert all == start by {
        EmptyPass(start, pass);
      }
    } else {
      assert all[|pass.visited|..] == pass.created[|pass.created| - 1];
    }
  }

  class Smw {
    const tasks: LinkedList<SmwTask>
    ghost var repr: set<TaskNode>

    /** The list is well formed and no task is in it twice. */
    ghost predicate Valid()
      reads this, tasks, tasks.nodes
    {
      && tasks.Valid()
      && Distinct(tasks.Items())
      && (forall n | n in tasks.nodes :: n in repr)
    }

    /** smw_init. */
    constructor ()
      ensures Valid() && tasks.nodes == [] && fresh(tasks) && repr == {}
    {
      tasks := new LinkedList();
      repr := {};
    }

    /** smw_create_task; memory says whether both allocations succeed. */
    method CreateTask(context: int, callback: bool, memory: bool) returns (task: SmwTask?)
      requires Valid()
      modifies `repr, tasks, repr
      ensures Valid() && old(repr) <= repr && fresh(repr - old(repr))
      ensures !memory ==> task == null && tasks.nodes == old(tasks.nodes)
      ensures memory ==>
                && task != null && fresh(task) && task.context == context && task.callback == callback
                && tasks.nodes != [] && tasks.nodes == old(tasks.nodes) + [tasks.nodes[|tasks.nodes| - 1]]
                && fresh(tasks.nodes[|tasks.nodes| - 1]) && tasks.nodes[|tasks.nodes| - 1].item == task
    {
      if !memory {
        return null;
      }
      task := new SmwTask(context, callback);
      ghost var items := tasks.Items();
      assert forall i | 0 <= i < |items| :: items[i] != task;
      var _ := tasks.Append(task, true);
      repr := repr + {tasks.nodes[|tasks.nodes| - 1]};
      assert tasks.nodes == old(tasks.nodes) + [tasks.nodes[|tasks.nodes| - 1]];
    }

    /** smw_destroy_task: scan for the node that holds the task, and remove it. */
    method DestroyTask(task: SmwTask?, ghost k: nat)
      requires Valid()
      requires k < |tasks.nodes| ==> tasks.nodes[k].item == task
      requires k >= |tasks.nodes| ==> task !in tasks.Items()
      modifies `repr, tasks, repr
      ensures Valid() && repr == old(repr)
      ensures tasks.nodes == if k < |old(tasks.nodes)| then Without(old(tasks.nodes), k) else old(tasks.nodes)
    {
      if task == null {
        return;
      }
      var node := tasks.head;
      ghost var i := 0;
      while node != null
        invariant i <= |tasks.nodes| && node == At(tasks.nodes, i)
        invariant forall j | 0 <= j < i :: tasks.nodes[j].item != task
        decreases |tasks.nodes| - i
      {
        assert LinkAt(tasks.nodes, i);
        var next := node.front;
        if node.item == task {
          assert i == k by {
            assert tasks.Items()[i] == task;
          }
          RemoveNode(node, i);
          break;
        }
        node := next;
        i := i + 1;
      }
    }

    method RemoveNode(node: TaskNode, ghost k: nat)
      requires Valid() && k < |tasks.nodes| && tasks.nodes[k] == node
      modifies `repr, tasks, repr
      ensures Valid() && repr == old(repr)
      ensures tasks.nodes == Without(old(tasks.nodes), k)
    {
      var _, _ := tasks.Remove(node, k);
    }

    /** The list in the middle of the callback of node p: what was there before, without the node
        itself once it is gone, and then what the callback has created. */
    ghost predicate During(all: seq<TaskNode>, p: nat, gone: bool, created: seq<TaskNode>, task: SmwTask)
      requires p < |all|
      reads tasks
    {
      && all[p].item == task && Distinct(ItemsOf(all))
      && tasks.nodes == (if gone then Without(all, p) else all) + created
      && forall n | n in created :: n.item != task
    }

    method RunAction(task: SmwTask, action: Action,
                     ghost all: seq<TaskNode>, ghost p: nat, ghost gone: bool, ghost created: seq<TaskNode>)
      returns (ghost created': seq<TaskNode>)
      requires Valid() && p < |all| && During(all, p, gone, created, task)
      modifies `repr, tasks, repr
      ensures Valid() && old(repr) <= repr && fresh(repr - old(repr))
      ensures During(all, p, gone || action.DestroySelf?, created', task)
      ensures action.DestroySelf? ==> created' == created
      ensures action.Create? ==>
                && |created'| == |created| + 1 && created'[..|created|] == created
                && created'[|created|] in repr - old(repr)
                && (created'[|created|].item.context, created'[|created|].item.callback)
                    == (action.context, action.callback)
    {
      match action
      case Create(context, callback) =>
        var newTask := CreateTask(context, callback, true);
        created' := created + [tasks.nodes[|tasks.nodes| - 1]];
      case DestroySelf =>
        created' := created;
        if gone {
          DestroyAgain(task, all, p, created);
        } else {
          assert (all + created)[p].item == task;
          assert Without(all + created, p) == Without(all, p) + created;
        }
        DestroyTask(task, if gone then |tasks.nodes| else p);
    }

    /** One callback of the task at node p. */
    method RunCallback(task: SmwTask, ghost p: nat, actions: seq<Action>) returns (ghost created: seq<TaskNode>)
      requires Valid() && p < |tasks.nodes| && During(tasks.nodes, p, false, [], task)
      modifies `repr, tasks, repr
      ensures Valid() && old(repr) <= repr && fresh(repr - old(repr))
      ensures Creates(actions, created) && forall n | n in created :: n in repr - old(repr)
      ensures During(old(tasks.nodes), p, DestroySelf in actions, created, task)
    {
      hide *;
      created := [];
      ghost var all := tasks.nodes;
      CreatesNothing();
      for i := 0 to |actions|
        invariant Valid() && old(repr) <= repr && fresh(repr - old(repr))
        invariant Creates(actions[..i], created)
        invariant forall n | n in created :: n in repr - old(repr)
        invariant During(all, p, DestroySelf in actions[..i], created, task)
      {
        ghost var done, before := actions[..i], created;
        assert actions[..i + 1] == done + [actions[i]];
        created := RunAction(task, actions[i], all, p, DestroySelf in done, created);
        CreatesSnoc(done, before, actions[i], created);
      }
      assert actions[..|actions|] == actions;
    }

    lemma DestroyAgain(task: SmwTask, all: seq<TaskNode>, p: nat, created: seq<TaskNode>)
      requires p < |all| && all[p].item == task && Distinct(ItemsOf(all))
      requires tasks.nodes == Without(all, p) + created
      requires forall n | n in created :: n.item != task
      ensures task !in tasks.Items()
    {
      forall i | 0 <= i < |tasks.nodes|
        ensures tasks.nodes[i].item != task
      {
        if i < |all| - 1 {
          var j := if i < p then i else i + 1;
          assert tasks.nodes[i] == all[j] && ItemsOf(all)[j] != ItemsOf(all)[p];
        } else {
          assert tasks.nodes[i] in created;
        }
      }
    }

    /** One round of the loop of smw_work: save the successor, then call. */
    method VisitNode(node: TaskNode, b: Behaviour, i: nat, ghost start: seq<TaskNode>, ghost pass: Pass)
      returns (next: Node?<SmwTask>, ghost pass': Pass)
      requires Valid() && Progress(start, pass, tasks.nodes, node) && i == |pass.visited|
      requires forall n {:trigger n in AllNodes(start, pass)} | n in AllNodes(start, pass) :: n in repr
      modifies `repr, tasks, repr
      ensures Valid() && old(repr) <= repr && fresh(repr - old(repr))
      ensures Progress(start, pass', tasks.nodes, next)
      ensures forall n {:trigger n in AllNodes(start, pass')} | n in AllNodes(start, pass') :: n in repr
      ensures pass'.visited == pass.visited + [node] && pass'.lists == pass.lists + [old(tasks.nodes)]
      ensures |pass'.created| == i + 1 && pass'.created[..i] == pass.created
      ensures Creates(ActionsOf(b, i, node.item), pass'.created[i])
      ensures pass'.gone == pass.gone + [DestroySelf in ActionsOf(b, i, node.item)]
    {
      hide *;
      ghost var p;
      next, p := SaveNext(node, start, pass);
      ghost var before := tasks.nodes;
      ghost var g := DestroySelf in ActionsOf(b, i, node.item);
      ghost var created := RunCallback(node.item, p, ActionsOf(b, i, node.item));
      AfterCallback(start, pass, before, node, p, created, g);
      pass' := Visit(pass, node, before, created, g);
      VisitFields(pass, node, before, created, g);
    }

    /** The reads of one round, before the callback. */
    method SaveNext(node: TaskNode, ghost start: seq<TaskNode>, ghost pass: Pass)
      returns (next: Node?<SmwTask>, ghost p: nat)
      requires Valid() && Progress(start, pass, tasks.nodes, node)
      ensures p == |Kept(pass.visited, pass.gone)| < |tasks.nodes| && During(tasks.nodes, p, false, [], node.item)
      ensures next == At(AllNodes(start, pass), |pass.visited| + 1)
      ensures |pass.created| == |pass.visited|
    {
      p := VisitedIsLive(start, pass, tasks.nodes, node);
      assert LinkAt(tasks.nodes, p);
      next := node.front;
    }

    lemma AfterCallback(start: seq<TaskNode>, pass: Pass, before: seq<TaskNode>, node: TaskNode, p: nat,
                        created: seq<TaskNode>, g: bool)
      requires Valid() && Progress(start, pass, before, node) && p == |Kept(pass.visited, pass.gone)| < |before|
      requires During(before, p, g, created, node.item)
      requires forall n {:trigger n in AllNodes(start, pass)} | n in AllNodes(start, pass) :: n in repr && n !in created
      requires forall n | n in created :: n in repr
      ensures var pass' := Visit(pass, node, before, created, g);
              && Progress(start, pass', tasks.nodes, At(AllNodes(start, pass), |pass.visited| + 1))
              && forall n {:trigger n in AllNodes(start, pass')} | n in AllNodes(start, pass') :: n in repr
    {
      DistinctTail(if g then Without(before, p) else before, created);
      Advance(start, pass, before, node, p, created, g, tasks.nodes);
      AllNodesAfterVisit(start, pass, node, before, created, g);
      hide AllNodes;
      assert forall n | n in AllNodes(start, pass) + created :: n in repr;
    }

    /** The state of the loop of smw_work after i rounds. */
    ghost predicate InPass(b: Behaviour, i: nat, start: seq<TaskNode>, pass: Pass, node: Node?<SmwTask>)
      reads this, tasks
    {
      && SameLengths(pass) && |pass.visited| == i
      && Progress(start, pass, tasks.nodes, node)
      && (forall n {:trigger n in AllNodes(start, pass)} | n in AllNodes(start, pass) :: n in repr)
      && Follows(b, pass) && Recorded(start, pass)
    }

    method Round(node: TaskNode, b: Behaviour, i: nat, ghost start: seq<TaskNode>, ghost pass: Pass,
                 ghost w: int -> nat, ghost q: nat)
      returns (next: Node?<SmwTask>, ghost pass': Pass)
      requires Valid() && InPass(b, i, start, pass, node) && Pays(b, w, q)
      modifies `repr, tasks, repr
      ensures Valid() && fresh(repr - old(repr))
      ensures InPass(b, i + 1, start, pass', next)
      ensures pass'.visited == pass.visited + [node]
      ensures i >= q ==> Remaining(start, pass', w) < Remaining(start, pass, w)
    {
      ghost var before := tasks.nodes;
      ghost var p := VisitedIsLive(start, pass, before, node);
      hide Progress, ActionsOf, Creates, AllNodes, Follows, Recorded, Pays, Remaining;
      next, pass' := VisitNode(node, b, i, start, pass);
      FollowsVisit(b, pass, pass', i);
      RecordedVisit(start, pass, before, node, pass', i);
      if i >= q {
        CreatedIsPaid(b, pass', w, q, i);
        VisitLeavesLess(start, pass, pass', node, w);
      }
    }

    /** The loop of smw_work, from node on. */
    method Rounds(first: Node?<SmwTask>, b: Behaviour, ghost start: seq<TaskNode>, ghost w: int -> nat, ghost q: nat)
      returns (calls: seq<SmwTask>, ghost pass: Pass)
      requires Valid() && InPass(b, 0, start, Pass([], [], [], []), first) && Pays(b, w, q)
      modifies `repr, tasks, repr
      ensures Valid() && fresh(repr - old(repr))
      ensures InPass(b, |pass.visited|, start, pass, null)
      ensures calls == Called(pass.visited)
    {
      hide *;
      calls := [];
      pass := Pass([], [], [], []);
      var node := first;
      var i := 0;
      ghost var left := Remaining(start, pass, w);
      CalledEmpty();
      while node != null
        invariant Valid() && fresh(repr - old(repr))
        invariant i == |pass.visited| && InPass(b, i, start, pass, node)
        invariant calls == Called(pass.visited)
        invariant left == Remaining(start, pass, w)
        decreases if i < q then q - i else 0, left
      {
        var current: TaskNode := node;
        CalledSnoc(pass.visited, current);
        if current.item.callback {
          calls := calls + [current.item];
        }
        node, pass := Round(current, b, i, start, pass, w, q);
        left := Remaining(start, pass, w);
        i := i + 1;
      }
    }

    /** smw_work, for callbacks that from some visit on pay for what they create. The returned list is
        that of the calls made; the ghost result records the pass. */
    method Work(b: Behaviour, ghost w: int -> nat, ghost q: nat) returns (calls: seq<SmwTask>, ghost pass: Pass)
      requires Valid() && Pays(b, w, q)
      modifies `repr, tasks, repr
      ensures Valid() && fresh(repr - old(repr))
      ensures CompletePass(old(tasks.nodes), b, pass)
      ensures q == 0 ==> |pass.visited| <= Budget(old(tasks.nodes), w)
      ensures calls == Called(pass.visited)
      ensures tasks.nodes
              == Kept(pass.visited, pass.gone) + (if pass.visited == [] then [] else pass.created[|pass.created| - 1])
    {
      ghost var start := tasks.nodes;
      StartProgress(start);
      assert Follows(b, Pass([], [], [], [])) && Recorded(start, Pass([], [], [], []));
      calls, pass := Rounds(tasks.head, b, start, w, q);
      EndOfPass(start, b, pass, tasks.nodes);
      if q == 0 {
        PassWithinBudget(start, b, pass, w);
      }
    }

    /** smw_work with the callbacks of the server: it ends within as many visits as there are tasks
        and acceptors at the start, whatever arrives. */
    method WorkOfServer(b: Behaviour, ghost f: int -> bool) returns (calls: seq<SmwTask>, ghost pass: Pass)
      requires Valid() && AcceptorsOnly(b, f)
      modifies `repr, tasks, repr
      ensures Valid() && fresh(repr - old(repr))
      ensures CompletePass(old(tasks.nodes), b, pass)
      ensures |pass.visited| <= |old(tasks.nodes)| + Count(old(tasks.nodes), f)
      ensures calls == Called(pass.visited)
    {
      hide CompletePass, AcceptorsOnly, Called;
      AcceptorsPay(b, f);
      calls, pass := Work(b, AcceptorWeight(f), 0);
      PassLengthBound(old(tasks.nodes), b, pass, f);
    }
  }
}
