/** Several tasks that each hand the items they took to one receiver, one item at a time and in any
    interleaving: the flushes of a log buffer, and the replays of buffered syncs. */
module Handovers {

  /** The items a task took, and how many of them it has handed over. */
  datatype Task<T> = Task(items: seq<T>, sent: nat)

  /** The `index`-th item of a task, handed over. */
  datatype Delivery<T> = Delivery(task: nat, index: nat, item: T)

  /** The tasks in the order they began, and what was handed over, oldest first. */
  datatype Handover<T> = Handover(tasks: seq<Task<T>>, history: seq<Delivery<T>>)

  predicate Active<T>(t: Task<T>) {
    t.sent < |t.items|
  }

  predicate CanAdvance<T>(h: Handover<T>, k: nat) {
    k < |h.tasks| && Active(h.tasks[k])
  }

  function DeliveryOf<T>(tasks: seq<Task<T>>, k: nat, i: nat): Delivery<T>
    requires k < |tasks| && i < |tasks[k].items|
  {
    Delivery(k, i, tasks[k].items[i])
  }

  /** One more task begins. */
  function Started<T>(h: Handover<T>, items: seq<T>): Handover<T> {
    h.(tasks := h.tasks + [Task(items, 0)])
  }

  /** Task `k` hands over its next item. */
  function Advanced<T>(h: Handover<T>, k: nat): Handover<T>
    requires CanAdvance(h, k)
  {
    var t := h.tasks[k];
    Handover(h.tasks[k := t.(sent := t.sent + 1)], h.history + [DeliveryOf(h.tasks, k, t.sent)])
  }

  /** All items, task by task. */
  function AllItems<T>(tasks: seq<Task<T>>): seq<T> {
    if tasks == [] then [] else tasks[0].items + AllItems(tasks[1..])
  }

  function Unsent<T>(t: Task<T>): seq<T> {
    if Active(t) then t.items[t.sent..] else []
  }

  /** Items taken and not yet handed over, task by task. */
  function Remaining<T>(tasks: seq<Task<T>>): seq<T> {
    if tasks == [] then [] else Unsent(tasks[0]) + Remaining(tasks[1..])
  }

  /** The items handed over, oldest first. */
  function Items<T>(history: seq<Delivery<T>>): (items: seq<T>)
    ensures |items| == |history|
  {
    if history == [] then []
    else Items(history[..|history| - 1]) + [history[|history| - 1].item]
  }

  /** What task `k` handed over. */
  function SentBy<T>(history: seq<Delivery<T>>, k: nat): seq<T> {
    if history == [] then []
    else
      var d := history[|history| - 1];
      SentBy(history[..|history| - 1], k) + (if d.task == k then [d.item] else [])
  }

  // ---------------------------------------------------------------------------
  // Nothing is lost, nothing is handed over twice
  // ---------------------------------------------------------------------------

  /** Each task has handed over a prefix of its items. */
  ghost predicate Prefixes<T>(h: Handover<T>) {
    (forall k | 0 <= k < |h.tasks| ::
       h.tasks[k].sent <= |h.tasks[k].items| &&
       SentBy(h.history, k) == h.tasks[k].items[..h.tasks[k].sent]) &&
    (forall i | 0 <= i < |h.history| :: h.history[i].task < |h.tasks|)
  }

  /** The history holds exactly the items that the tasks have sent, each from its place. */
  ghost predicate Traced<T>(h: Handover<T>) {
    (forall d | d in h.history ::
       d.task < |h.tasks| && d.index < h.tasks[d.task].sent <= |h.tasks[d.task].items| &&
       d == DeliveryOf(h.tasks, d.task, d.index)) &&
    (forall k, i {:trigger DeliveryOf(h.tasks, k, i)} |
       0 <= k < |h.tasks| && 0 <= i < h.tasks[k].sent <= |h.tasks[k].items| ::
       DeliveryOf(h.tasks, k, i) in h.history)
  }

  /** Every item taken is handed over or still to come, exactly once. */
  ghost predicate Balanced<T>(h: Handover<T>) {
    multiset(AllItems(h.tasks)) == multiset(Items(h.history)) + multiset(Remaining(h.tasks))
  }

  /** What holds of tasks and history at every moment, whatever the interleaving. */
  ghost predicate Sound<T>(h: Handover<T>) {
    Prefixes(h) && Traced(h) && Balanced(h)
  }

  lemma NothingYet<T>(h: Handover<T>)
    requires h == Handover([], [])
    ensures Sound(h) && InOrder(h) && LastOnly(h.tasks)
  {}

  lemma Associative<T>(a: seq<T>, b: seq<T>, c: seq<T>)
    ensures a + b + c == a + (b + c)
  {}

  lemma {:induction false} ItemsConcat<T>(a: seq<Task<T>>, b: seq<Task<T>>)
    ensures AllItems(a + b) == AllItems(a) + AllItems(b)
    ensures Remaining(a + b) == Remaining(a) + Remaining(b)
  {
    hide *;
    if a == [] {
      NoTask(b);
    } else {
      var rest := a[1..];
      TailOfConcat(a, b);
      ItemsConcat(rest, b);
      FirstTask(a);
      FirstTask(a + b);
      Associative(a[0].items, AllItems(rest), AllItems(b));
      Associative(Unsent(a[0]), Remaining(rest), Remaining(b));
    }
  }

  lemma NoTask<T>(b: seq<Task<T>>)
    ensures AllItems([] + b) == AllItems([]) + AllItems(b)
    ensures Remaining([] + b) == Remaining([]) + Remaining(b)
  {
    assert [] + b == b;
    hide Unsent;
  }

  lemma TailOfConcat<T>(a: seq<T>, b: seq<T>)
    requires a != []
    ensures (a + b)[0] == a[0] && (a + b)[1..] == a[1..] + b
  {}

  lemma FirstTask<T>(tasks: seq<Task<T>>)
    requires tasks != []
    ensures AllItems(tasks) == tasks[0].items + AllItems(tasks[1..])
    ensures Remaining(tasks) == Unsent(tasks[0]) + Remaining(tasks[1..])
  {}

  lemma OneTask<T>(t: Task<T>)
    ensures AllItems([t]) == t.items && Remaining([t]) == Unsent(t)
  {
    assert [t][1..] == [];
    hide Unsent;
  }

  lemma ItemsSnoc<T>(tasks: seq<Task<T>>, t: Task<T>)
    ensures AllItems(tasks + [t]) == AllItems(tasks) + t.items
    ensures Remaining(tasks + [t]) == Remaining(tasks) + Unsent(t)
  {
    hide *;
    ItemsConcat(tasks, [t]);
    OneTask(t);
  }

  lemma ItemsAround<T>(a: seq<Task<T>>, t: Task<T>, b: seq<Task<T>>)
    ensures AllItems(a + [t] + b) == AllItems(a) + t.items + AllItems(b)
    ensures Remaining(a + [t] + b) == Remaining(a) + Unsent(t) + Remaining(b)
  {
    hide *;
    ItemsConcat(a + [t], b);
    ItemsSnoc(a, t);
  }

  lemma UnsentNext<T>(t: Task<T>)
    requires Active(t)
    ensures Unsent(t) == [t.items[t.sent]] + Unsent(t.(sent := t.sent + 1))
  {}

  /** Handing over one item takes it from what remains and changes nothing else. */
  lemma RemainingNext<T>(tasks: seq<Task<T>>, k: nat)
    requires k < |tasks| && Active(tasks[k])
    ensures var t := tasks[k];
            var after := tasks[k := t.(sent := t.sent + 1)];
            AllItems(after) == AllItems(tasks) &&
            multiset(Remaining(tasks)) == multiset(Remaining(after)) + multiset{t.items[t.sent]}
  {
    var t, a, b := tasks[k], tasks[..k], tasks[k + 1..];
    var u := t.(sent := t.sent + 1);
    UnsentNext(t);
    assert tasks == a + [t] + b && tasks[k := u] == a + [u] + b;
    hide *;
    ItemsAround(a, t, b);
    ItemsAround(a, u, b);
    TakenOut(Remaining(a), t.items[t.sent], Unsent(u), Remaining(b));
  }

  lemma TakenOut<T>(a: seq<T>, x: T, b: seq<T>, c: seq<T>)
    ensures multiset(a + ([x] + b) + c) == multiset(a + b + c) + multiset{x}
  {}

  lemma {:induction false} SentNothing<T>(history: seq<Delivery<T>>, k: nat)
    requires forall i | 0 <= i < |history| :: history[i].task < k
    ensures SentBy(history, k) == []
  {
    if history != [] {
      SentNothing(history[..|history| - 1], k);
    }
  }

  lemma Append<T>(history: seq<Delivery<T>>, d: Delivery<T>)
    ensures Items(history + [d]) == Items(history) + [d.item]
    ensures forall k :: SentBy(history + [d], k) == SentBy(history, k) + (if d.task == k then [d.item] else [])
  {}

  lemma StartKeepsSound<T>(h: Handover<T>, items: seq<T>)
    requires Sound(h)
    ensures Sound(Started(h, items)) && AllItems(Started(h, items).tasks) == AllItems(h.tasks) + items
  {
    var g := Started(h, items);
    SentNothing(h.history, |h.tasks|);
    ItemsSnoc(h.tasks, Task(items, 0));
    hide AllItems, Remaining, SentBy, Items;
    assert Unsent(Task(items, 0)) == items;
    StartKeepsTrace(h, items);
    hide Traced;
    StartKeepsPrefixes(h, items);
    hide Prefixes;
    assert multiset(Remaining(h.tasks) + items) == multiset(Remaining(h.tasks)) + multiset(items);
    assert multiset(AllItems(h.tasks) + items) == multiset(AllItems(h.tasks)) + multiset(items);
  }

  lemma StartKeepsTrace<T>(h: Handover<T>, items: seq<T>)
    requires Traced(h)
    ensures Traced(Started(h, items))
  {
    var g := Started(h, items);
    forall k, i | 0 <= k < |g.tasks| && 0 <= i < g.tasks[k].sent <= |g.tasks[k].items|
      ensures DeliveryOf(g.tasks, k, i) in g.history
    {
      assert DeliveryOf(g.tasks, k, i) == DeliveryOf(h.tasks, k, i);
    }
  }

  lemma StartKeepsPrefixes<T>(h: Handover<T>, items: seq<T>)
    requires Prefixes(h) && SentBy(h.history, |h.tasks|) == []
    ensures Prefixes(Started(h, items))
  {
    hide SentBy;
  }

  lemma AdvanceKeepsPrefixes<T>(h: Handover<T>, k: nat)
    requires Prefixes(h) && CanAdvance(h, k)
    ensures Prefixes(Advanced(h, k))
  {
    var g, t := Advanced(h, k), h.tasks[k];
    var d := DeliveryOf(h.tasks, k, t.sent);
    Append(h.history, d);
    hide SentBy, Active;
    assert t.items[..t.sent + 1] == t.items[..t.sent] + [t.items[t.sent]];
    forall j | 0 <= j < |g.tasks|
      ensures g.tasks[j].sent <= |g.tasks[j].items|
      ensures SentBy(g.history, j) == g.tasks[j].items[..g.tasks[j].sent]
    {
      assert j != k ==> g.tasks[j] == h.tasks[j] && SentBy(g.history, j) == SentBy(h.history, j) + [];
    }
  }

  lemma AdvanceKeepsTrace<T>(h: Handover<T>, k: nat)
    requires Traced(h) && CanAdvance(h, k)
    ensures Traced(Advanced(h, k))
  {
    var g, d := Advanced(h, k), DeliveryOf(h.tasks, k, h.tasks[k].sent);
    assert g.history == h.history + [d];
    assert forall j | 0 <= j < |h.tasks| :: g.tasks[j].items == h.tasks[j].items;
    forall j, i | 0 <= j < |g.tasks| && 0 <= i < g.tasks[j].sent <= |g.tasks[j].items|
      ensures DeliveryOf(g.tasks, j, i) in g.history
    {
      assert DeliveryOf(g.tasks, j, i) == DeliveryOf(h.tasks, j, i);
    }
  }

  lemma AdvanceKeepsBalance<T>(h: Handover<T>, k: nat)
    requires Balanced(h) && CanAdvance(h, k)
    ensures Balanced(Advanced(h, k)) && AllItems(Advanced(h, k).tasks) == AllItems(h.tasks)
  {
    var t, g := h.tasks[k], Advanced(h, k);
    RemainingNext(h.tasks, k);
    Append(h.history, DeliveryOf(h.tasks, k, t.sent));
    assert Items(g.history) == Items(h.history) + [t.items[t.sent]];
    var before, after := multiset(Remaining(h.tasks)), multiset(Remaining(g.tasks));
    assert before == after + multiset{t.items[t.sent]};
    hide *;
    MovedItem(Items(h.history), after, t.items[t.sent]);
    BalancedIs(h);
    BalancedIs(g);
  }

  lemma BalancedIs<T>(h: Handover<T>)
    ensures Balanced(h) <==> multiset(AllItems(h.tasks)) == multiset(Items(h.history)) + multiset(Remaining(h.tasks))
  {
    hide AllItems, Items, Remaining;
  }

  lemma MovedItem<T>(items: seq<T>, rest: multiset<T>, x: T)
    ensures multiset(items) + (rest + multiset{x}) == multiset(items + [x]) + rest
  {}

  lemma AdvanceKeepsSound<T>(h: Handover<T>, k: nat)
    requires Sound(h) && CanAdvance(h, k)
    ensures Sound(Advanced(h, k)) && AllItems(Advanced(h, k).tasks) == AllItems(h.tasks)
  {
    hide Prefixes, Traced, Balanced, Advanced, AllItems;
    AdvanceKeepsPrefixes(h, k);
    AdvanceKeepsTrace(h, k);
    AdvanceKeepsBalance(h, k);
  }

  ghost predicate Idle<T>(tasks: seq<Task<T>>) {
    forall k | 0 <= k < |tasks| :: !Active(tasks[k])
  }

  lemma {:induction false} IdleRemaining<T>(tasks: seq<Task<T>>)
    requires Idle(tasks)
    ensures Remaining(tasks) == []
  {
    if tasks != [] {
      IdleRemaining(tasks[1..]);
    }
  }

  // ---------------------------------------------------------------------------
  // Positions
  // ---------------------------------------------------------------------------

  /** Position, among all items, of the first item of task `k`. */
  function Offset<T>(tasks: seq<Task<T>>, k: nat): nat {
    if k == 0 || tasks == [] then 0 else |tasks[0].items| + Offset(tasks[1..], k - 1)
  }

  /** Position, among all items, of the `m`-th item handed over. */
  function Position<T>(h: Handover<T>, m: nat): nat
    requires m < |h.history|
  {
    Offset(h.tasks, h.history[m].task) + h.history[m].index
  }

  /** The items handed over are the first items, in order: the `m`-th delivery is the `m`-th item. */
  ghost predicate InOrder<T>(h: Handover<T>) {
    forall m | 0 <= m < |h.history| :: Offset(h.tasks, h.history[m].task) + h.history[m].index == m
  }

  lemma {:induction false} OffsetNext<T>(tasks: seq<Task<T>>, k: nat)
    requires k < |tasks|
    ensures Offset(tasks, k + 1) == Offset(tasks, k) + |tasks[k].items|
  {
    if k > 0 {
      OffsetNext(tasks[1..], k - 1);
    }
  }

  lemma {:induction false} OffsetMonotone<T>(tasks: seq<Task<T>>, j: nat, k: nat)
    requires j < k <= |tasks|
    ensures Offset(tasks, j) + |tasks[j].items| <= Offset(tasks, k)
    decreases k
  {
    OffsetNext(tasks, k - 1);
    if j < k - 1 {
      OffsetMonotone(tasks, j, k - 1);
    }
  }

  lemma {:induction false} ItemPosition<T>(tasks: seq<Task<T>>, k: nat, i: nat)
    requires k < |tasks| && i < |tasks[k].items|
    ensures Offset(tasks, k) + i < |AllItems(tasks)|
    ensures AllItems(tasks)[Offset(tasks, k) + i] == tasks[k].items[i]
  {
    if k > 0 {
      ItemPosition(tasks[1..], k - 1, i);
    }
  }

  /** Every position belongs to a task. */
  lemma {:induction false} PositionTask<T>(tasks: seq<Task<T>>, p: nat) returns (k: nat, i: nat)
    requires p < |AllItems(tasks)|
    ensures k < |tasks| && i < |tasks[k].items| && p == Offset(tasks, k) + i
  {
    if p < |tasks[0].items| {
      k, i := 0, p;
    } else {
      k, i := PositionTask(tasks[1..], p - |tasks[0].items|);
      k := k + 1;
    }
  }

  lemma {:induction false} OffsetSnoc<T>(tasks: seq<Task<T>>, k: nat, t: Task<T>)
    requires k < |tasks|
    ensures Offset(tasks + [t], k) == Offset(tasks, k)
  {
    if k > 0 {
      assert (tasks + [t])[1..] == tasks[1..] + [t];
      OffsetSnoc(tasks[1..], k - 1, t);
    }
  }

  lemma {:induction false} OffsetUpdate<T>(tasks: seq<Task<T>>, k: nat, j: nat, t: Task<T>)
    requires k < |tasks| && j < |tasks| && t.items == tasks[j].items
    ensures Offset(tasks[j := t], k) == Offset(tasks, k)
  {
    if k > 0 {
      if j > 0 {
        assert tasks[j := t][1..] == tasks[1..][j - 1 := t];
        OffsetUpdate(tasks[1..], k - 1, j - 1, t);
      } else {
        assert tasks[j := t][1..] == tasks[1..];
      }
    }
  }

  /** Everything handed over stands before everything that a task has left. */
  lemma NotYetDelivered<T>(h: Handover<T>, k: nat)
    requires Traced(h) && InOrder(h) && CanAdvance(h, k)
    ensures |h.history| <= Offset(h.tasks, k) + h.tasks[k].sent < |AllItems(h.tasks)|
  {
    var n, q := |h.history|, Offset(h.tasks, k) + h.tasks[k].sent;
    ItemPosition(h.tasks, k, h.tasks[k].sent);
    hide AllItems, Offset;
    if q < n {
      var d := h.history[q];
      assert d in h.history;
      if d.task < k {
        OffsetMonotone(h.tasks, d.task, k);
      } else if d.task > k {
        OffsetMonotone(h.tasks, k, d.task);
      }
      assert false;
    }
  }

  lemma SentIsDelivered<T>(h: Handover<T>, k: nat, i: nat)
    requires Traced(h) && InOrder(h) && k < |h.tasks| && i < h.tasks[k].sent <= |h.tasks[k].items|
    ensures Offset(h.tasks, k) + i < |h.history|
  {
    hide Offset;
    assert DeliveryOf(h.tasks, k, i) in h.history;
  }

  /** Every task that began before task `k` has handed over all its items. */
  ghost predicate FirstInLine<T>(tasks: seq<Task<T>>, k: nat) {
    forall j | 0 <= j < k && j < |tasks| :: !Active(tasks[j])
  }

  /** When every task before `k` has finished, the next item of `k` is the next of all. */
  lemma NextInOrder<T>(h: Handover<T>, k: nat)
    requires Sound(h) && InOrder(h) && CanAdvance(h, k) && FirstInLine(h.tasks, k)
    ensures |h.history| == Offset(h.tasks, k) + h.tasks[k].sent
  {
    var n, q := |h.history|, Offset(h.tasks, k) + h.tasks[k].sent;
    NotYetDelivered(h, k);
    hide Offset, Traced, InOrder, Balanced, SentBy, Items;
    if n < q {
      var t, i := PositionTask(h.tasks, n);
      hide AllItems;
      if t > k {
        OffsetMonotone(h.tasks, k, t);
      }
      SentIsDelivered(h, t, i);
      assert false;
    }
  }

  lemma AdvanceInOrder<T>(h: Handover<T>, k: nat)
    requires Traced(h) && CanAdvance(h, k)
    ensures InOrder(Advanced(h, k)) <==>
            InOrder(h) && |h.history| == Offset(h.tasks, k) + h.tasks[k].sent
  {
    var g, t := Advanced(h, k), h.tasks[k];
    var d := DeliveryOf(h.tasks, k, t.sent);
    assert g.history == h.history + [d] && g.history[|h.history|] == d;
    forall j: nat | j < |h.tasks| ensures Offset(g.tasks, j) == Offset(h.tasks, j) {
      OffsetUpdate(h.tasks, j, k, g.tasks[k]);
    }
    hide Offset, Active, Advanced;
    assert forall m | 0 <= m < |h.history| :: h.history[m] in h.history && g.history[m] == h.history[m];
  }

  /** While the items come in order, the next one of task `k` keeps the order exactly when every
      earlier task has finished. */
  lemma NextKeepsOrderIff<T>(h: Handover<T>, k: nat)
    requires Sound(h) && InOrder(h) && CanAdvance(h, k)
    ensures InOrder(Advanced(h, k)) <==> FirstInLine(h.tasks, k)
  {
    AdvanceInOrder(h, k);
    NotYetDelivered(h, k);
    hide InOrder, Offset, Advanced, Prefixes, Traced, Balanced;
    if FirstInLine(h.tasks, k) {
      NextInOrder(h, k);
    } else {
      var j :| 0 <= j < k && Active(h.tasks[j]);
      NotYetDelivered(h, j);
      OffsetMonotone(h.tasks, j, k);
    }
  }

  lemma AdvanceInOrderIff<T>(h: Handover<T>, k: nat)
    requires Sound(h) && CanAdvance(h, k)
    ensures InOrder(Advanced(h, k)) <==> InOrder(h) && FirstInLine(h.tasks, k)
  {
    AdvanceInOrder(h, k);
    hide InOrder, Offset, Advanced, Prefixes, Balanced, FirstInLine, Active;
    if InOrder(h) {
      NextKeepsOrderIff(h, k);
    }
  }

  lemma StartInOrderIff<T>(h: Handover<T>, items: seq<T>)
    requires Traced(h)
    ensures InOrder(Started(h, items)) <==> InOrder(h)
  {
    var g := Started(h, items);
    forall j: nat | j < |h.tasks| ensures Offset(g.tasks, j) == Offset(h.tasks, j) {
      OffsetSnoc(h.tasks, j, Task(items, 0));
    }
    hide Offset;
    assert forall m | 0 <= m < |h.history| :: h.history[m] in h.history;
  }

  // ---------------------------------------------------------------------------
  // What the receiver sees
  // ---------------------------------------------------------------------------

  lemma {:induction false} ItemAt<T>(history: seq<Delivery<T>>, m: nat)
    requires m < |history|
    ensures Items(history)[m] == history[m].item
  {
    if m < |history| - 1 {
      ItemAt(history[..|history| - 1], m);
    }
  }

  lemma ItemOfPosition<T>(h: Handover<T>, m: nat)
    requires Traced(h) && m < |h.history|
    ensures Position(h, m) < |AllItems(h.tasks)|
    ensures Items(h.history)[m] == AllItems(h.tasks)[Position(h, m)]
  {
    var d := h.history[m];
    assert d in h.history;
    ItemAt(h.history, m);
    hide Items, AllItems, Offset;
    ItemPosition(h.tasks, d.task, d.index);
  }

  ghost predicate Distinct<T>(items: seq<T>) {
    forall i, j | 0 <= i < j < |items| :: items[i] != items[j]
  }

  /** Order by position is what the receiver sees: the items received are a prefix of all items.
      When no two items are alike the receiver can tell. */
  lemma InOrderReads<T>(h: Handover<T>)
    requires Traced(h)
    ensures InOrder(h) ==> Items(h.history) <= AllItems(h.tasks)
    ensures Distinct(AllItems(h.tasks)) && Items(h.history) <= AllItems(h.tasks) ==> InOrder(h)
  {
    var items, all := Items(h.history), AllItems(h.tasks);
    forall m | 0 <= m < |h.history| ensures Position(h, m) < |all| && items[m] == all[Position(h, m)] {
      ItemOfPosition(h, m);
    }
    hide Offset, Items, AllItems, Traced;
    if InOrder(h) && |h.history| > 0 {
      assert forall m | 0 <= m < |h.history| :: Position(h, m) == m;
      assert Position(h, |h.history| - 1) == |h.history| - 1;
    }
    if Distinct(all) && items <= all {
      forall m | 0 <= m < |h.history| ensures Offset(h.tasks, h.history[m].task) + h.history[m].index == m {
        assert items[m] == all[m] && items[m] == all[Position(h, m)];
      }
    }
  }

  /** How many of `size` items from `start` on lie before position `n`. */
  function Before(n: nat, start: nat, size: nat): nat {
    if n <= start then 0 else if n - start < size then n - start else size
  }

  /** The tasks have sent exactly the first `n` items. */
  ghost predicate SentUpTo<T>(tasks: seq<Task<T>>, n: nat) {
    forall k | 0 <= k < |tasks| :: tasks[k].sent == Before(n, Offset(tasks, k), |tasks[k].items|)
  }

  lemma SentUpToTail<T>(tasks: seq<Task<T>>, n: nat)
    requires tasks != [] && SentUpTo(tasks, n)
    ensures var size := |tasks[0].items|;
            tasks[0].sent == (if n < size then n else size) &&
            SentUpTo(tasks[1..], if n <= size then 0 else n - size)
  {
    var tail := tasks[1..];
    assert tasks[0].sent == Before(n, Offset(tasks, 0), |tasks[0].items|);
    assert forall k | 0 <= k < |tail| ::
        tail[k] == tasks[k + 1] && Offset(tasks, k + 1) == |tasks[0].items| + Offset(tail, k);
  }

  lemma {:induction false} RemainingIsRest<T>(tasks: seq<Task<T>>, n: nat)
    requires SentUpTo(tasks, n) && n <= |AllItems(tasks)|
    ensures Remaining(tasks) == AllItems(tasks)[n..]
  {
    if tasks != [] {
      var size := |tasks[0].items|;
      var rest := if n <= size then 0 else n - size;
      SentUpToTail(tasks, n);
      FirstTask(tasks);
      hide SentUpTo, AllItems, Remaining;
      RemainingIsRest(tasks[1..], rest);
      SplitRest(tasks[0].items, AllItems(tasks[1..]), n);
    }
  }

  lemma SplitRest<T>(a: seq<T>, b: seq<T>, n: nat)
    requires n <= |a| + |b|
    ensures (a + b)[n..] == if n <= |a| then a[n..] + b else b[n - |a|..]
  {}

  /** As long as the items come in order, all items are those received followed by those that remain. */
  lemma InOrderSplits<T>(h: Handover<T>)
    requires Sound(h) && InOrder(h)
    ensures AllItems(h.tasks) == Items(h.history) + Remaining(h.tasks)
  {
    var n := |h.history|;
    InOrderReads(h);
    forall k | 0 <= k < |h.tasks| ensures h.tasks[k].sent == Before(n, Offset(h.tasks, k), |h.tasks[k].items|) {
      SentBefore(h, k);
    }
    assert SentUpTo(h.tasks, n);
    hide *;
    RemainingIsRest(h.tasks, n);
    PrefixAndRest(Items(h.history), AllItems(h.tasks));
  }

  lemma PrefixAndRest<T>(front: seq<T>, all: seq<T>)
    requires front <= all
    ensures all == front + all[|front|..]
  {}

  lemma SentBefore<T>(h: Handover<T>, k: nat)
    requires Sound(h) && InOrder(h) && k < |h.tasks|
    ensures h.tasks[k].sent == Before(|h.history|, Offset(h.tasks, k), |h.tasks[k].items|)
  {
    hide InOrder, Offset, Traced, Balanced, SentBy;
    if Active(h.tasks[k]) {
      NotYetDelivered(h, k);
    }
    if h.tasks[k].sent > 0 {
      SentIsDelivered(h, k, h.tasks[k].sent - 1);
    }
  }

  // ---------------------------------------------------------------------------
  // Tasks that do not overlap
  // ---------------------------------------------------------------------------

  /** No task has items while an earlier one has some left. */
  ghost predicate LastOnly<T>(tasks: seq<Task<T>>) {
    forall j, k | 0 <= j < k < |tasks| && Active(tasks[j]) :: tasks[k].items == []
  }

  /** A task that begins when the others have finished, or takes nothing, keeps the order. */
  lemma SerialStart<T>(h: Handover<T>, items: seq<T>)
    requires Sound(h) && InOrder(h) && LastOnly(h.tasks) && (items == [] || Idle(h.tasks))
    ensures InOrder(Started(h, items)) && LastOnly(Started(h, items).tasks)
  {
    StartInOrderIff(h, items);
    hide InOrder, Prefixes, Traced, Balanced;
  }

  lemma SerialAdvance<T>(h: Handover<T>, k: nat)
    requires Sound(h) && InOrder(h) && LastOnly(h.tasks) && CanAdvance(h, k)
    ensures InOrder(Advanced(h, k)) && LastOnly(Advanced(h, k).tasks)
  {
    NextKeepsOrderIff(h, k);
    hide InOrder, Prefixes, Traced, Balanced;
    var g := Advanced(h, k);
    assert forall j | 0 <= j < |h.tasks| :: g.tasks[j].items == h.tasks[j].items;
    assert forall j | 0 <= j < |h.tasks| && Active(g.tasks[j]) :: Active(h.tasks[j]);
  }
}
