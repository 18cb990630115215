/**
 * The view projection: filterTasks, the completion statistics, and the
 * composition renderTaskList draws, `sortTasks(filterTasks())`.
 */
module TaskView {
  import opened TaskData
  import opened TaskSort

  /** The values of the filter selector filterTasks's switch knows; anything else shows all. */
  datatype FilterKind = ShowAll | ShowActive | ShowCompleted

  function FilterKindOf(name: string): (f: FilterKind)
    ensures f == ShowActive <==> name == "active"
    ensures f == ShowCompleted <==> name == "completed"
  {
    if name == "active" then ShowActive
    else if name == "completed" then ShowCompleted
    else ShowAll
  }

  /** r is s with some entries left out, the others in their order. */
  predicate IsSubsequence(r: seq<Task>, s: seq<Task>)
    decreases |s|
  {
    if r == [] then true
    else if s == [] then false
    else if r[0] == s[0] then IsSubsequence(r[1..], s[1..])
    else IsSubsequence(r, s[1..])
  }

  /** `tasks.filter(task => task.completed === done)`. */
  function WithStatus(s: seq<Task>, done: bool): (r: seq<Task>)
    ensures |r| <= |s|
    ensures forall k :: 0 <= k < |r| ==> r[k].completed == done
    ensures forall t :: multiset(r)[t] == if t.completed == done then multiset(s)[t] else 0
  {
    if s == [] then []
    else
      assert s == [s[0]] + s[1..];
      if s[0].completed == done then [s[0]] + WithStatus(s[1..], done)
      else WithStatus(s[1..], done)
  }

  /** The tasks a filter lets through. */
  predicate Shows(f: FilterKind, t: Task) {
    match f
    case ShowActive => !t.completed
    case ShowCompleted => t.completed
    case ShowAll => true
  }

  /**
   * filterTasks: 'active' keeps the open tasks, 'completed' the done ones,
   * anything else copies.  The result keeps the order of s and holds each task
   * the filter shows as often as s does, and no other.
   */
  function FilterTasks(s: seq<Task>, f: FilterKind): (r: seq<Task>)
    ensures IsSubsequence(r, s)
    ensures forall t :: multiset(r)[t] == if Shows(f, t) then multiset(s)[t] else 0
  {
    match f
    case ShowActive => WithStatusIsSubsequence(s, false); WithStatus(s, false)
    case ShowCompleted => WithStatusIsSubsequence(s, true); WithStatus(s, true)
    case ShowAll => SubsequenceRefl(s); s
  }

  /** Filtering keeps the order of the tasks it keeps. */
  lemma {:induction false} WithStatusIsSubsequence(s: seq<Task>, done: bool)
    ensures IsSubsequence(WithStatus(s, done), s)
  {
    if s != [] {
      WithStatusIsSubsequence(s[1..], done);
      var r := WithStatus(s[1..], done);
      if s[0].completed != done {
        SubsequenceSkip(r, s[1..], s[0]);
      } else {
        assert ([s[0]] + r)[1..] == r;
      }
    }
  }

  lemma {:induction false} SubsequenceSkip(r: seq<Task>, s: seq<Task>, x: Task)
    requires IsSubsequence(r, s)
    ensures IsSubsequence(r, [x] + s)
    decreases |s|, 1
  {
    assert ([x] + s)[1..] == s;
    if r != [] && r[0] == x {
      SubsequenceDrop(r, s);
    }
  }

  lemma {:induction false} SubsequenceDrop(r: seq<Task>, s: seq<Task>)
    requires r != [] && IsSubsequence(r, s)
    ensures IsSubsequence(r[1..], s)
    decreases |s|, 0
  {
    if r[0] == s[0] {
      SubsequenceSkip(r[1..], s[1..], s[0]);
    } else {
      SubsequenceDrop(r, s[1..]);
      SubsequenceSkip(r[1..], s[1..], s[0]);
    }
    assert [s[0]] + s[1..] == s;
  }

  /**
   * Every filter returns an order-preserving subsequence of the list; the
   * active and completed views split the list between them; 'all' is the list.
   */
  lemma FilterPartition(s: seq<Task>)
    ensures forall f :: IsSubsequence(FilterTasks(s, f), s)
    ensures forall t :: t in FilterTasks(s, ShowActive) ==> !t.completed
    ensures forall t :: t in FilterTasks(s, ShowCompleted) ==> t.completed
    ensures multiset(FilterTasks(s, ShowActive)) + multiset(FilterTasks(s, ShowCompleted)) == multiset(s)
    ensures |FilterTasks(s, ShowActive)| + |FilterTasks(s, ShowCompleted)| == |s|
    ensures FilterTasks(s, ShowAll) == s
  {
    WithStatusIsSubsequence(s, false);
    WithStatusIsSubsequence(s, true);
    SubsequenceRefl(s);
    var a, c := WithStatus(s, false), WithStatus(s, true);
    assert multiset(a) + multiset(c) == multiset(s);
    assert |multiset(a)| + |multiset(c)| == |multiset(s)|;
  }

  lemma {:induction false} SubsequenceRefl(s: seq<Task>)
    ensures IsSubsequence(s, s)
  {
    if s != [] { SubsequenceRefl(s[1..]); }
  }

  /** getCompletedCount: `tasks.filter(task => task.completed).length`. */
  function CompletedCount(s: seq<Task>): (n: nat)
    ensures n <= |s|
  {
    |WithStatus(s, true)|
  }

  /** Every task of s has completion status `done`. */
  predicate AllWithStatus(s: seq<Task>, done: bool) {
    forall k :: 0 <= k < |s| ==> s[k].completed == done
  }

  /** Filtering the completed tasks looks at the head, then filters the rest. */
  lemma CompletedCountStep(s: seq<Task>)
    requires s != []
    ensures CompletedCount(s) == (if s[0].completed then 1 else 0) + CompletedCount(s[1..])
  {
  }

  /** Every task has the status exactly when the head and every task of the rest have it. */
  lemma AllWithStatusStep(s: seq<Task>, done: bool)
    requires s != []
    ensures AllWithStatus(s, done) <==> s[0].completed == done && AllWithStatus(s[1..], done)
  {
    assert forall k :: 1 <= k < |s| ==> s[k] == s[1..][k - 1];
  }

  /** The count is 0 exactly when no task is completed. */
  lemma {:induction false} CompletedCountZero(s: seq<Task>)
    ensures CompletedCount(s) == 0 <==> AllWithStatus(s, false)
  {
    if s != [] {
      CompletedCountZero(s[1..]);
      CompletedCountStep(s);
      AllWithStatusStep(s, false);
    }
  }

  /** The count is |s| exactly when every task is completed. */
  lemma {:induction false} CompletedCountFull(s: seq<Task>)
    ensures CompletedCount(s) == |s| <==> AllWithStatus(s, true)
  {
    if s != [] {
      CompletedCountFull(s[1..]);
      CompletedCountStep(s);
      AllWithStatusStep(s, true);
    }
  }

  /**
   * getCompletionPercentage: `Math.round(count / length * 100)`, or 0 for an
   * empty list, computed on exact rationals.
   */
  function CompletionPercentage(s: seq<Task>): (p: nat)
    ensures p <= 100
    ensures s == [] ==> p == 0
  {
    if |s| > 0 then RoundedPercent(CompletedCount(s), |s|) else 0
  }

  /** Math.round(c / n * 100) on exact rationals: round half up of 100c/n is floor((200c + n) / 2n). */
  function RoundedPercent(c: nat, n: nat): (p: nat)
    requires 0 < n && c <= n
    ensures p <= 100
    ensures c == 0 ==> p == 0
    ensures c == n ==> p == 100
    ensures 2 * n * p <= 200 * c + n < 2 * n * (p + 1)
  {
    RoundHalfUp(c, n);
    (200 * c + n) / (2 * n)
  }

  /** The bounds of floor((200c + n) / 2n) for 0 <= c <= n. */
  lemma RoundHalfUp(c: nat, n: nat)
    requires 0 < n && c <= n
    ensures var p := (200 * c + n) / (2 * n);
            && p <= 100
            && (c == 0 ==> p == 0)
            && (c == n ==> p == 100)
            && 2 * n * p <= 200 * c + n < 2 * n * (p + 1)
  {
    var a, d := 200 * c + n, 2 * n;
    DivBounds(a, d);
    DivBelow(a, d, 100);
    if c == 0 { DivBelow(a, d, 0); }
    if c == n { DivUnique(a, d, 100); }
  }

  /** The quotient q of a by d is the q with d * q <= a < d * (q + 1). */
  lemma DivBounds(a: nat, d: nat)
    requires 0 < d
    ensures d * (a / d) <= a < d * (a / d + 1)
  {
    assert a == d * (a / d) + a % d;
    assert d * (a / d + 1) == d * (a / d) + d;
  }

  lemma DivUnique(a: nat, d: nat, q: nat)
    requires 0 < d && d * q <= a < d * (q + 1)
    ensures a / d == q
  {
    DivBounds(a, d);
    DivBelow(a, d, q);
    if a / d < q {
      MulLe(d, a / d + 1, q);
    }
  }

  /** a < d * (q + 1) puts a / d at most q. */
  lemma DivBelow(a: nat, d: nat, q: nat)
    requires 0 < d && a < d * (q + 1)
    ensures a / d <= q
  {
    var r := a / d;
    assert a == d * r + a % d;
    if r > q {
      MulLe(d, q + 1, r);
    }
  }

  lemma MulLe(d: nat, x: nat, y: nat)
    requires x <= y
    ensures d * x <= d * y
  {
    assert d * y == d * x + d * (y - x);
  }

  /** 100 when every task is done, 0 when none is; 50 for one of two. */
  lemma PercentageEndpoints(s: seq<Task>)
    ensures AllWithStatus(s, false) ==> CompletionPercentage(s) == 0
    ensures s != [] && AllWithStatus(s, true) ==> CompletionPercentage(s) == 100
    ensures |s| == 2 && CompletedCount(s) == 1 ==> CompletionPercentage(s) == 50
  {
    CompletedCountZero(s);
    CompletedCountFull(s);
  }

  /** More completed tasks in a list of the same length never lower the percentage. */
  lemma PercentageMonotonic(s: seq<Task>, s': seq<Task>)
    requires |s| == |s'| && CompletedCount(s) <= CompletedCount(s')
    ensures CompletionPercentage(s) <= CompletionPercentage(s')
  {
    if |s| > 0 {
      var n, c, c' := |s|, CompletedCount(s), CompletedCount(s');
      DivMonotonic(200 * c + n, 200 * c' + n, 2 * n);
    }
  }

  lemma DivMonotonic(a: nat, b: nat, d: nat)
    requires 0 < d && a <= b
    ensures a / d <= b / d
  {
    assert b == d * (b / d) + b % d;
    assert b < d * (b / d + 1);
    DivBelow(a, d, b / d);
  }

  /**
   * renderTaskList's list, `sortTasks(filterTasks())`: ordered by the sort
   * selector, holding each task the filter selector shows as often as s does,
   * and no other.
   */
  function Project(s: seq<Task>, filterName: string, sortName: string): (r: seq<Task>)
    ensures Sorted(SortKeyOf(sortName), r)
    ensures multiset(r) == multiset(FilterTasks(s, FilterKindOf(filterName)))
    ensures forall t :: multiset(r)[t] == if Shows(FilterKindOf(filterName), t) then multiset(s)[t] else 0
  {
    SortTasks(SortKeyOf(sortName), FilterTasks(s, FilterKindOf(filterName)))
  }

  /**
   * Under any sort, the 'completed' view shows only completed tasks, the
   * 'active' view only open ones, and together they show as many tasks as
   * the 'all' view.
   */
  lemma ProjectPartition(s: seq<Task>, sortName: string)
    ensures forall t :: t in Project(s, "completed", sortName) ==> t.completed
    ensures forall t :: t in Project(s, "active", sortName) ==> !t.completed
    ensures |Project(s, "active", sortName)| + |Project(s, "completed", sortName)| == |Project(s, "all", sortName)|
    ensures multiset(Project(s, "all", sortName)) == multiset(s)
  {
    FilterPartition(s);
    var key := SortKeyOf(sortName);
    forall t | t in Project(s, "completed", sortName) ensures t.completed {
      assert t in multiset(SortTasks(key, WithStatus(s, true)));
    }
    forall t | t in Project(s, "active", sortName) ensures !t.completed {
      assert t in multiset(SortTasks(key, WithStatus(s, false)));
    }
    assert |multiset(Project(s, "active", sortName))| == |multiset(WithStatus(s, false))|;
    assert |multiset(Project(s, "completed", sortName))| == |multiset(WithStatus(s, true))|;
    assert |multiset(Project(s, "all", sortName))| == |multiset(s)|;
  }
}
