/**
 * sortTasks: `[...taskArray].sort(comparator)` where the comparator depends
 * on the sort selector.  Array.prototype.sort is stable, so for a comparator
 * that is a total preorder its result is THE stable sorted permutation of its
 * input; here that result is computed by a stable insertion sort, and the
 * uniqueness lemma at the end shows that any other stable sort gives the same.
 */
module TaskSort {
  import opened TaskData

  /** The values of the sort selector the comparator's switch knows; anything else is Unsorted. */
  datatype SortKey = DateCreated | DueDate | Alphabetical | Priority | Unsorted

  /** The case labels of the comparator's switch. */
  function SortKeyOf(name: string): (k: SortKey)
    ensures k == DateCreated <==> name == "date-created"
    ensures k == DueDate <==> name == "due-date"
    ensures k == Alphabetical <==> name == "alphabetical"
    ensures k == Priority <==> name == "priority"
  {
    if name == "date-created" then DateCreated
    else if name == "due-date" then DueDate
    else if name == "alphabetical" then Alphabetical
    else if name == "priority" then Priority
    else Unsorted
  }

  /**
   * Lexicographic comparison by code point, -1, 0 or 1: the stand-in for
   * String.prototype.localeCompare.
   */
  function LexCompare(a: string, b: string): (c: int)
    ensures -1 <= c <= 1
    ensures c == 0 <==> a == b
  {
    if a == [] && b == [] then 0
    else if a == [] then -1
    else if b == [] then 1
    else if a[0] < b[0] then -1
    else if b[0] < a[0] then 1
    else
      var c := LexCompare(a[1..], b[1..]);
      assert c == 0 ==> a == [a[0]] + a[1..] == [b[0]] + b[1..] == b;
      c
  }

  /**
   * Lexicographic order stated directly: after a common prefix of length k,
   * either a is used up or a's next code point is the smaller one.
   */
  ghost predicate LexLe(a: string, b: string) {
    exists k :: 0 <= k <= |a| && k <= |b| && a[..k] == b[..k]
                && (k == |a| || (k < |b| && a[k] < b[k]))
  }

  /** The title comparison means lexicographic order. */
  lemma LexCompareMeaning(a: string, b: string)
    ensures LexCompare(a, b) <= 0 <==> LexLe(a, b)
  {
    if LexCompare(a, b) <= 0 { LexLeOfCompare(a, b); }
    if LexLe(a, b) { CompareOfLexLe(a, b); }
  }

  lemma {:induction false} LexLeOfCompare(a: string, b: string)
    requires LexCompare(a, b) <= 0
    ensures LexLe(a, b)
  {
    if a == [] || a[0] < b[0] {
      assert a[..0] == b[..0];
    } else {
      var a', b' := a[1..], b[1..];
      LexLeOfCompare(a', b');
      var k :| 0 <= k <= |a'| && k <= |b'| && a'[..k] == b'[..k] && (k == |a'| || (k < |b'| && a'[k] < b'[k]));
      assert a[..k + 1] == [a[0]] + a'[..k];
      assert b[..k + 1] == [b[0]] + b'[..k];
    }
  }

  lemma {:induction false} CompareOfLexLe(a: string, b: string)
    requires LexLe(a, b)
    ensures LexCompare(a, b) <= 0
  {
    var k :| 0 <= k <= |a| && k <= |b| && a[..k] == b[..k] && (k == |a| || (k < |b| && a[k] < b[k]));
    if a != [] && b != [] && a[0] == b[0] {
      var a', b' := a[1..], b[1..];
      assert k > 0;
      assert a'[..k - 1] == a[..k][1..] == b[..k][1..] == b'[..k - 1];
      assert k - 1 == |a'| || (k - 1 < |b'| && a'[k - 1] < b'[k - 1]);
      CompareOfLexLe(a', b');
    }
  }

  /** What each selector's order means, stated without the comparator. */
  ghost predicate InKeyOrder(key: SortKey, a: Task, b: Task) {
    match key
    // newest first
    case DateCreated => a.createdAt >= b.createdAt
    // dated tasks first, earliest due first; undated tasks last, all tied
    case DueDate => b.dueDate.None? || (a.dueDate.Some? && a.dueDate.value <= b.dueDate.value)
    case Alphabetical => LexLe(a.title, b.title)
    // important first; within a tier, oldest first
    case Priority => (a.important && !b.important)
                     || (a.important == b.important && a.createdAt <= b.createdAt)
    case Unsorted => true
  }

  /**
   * The comparator of sortTasks: negative puts a first, positive puts b
   * first, 0 keeps their order.  It is at most 0 exactly when a and b stand
   * in the selector's order.
   */
  function Compare(key: SortKey, a: Task, b: Task): (c: int)
    ensures c <= 0 <==> InKeyOrder(key, a, b)
  {
    LexCompareMeaning(a.title, b.title);
    match key
    case DateCreated => b.createdAt - a.createdAt
    case DueDate =>
      if a.dueDate.None? && b.dueDate.None? then 0
      else if a.dueDate.None? then 1
      else if b.dueDate.None? then -1
      else a.dueDate.value - b.dueDate.value
    case Alphabetical => LexCompare(a.title, b.title)
    case Priority =>
      if a.important && !b.important then -1
      else if !a.important && b.important then 1
      else a.createdAt - b.createdAt
    case Unsorted => 0
  }

  /** a may stand before b. */
  predicate Le(key: SortKey, a: Task, b: Task) {
    Compare(key, a, b) <= 0
  }

  /** a and b compare equal, so a stable sort keeps their input order. */
  predicate Tied(key: SortKey, a: Task, b: Task) {
    Compare(key, a, b) == 0
  }

  lemma {:induction false} LexAntisymmetric(a: string, b: string)
    ensures LexCompare(a, b) == -LexCompare(b, a)
  {
    if a != [] && b != [] && a[0] == b[0] {
      LexAntisymmetric(a[1..], b[1..]);
    }
  }

  lemma {:induction false} LexTransitive(a: string, b: string, c: string)
    requires LexCompare(a, b) <= 0 && LexCompare(b, c) <= 0
    ensures LexCompare(a, c) <= 0
  {
    if a != [] && b != [] && c != [] && a[0] == b[0] == c[0] {
      LexTransitive(a[1..], b[1..], c[1..]);
    }
  }

  /** The comparator is consistent: swapping its arguments negates its sign. */
  lemma CompareFlip(key: SortKey, a: Task, b: Task)
    ensures Compare(key, a, b) < 0 <==> Compare(key, b, a) > 0
    ensures Compare(key, a, b) == 0 <==> Compare(key, b, a) == 0
  {
    if key == Alphabetical { LexAntisymmetric(a.title, b.title); }
  }

  /** ... and transitive: Le is a total preorder on tasks for every selector. */
  lemma LeTransitive(key: SortKey, a: Task, b: Task, c: Task)
    requires Le(key, a, b) && Le(key, b, c)
    ensures Le(key, a, c)
  {
    if key == Alphabetical { LexTransitive(a.title, b.title, c.title); }
  }

  lemma TiedTransitive(key: SortKey, a: Task, b: Task, c: Task)
    requires Tied(key, a, b) && Tied(key, b, c)
    ensures Tied(key, a, c)
  {
    CompareFlip(key, a, b);
    CompareFlip(key, b, c);
    LeTransitive(key, a, b, c);
    LeTransitive(key, c, b, a);
    CompareFlip(key, a, c);
  }

  /** Two tasks tied with the same task are tied with each other. */
  lemma TiedWithSame(key: SortKey, x: Task, y: Task, t: Task)
    ensures Tied(key, x, t) && Tied(key, y, t) ==> Tied(key, x, y)
  {
    CompareFlip(key, y, t);
    if Tied(key, x, t) && Tied(key, y, t) {
      TiedTransitive(key, x, t, y);
    }
  }

  /** Ordered under the comparator: no pair stands the wrong way round. */
  predicate Sorted(key: SortKey, s: seq<Task>) {
    forall i, j :: 0 <= i < j < |s| ==> Le(key, s[i], s[j])
  }

  /** The tasks of s tied with t, in the order s has them. */
  function TiesOf(key: SortKey, s: seq<Task>, t: Task): seq<Task> {
    if s == [] then []
    else if Tied(key, s[0], t) then [s[0]] + TiesOf(key, s[1..], t)
    else TiesOf(key, s[1..], t)
  }

  /** Stable with respect to s: every group of tied tasks keeps its order from s. */
  ghost predicate StableFor(key: SortKey, r: seq<Task>, s: seq<Task>) {
    forall t :: TiesOf(key, r, t) == TiesOf(key, s, t)
  }

  lemma {:induction false} TiesOfAppend(key: SortKey, a: seq<Task>, b: seq<Task>, t: Task)
    ensures TiesOf(key, a + b, t) == TiesOf(key, a, t) + TiesOf(key, b, t)
  {
    if a == [] {
      assert a + b == b;
    } else {
      assert (a + b)[0] == a[0] && (a + b)[1..] == a[1..] + b;
      TiesOfAppend(key, a[1..], b, t);
    }
  }

  /** y may stand before every task of s. */
  predicate LeAll(key: SortKey, y: Task, s: seq<Task>) {
    forall k :: 0 <= k < |s| ==> Le(key, y, s[k])
  }

  lemma LeAllInsert(key: SortKey, y: Task, x: Task, s: seq<Task>, s': seq<Task>)
    requires LeAll(key, y, s) && Le(key, y, x)
    requires multiset(s') == multiset(s) + multiset{x}
    ensures LeAll(key, y, s')
  {
    forall k | 0 <= k < |s'| ensures Le(key, y, s'[k]) {
      assert s'[k] in multiset(s');
      if s'[k] != x {
        assert s'[k] in multiset(s);
        var m :| 0 <= m < |s| && s[m] == s'[k];
      }
    }
  }

  /** A task that may stand before every task of a sorted list can go in front of it. */
  lemma SortedCons(key: SortKey, y: Task, s: seq<Task>)
    requires LeAll(key, y, s) && Sorted(key, s)
    ensures Sorted(key, [y] + s)
  {
    var r := [y] + s;
    forall i, j | 0 <= i < j < |r| ensures Le(key, r[i], r[j]) {
      assert r[j] == s[j - 1];
      if i > 0 { assert r[i] == s[i - 1]; }
    }
  }

  /** Inserts x into sorted r in front of the first task x may stand before. */
  function Insert(key: SortKey, x: Task, r: seq<Task>): (r': seq<Task>)
    requires Sorted(key, r)
    ensures multiset(r') == multiset(r) + multiset{x}
    ensures Sorted(key, r')
  {
    if r == [] then [x]
    else if Compare(key, x, r[0]) > 0 then
      var rest := Insert(key, x, r[1..]);
      assert r == [r[0]] + r[1..];
      CompareFlip(key, x, r[0]);
      LeAllInsert(key, r[0], x, r[1..], rest);
      SortedCons(key, r[0], rest);
      [r[0]] + rest
    else
      LeAllOfHead(key, x, r);
      SortedCons(key, x, r);
      [x] + r
  }

  /** A task that may stand before the head of a sorted list may stand before all of it. */
  lemma LeAllOfHead(key: SortKey, x: Task, r: seq<Task>)
    requires Sorted(key, r) && r != [] && Compare(key, x, r[0]) <= 0
    ensures LeAll(key, x, r)
  {
    forall k | 0 <= k < |r| ensures Le(key, x, r[k]) {
      if k > 0 { LeTransitive(key, x, r[0], r[k]); }
    }
  }

  /** The result of sortTasks: the stable insertion sort of the copy. */
  function SortTasks(key: SortKey, s: seq<Task>): (r: seq<Task>)
    ensures multiset(r) == multiset(s)
    ensures Sorted(key, r)
  {
    if s == [] then []
    else
      assert s == [s[0]] + s[1..];
      Insert(key, s[0], SortTasks(key, s[1..]))
  }

  /** Inserting x before every task it ties with keeps each tie group in order. */
  lemma {:induction false} InsertStable(key: SortKey, x: Task, r: seq<Task>, t: Task)
    requires Sorted(key, r)
    ensures TiesOf(key, Insert(key, x, r), t) == TiesOf(key, [x] + r, t)
  {
    if r != [] && Compare(key, x, r[0]) > 0 {
      InsertStable(key, x, r[1..], t);
      var rest := Insert(key, x, r[1..]);
      assert ([r[0]] + rest)[1..] == rest;
      assert ([x] + r[1..])[1..] == r[1..];
      assert ([x] + r)[1..] == r;
      assert r[1..] == ([r[0]] + r[1..])[1..];
      TiedWithSame(key, x, r[0], t);
      assert TiesOf(key, [x] + r[1..], t) == TiesOf(key, [x], t) + TiesOf(key, r[1..], t) by {
        TiesOfAppend(key, [x], r[1..], t);
      }
      assert TiesOf(key, [x] + r, t) == TiesOf(key, [x], t) + TiesOf(key, r, t) by {
        TiesOfAppend(key, [x], r, t);
      }
      assert TiesOf(key, r, t) == TiesOf(key, [r[0]], t) + TiesOf(key, r[1..], t) by {
        TiesOfAppend(key, [r[0]], r[1..], t);
      }
    }
  }

  /** The sort is stable: tied tasks keep their relative order. */
  lemma {:induction false} SortStable(key: SortKey, s: seq<Task>)
    ensures StableFor(key, SortTasks(key, s), s)
  {
    if s != [] {
      SortStable(key, s[1..]);
      forall t ensures TiesOf(key, SortTasks(key, s), t) == TiesOf(key, s, t) {
        var r := SortTasks(key, s[1..]);
        InsertStable(key, s[0], r, t);
        TiesOfAppend(key, [s[0]], r, t);
        TiesOfAppend(key, [s[0]], s[1..], t);
        assert s == [s[0]] + s[1..];
      }
    }
  }

  /** The first tie of t in s is a task of s tied with t. */
  lemma {:induction false} TiesOfHead(key: SortKey, s: seq<Task>, t: Task)
    requires TiesOf(key, s, t) != []
    ensures exists m :: 0 <= m < |s| && s[m] == TiesOf(key, s, t)[0] && Tied(key, s[m], t)
  {
    if !Tied(key, s[0], t) {
      TiesOfHead(key, s[1..], t);
      var m :| 0 <= m < |s[1..]| && s[1..][m] == TiesOf(key, s[1..], t)[0] && Tied(key, s[1..][m], t);
      assert s[m + 1] == s[1..][m];
    }
  }

  /** The head of a sorted list may stand before every task tied with some task of the list. */
  lemma HeadLeTies(key: SortKey, r: seq<Task>, t: Task)
    requires Sorted(key, r) && r != [] && TiesOf(key, r, t) != []
    ensures Le(key, r[0], TiesOf(key, r, t)[0])
  {
    TiesOfHead(key, r, t);
  }

  /** Every task is tied with itself, so its list has a tie group for it. */
  lemma SelfTied(key: SortKey, s: seq<Task>)
    ensures s != [] ==> TiesOf(key, s, s[0]) != []
  {
  }

  /** Dropping the head of r drops it from its own tie group and from no other. */
  lemma TiesOfTail(key: SortKey, r: seq<Task>, t: Task)
    requires r != []
    ensures TiesOf(key, r[1..], t) == if Tied(key, r[0], t) then TiesOf(key, r, t)[1..] else TiesOf(key, r, t)
  {
  }

  /** Two sorted lists with the same tie groups start with the same task. */
  lemma SortedHeadsEqual(key: SortKey, r1: seq<Task>, r2: seq<Task>)
    requires Sorted(key, r1) && Sorted(key, r2) && r1 != [] && r2 != []
    requires forall t :: TiesOf(key, r1, t) == TiesOf(key, r2, t)
    ensures r1[0] == r2[0]
  {
    var a, b := r1[0], r2[0];
    assert TiesOf(key, r1, a)[0] == a;
    HeadLeTies(key, r2, a);
    assert TiesOf(key, r2, b)[0] == b;
    HeadLeTies(key, r1, b);
    CompareFlip(key, a, b);
    assert TiesOf(key, r2, a)[0] == b;
  }

  /** Two sorted lists with the same tie groups, in the same orders, are equal. */
  lemma {:induction false} SortedTiesDetermine(key: SortKey, r1: seq<Task>, r2: seq<Task>)
    requires Sorted(key, r1) && Sorted(key, r2)
    requires forall t :: TiesOf(key, r1, t) == TiesOf(key, r2, t)
    ensures r1 == r2
    decreases |r1| + |r2|
  {
    SelfTied(key, r1);
    SelfTied(key, r2);
    if r1 != [] && r2 != [] {
      SortedHeadsEqual(key, r1, r2);
      forall t ensures TiesOf(key, r1[1..], t) == TiesOf(key, r2[1..], t) {
        TiesOfTail(key, r1, t);
        TiesOfTail(key, r2, t);
      }
      SortedTiesDetermine(key, r1[1..], r2[1..]);
      assert r1 == [r1[0]] + r1[1..] && r2 == [r2[0]] + r2[1..];
    }
  }

  /**
   * Array.prototype.sort is specified only as stable and ordered by the
   * comparator; any result with those two properties is SortTasks's result.
   */
  lemma SortUnique(key: SortKey, s: seq<Task>, r: seq<Task>)
    requires Sorted(key, r) && StableFor(key, r, s)
    ensures r == SortTasks(key, s)
  {
    SortStable(key, s);
    SortedTiesDetermine(key, r, SortTasks(key, s));
  }

  /** Re-sorting an already sorted sequence leaves it as it is. */
  lemma SortSortedIsIdentity(key: SortKey, s: seq<Task>)
    requires Sorted(key, s)
    ensures SortTasks(key, s) == s
  {
    SortUnique(key, s, s);
  }

  /** Sorting is idempotent. */
  lemma SortIdempotent(key: SortKey, s: seq<Task>)
    ensures SortTasks(key, SortTasks(key, s)) == SortTasks(key, s)
  {
    SortSortedIsIdentity(key, SortTasks(key, s));
  }

  /** An unknown selector makes the comparator always 0, so the order is unchanged. */
  lemma UnsortedKeepsOrder(s: seq<Task>)
    ensures SortTasks(Unsorted, s) == s
  {
    SortSortedIsIdentity(Unsorted, s);
  }

  /** The result of sortTasks lists its tasks in the order each selector promises. */
  lemma SortMeaning(key: SortKey, s: seq<Task>)
    ensures var r := SortTasks(key, s);
            forall i, j :: 0 <= i < j < |r| ==> InKeyOrder(key, r[i], r[j])
  {
  }

  /**
   * Two tasks A (not important, created at t1) and B (important, created
   * later at t2): priority and date-created list B first, alphabetical A first.
   */
  lemma PriorityScenario(t1: int, t2: int)
    requires t1 < t2
    ensures var a := Task("a", "A", "", None, false, false, t1);
            var b := Task("b", "B", "", None, false, true, t2);
            && SortTasks(Priority, [a, b]) == [b, a]
            && SortTasks(Alphabetical, [a, b]) == [a, b]
            && SortTasks(DateCreated, [a, b]) == [b, a]
  {
    var a := Task("a", "A", "", None, false, false, t1);
    var b := Task("b", "B", "", None, false, true, t2);
    assert [a, b][1..] == [b];
    assert [b][1..] == [];
    assert LexCompare(a.title, b.title) < 0 by {
      assert a.title[0] == 'A' && b.title[0] == 'B';
    }
  }
}
