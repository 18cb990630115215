/**
 * The edits the task store makes to its list, as functions of the old list:
 * each looks the task up with `findIndex` (the FIRST entry with the id) and,
 * when there is one, rewrites or removes that entry only.
 */
module TaskList {
  import opened TaskData

  /** Array.prototype.findIndex on `task.id === id`: -1 when absent, else the first match. */
  function FindIndex(s: seq<Task>, id: string): (i: int)
    ensures -1 <= i < |s|
    ensures i == -1 <==> forall k :: 0 <= k < |s| ==> s[k].id != id
    ensures 0 <= i ==> s[i].id == id && forall k :: 0 <= k < i ==> s[k].id != id
  {
    if s == [] then -1
    else if s[0].id == id then 0
    else
      var j := FindIndex(s[1..], id);
      if j == -1 then -1 else j + 1
  }

  predicate HasId(s: seq<Task>, id: string) {
    exists k :: 0 <= k < |s| && s[k].id == id
  }

  /** No two live tasks share an id. */
  predicate UniqueIds(s: seq<Task>) {
    forall i, j :: 0 <= i < j < |s| ==> s[i].id != s[j].id
  }

  /** The ids, position by position. */
  function Ids(s: seq<Task>): (r: seq<string>)
    ensures |r| == |s| && forall k :: 0 <= k < |s| ==> r[k] == s[k].id
  {
    if s == [] then [] else [s[0].id] + Ids(s[1..])
  }

  /** Lists whose tasks have the same ids position by position have the same Ids. */
  lemma SameIds(r: seq<Task>, s: seq<Task>)
    requires |r| == |s| && forall k :: 0 <= k < |s| ==> r[k].id == s[k].id
    ensures Ids(r) == Ids(s)
  {
    assert forall k :: 0 <= k < |s| ==> Ids(r)[k] == Ids(s)[k];
  }

  /**
   * `{...t, title, description, dueDate, important}`, the object spread of
   * updateTask: the four form fields are replaced, the rest of t is kept.
   */
  function Edited(t: Task, title: string, description: string, dueDate: Option<int>, important: bool): (e: Task)
    ensures e.title == title && e.description == description && e.dueDate == dueDate && e.important == important
    ensures e.id == t.id && e.createdAt == t.createdAt && e.completed == t.completed
  {
    t.(title := title, description := description, dueDate := dueDate, important := important)
  }

  /**
   * The list after updateTask: for a present id only the first entry with it
   * changes, and only by Edited; an unknown id changes nothing.
   */
  function UpdateById(s: seq<Task>, id: string, title: string, description: string,
                      dueDate: Option<int>, important: bool): (r: seq<Task>)
    ensures |r| == |s| && Ids(r) == Ids(s)
    ensures !HasId(s, id) ==> r == s
    ensures HasId(s, id) ==>
              var i := FindIndex(s, id);
              && r[i] == Edited(s[i], title, description, dueDate, important)
              && forall k :: 0 <= k < |s| && k != i ==> r[k] == s[k]
  {
    var i := FindIndex(s, id);
    if i == -1 then s
    else
      var r := s[i := Edited(s[i], title, description, dueDate, important)];
      SameIds(r, s);
      r
  }

  /**
   * The list after toggleTaskComplete: for a present id only the first entry
   * with it changes, and only in `completed`, which is negated; an unknown id
   * changes nothing.
   */
  function ToggleById(s: seq<Task>, id: string): (r: seq<Task>)
    ensures |r| == |s| && Ids(r) == Ids(s)
    ensures !HasId(s, id) ==> r == s
    ensures HasId(s, id) ==>
              var i := FindIndex(s, id);
              && r[i] == s[i].(completed := !s[i].completed)
              && forall k :: 0 <= k < |s| && k != i ==> r[k] == s[k]
  {
    var i := FindIndex(s, id);
    if i == -1 then s
    else
      var r := s[i := s[i].(completed := !s[i].completed)];
      SameIds(r, s);
      r
  }

  /**
   * The list after a confirmed deleteTask, `splice(findIndex(...), 1)`: for a
   * present id exactly its first entry is removed and the others keep their
   * order; an unknown id changes nothing.
   */
  function DeleteById(s: seq<Task>, id: string): (r: seq<Task>)
    ensures !HasId(s, id) ==> r == s
    ensures HasId(s, id) ==>
              var i := FindIndex(s, id);
              && |r| == |s| - 1
              && (forall k :: 0 <= k < i ==> r[k] == s[k])
              && (forall k :: i <= k < |r| ==> r[k] == s[k + 1])
              && multiset(r) + multiset{s[i]} == multiset(s)
  {
    var i := FindIndex(s, id);
    if i == -1 then s else RemoveAt(s, i)
  }

  /** `splice(i, 1)`: exactly the entry at i goes and the later ones shift down. */
  function RemoveAt(s: seq<Task>, i: nat): (r: seq<Task>)
    requires i < |s|
    ensures |r| == |s| - 1
    ensures forall k :: 0 <= k < i ==> r[k] == s[k]
    ensures forall k :: i <= k < |r| ==> r[k] == s[k + 1]
    ensures multiset(r) + multiset{s[i]} == multiset(s)
  {
    assert s == s[..i] + [s[i]] + s[i + 1..];
    s[..i] + s[i + 1..]
  }

  /** findIndex only looks at ids, so two lists with the same ids agree on it. */
  lemma {:induction false} FindIndexSameIds(s: seq<Task>, s': seq<Task>, id: string)
    requires Ids(s) == Ids(s')
    ensures FindIndex(s, id) == FindIndex(s', id)
  {
    if s != [] {
      assert s[0].id == Ids(s)[0] == Ids(s')[0] == s'[0].id;
      assert Ids(s[1..]) == Ids(s)[1..] == Ids(s')[1..] == Ids(s'[1..]);
      FindIndexSameIds(s[1..], s'[1..], id);
    }
  }

  /** Toggling the same id twice gives back the original list. */
  lemma ToggleTwice(s: seq<Task>, id: string)
    ensures ToggleById(ToggleById(s, id), id) == s
  {
    FindIndexSameIds(s, ToggleById(s, id), id);
  }

  /** With unique ids, deleting an id removes every task with it. */
  lemma DeleteRemovesId(s: seq<Task>, id: string)
    requires UniqueIds(s)
    ensures !HasId(DeleteById(s, id), id)
    ensures UniqueIds(DeleteById(s, id))
  {
    var i := FindIndex(s, id);
    if i != -1 {
      var r := DeleteById(s, id);
      forall k | 0 <= k < |r| ensures r[k].id != id {
        if k >= i { assert r[k] == s[k + 1]; }
      }
      forall a, b | 0 <= a < b < |r| ensures r[a].id != r[b].id {
        var a' := if a < i then a else a + 1;
        var b' := if b < i then b else b + 1;
        assert r[a] == s[a'] && r[b] == s[b'];
      }
    }
  }

  /** With unique ids, deleting twice has the effect of deleting once. */
  lemma DeleteTwice(s: seq<Task>, id: string)
    requires UniqueIds(s)
    ensures DeleteById(DeleteById(s, id), id) == DeleteById(s, id)
  {
    DeleteRemovesId(s, id);
  }

  /**
   * Without unique ids the second delete removes the next task with the
   * same id: deletion by id is idempotent only while ids are unique.
   */
  lemma DeleteTwiceWithDuplicateId()
    ensures var t := Task("7", "a", "", None, false, false, 0);
            var u := t.(title := "b");
            DeleteById(DeleteById([t, u], "7"), "7") == []
            && DeleteById([t, u], "7") == [u]
  {
    var t := Task("7", "a", "", None, false, false, 0);
    var u := t.(title := "b");
    assert DeleteById([t, u], "7") == [u];
  }

  /** Update and toggle keep the ids, so they keep them unique. */
  lemma EditsKeepUniqueIds(s: seq<Task>, id: string, title: string, description: string,
                           dueDate: Option<int>, important: bool)
    requires UniqueIds(s)
    ensures UniqueIds(UpdateById(s, id, title, description, dueDate, important))
    ensures UniqueIds(ToggleById(s, id))
  {
    var r1 := UpdateById(s, id, title, description, dueDate, important);
    var r2 := ToggleById(s, id);
    forall a, b | 0 <= a < b < |s| ensures r1[a].id != r1[b].id && r2[a].id != r2[b].id {
      assert r1[a].id == Ids(r1)[a] == Ids(s)[a];
      assert r1[b].id == Ids(r1)[b] == Ids(s)[b];
      assert r2[a].id == Ids(r2)[a] == Ids(s)[a];
      assert r2[b].id == Ids(r2)[b] == Ids(s)[b];
    }
  }

  /** Prepending a task whose id is not yet used keeps ids unique. */
  lemma PrependKeepsUniqueIds(t: Task, s: seq<Task>)
    requires UniqueIds(s) && !HasId(s, t.id)
    ensures UniqueIds([t] + s)
  {
    var r := [t] + s;
    forall a, b | 0 <= a < b < |r| ensures r[a].id != r[b].id {
      if a == 0 { assert r[b] == s[b - 1]; } else { assert r[a] == s[a - 1] && r[b] == s[b - 1]; }
    }
  }
}
