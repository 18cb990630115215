/**
 * The task record of TaskWave and the small value-level helpers the store
 * uses when it builds or edits one: JavaScript's String.prototype.trim, the
 * normalisation of a due-date form value, and the two demo tasks that seed an
 * empty storage slot.
 */
module TaskData {

  datatype Option<+T> = None | Some(value: T)

  /**
   * One to-do item.  Timestamps (the ISO-8601 strings of the source) are
   * milliseconds since the epoch; a due date of '' is None.
   */
  datatype Task = Task(
    id: string,
    title: string,
    description: string,
    dueDate: Option<int>,
    completed: bool,
    important: bool,
    createdAt: int)

  /** One day in milliseconds: the age of the second demo task. */
  const DayMillis: int := 86400000

  /**
   * The characters String.prototype.trim removes: the ECMAScript WhiteSpace
   * production (TAB, VT, FF, SP, NBSP, ZWNBSP and the Unicode category Zs)
   * and the LineTerminator production (LF, CR, LS, PS).  TAB, LF, VT, FF and
   * CR are the contiguous code points 9 to 13, and U+2000 to U+200A are the
   * contiguous run of Zs spaces.
   */
  predicate IsWhiteSpace(c: char): (b: bool)
    ensures c < '\U{80}' ==> (b <==> c == '\t' || c == '\n' || c == '\U{B}' || c == '\U{C}' || c == '\r' || c == ' ')
    ensures ('0' <= c <= '9') || ('A' <= c <= 'Z') || ('a' <= c <= 'z') ==> !b
  {
    || ('\t' <= c <= '\r') || c == ' ' || c == '\U{A0}' || c == '\U{1680}'
    || ('\U{2000}' <= c <= '\U{200A}') || c == '\U{2028}' || c == '\U{2029}'
    || c == '\U{202F}' || c == '\U{205F}' || c == '\U{3000}' || c == '\U{FEFF}'
  }

  predicate AllWhiteSpace(s: string) {
    forall i :: 0 <= i < |s| ==> IsWhiteSpace(s[i])
  }

  /** The number of white-space characters s starts with. */
  function LeadingWhiteSpace(s: string): (n: nat)
    ensures n <= |s| && AllWhiteSpace(s[..n])
    ensures n < |s| ==> !IsWhiteSpace(s[n])
  {
    if s != [] && IsWhiteSpace(s[0]) then
      var n := LeadingWhiteSpace(s[1..]);
      assert s[..n + 1] == [s[0]] + s[1..][..n];
      n + 1
    else 0
  }

  /** The number of white-space characters s ends with. */
  function TrailingWhiteSpace(s: string): (n: nat)
    ensures n <= |s| && AllWhiteSpace(s[|s| - n..])
    ensures n < |s| ==> !IsWhiteSpace(s[|s| - n - 1])
  {
    if s != [] && IsWhiteSpace(s[|s| - 1]) then
      var s' := s[..|s| - 1];
      var n := TrailingWhiteSpace(s');
      assert s[|s| - (n + 1)..] == s'[|s'| - n..] + [s[|s| - 1]];
      n + 1
    else 0
  }

  /** String.prototype.trim: the leading white space is dropped, then the trailing white space of the rest. */
  function Trim(s: string): (r: string)
    ensures r == [] || (!IsWhiteSpace(r[0]) && !IsWhiteSpace(r[|r| - 1]))
  {
    var i := LeadingWhiteSpace(s);
    var n := TrailingWhiteSpace(s[i..]);
    assert n < |s| - i ==> s[i..][|s| - i - n - 1] == s[|s| - n - 1];
    s[i..|s| - n]
  }

  /** A contiguous piece of s is kept: what trim removes is white space on both ends. */
  lemma TrimIsInfix(s: string)
    ensures var i := LeadingWhiteSpace(s);
            var j := i + |Trim(s)|;
            && j <= |s| && Trim(s) == s[i..j]
            && AllWhiteSpace(s[..i]) && AllWhiteSpace(s[j..])
  {
    TrimIsSlice(s);
    TrimDropsWhiteSpace(s);
  }

  /** trim's result is the slice of s that starts after the leading white space. */
  lemma TrimIsSlice(s: string)
    ensures var i := LeadingWhiteSpace(s);
            i + |Trim(s)| <= |s| && Trim(s) == s[i..i + |Trim(s)|]
  {
  }

  /** What trim drops after its result is white space. */
  lemma TrimDropsWhiteSpace(s: string)
    ensures var j := LeadingWhiteSpace(s) + |Trim(s)|;
            j <= |s| && AllWhiteSpace(s[j..])
  {
    var i := LeadingWhiteSpace(s);
    var t := s[i..];
    var n := TrailingWhiteSpace(t);
    assert |Trim(s)| == |s| - n - i;
    var e := s[|s| - n..];
    forall k | 0 <= k < |e| ensures IsWhiteSpace(e[k]) {
      assert t[|t| - n..][k] == e[k];
    }
  }

  /** The title check of the submit handler: trim leaves nothing exactly when every character is white space. */
  lemma TrimEmptyIff(s: string)
    ensures Trim(s) == [] <==> AllWhiteSpace(s)
  {
    var i := LeadingWhiteSpace(s);
    TrimIsInfix(s);
    if Trim(s) == [] {
      forall k | 0 <= k < |s| ensures IsWhiteSpace(s[k]) {
        assert s[..i][k] == s[k];
      }
    } else {
      assert Trim(s)[0] == s[i];
    }
  }

  /** Trimming twice is trimming once. */
  lemma TrimIdempotent(s: string)
    ensures Trim(Trim(s)) == Trim(s)
  {
    var r := Trim(s);
    if r != [] {
      assert LeadingWhiteSpace(r) == 0;
      assert r[0..] == r;
      assert TrailingWhiteSpace(r) == 0;
    }
  }

  /**
   * The due date stored for a form value: `dueDate ? new Date(dueDate).toISOString() : ''`.
   * `stamp` is the instant the browser's Date parser gives for the value.
   */
  function NormalizeDue(dueInput: string, stamp: int): (d: Option<int>)
    ensures d.None? <==> dueInput == ""
    ensures d.Some? ==> d.value == stamp
  {
    if dueInput != "" then Some(stamp) else None
  }

  /** The record addTask builds: not completed, created now, with the given fresh id. */
  function NewTask(id: string, title: string, description: string, dueInput: string,
                   dueStamp: int, important: bool, now: int): (t: Task)
    ensures t.id == id && t.title == title && t.description == description
    ensures t.dueDate == NormalizeDue(dueInput, dueStamp) && t.important == important
    ensures !t.completed && t.createdAt == now
  {
    Task(id, title, description, NormalizeDue(dueInput, dueStamp), false, important, now)
  }

  /** The two demo tasks loadTasks writes when the storage slot is empty. */
  function SeedTasks(now: int): (s: seq<Task>)
    ensures |s| == 2 && s[0].id == "1" && s[1].id == "2"
    ensures !s[0].completed && s[1].completed
    ensures s[0].createdAt == now && s[1].createdAt == now - DayMillis
    ensures !AllWhiteSpace(s[0].title) && !AllWhiteSpace(s[1].title)
    ensures s[0].dueDate.None? && s[1].dueDate.None? && !s[0].important && !s[1].important
  {
    var welcome, explore := "Welcome to TaskWave", "Explore features";
    assert !IsWhiteSpace(welcome[0]) && !IsWhiteSpace(explore[0]);
    [Task("1", welcome, "Start by adding your first task", None, false, false, now),
     Task("2", explore, "Check out all the cool features", None, true, false, now - DayMillis)]
  }
}
