/** Model of the task list store: the load fallback over an abstract storage
    read and parse, and the add, toggle and delete operations with the
    submit handler's title guard, as functions from task list to task list. */
module TodoList {
  import opened Wrappers

  /** A stored task. The identifier is supplied by the caller (the source
      takes it from the clock). */
  datatype Task = Task(id: string, title: string, dueDate: Option<string>, completed: bool)

  /** What reading the storage key gives: the read itself throws, the key is
      absent (`null`), or a stored text. */
  datatype StorageRead = ReadThrew | Missing | Stored(raw: string)

  /** What the JSON parser makes of the stored text. */
  datatype ParseOutcome = SyntaxError | NotAnArray | AnArray(items: seq<Task>)

  /** The load fallback: any failure, an absent or empty value, or a value
      that is not an array gives the empty list; an array is taken verbatim. */
  function LoadTasks(read: StorageRead, parse: string -> ParseOutcome): (tasks: seq<Task>)
    ensures tasks != [] ==> read.Stored? && read.raw != "" && parse(read.raw) == AnArray(tasks)
    ensures read.Stored? && read.raw != "" && parse(read.raw).AnArray? ==> tasks == parse(read.raw).items
  {
    match read
    case ReadThrew => []
    case Missing => []
    case Stored(raw) =>
      if raw == "" then []
      else
        match parse(raw)
        case AnArray(items) => items
        case _ => []
  }

  /** Saving then loading gives the same list back, for any serializer whose
      output is non-empty and parses back to the list it came from. The
      serializer is a parameter, so this is the load half of the round trip:
      the save itself is not modelled. */
  lemma SaveThenLoad(tasks: seq<Task>, serialize: seq<Task> -> string, parse: string -> ParseOutcome)
    requires serialize(tasks) != "" && parse(serialize(tasks)) == AnArray(tasks)
    ensures LoadTasks(Stored(serialize(tasks)), parse) == tasks
  {
  }

  /** The characters JavaScript's `trim` removes: white space and line
      terminators. */
  predicate IsWhitespace(ch: char) {
    || ch == '\t' || ch == '\n' || ch == '\U{000B}' || ch == '\U{000C}' || ch == '\r'
    || ch == ' ' || ch == '\U{00A0}' || ch == '\U{1680}'
    || ('\U{2000}' <= ch <= '\U{200A}')
    || ch == '\U{2028}' || ch == '\U{2029}' || ch == '\U{202F}' || ch == '\U{205F}'
    || ch == '\U{3000}' || ch == '\U{FEFF}'
  }

  ghost predicate AllWhitespace(s: string) {
    forall k :: 0 <= k < |s| ==> IsWhitespace(s[k])
  }

  /** Neither starts nor ends with white space. */
  ghost predicate IsTrimmed(s: string) {
    s == [] || (!IsWhitespace(s[0]) && !IsWhitespace(s[|s| - 1]))
  }

  /** Length of the leading white-space run. */
  function LeadingSpace(s: string): (n: nat)
    ensures n <= |s| && AllWhitespace(s[..n])
    ensures n < |s| ==> !IsWhitespace(s[n])
  {
    if s == [] || !IsWhitespace(s[0]) then 0
    else 1 + LeadingSpace(s[1..])
  }

  /** Length of the trailing white-space run. */
  function TrailingSpace(s: string): (n: nat)
    ensures n <= |s| && AllWhitespace(s[|s| - n..])
    ensures n < |s| ==> !IsWhitespace(s[|s| - n - 1])
  {
    if s == [] || !IsWhitespace(s[|s| - 1]) then 0
    else 1 + TrailingSpace(s[..|s| - 1])
  }

  /** `trim`: the text between the leading and the trailing white space. */
  function Trim(s: string): (r: string)
    ensures IsTrimmed(r)
    ensures exists i, j :: 0 <= i <= j <= |s| && r == s[i..j] && AllWhitespace(s[..i]) && AllWhitespace(s[j..])
  {
    var i := LeadingSpace(s);
    var rest := s[i..];
    var n := TrailingSpace(rest);
    assert s[i..][..|rest| - n] == s[i..i + |rest| - n];
    assert rest[|rest| - n..] == s[i + |rest| - n..];
    rest[..|rest| - n]
  }

  /** Trimming leaves trimmed text alone, so trimming twice is trimming once. */
  lemma TrimOfTrimmed(s: string)
    ensures IsTrimmed(s) <==> Trim(s) == s
    ensures Trim(Trim(s)) == Trim(s)
  {
    if IsTrimmed(s) {
      assert LeadingSpace(s) == 0;
      assert TrailingSpace(s) == 0;
    }
    var t := Trim(s);
    assert LeadingSpace(t) == 0;
    assert TrailingSpace(t) == 0;
  }

  /** `addTask`: one new incomplete task at the end, with the title trimmed
      and a falsy (absent or empty) due date stored as absent. */
  function AddTask(tasks: seq<Task>, id: string, title: string, dueDate: Option<string>): (r: seq<Task>)
    ensures |r| == |tasks| + 1 && r[..|tasks|] == tasks
    ensures r[|tasks|].id == id && !r[|tasks|].completed
    ensures r[|tasks|].title == Trim(title) && IsTrimmed(r[|tasks|].title)
    ensures r[|tasks|].dueDate.Some? <==> dueDate.Some? && dueDate.value != ""
    ensures r[|tasks|].dueDate.Some? ==> r[|tasks|].dueDate == dueDate
  {
    var due := if dueDate.Some? && dueDate.value != "" then dueDate else None;
    tasks + [Task(id, Trim(title), due, false)]
  }

  /** The form's submit handler: the title field is trimmed and an empty
      result adds nothing; an empty due-date field means no due date. */
  function Submit(tasks: seq<Task>, id: string, titleField: string, dueField: string): (r: seq<Task>)
    ensures Trim(titleField) == "" ==> r == tasks
    ensures Trim(titleField) != "" ==>
              |r| == |tasks| + 1 && r[..|tasks|] == tasks && r[|tasks|].id == id
              && r[|tasks|].title != "" && IsTrimmed(r[|tasks|].title) && r[|tasks|].title == Trim(titleField)
              && r[|tasks|].dueDate == (if dueField != "" then Some(dueField) else None)
              && !r[|tasks|].completed
  {
    var title := Trim(titleField);
    if title == "" then tasks
    else
      TrimOfTrimmed(titleField);
      AddTask(tasks, id, title, if dueField != "" then Some(dueField) else None)
  }

  /** No task carries identifier `id`. */
  ghost predicate Absent(tasks: seq<Task>, id: string) {
    forall k :: 0 <= k < |tasks| ==> tasks[k].id != id
  }

  /** Position of the first task with identifier `id`. */
  function FindIndex(tasks: seq<Task>, id: string): (r: Option<nat>)
    ensures r.None? <==> Absent(tasks, id)
    ensures r.Some? ==> r.value < |tasks| && tasks[r.value].id == id && Absent(tasks[..r.value], id)
  {
    if tasks == [] then None
    else if tasks[0].id == id then Some(0)
    else
      match FindIndex(tasks[1..], id)
      case None => None
      case Some(k) =>
        assert tasks[..k + 1] == [tasks[0]] + tasks[1..][..k];
        Some(k + 1)
  }

  /** `toggleTaskCompletion`: flip the flag of the first task with that id. */
  function ToggleTaskCompletion(tasks: seq<Task>, id: string): (r: seq<Task>)
    ensures |r| == |tasks|
    ensures Absent(tasks, id) ==> r == tasks
    ensures forall k :: 0 <= k < |tasks| ==>
              r[k].id == tasks[k].id && r[k].title == tasks[k].title && r[k].dueDate == tasks[k].dueDate
    ensures !Absent(tasks, id) ==>
              exists i :: 0 <= i < |tasks| && tasks[i].id == id && Absent(tasks[..i], id)
                && r[i].completed == !tasks[i].completed
                && forall k :: 0 <= k < |tasks| && k != i ==> r[k] == tasks[k]
  {
    match FindIndex(tasks, id)
    case None => tasks
    case Some(i) => tasks[i := tasks[i].(completed := !tasks[i].completed)]
  }

  /** Toggling the same task twice restores the list. */
  lemma ToggleTwice(tasks: seq<Task>, id: string)
    ensures ToggleTaskCompletion(ToggleTaskCompletion(tasks, id), id) == tasks
  {
    var once := ToggleTaskCompletion(tasks, id);
    if !Absent(tasks, id) {
      var i := FindIndex(tasks, id).value;
      FirstMatchUnique(once, id, i);
    }
  }

  /** The first task carrying `id` is the one the search finds. */
  lemma FirstMatchUnique(tasks: seq<Task>, id: string, i: nat)
    requires i < |tasks| && tasks[i].id == id && Absent(tasks[..i], id)
    ensures FindIndex(tasks, id) == Some(i)
  {
  }

  /** `deleteTask`: keep the tasks whose id differs. */
  function DeleteTask(tasks: seq<Task>, id: string): (r: seq<Task>)
    ensures |r| <= |tasks| && Absent(r, id)
    ensures Absent(tasks, id) ==> r == tasks
  {
    if tasks == [] then []
    else (if tasks[0].id == id then [] else [tasks[0]]) + DeleteTask(tasks[1..], id)
  }

  /** The tasks kept are exactly the tasks whose id differs. */
  lemma {:induction false} DeleteKeeps(tasks: seq<Task>, id: string)
    ensures forall t :: t in DeleteTask(tasks, id) <==> t in tasks && t.id != id
    decreases |tasks|
  {
    if tasks != [] {
      DeleteKeeps(tasks[1..], id);
      assert tasks == [tasks[0]] + tasks[1..];
    }
  }

  /** Deleting from a concatenation deletes from each part, so the kept
      tasks stay in their relative order. */
  lemma {:induction false} DeleteAppend(a: seq<Task>, b: seq<Task>, id: string)
    ensures DeleteTask(a + b, id) == DeleteTask(a, id) + DeleteTask(b, id)
    decreases |a|
  {
    if a == [] {
      assert a + b == b;
    } else {
      assert (a + b)[1..] == a[1..] + b;
      DeleteAppend(a[1..], b, id);
    }
  }

  /** Deleting twice is deleting once. */
  lemma DeleteIdempotent(tasks: seq<Task>, id: string)
    ensures DeleteTask(DeleteTask(tasks, id), id) == DeleteTask(tasks, id)
  {
  }

  /** Identifiers are pairwise distinct. */
  ghost predicate DistinctIds(tasks: seq<Task>) {
    forall i, j :: 0 <= i < j < |tasks| ==> tasks[i].id != tasks[j].id
  }

  /** With distinct identifiers, deleting a present id removes exactly that
      one task and keeps the rest in order. */
  lemma DeleteRemovesOne(tasks: seq<Task>, id: string, i: nat)
    requires DistinctIds(tasks) && i < |tasks| && tasks[i].id == id
    ensures DeleteTask(tasks, id) == tasks[..i] + tasks[i + 1..]
  {
    var pre, post := tasks[..i], tasks[i + 1..];
    forall k | 0 <= k < |pre| ensures pre[k].id != id {
      assert pre[k] == tasks[k];
    }
    forall k | 0 <= k < |post| ensures post[k].id != id {
      assert post[k] == tasks[i + 1 + k];
    }
    assert tasks == pre + ([tasks[i]] + post);
    DeleteOnlyMatch(pre, tasks[i], post, id);
  }

  /** A list whose only task with `id` is `t` loses exactly `t`. */
  lemma DeleteOnlyMatch(pre: seq<Task>, t: Task, post: seq<Task>, id: string)
    requires Absent(pre, id) && Absent(post, id) && t.id == id
    ensures DeleteTask(pre + ([t] + post), id) == pre + post
  {
    var one := [t];
    var rest := one + post;
    assert one[1..] == [];
    assert DeleteTask(one, id) == [];
    DeleteAppend(one, post, id);
    assert DeleteTask(rest, id) == post;
    DeleteAppend(pre, rest, id);
    assert DeleteTask(pre + rest, id) == pre + post;
  }

  /** Adding a task with a fresh id keeps identifiers distinct. */
  lemma AddKeepsDistinct(tasks: seq<Task>, id: string, title: string, dueDate: Option<string>)
    requires DistinctIds(tasks) && Absent(tasks, id)
    ensures DistinctIds(AddTask(tasks, id, title, dueDate))
  {
  }

  /** Toggling keeps identifiers distinct. */
  lemma ToggleKeepsDistinct(tasks: seq<Task>, id: string)
    requires DistinctIds(tasks)
    ensures DistinctIds(ToggleTaskCompletion(tasks, id))
  {
  }

  /** Deleting keeps identifiers distinct. */
  lemma {:induction false} DeleteKeepsDistinct(tasks: seq<Task>, id: string)
    requires DistinctIds(tasks)
    ensures DistinctIds(DeleteTask(tasks, id))
    decreases |tasks|
  {
    if tasks != [] {
      var rest := DeleteTask(tasks[1..], id);
      DeleteKeepsDistinct(tasks[1..], id);
      DeleteKeeps(tasks[1..], id);
      if tasks[0].id != id {
        forall k | 0 <= k < |rest| ensures rest[k].id != tasks[0].id {
          assert rest[k] in tasks[1..];
        }
      }
    }
  }
}
