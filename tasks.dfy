/**
 The value level of the task manager: task records, the outcome of reading the
 persisted entries at startup, the lookups the store performs on its list
 (`Array.prototype.find` and `Array.prototype.filter` by id), the list each
 operation leaves behind, and the invariants on identifiers that the
 operations preserve.
 */
module Tasks {

  datatype Option<+T> = None | Some(value: T)

  /** One to-do item. `id` is drawn from the global counter when the task is created. */
  datatype Task = Task(id: int, description: string, completed: bool)

  /** What reading the persisted `tasks` entry yields: no entry (or an empty
      string), text that does not parse, or a parsed list of records. */
  datatype TasksEntry = Missing | Corrupt | Parsed(list: seq<Task>)

  // ---------------------------------------------------------------------------
  // Descriptions
  // ---------------------------------------------------------------------------

  /** The characters `String.prototype.trim` strips: white space and line terminators. */
  predicate IsWhitespace(c: char)
  {
    || c == ' ' || c == '\t' || c == '\n' || c == '\r'
    || c == '\U{000B}' || c == '\U{000C}' || c == '\U{00A0}' || c == '\U{1680}'
    || ('\U{2000}' <= c <= '\U{200A}')
    || c == '\U{2028}' || c == '\U{2029}' || c == '\U{202F}' || c == '\U{205F}'
    || c == '\U{3000}' || c == '\U{FEFF}'
  }

  /** A description as the prompt layer hands it over: trimmed and not empty,
      so never whitespace only. */
  predicate ValidDescription(d: string)
    ensures ValidDescription(d) ==> exists k :: 0 <= k < |d| && !IsWhitespace(d[k])
  {
    |d| > 0 && !IsWhitespace(d[0]) && !IsWhitespace(d[|d| - 1])
  }

  /** How many white-space characters `s` starts with. */
  function LeadingSpace(s: string): (n: nat)
    ensures n <= |s|
    ensures forall k :: 0 <= k < n ==> IsWhitespace(s[k])
    ensures n < |s| ==> !IsWhitespace(s[n])
  {
    if s != [] && IsWhitespace(s[0]) then 1 + LeadingSpace(s[1..]) else 0
  }

  /** Where the white space that `s` ends with begins. */
  function TrailingSpaceStart(s: string): (m: nat)
    ensures m <= |s|
    ensures forall k :: m <= k < |s| ==> IsWhitespace(s[k])
    ensures 0 < m ==> !IsWhitespace(s[m - 1])
  {
    if s != [] && IsWhitespace(s[|s| - 1]) then TrailingSpaceStart(s[..|s| - 1]) else |s|
  }

  /** `r` is the part of `s` starting at `i`, and only white space lies around it. */
  predicate CutFrom(s: string, i: int, r: string)
  {
    && 0 <= i <= |s| - |r| && r == s[i..i + |r|]
    && (forall k :: 0 <= k < i ==> IsWhitespace(s[k]))
    && (forall k :: i + |r| <= k < |s| ==> IsWhitespace(s[k]))
  }

  /** `String.prototype.trim`: the middle part of `s` that neither starts nor
      ends with white space; everything cut off is white space. */
  function Trim(s: string): (r: string)
    ensures r == [] || ValidDescription(r)
    ensures exists i :: CutFrom(s, i, r)
  {
    var i := LeadingSpace(s);
    if i == |s| then
      assert CutFrom(s, i, []);
      []
    else
      var j := TrailingSpaceStart(s);
      assert i < j;
      assert CutFrom(s, i, s[i..j]);
      s[i..j]
  }

  /** What the prompt layer checks before calling `addTask` or `updateTask`:
      a trimmed input that is not empty is a valid description, and a valid
      description is exactly one that trimming leaves alone. */
  lemma TrimmedDescriptions(input: string, d: string)
    ensures Trim(input) != [] ==> ValidDescription(Trim(input))
    ensures ValidDescription(d) <==> d != [] && Trim(d) == d
  {
    if ValidDescription(d) {
      assert LeadingSpace(d) == 0;
      assert TrailingSpaceStart(d) == |d|;
    }
  }

  // ---------------------------------------------------------------------------
  // Startup
  // ---------------------------------------------------------------------------

  /** The counter at startup, `parseInt(stored) || 1`: `entry` is the parsed
      number, `None` when the entry is absent or not a number. */
  function InitialCounter(entry: Option<int>): (c: int)
    ensures c != 0
    ensures entry.Some? && entry.value != 0 ==> c == entry.value
    ensures entry == None || entry == Some(0) ==> c == 1
  {
    match entry
    case Some(n) => if n != 0 then n else 1
    case None => 1
  }

  /** The list at startup: the stored list, or empty when the entry is
      missing or does not parse. */
  function LoadTasks(entry: TasksEntry): (r: seq<Task>)
    ensures entry.Parsed? ==> r == entry.list
    ensures !entry.Parsed? ==> r == []
  {
    match entry
    case Parsed(list) => list
    case _ => []
  }

  /** What a restart reads back after the store has saved both entries: the
      same counter (unless it is 0) and the same list. */
  lemma RestartRestores(counter: int, tasks: seq<Task>)
    requires counter != 0
    ensures InitialCounter(Some(counter)) == counter
    ensures LoadTasks(Parsed(tasks)) == tasks
  {
  }

  // ---------------------------------------------------------------------------
  // Lookup
  // ---------------------------------------------------------------------------

  predicate Has(tasks: seq<Task>, id: int)
  {
    exists k :: 0 <= k < |tasks| && tasks[k].id == id
  }

  /** The position of the record `tasks.find(t => t.id === id)` returns: the
      first one carrying `id`, or `None` when there is none. */
  function FindIndex(tasks: seq<Task>, id: int): (r: Option<nat>)
    ensures r.None? <==> !Has(tasks, id)
    ensures r.Some? ==> r.value < |tasks| && tasks[r.value].id == id
    ensures r.Some? ==> forall j :: 0 <= j < r.value ==> tasks[j].id != id
  {
    if tasks == [] then None
    else if tasks[0].id == id then Some(0)
    else
      match FindIndex(tasks[1..], id)
      case None =>
        assert forall k :: 1 <= k < |tasks| ==> tasks[k] == tasks[1..][k - 1];
        None
      case Some(k) => Some(k + 1)
  }

  /** Two lists that carry the same ids at the same positions. */
  predicate SameIds(a: seq<Task>, b: seq<Task>)
  {
    |a| == |b| && forall k :: 0 <= k < |a| ==> a[k].id == b[k].id
  }

  /** The first match depends on the ids alone. */
  lemma {:induction false} FindIndexSameIds(a: seq<Task>, b: seq<Task>, id: int)
    requires SameIds(a, b)
    ensures FindIndex(a, id) == FindIndex(b, id)
  {
    if a != [] && a[0].id != id {
      FindIndexSameIds(a[1..], b[1..], id);
    }
  }

  // ---------------------------------------------------------------------------
  // The list after each operation
  // ---------------------------------------------------------------------------

  /** `tasks.filter(t => t.id !== id)`. */
  function Without(tasks: seq<Task>, id: int): (r: seq<Task>)
    ensures forall t :: t in r <==> t in tasks && t.id != id
    ensures !Has(r, id)
    ensures |r| < |tasks| <==> Has(tasks, id)
    ensures |r| <= |tasks|
    ensures !Has(tasks, id) ==> r == tasks
  {
    if tasks == [] then []
    else
      var rest := Without(tasks[1..], id);
      assert tasks == [tasks[0]] + tasks[1..];
      assert Has(tasks, id) <==> tasks[0].id == id || Has(tasks[1..], id) by {
        if Has(tasks, id) {
          var k :| 0 <= k < |tasks| && tasks[k].id == id;
          assert k == 0 || tasks[1..][k - 1].id == id;
        }
        if Has(tasks[1..], id) {
          var k :| 0 <= k < |tasks[1..]| && tasks[1..][k].id == id;
          assert tasks[k + 1].id == id;
        }
      }
      if tasks[0].id == id then rest else [tasks[0]] + rest
  }

  /** The list after `toggleTask(id)`: the record `find` returns has its
      `completed` flipped. */
  function Toggled(tasks: seq<Task>, id: int): (r: seq<Task>)
    ensures SameIds(r, tasks)
    ensures forall k :: 0 <= k < |tasks| ==> r[k].description == tasks[k].description
    ensures forall k :: 0 <= k < |tasks| ==>
              (r[k].completed != tasks[k].completed <==> FindIndex(tasks, id) == Some(k))
    ensures !Has(tasks, id) ==> r == tasks
  {
    match FindIndex(tasks, id)
    case None => tasks
    case Some(i) => tasks[i := tasks[i].(completed := !tasks[i].completed)]
  }

  /** The list after `updateTask(id, d)`: the record `find` returns gets the
      description `d`. */
  function Updated(tasks: seq<Task>, id: int, d: string): (r: seq<Task>)
    ensures SameIds(r, tasks)
    ensures forall k :: 0 <= k < |tasks| ==> r[k].completed == tasks[k].completed
    ensures forall k :: 0 <= k < |tasks| ==>
              r[k].description == if FindIndex(tasks, id) == Some(k) then d else tasks[k].description
    ensures !Has(tasks, id) ==> r == tasks
  {
    match FindIndex(tasks, id)
    case None => tasks
    case Some(i) => tasks[i := tasks[i].(description := d)]
  }

  // ---------------------------------------------------------------------------
  // Identifier invariants
  // ---------------------------------------------------------------------------

  /** Every id in the list was issued before the counter reached `bound`. */
  predicate IdsBelow(tasks: seq<Task>, bound: int)
  {
    forall k :: 0 <= k < |tasks| ==> tasks[k].id < bound
  }

  predicate UniqueIds(tasks: seq<Task>)
  {
    forall j, k :: 0 <= j < k < |tasks| ==> tasks[j].id != tasks[k].id
  }

  /** Ids grow along the list, as they do when every record was appended by `addTask`. */
  predicate Ascending(tasks: seq<Task>)
  {
    forall j, k :: 0 <= j < k < |tasks| ==> tasks[j].id < tasks[k].id
  }

  /** Ascending ids are unique. */
  lemma AscendingIsUnique(tasks: seq<Task>)
    requires Ascending(tasks)
    ensures UniqueIds(tasks)
  {
  }

  /** Appending a record with the current counter value as its id, then
      bumping the counter, keeps every invariant. */
  lemma AppendFresh(tasks: seq<Task>, counter: int, d: string)
    requires IdsBelow(tasks, counter)
    ensures IdsBelow(tasks + [Task(counter, d, false)], counter + 1)
    ensures UniqueIds(tasks) ==> UniqueIds(tasks + [Task(counter, d, false)])
    ensures Ascending(tasks) ==> Ascending(tasks + [Task(counter, d, false)])
  {
  }

  /** Toggle and update keep every id in place, so they keep every invariant. */
  lemma SameIdsKeepInvariants(a: seq<Task>, b: seq<Task>, bound: int)
    requires SameIds(a, b)
    ensures IdsBelow(a, bound) <==> IdsBelow(b, bound)
    ensures UniqueIds(a) <==> UniqueIds(b)
    ensures Ascending(a) <==> Ascending(b)
  {
  }

  /** Filtering keeps a subset of the records, so ids stay below the counter. */
  lemma WithoutKeepsIdsBelow(tasks: seq<Task>, id: int, bound: int)
    requires IdsBelow(tasks, bound)
    ensures IdsBelow(Without(tasks, id), bound)
  {
    var r := Without(tasks, id);
    forall k | 0 <= k < |r| ensures r[k].id < bound {
      assert r[k] in tasks;
    }
  }

  /** Filtering keeps ids unique. */
  lemma {:induction false} WithoutKeepsUnique(tasks: seq<Task>, id: int)
    requires UniqueIds(tasks)
    ensures UniqueIds(Without(tasks, id))
  {
    if tasks != [] {
      var tail := tasks[1..];
      WithoutKeepsUnique(tail, id);
      var rest := Without(tail, id);
      if tasks[0].id != id {
        forall k | 0 <= k < |rest| ensures rest[k].id != tasks[0].id {
          assert rest[k] in tail;
        }
        assert Without(tasks, id) == [tasks[0]] + rest;
      }
    }
  }

  /** Filtering keeps the records in their order, so ids stay ascending. */
  lemma {:induction false} WithoutKeepsAscending(tasks: seq<Task>, id: int)
    requires Ascending(tasks)
    ensures Ascending(Without(tasks, id))
  {
    if tasks != [] {
      var tail := tasks[1..];
      WithoutKeepsAscending(tail, id);
      var rest := Without(tail, id);
      if tasks[0].id != id {
        forall k | 0 <= k < |rest| ensures tasks[0].id < rest[k].id {
          assert rest[k] in tail;
        }
        assert Without(tasks, id) == [tasks[0]] + rest;
      }
    }
  }

  // ---------------------------------------------------------------------------
  // Properties of the operations
  // ---------------------------------------------------------------------------

  /** Toggling the same id twice restores the list. */
  lemma ToggleTwice(tasks: seq<Task>, id: int)
    ensures Toggled(Toggled(tasks, id), id) == tasks
  {
    var once := Toggled(tasks, id);
    FindIndexSameIds(once, tasks, id);
    var twice := Toggled(once, id);
    assert forall k :: 0 <= k < |tasks| ==> twice[k] == tasks[k];
  }

  /** Updating with the description the record had before undoes an update. */
  lemma UpdateUndone(tasks: seq<Task>, id: int, d: string, i: nat)
    requires FindIndex(tasks, id) == Some(i)
    ensures Updated(Updated(tasks, id, d), id, tasks[i].description) == tasks
  {
    var once := Updated(tasks, id, d);
    FindIndexSameIds(once, tasks, id);
    var twice := Updated(once, id, tasks[i].description);
    assert forall k :: 0 <= k < |tasks| ==> twice[k] == tasks[k];
  }

  /** Updating twice with the same description is the same as updating once. */
  lemma UpdateIdempotent(tasks: seq<Task>, id: int, d: string)
    ensures Updated(Updated(tasks, id, d), id, d) == Updated(tasks, id, d)
  {
    var once := Updated(tasks, id, d);
    FindIndexSameIds(once, tasks, id);
    var twice := Updated(once, id, d);
    assert forall k :: 0 <= k < |tasks| ==> twice[k] == once[k];
  }

  /** Filtering distributes over concatenation: together with the postconditions
      of `Without` on a one-record list, this pins down that the records kept
      stay in their original order. */
  lemma {:induction false} WithoutConcat(a: seq<Task>, b: seq<Task>, id: int)
    ensures Without(a + b, id) == Without(a, id) + Without(b, id)
  {
    if a == [] {
      assert a + b == b;
    } else {
      assert (a + b)[1..] == a[1..] + b;
      WithoutConcat(a[1..], b, id);
    }
  }

  /** With unique ids, `filter` and `find` agree: filtering removes exactly the
      record `find` returns and nothing else. */
  lemma WithoutRemovesFound(tasks: seq<Task>, id: int, i: nat)
    requires UniqueIds(tasks)
    requires FindIndex(tasks, id) == Some(i)
    ensures Without(tasks, id) == tasks[..i] + tasks[i + 1..]
  {
    var before, after := tasks[..i], tasks[i + 1..];
    assert !Has(before, id);
    assert !Has(after, id) by {
      forall k | 0 <= k < |after| ensures after[k].id != id {
        assert after[k] == tasks[i + 1 + k];
      }
    }
    assert Without([tasks[i]], id) == [];
    calc {
      Without(tasks, id);
      { assert tasks == before + ([tasks[i]] + after); }
      Without(before + ([tasks[i]] + after), id);
      { WithoutConcat(before, [tasks[i]] + after, id); }
      Without(before, id) + Without([tasks[i]] + after, id);
      { WithoutConcat([tasks[i]], after, id); }
      before + (Without([tasks[i]], id) + after);
      before + after;
    }
  }
}
