/**
 * The in-memory task store and its request handlers: create, list, get,
 * partial update and delete, with HTTP left out (404 and 422 become `Error`).
 * The clock is the `now` parameter of the handlers that read it.
 */
module TaskStore {
  import opened Wrappers
  import opened TaskModel

  /** Rejections the handlers report: an unknown id, or a failed validation rule. */
  datatype Error = NotFound(id: int) | Invalid(reason: Reason)

  /** Store invariant: ids are positive, pairwise distinct and below the next id to hand out. */
  predicate IdsFresh(tasks: seq<Task>, nextId: int)
  {
    && 1 <= nextId
    && (forall i :: 0 <= i < |tasks| ==> 1 <= tasks[i].id < nextId)
    && (forall i, j :: 0 <= i < j < |tasks| ==> tasks[i].id != tasks[j].id)
  }

  // ---------------------------------------------------------------------------
  // Lookup and removal
  // ---------------------------------------------------------------------------

  /** Position of the first task with the given id, if any. */
  function IndexOf(tasks: seq<Task>, id: int): (r: Option<nat>)
    ensures r.Some? ==>
      && r.value < |tasks| && tasks[r.value].id == id
      && forall k :: 0 <= k < r.value ==> tasks[k].id != id
    ensures r.None? <==> forall k :: 0 <= k < |tasks| ==> tasks[k].id != id
  {
    if tasks == [] then None
    else if tasks[0].id == id then Some(0)
    else
      match IndexOf(tasks[1..], id)
      case None => None
      case Some(k) => Some(k + 1)
  }

  /** The tasks whose id differs from `id`, in their original order. */
  function Without(tasks: seq<Task>, id: int): (r: seq<Task>)
    ensures forall t :: t in r <==> t in tasks && t.id != id
    ensures |r| <= |tasks|
  {
    if tasks == [] then []
    else (if tasks[0].id == id then [] else [tasks[0]]) + Without(tasks[1..], id)
  }

  /** Filtering commutes with concatenation, so the survivors keep their relative order. */
  lemma {:induction false} WithoutConcat(a: seq<Task>, b: seq<Task>, id: int)
    ensures Without(a + b, id) == Without(a, id) + Without(b, id)
  {
    if a == [] {
      assert a + b == b;
    } else {
      assert (a + b)[1..] == a[1..] + b;
      WithoutConcat(a[1..], b, id);
    }
  }

  /** Filtering out an id that no task carries changes nothing. */
  lemma {:induction false} WithoutAbsent(tasks: seq<Task>, id: int)
    requires forall k :: 0 <= k < |tasks| ==> tasks[k].id != id
    ensures Without(tasks, id) == tasks
  {
    if tasks != [] {
      WithoutAbsent(tasks[1..], id);
      assert [tasks[0]] + tasks[1..] == tasks;
    }
  }

  /** When ids are distinct, filtering out an id removes exactly the one entry that carries it. */
  lemma WithoutUnique(tasks: seq<Task>, id: int, pos: nat)
    requires pos < |tasks| && tasks[pos].id == id
    requires forall k :: 0 <= k < |tasks| && k != pos ==> tasks[k].id != id
    ensures Without(tasks, id) == tasks[..pos] + tasks[pos + 1..]
  {
    var before, rest, after := tasks[..pos], tasks[pos..], tasks[pos + 1..];
    assert tasks == before + rest;
    assert rest == [tasks[pos]] + after;
    assert forall k :: 0 <= k < |before| ==> before[k].id != id by {
      forall k | 0 <= k < |before| ensures before[k].id != id {
        assert before[k] == tasks[k];
      }
    }
    assert forall k :: 0 <= k < |after| ==> after[k].id != id by {
      forall k | 0 <= k < |after| ensures after[k].id != id {
        assert after[k] == tasks[pos + 1 + k];
      }
    }
    WithoutAbsent(before, id);
    WithoutAbsent(after, id);
    assert Without(rest, id) == after by {
      assert rest[1..] == after;
    }
    WithoutConcat(before, rest, id);
  }

  // ---------------------------------------------------------------------------
  // Creation
  // ---------------------------------------------------------------------------

  /**
   * Building the record for an accepted creation request: a proposed
   * completion time earlier than `now` is rejected; otherwise the task is
   * created at `now` with the proposal as its completion time and is then
   * validated as any record is.
   */
  function Construct(req: CreateRequest, id: int, now: int): (r: Result<Task, Reason>)
    ensures r.Ok? <==>
      && TitleFits(req.title) && DescriptionFits(req.description)
      && (req.proposal.None? || now <= req.proposal.value)
    ensures r.Ok? ==>
      && ValidTask(r.value)
      && r.value == Task(id, Some(req.title), req.description, now, req.proposal)
    ensures r.Err? && TitleFits(req.title) && DescriptionFits(req.description) ==>
      r.error == ProposalBeforeCreation
  {
    if req.proposal.Some? && req.proposal.value < now then Err(ProposalBeforeCreation)
    else
      BuildTask(id, Some(req.title), req.description, Aware(now), AwareOpt(req.proposal))
  }

  /** A task created without a proposal is pending and reads as not completed at any instant. */
  lemma CreatedWithoutProposalIsPending(b: CreateBody, id: int, now: int, later: int)
    requires ParseCreate(b).Ok? && b.proposal.None?
    ensures Construct(ParseCreate(b).value, id, now).Ok?
    ensures Construct(ParseCreate(b).value, id, now).value.completed.None?
    ensures !Completed(Construct(ParseCreate(b).value, id, now).value, later)
  {
  }

  // ---------------------------------------------------------------------------
  // Partial update
  // ---------------------------------------------------------------------------

  /**
   * The completion time after an update, by precedence: a sent flag decides
   * (true completes or re-stamps, false reopens, null does nothing); only
   * when the flag is left out does a sent date overwrite the completion time.
   */
  function ResolveCompletion(current: Option<int>, complete: Field<bool>, date: Field<int>, now: int): (r: Option<int>)
    ensures r == current || r == None || r == Some(now) || r == Sent(date)
    ensures complete.Absent? && date.Absent? ==> r == current
    ensures r.Some? && r != current ==> complete == Present(Some(true)) || Sent(date) == r
  {
    match complete
    case Present(Some(true)) =>
      if current.None? then
        (match Sent(date) case Some(d) => Some(d) case None => Some(now))
      else if date.Present? then Sent(date)
      else current
    case Present(Some(false)) => None
    case Present(None) => current
    case Absent => if date.Present? then Sent(date) else current
  }

  /** Completing a pending task stamps it with the sent date, or with `now` when none was sent. */
  lemma CompletePending(complete: Field<bool>, date: Field<int>, now: int)
    requires complete == Present(Some(true))
    ensures Sent(date).Some? ==> ResolveCompletion(None, complete, date, now) == Sent(date)
    ensures Sent(date).None? ==> ResolveCompletion(None, complete, date, now) == Some(now)
  {
  }

  /** Completing a completed task re-stamps it only when a date field was sent; a null date clears it. */
  lemma CompleteCompleted(c: int, complete: Field<bool>, date: Field<int>, now: int)
    requires complete == Present(Some(true))
    ensures date.Absent? ==> ResolveCompletion(Some(c), complete, date, now) == Some(c)
    ensures date.Present? ==> ResolveCompletion(Some(c), complete, date, now) == date.sent
    ensures date == Present(None) ==> ResolveCompletion(Some(c), complete, date, now).None?
  {
  }

  /** Reopening clears the completion time whatever it was. */
  lemma ReopenClears(current: Option<int>, date: Field<int>, now: int)
    ensures ResolveCompletion(current, Present(Some(false)), date, now).None?
  {
  }

  /** With the flag left out, a sent date (or a sent null) overwrites the completion time. */
  lemma DateAloneOverwrites(current: Option<int>, date: Field<int>, now: int)
    requires date.Present?
    ensures ResolveCompletion(current, Absent, date, now) == date.sent
  {
  }

  /** A flag sent as null takes precedence over a sent date, which is then ignored. */
  lemma NullFlagIgnoresDate(current: Option<int>, date: Field<int>, now: int)
    ensures ResolveCompletion(current, Present(None), date, now) == current
  {
  }

  /**
   * The record after the sent fields of an update are written into it:
   * title and description when sent, the completion time by precedence.
   */
  function Edit(t: Task, u: UpdateRequest, now: int): (r: Task)
    ensures r.id == t.id && r.created == t.created
    ensures u.title.Absent? ==> r.title == t.title
    ensures u.description.Absent? ==> r.description == t.description
    ensures u.title.Present? ==> r.title == u.title.sent
    ensures u.description.Present? ==> r.description == u.description.sent
    ensures u.complete.Absent? && u.date.Absent? ==> r.completed == t.completed
    ensures r.completed == ResolveCompletion(t.completed, u.complete, u.date, now)
  {
    Task(
      t.id,
      if u.title.Present? then u.title.sent else t.title,
      if u.description.Present? then u.description.sent else t.description,
      t.created,
      ResolveCompletion(t.completed, u.complete, u.date, now))
  }

  /** Re-validation of an edited record: it succeeds exactly on valid records and gives the record back. */
  function Revalidate(t: Task): (r: Result<Task, Reason>)
    ensures r.Ok? <==> ValidTask(t)
    ensures r.Ok? ==> r.value == t
    ensures t.title.None? ==> r == Err(TitleMissing)
    ensures r.Err? && t.title.Some? && TitleFits(t.title.value) && DescriptionFits(t.description) ==>
      r.error == CompletionBeforeCreation
  {
    BuildTask(t.id, t.title, t.description, Aware(t.created), AwareOpt(t.completed))
  }

  /** Sending a task's own title and description back as an update leaves it as it was. */
  lemma ResubmitIsIdentity(t: Task, now: int)
    requires ValidTask(t)
    ensures ParseUpdate(UpdateBody(Present(t.title), Present(t.description), Absent, Absent)).Ok?
    ensures Edit(t, ParseUpdate(UpdateBody(Present(t.title), Present(t.description), Absent, Absent)).value, now) == t
  {
  }

  /**
   * Sending a task back with its status read at `now` as the flag and its
   * completion time as the date: rejected exactly when the completion time is
   * still in the future (flag false with a date); otherwise the task is unchanged.
   */
  lemma ResubmitWithStatus(t: Task, now: int, later: int)
    requires ValidTask(t)
    ensures var b := UpdateBody(Present(t.title), Present(t.description),
                                Present(Some(Completed(t, now))), Present(AwareOpt(t.completed)));
      && (ParseUpdate(b).Err? <==> t.completed.Some? && !Completed(t, now))
      && (ParseUpdate(b).Ok? ==> Edit(t, ParseUpdate(b).value, later) == t)
  {
  }

  /**
   * A rejected update still leaves its edit behind: a date earlier than the
   * creation time, sent without the flag, is written into any valid record,
   * which then fails re-validation.
   */
  lemma EditCanBreakCoherence(t: Task, d: int, now: int)
    requires ValidTask(t) && d < t.created
    ensures var e := Edit(t, UpdateRequest(Absent, Absent, Absent, Present(Some(d))), now);
      && e.completed == Some(d)
      && Revalidate(e) == Err(CompletionBeforeCreation)
  {
  }

  // ---------------------------------------------------------------------------
  // Invariant preservation
  // ---------------------------------------------------------------------------

  lemma AppendKeepsIdsFresh(tasks: seq<Task>, nextId: int, t: Task)
    requires IdsFresh(tasks, nextId) && t.id == nextId
    ensures IdsFresh(tasks + [t], nextId + 1)
  {
  }

  lemma ReplaceKeepsIdsFresh(tasks: seq<Task>, nextId: int, pos: nat, t: Task)
    requires IdsFresh(tasks, nextId) && pos < |tasks| && t.id == tasks[pos].id
    ensures IdsFresh(tasks[pos := t], nextId)
  {
  }

  lemma RemoveKeepsIdsFresh(tasks: seq<Task>, nextId: int, pos: nat)
    requires IdsFresh(tasks, nextId) && pos < |tasks|
    ensures IdsFresh(tasks[..pos] + tasks[pos + 1..], nextId)
  {
  }

  // ---------------------------------------------------------------------------
  // The store
  // ---------------------------------------------------------------------------

  /** The process-wide list of tasks and the counter that hands out ids. */
  class Store {
    var tasks: seq<Task>
    var nextId: int

    ghost predicate Valid()
      reads this
    {
      IdsFresh(tasks, nextId)
    }

    constructor ()
      ensures Valid()
      ensures tasks == [] && nextId == 1
    {
      tasks := [];
      nextId := 1;
    }

    /** Linear scan for the first task with the given id; gives its position. */
    method Find(id: int) returns (pos: Option<nat>)
      ensures pos == IndexOf(tasks, id)
    {
      var i := 0;
      while i < |tasks|
        invariant 0 <= i <= |tasks|
        invariant forall k :: 0 <= k < i ==> tasks[k].id != id
      {
        if tasks[i].id == id {
          return Some(i);
        }
        i := i + 1;
      }
      return None;
    }

    /** Every stored task, in insertion order. */
    method All() returns (r: seq<Task>)
      ensures r == tasks
    {
      r := tasks;
    }

    /** The task with the given id, or `NotFound` when none carries it. */
    method Get(id: int) returns (r: Result<Task, Error>)
      ensures r.Ok? ==> r.value in tasks && r.value.id == id
      ensures r.Ok? ==> IndexOf(tasks, id).Some? && r.value == tasks[IndexOf(tasks, id).value]
      ensures r.Err? <==> forall k :: 0 <= k < |tasks| ==> tasks[k].id != id
      ensures r.Err? ==> r.error == NotFound(id)
    {
      var found := Find(id);
      if found.None? {
        return Err(NotFound(id));
      }
      r := Ok(tasks[found.value]);
    }

    /**
     * Creates a task from a body at instant `now`. On success the task gets the
     * next id and is appended, and the counter moves on; on any rejection the
     * store and the counter are untouched.
     */
    method Create(body: CreateBody, now: int) returns (r: Result<Task, Error>)
      requires Valid()
      modifies this
      ensures Valid()
      ensures ParseCreate(body).Err? ==>
        r == Err(Invalid(ParseCreate(body).error)) && tasks == old(tasks) && nextId == old(nextId)
      ensures ParseCreate(body).Ok? ==>
        var req := ParseCreate(body).value;
        && (r.Ok? <==> req.proposal.None? || now <= req.proposal.value)
        && (r.Err? ==> r == Err(Invalid(ProposalBeforeCreation)) && tasks == old(tasks) && nextId == old(nextId))
        && (r.Ok? ==>
              && r.value == Task(old(nextId), Some(req.title), req.description, now, req.proposal)
              && tasks == old(tasks) + [r.value]
              && nextId == old(nextId) + 1)
    {
      var parsed := ParseCreate(body);
      if parsed.Err? {
        return Err(Invalid(parsed.error));
      }
      var built := Construct(parsed.value, nextId, now);
      if built.Err? {
        return Err(Invalid(built.error));
      }
      AppendKeepsIdsFresh(tasks, nextId, built.value);
      tasks := tasks + [built.value];
      nextId := nextId + 1;
      r := Ok(built.value);
    }

    /**
     * Applies a partial update at instant `now`. The body is checked first;
     * then the task is looked up; then its sent fields are written into the
     * stored record in place, and only afterwards is the record re-validated.
     * A failed re-validation therefore leaves the edit in the store.
     */
    method Update(id: int, body: UpdateBody, now: int) returns (r: Result<Task, Error>)
      requires Valid()
      modifies this
      ensures Valid() && nextId == old(nextId)
      ensures |tasks| == |old(tasks)|
      ensures forall k :: 0 <= k < |tasks| ==> tasks[k].id == old(tasks)[k].id
      ensures ParseUpdate(body).Err? ==>
        r == Err(Invalid(ParseUpdate(body).error)) && tasks == old(tasks)
      ensures ParseUpdate(body).Ok? && IndexOf(old(tasks), id).None? ==>
        r == Err(NotFound(id)) && tasks == old(tasks)
      ensures ParseUpdate(body).Ok? && IndexOf(old(tasks), id).Some? ==>
        var pos := IndexOf(old(tasks), id).value;
        var edited := Edit(old(tasks)[pos], ParseUpdate(body).value, now);
        && tasks == old(tasks)[pos := edited]
        && (ValidTask(edited) ==> r == Ok(edited))
        && (!ValidTask(edited) ==> r == Err(Invalid(Revalidate(edited).error)))
    {
      var parsed := ParseUpdate(body);
      if parsed.Err? {
        return Err(Invalid(parsed.error));
      }
      var found := Find(id);
      if found.None? {
        return Err(NotFound(id));
      }
      var pos := found.value;
      var edited := Edit(tasks[pos], parsed.value, now);
      ReplaceKeepsIdsFresh(tasks, nextId, pos, edited);
      tasks := tasks[pos := edited];
      var checked := Revalidate(edited);
      if checked.Err? {
        return Err(Invalid(checked.error));
      }
      var i := 0;
      while i < |tasks| && tasks[i].id != id
        invariant 0 <= i <= pos
        invariant forall k :: 0 <= k < i ==> tasks[k].id != id
      {
        i := i + 1;
      }
      assert i == pos;
      tasks := tasks[i := checked.value];
      r := Ok(checked.value);
    }

    /** Removes the task with the given id, keeping the others in order. */
    method Delete(id: int) returns (r: Result<(), Error>)
      requires Valid()
      modifies this
      ensures Valid() && nextId == old(nextId)
      ensures IndexOf(old(tasks), id).None? ==> r == Err(NotFound(id)) && tasks == old(tasks)
      ensures IndexOf(old(tasks), id).Some? ==>
        var pos := IndexOf(old(tasks), id).value;
        && r == Ok(())
        && tasks == Without(old(tasks), id)
        && tasks == old(tasks)[..pos] + old(tasks)[pos + 1..]
    {
      var found := Find(id);
      if found.None? {
        return Err(NotFound(id));
      }
      WithoutUnique(tasks, id, found.value);
      RemoveKeepsIdsFresh(tasks, nextId, found.value);
      tasks := Without(tasks, id);
      r := Ok(());
    }
  }
}
