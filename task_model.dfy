/**
 * The task record and the rules that validate it and the two request bodies
 * (creation and partial update), with the derived completion flag.
 */
module TaskModel {
  import opened Wrappers

  /** Length bounds on the free-text fields. */
  const MinTitleLength: nat := 3
  const MaxTitleLength: nat := 100
  const MaxDescriptionLength: nat := 500

  /**
   * A timestamp as a request carries it: a naive one has no offset and
   * shows only a wall-clock reading; an aware one denotes a UTC instant.
   */
  datatype Stamp = Naive(wall: int) | Aware(utc: int)

  /**
   * A field of a partial-update body: left out of the body, or sent
   * (possibly as null). Only sent fields are applied.
   */
  datatype Field<T> = Absent | Present(sent: Option<T>)

  /** The value a lookup of the field in the update body yields; left out reads as null. */
  function Sent<T>(f: Field<T>): Option<T>
  {
    match f
    case Absent => None
    case Present(o) => o
  }

  /** Why a record or a request is rejected. */
  datatype Reason =
    | TitleMissing
    | TitleLength
    | DescriptionLength
    | ReopenWithDate
    | CompletionBeforeCreation
    | ProposalBeforeCreation

  /**
   * A stored task. Times are UTC instants. `title` is `None` only in a record
   * left behind by an update that set it to null and was then rejected.
   */
  datatype Task = Task(
    id: int,
    title: Option<string>,
    description: Option<string>,
    created: int,
    completed: Option<int>)

  /** Body of a creation request, as sent. */
  datatype CreateBody = CreateBody(title: Option<string>, description: Option<string>, proposal: Option<Stamp>)

  /** A creation request that passed validation; the proposal is a UTC instant. */
  datatype CreateRequest = CreateRequest(title: string, description: Option<string>, proposal: Option<int>)

  /** Body of an update request, as sent: every field may be left out or sent as null. */
  datatype UpdateBody = UpdateBody(title: Field<string>, description: Field<string>, complete: Field<bool>, date: Field<Stamp>)

  /** An update request that passed validation; a sent date is a UTC instant. */
  datatype UpdateRequest = UpdateRequest(title: Field<string>, description: Field<string>, complete: Field<bool>, date: Field<int>)

  // ---------------------------------------------------------------------------
  // Timestamps
  // ---------------------------------------------------------------------------

  /** Naive timestamps are read as UTC; aware ones are kept as they are. */
  function AsUtc(s: Stamp): (r: Stamp)
    ensures r.Aware?
    ensures s.Aware? ==> r == s
    ensures s.Naive? ==> r.utc == s.wall
  {
    match s
    case Naive(w) => Aware(w)
    case Aware(_) => s
  }

  lemma AsUtcIdempotent(s: Stamp)
    ensures AsUtc(AsUtc(s)) == AsUtc(s)
  {
  }

  /** The UTC instant a timestamp denotes once normalised. */
  function Instant(s: Stamp): int
  {
    AsUtc(s).utc
  }

  /** Normalisation of an optional timestamp: an absent one stays absent. */
  function InstantOpt(o: Option<Stamp>): (r: Option<int>)
    ensures r.None? <==> o.None?
  {
    match o
    case None => None
    case Some(s) => Some(Instant(s))
  }

  /** Normalisation of an update field: presence and null are kept. */
  function InstantField(f: Field<Stamp>): (r: Field<int>)
    ensures r.Absent? <==> f.Absent?
    ensures Sent(r).None? <==> Sent(f).None?
  {
    match f
    case Absent => Absent
    case Present(o) => Present(InstantOpt(o))
  }

  function AwareOpt(o: Option<int>): Option<Stamp>
  {
    match o
    case None => None
    case Some(t) => Some(Aware(t))
  }

  lemma InstantOptOfAware(o: Option<int>)
    ensures InstantOpt(AwareOpt(o)) == o
  {
  }

  // ---------------------------------------------------------------------------
  // Field and record rules
  // ---------------------------------------------------------------------------

  predicate TitleFits(s: string)
  {
    MinTitleLength <= |s| <= MaxTitleLength
  }

  predicate DescriptionFits(d: Option<string>)
  {
    d.None? || |d.value| <= MaxDescriptionLength
  }

  /** A completion time, when there is one, is not before the creation time. */
  predicate Coherent(created: int, completed: Option<int>)
  {
    completed.None? || created <= completed.value
  }

  /** What a stored record must satisfy to be accepted as a task. */
  predicate ValidTask(t: Task)
  {
    && t.title.Some? && TitleFits(t.title.value)
    && DescriptionFits(t.description)
    && Coherent(t.created, t.completed)
  }

  /**
   * Building a task record: the field bounds are checked first, then the
   * timestamps are normalised to UTC and the completion time is compared
   * with the creation time.
   */
  function BuildTask(id: int, title: Option<string>, description: Option<string>,
                     created: Stamp, completed: Option<Stamp>): (r: Result<Task, Reason>)
    ensures r.Ok? <==>
      && title.Some? && TitleFits(title.value)
      && DescriptionFits(description)
      && Coherent(Instant(created), InstantOpt(completed))
    ensures r.Ok? ==>
      && ValidTask(r.value)
      && r.value == Task(id, title, description, Instant(created), InstantOpt(completed))
    ensures r.Err? && title.Some? && TitleFits(title.value) && DescriptionFits(description) ==>
      r.error == CompletionBeforeCreation
  {
    if title.None? then Err(TitleMissing)
    else if !TitleFits(title.value) then Err(TitleLength)
    else if !DescriptionFits(description) then Err(DescriptionLength)
    else
      var createdUtc := Instant(created);
      var completedUtc := InstantOpt(completed);
      if completedUtc.Some? && completedUtc.value < createdUtc then Err(CompletionBeforeCreation)
      else Ok(Task(id, title, description, createdUtc, completedUtc))
  }

  /** Whether a task reads as completed at instant `now`. */
  function Completed(t: Task, now: int): (r: bool)
    ensures t.completed.None? ==> !r
  {
    match t.completed
    case None => false
    case Some(c) => c <= now
  }

  lemma CompletedIff(t: Task, now: int)
    ensures Completed(t, now) <==> t.completed.Some? && t.completed.value <= now
  {
  }

  /** Once a task reads as completed it keeps doing so as time goes on, with no write. */
  lemma CompletedMonotone(t: Task, now: int, later: int)
    requires now <= later
    requires Completed(t, now)
    ensures Completed(t, later)
  {
  }

  /** A task with a completion time in the future reads as pending until that instant. */
  lemma CompletedTurnsTrueAtDeadline(t: Task, now: int)
    requires t.completed.Some? && now < t.completed.value
    ensures !Completed(t, now) && Completed(t, t.completed.value)
  {
  }

  // ---------------------------------------------------------------------------
  // Request bodies
  // ---------------------------------------------------------------------------

  /** A creation body is accepted when the title is present and both text fields fit. */
  function ParseCreate(b: CreateBody): (r: Result<CreateRequest, Reason>)
    ensures r.Ok? <==> b.title.Some? && TitleFits(b.title.value) && DescriptionFits(b.description)
    ensures r.Ok? ==>
      && r.value.title == b.title.value
      && r.value.description == b.description
      && r.value.proposal == InstantOpt(b.proposal)
  {
    if b.title.None? then Err(TitleMissing)
    else if !TitleFits(b.title.value) then Err(TitleLength)
    else if !DescriptionFits(b.description) then Err(DescriptionLength)
    else Ok(CreateRequest(b.title.value, b.description, InstantOpt(b.proposal)))
  }

  /** An update title or description obeys the record's bound unless it is left out or null. */
  predicate TitleFieldFits(f: Field<string>)
  {
    Sent(f).None? || TitleFits(Sent(f).value)
  }

  predicate DescriptionFieldFits(f: Field<string>)
  {
    DescriptionFits(Sent(f))
  }

  /** Reopening a task while sending a completion date is contradictory. */
  predicate ReopensWithDate<T>(complete: Field<bool>, date: Field<T>)
  {
    Sent(complete) == Some(false) && Sent(date).Some?
  }

  /**
   * An update body is accepted when its sent title and description fit and it
   * does not both reopen the task and send a date; a sent date is normalised.
   */
  function ParseUpdate(b: UpdateBody): (r: Result<UpdateRequest, Reason>)
    ensures r.Ok? <==>
      TitleFieldFits(b.title) && DescriptionFieldFits(b.description) && !ReopensWithDate(b.complete, b.date)
    ensures r.Ok? ==>
      && r.value.title == b.title
      && r.value.description == b.description
      && r.value.complete == b.complete
      && r.value.date == InstantField(b.date)
    ensures r.Err? && TitleFieldFits(b.title) && DescriptionFieldFits(b.description) ==>
      r.error == ReopenWithDate
  {
    if !TitleFieldFits(b.title) then Err(TitleLength)
    else if !DescriptionFieldFits(b.description) then Err(DescriptionLength)
    else if ReopensWithDate(b.complete, b.date) then Err(ReopenWithDate)
    else Ok(UpdateRequest(b.title, b.description, b.complete, InstantField(b.date)))
  }

  /** A null title or description is always allowed in an update body. */
  lemma NullFieldsAccepted(b: UpdateBody)
    requires Sent(b.title).None? && Sent(b.description).None?
    requires !ReopensWithDate(b.complete, b.date)
    ensures ParseUpdate(b).Ok?
  {
  }
}
