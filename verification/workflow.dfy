/**
 * The catalog workflow state machine of `WorkflowManager`: the six workflow
 * states, the static edge and role-permission tables, and the five guarded
 * operations that all funnel into the one primitive that changes a status
 * and appends a history row in a single unit of work.
 *
 * The relational store is abstracted as a map from entry id to the three
 * columns the engine reads, plus the append-only history table. Every
 * operation returns the store after the call together with the reply the
 * source returns; a failed call leaves the store exactly as it was, which is
 * how the begin/commit/rollback pair is modelled.
 */
module Workflow {
  import opened Wrappers
  import opened Php

  datatype Status = Draft | Proposed | Validated | Published | Rejected | Archived

  /** The string constant the source stores for each state. */
  function Name(s: Status): string {
    match s
    case Draft => "draft"
    case Proposed => "proposed"
    case Validated => "validated"
    case Published => "published"
    case Rejected => "rejected"
    case Archived => "archived"
  }

  /** The state a string names, if any: `isset` on the edge table's keys. */
  function ParseStatus(s: string): (r: Option<Status>)
    ensures r.Some? ==> Name(r.value) == s
    ensures forall t: Status :: Name(t) == s ==> r == Some(t)
  {
    if s == "draft" then Some(Draft)
    else if s == "proposed" then Some(Proposed)
    else if s == "validated" then Some(Validated)
    else if s == "published" then Some(Published)
    else if s == "rejected" then Some(Rejected)
    else if s == "archived" then Some(Archived)
    else None
  }

  /** The edge table, row by row, in the order the source lists the targets. */
  function Targets(from: Status): seq<Status> {
    match from
    case Draft => [Proposed, Archived]
    case Proposed => [Validated, Rejected, Draft]
    case Validated => [Published, Draft]
    case Published => [Archived, Draft]
    case Rejected => [Draft, Archived]
    case Archived => [Draft]
  }

  /** The role-permission table: roles listed for each target state. */
  function RequiredRoles(to: Status): seq<string> {
    match to
    case Proposed => ["teacher", "admin", "direction"]
    case Validated => ["referent", "admin", "direction"]
    case Published => ["direction", "admin"]
    case Rejected => ["referent", "admin", "direction"]
    case Archived => ["admin", "direction"]
    case Draft => ["teacher", "admin", "direction"]
  }

  function Names(ss: seq<Status>): (r: seq<string>)
    ensures |r| == |ss|
    ensures forall k :: 0 <= k < |ss| ==> r[k] == Name(ss[k])
  {
    if ss == [] then [] else [Name(ss[0])] + Names(ss[1..])
  }

  /**
   * The lifecycle graph written out as a set of edges: an independent
   * statement of the edge table against which the lookup is checked.
   */
  const Edges: set<(Status, Status)> := {
    (Draft, Proposed), (Draft, Archived),
    (Proposed, Validated), (Proposed, Rejected), (Proposed, Draft),
    (Validated, Published), (Validated, Draft),
    (Published, Archived), (Published, Draft),
    (Rejected, Draft), (Rejected, Archived),
    (Archived, Draft)
  }

  /**
   * The permission policy stated role by role: admin and direction may move
   * an entry to any state, a teacher may propose it or send it back to
   * draft, a referent may validate or reject it.
   */
  predicate MayReach(role: string, to: Status) {
    || role == "admin"
    || role == "direction"
    || (role == "teacher" && to in {Proposed, Draft})
    || (role == "referent" && to in {Validated, Rejected})
  }

  /** `isTransitionAllowed`: a lookup of string arguments in the edge table. */
  function IsTransitionAllowed(from: string, to: string): (r: bool)
    ensures ParseStatus(from).None? ==> !r
    ensures r <==> exists f: Status, t: Status :: Name(f) == from && Name(t) == to && (f, t) in Edges
  {
    match ParseStatus(from)
    case None => false
    case Some(f) =>
      TargetsAreEdges(f);
      NamesMembership(Targets(f), to);
      to in Names(Targets(f))
  }

  lemma TargetsAreEdges(f: Status)
    ensures forall t: Status :: t in Targets(f) <==> (f, t) in Edges
  {
  }

  lemma NamesMembership(ss: seq<Status>, x: string)
    ensures x in Names(ss) <==> exists t: Status :: t in ss && Name(t) == x
  {
    if x in Names(ss) {
      var k :| 0 <= k < |ss| && Names(ss)[k] == x;
      assert ss[k] in ss;
    }
  }

  /** The same lookup on states that are already known to be valid. */
  predicate Allowed(from: Status, to: Status) {
    IsTransitionAllowed(Name(from), Name(to))
  }

  lemma AllowedIsEdge(from: Status, to: Status)
    ensures Allowed(from, to) <==> (from, to) in Edges
  {
  }

  /** `canUserTransition`: a lookup of the role in the target's permission list. */
  function CanUserTransition(to: string, role: string): (r: bool)
    ensures ParseStatus(to).None? ==> !r
    ensures r <==> exists t: Status :: Name(t) == to && MayReach(role, t)
  {
    match ParseStatus(to)
    case None => false
    case Some(t) => role in RequiredRoles(t)
  }

  /** A draft may be proposed but not validated directly; a string naming no state has no edges. */
  lemma EdgeExamples()
    ensures IsTransitionAllowed("draft", "proposed")
    ensures !IsTransitionAllowed("draft", "validated")
    ensures !IsTransitionAllowed("submitted", "draft")
  {
    AllowedIsEdge(Draft, Proposed);
    AllowedIsEdge(Draft, Validated);
  }

  /** Only direction and admin may move an entry to published. */
  lemma OnlyDirectionOrAdminPublish(role: string)
    ensures CanUserTransition("published", role) <==> role == "direction" || role == "admin"
  {
  }

  // ---------------------------------------------------------------------
  // The abstract store

  type EntryId = string
  type UserId = string
  type TenantId = string

  /** The columns of a catalog entry the workflow engine reads or writes. */
  datatype Entry = Entry(status: Status, createdBy: UserId, updatedBy: Option<UserId>, tenant: TenantId)

  /** One row of the workflow history table. */
  datatype Transition = Transition(entry: EntryId, user: UserId, from: Status, to: Status, comment: string)

  datatype Store = Store(entries: map<EntryId, Entry>, history: seq<Transition>)

  /** The array the source returns: the success echo, or a failure reason. */
  datatype Reply =
    | Success(entry: EntryId, previous: Status, next: Status, comment: string)
    | Failure(error: string)

  /** The store after a call together with the call's reply. */
  datatype Step = Step(store: Store, reply: Reply)

  const NotFound := "Catalog entry not found"
  const OnlyDraftSubmitted := "Only draft themes can be submitted for validation"
  const OnlyOwnSubmitted := "You can only submit your own themes"
  const OnlyProposedValidated := "Only proposed themes can be validated"
  const OnlyProposedRejected := "Only proposed themes can be rejected"
  const CommentRequired := "Rejection comment is required"
  const OnlyValidatedPublished := "Only validated themes can be published"

  function NotAllowed(from: Status, to: Status): string {
    "Transition from " + Name(from) + " to " + Name(to) + " is not allowed"
  }

  /**
   * The effect of one committed transition on `id`: the entry's status is
   * `to` and its `updated_by` the acting user, its author and tenant are
   * kept, no other entry changes, and exactly one history row is appended.
   */
  ghost predicate Committed(st: Store, st': Store, id: EntryId, user: UserId, from: Status, to: Status, comment: string)
    requires id in st.entries
  {
    && st'.entries.Keys == st.entries.Keys
    && st'.entries[id].status == to
    && st'.entries[id].updatedBy == Some(user)
    && st'.entries[id].createdBy == st.entries[id].createdBy
    && st'.entries[id].tenant == st.entries[id].tenant
    && (forall other :: other in st.entries && other != id ==> st'.entries[other] == st.entries[other])
    && st'.history == st.history + [Transition(id, user, from, to, comment)]
  }

  /**
   * `transitionStatus`: re-checks the edge, then updates the status and logs
   * the history row together. Every caller has read the entry first.
   */
  function TransitionStatus(st: Store, id: EntryId, user: UserId, from: Status, to: Status, comment: string): (r: Step)
    requires id in st.entries
    ensures r.reply.Failure? <==> (from, to) !in Edges
    ensures r.reply.Failure? ==> r.store == st && r.reply.error == NotAllowed(from, to)
    ensures r.reply.Success? ==>
              && r.reply == Success(id, from, to, comment)
              && Committed(st, r.store, id, user, from, to, comment)
  {
    AllowedIsEdge(from, to);
    if !Allowed(from, to) then
      Step(st, Failure(NotAllowed(from, to)))
    else
      var e := st.entries[id];
      var entries' := st.entries[id := e.(status := to, updatedBy := Some(user))];
      Step(Store(entries', st.history + [Transition(id, user, from, to, comment)]),
           Success(id, from, to, comment))
  }

  /** `submitForValidation`: the author moves a draft to proposed. */
  function SubmitForValidation(st: Store, id: EntryId, user: UserId, comment: Option<string>): (r: Step)
    ensures r.reply.Success? <==>
              id in st.entries && st.entries[id].status == Draft && st.entries[id].createdBy == user
    ensures r.reply.Failure? ==> r.store == st
    ensures id !in st.entries ==> r.reply == Failure(NotFound)
    ensures id in st.entries && st.entries[id].status != Draft ==> r.reply == Failure(OnlyDraftSubmitted)
    ensures id in st.entries && st.entries[id].status == Draft && st.entries[id].createdBy != user ==>
              r.reply == Failure(OnlyOwnSubmitted)
    ensures r.reply.Success? ==>
              var c := comment.GetOr("Submitted for validation");
              r.reply == Success(id, Draft, Proposed, c) && Committed(st, r.store, id, user, Draft, Proposed, c)
  {
    if id !in st.entries then Step(st, Failure(NotFound))
    else if st.entries[id].status != Draft then Step(st, Failure(OnlyDraftSubmitted))
    else if st.entries[id].createdBy != user then Step(st, Failure(OnlyOwnSubmitted))
    else TransitionStatus(st, id, user, Draft, Proposed, comment.GetOr("Submitted for validation"))
  }

  /** `validateTheme`: a proposed entry becomes validated. */
  function ValidateTheme(st: Store, id: EntryId, user: UserId, comment: Option<string>): (r: Step)
    ensures r.reply.Success? <==> id in st.entries && st.entries[id].status == Proposed
    ensures r.reply.Failure? ==> r.store == st
    ensures id !in st.entries ==> r.reply == Failure(NotFound)
    ensures id in st.entries && st.entries[id].status != Proposed ==> r.reply == Failure(OnlyProposedValidated)
    ensures r.reply.Success? ==>
              var c := comment.GetOr("Theme validated");
              r.reply == Success(id, Proposed, Validated, c) && Committed(st, r.store, id, user, Proposed, Validated, c)
  {
    if id !in st.entries then Step(st, Failure(NotFound))
    else if st.entries[id].status != Proposed then Step(st, Failure(OnlyProposedValidated))
    else TransitionStatus(st, id, user, Proposed, Validated, comment.GetOr("Theme validated"))
  }

  /**
   * `rejectTheme`: a proposed entry becomes rejected; the comment is
   * mandatory and is checked before the entry is read.
   */
  function RejectTheme(st: Store, id: EntryId, user: UserId, comment: Option<string>): (r: Step)
    ensures r.reply.Success? <==>
              !BlankText(comment) && id in st.entries && st.entries[id].status == Proposed
    ensures r.reply.Failure? ==> r.store == st
    ensures BlankText(comment) ==> r.reply == Failure(CommentRequired)
    ensures !BlankText(comment) && id !in st.entries ==> r.reply == Failure(NotFound)
    ensures !BlankText(comment) && id in st.entries && st.entries[id].status != Proposed ==>
              r.reply == Failure(OnlyProposedRejected)
    ensures r.reply.Success? ==>
              r.reply == Success(id, Proposed, Rejected, comment.value)
              && Committed(st, r.store, id, user, Proposed, Rejected, comment.value)
  {
    if BlankText(comment) then Step(st, Failure(CommentRequired))
    else if id !in st.entries then Step(st, Failure(NotFound))
    else if st.entries[id].status != Proposed then Step(st, Failure(OnlyProposedRejected))
    else TransitionStatus(st, id, user, Proposed, Rejected, comment.value)
  }

  /** `publishTheme`: a validated entry becomes published. */
  function PublishTheme(st: Store, id: EntryId, user: UserId, comment: Option<string>): (r: Step)
    ensures r.reply.Success? <==> id in st.entries && st.entries[id].status == Validated
    ensures r.reply.Failure? ==> r.store == st
    ensures id !in st.entries ==> r.reply == Failure(NotFound)
    ensures id in st.entries && st.entries[id].status != Validated ==> r.reply == Failure(OnlyValidatedPublished)
    ensures r.reply.Success? ==>
              var c := comment.GetOr("Theme published to catalog");
              r.reply == Success(id, Validated, Published, c) && Committed(st, r.store, id, user, Validated, Published, c)
  {
    if id !in st.entries then Step(st, Failure(NotFound))
    else if st.entries[id].status != Validated then Step(st, Failure(OnlyValidatedPublished))
    else TransitionStatus(st, id, user, Validated, Published, comment.GetOr("Theme published to catalog"))
  }

  /**
   * `archiveTheme`: no status check of its own; the entry's current status is
   * handed to the primitive, whose edge check decides.
   */
  function ArchiveTheme(st: Store, id: EntryId, user: UserId, reason: Option<string>): (r: Step)
    ensures r.reply.Success? <==> id in st.entries && st.entries[id].status in {Draft, Published, Rejected}
    ensures r.reply.Failure? ==> r.store == st
    ensures id !in st.entries ==> r.reply == Failure(NotFound)
    ensures id in st.entries && st.entries[id].status !in {Draft, Published, Rejected} ==>
              r.reply == Failure(NotAllowed(st.entries[id].status, Archived))
    ensures r.reply.Success? ==>
              var c := reason.GetOr("Theme archived");
              var from := st.entries[id].status;
              r.reply == Success(id, from, Archived, c) && Committed(st, r.store, id, user, from, Archived, c)
  {
    if id !in st.entries then Step(st, Failure(NotFound))
    else TransitionStatus(st, id, user, st.entries[id].status, Archived, reason.GetOr("Theme archived"))
  }
}
