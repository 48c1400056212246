/**
 * The history table as an audit log of the state machine. Because
 * `transitionStatus` is the only path by which a status changes and it
 * writes the status and the history row in one unit of work, every entry's
 * rows, read oldest first, form a walk through the lifecycle graph that
 * starts in draft and ends in the entry's current status. This module states
 * that invariant, proves that each operation keeps it, and models
 * `getWorkflowHistory`.
 */
module WorkflowHistory {
  import opened Wrappers
  import opened Workflow

  /** The history rows of one entry, in insertion order (oldest first). */
  function RowsOf(h: seq<Transition>, id: EntryId): (r: seq<Transition>)
    ensures |r| <= |h|
    ensures forall k :: 0 <= k < |r| ==> r[k] in h && r[k].entry == id
    ensures forall k :: 0 <= k < |h| && h[k].entry == id ==> h[k] in r
  {
    if h == [] then []
    else
      var rest := RowsOf(h[..|h| - 1], id);
      if h[|h| - 1].entry == id then rest + [h[|h| - 1]] else rest
  }

  /**
   * Replays rows from state `s`: the state reached if every row leaves the
   * state the previous one reached along an edge of the graph, else None.
   */
  function Walk(s: Status, rows: seq<Transition>): Option<Status> {
    if rows == [] then Some(s)
    else
      match Walk(s, rows[..|rows| - 1])
      case None => None
      case Some(cur) =>
        var t := rows[|rows| - 1];
        if t.from == cur && (t.from, t.to) in Edges then Some(t.to) else None
  }

  /**
   * The status/history consistency invariant: every history row belongs to
   * a known entry, and each entry's rows replay from draft to its status.
   */
  ghost predicate Consistent(st: Store) {
    && (forall k :: 0 <= k < |st.history| ==> st.history[k].entry in st.entries)
    && (forall id :: id in st.entries ==> Walk(Draft, RowsOf(st.history, id)) == Some(st.entries[id].status))
  }

  lemma RowsOfAppend(h: seq<Transition>, t: Transition, id: EntryId)
    ensures RowsOf(h + [t], id) == if t.entry == id then RowsOf(h, id) + [t] else RowsOf(h, id)
  {
    assert (h + [t])[..|h + [t]| - 1] == h;
  }

  lemma WalkAppend(s: Status, rows: seq<Transition>, t: Transition)
    ensures Walk(s, rows + [t]) ==
              match Walk(s, rows)
              case None => None
              case Some(cur) => if t.from == cur && (t.from, t.to) in Edges then Some(t.to) else None
  {
    assert (rows + [t])[..|rows + [t]| - 1] == rows;
  }

  /** A successful walk ends in the target of its last row. */
  lemma WalkEndsAtLastRow(s: Status, rows: seq<Transition>)
    requires |rows| > 0 && Walk(s, rows).Some?
    ensures Walk(s, rows).value == rows[|rows| - 1].to
  {
  }

  /** A committed transition along an edge out of the current status keeps the invariant. */
  lemma CommittedKeepsConsistent(st: Store, st': Store, id: EntryId, user: UserId, from: Status, to: Status, comment: string)
    requires Consistent(st)
    requires id in st.entries && st.entries[id].status == from
    requires (from, to) in Edges
    requires Committed(st, st', id, user, from, to, comment)
    ensures Consistent(st')
  {
    var row := Transition(id, user, from, to, comment);
    forall k | 0 <= k < |st'.history|
      ensures st'.history[k].entry in st'.entries
    {
      if k < |st.history| {
        assert st'.history[k] == st.history[k];
      }
    }
    forall other | other in st'.entries
      ensures Walk(Draft, RowsOf(st'.history, other)) == Some(st'.entries[other].status)
    {
      RowsOfAppend(st.history, row, other);
      if other == id {
        WalkAppend(Draft, RowsOf(st.history, id), row);
      }
    }
  }

  /** The primitive keeps the invariant when handed the entry's current status. */
  lemma TransitionKeepsConsistent(st: Store, id: EntryId, user: UserId, from: Status, to: Status, comment: string)
    requires Consistent(st)
    requires id in st.entries && st.entries[id].status == from
    ensures Consistent(TransitionStatus(st, id, user, from, to, comment).store)
  {
    var r := TransitionStatus(st, id, user, from, to, comment);
    if r.reply.Success? {
      CommittedKeepsConsistent(st, r.store, id, user, from, to, comment);
    }
  }

  lemma SubmitKeepsConsistent(st: Store, id: EntryId, user: UserId, comment: Option<string>)
    requires Consistent(st)
    ensures Consistent(SubmitForValidation(st, id, user, comment).store)
  {
    var r := SubmitForValidation(st, id, user, comment);
    if r.reply.Success? {
      CommittedKeepsConsistent(st, r.store, id, user, Draft, Proposed, comment.GetOr("Submitted for validation"));
    }
  }

  lemma ValidateKeepsConsistent(st: Store, id: EntryId, user: UserId, comment: Option<string>)
    requires Consistent(st)
    ensures Consistent(ValidateTheme(st, id, user, comment).store)
  {
    var r := ValidateTheme(st, id, user, comment);
    if r.reply.Success? {
      CommittedKeepsConsistent(st, r.store, id, user, Proposed, Validated, comment.GetOr("Theme validated"));
    }
  }

  lemma RejectKeepsConsistent(st: Store, id: EntryId, user: UserId, comment: Option<string>)
    requires Consistent(st)
    ensures Consistent(RejectTheme(st, id, user, comment).store)
  {
    var r := RejectTheme(st, id, user, comment);
    if r.reply.Success? {
      CommittedKeepsConsistent(st, r.store, id, user, Proposed, Rejected, comment.value);
    }
  }

  lemma PublishKeepsConsistent(st: Store, id: EntryId, user: UserId, comment: Option<string>)
    requires Consistent(st)
    ensures Consistent(PublishTheme(st, id, user, comment).store)
  {
    var r := PublishTheme(st, id, user, comment);
    if r.reply.Success? {
      CommittedKeepsConsistent(st, r.store, id, user, Validated, Published, comment.GetOr("Theme published to catalog"));
    }
  }

  lemma ArchiveKeepsConsistent(st: Store, id: EntryId, user: UserId, comment: Option<string>)
    requires Consistent(st)
    ensures Consistent(ArchiveTheme(st, id, user, comment).store)
  {
    var r := ArchiveTheme(st, id, user, comment);
    if r.reply.Success? {
      CommittedKeepsConsistent(st, r.store, id, user, st.entries[id].status, Archived, comment.GetOr("Theme archived"));
    }
  }

  /** Each of the five public operations keeps the invariant, whatever its arguments. */
  lemma OperationsKeepConsistent(st: Store, id: EntryId, user: UserId, comment: Option<string>)
    requires Consistent(st)
    ensures Consistent(SubmitForValidation(st, id, user, comment).store)
    ensures Consistent(ValidateTheme(st, id, user, comment).store)
    ensures Consistent(RejectTheme(st, id, user, comment).store)
    ensures Consistent(PublishTheme(st, id, user, comment).store)
    ensures Consistent(ArchiveTheme(st, id, user, comment).store)
  {
    SubmitKeepsConsistent(st, id, user, comment);
    ValidateKeepsConsistent(st, id, user, comment);
    RejectKeepsConsistent(st, id, user, comment);
    PublishKeepsConsistent(st, id, user, comment);
    ArchiveKeepsConsistent(st, id, user, comment);
  }

  /** `getWorkflowHistory`: the entry's rows, most recent first. */
  function GetWorkflowHistory(st: Store, id: EntryId): (r: seq<Transition>)
    ensures |r| == |RowsOf(st.history, id)|
    ensures forall k :: 0 <= k < |r| ==> r[k].entry == id && r[k] in st.history
    // This clause only unfolds the definition; what the history contains and
    // in which order is stated by HistoryIsComplete and NewRowComesFirst.
    ensures forall k :: 0 <= k < |r| ==> r[k] == RowsOf(st.history, id)[|r| - 1 - k]
  {
    var rows := RowsOf(st.history, id);
    seq(|rows|, k requires 0 <= k < |rows| => rows[|rows| - 1 - k])
  }

  /** No row of the entry is missing from what `getWorkflowHistory` returns. */
  lemma HistoryIsComplete(st: Store, id: EntryId, t: Transition)
    requires t in st.history && t.entry == id
    ensures t in GetWorkflowHistory(st, id)
  {
    var rows := RowsOf(st.history, id);
    var j :| 0 <= j < |rows| && rows[j] == t;
    assert GetWorkflowHistory(st, id)[|rows| - 1 - j] == t;
  }

  /**
   * Under the invariant, the most recent history row of an entry names its
   * current status as `to_status`, and an entry without history is a draft.
   */
  lemma LatestRowMatchesStatus(st: Store, id: EntryId)
    requires Consistent(st) && id in st.entries
    ensures |GetWorkflowHistory(st, id)| > 0 ==> GetWorkflowHistory(st, id)[0].to == st.entries[id].status
    ensures |GetWorkflowHistory(st, id)| == 0 ==> st.entries[id].status == Draft
  {
    var rows := RowsOf(st.history, id);
    if |rows| > 0 {
      WalkEndsAtLastRow(Draft, rows);
    }
  }

  /** A successful operation's row is the first one `getWorkflowHistory` returns afterwards. */
  lemma NewRowComesFirst(st: Store, st': Store, id: EntryId, user: UserId, from: Status, to: Status, comment: string)
    requires id in st.entries
    requires Committed(st, st', id, user, from, to, comment)
    ensures |GetWorkflowHistory(st', id)| == |GetWorkflowHistory(st, id)| + 1
    ensures GetWorkflowHistory(st', id)[0] == Transition(id, user, from, to, comment)
    ensures forall k :: 0 <= k < |GetWorkflowHistory(st, id)| ==>
              GetWorkflowHistory(st', id)[k + 1] == GetWorkflowHistory(st, id)[k]
  {
    var t := Transition(id, user, from, to, comment);
    RowsOfAppend(st.history, t, id);
    var rows := RowsOf(st.history, id);
    var before, after := GetWorkflowHistory(st, id), GetWorkflowHistory(st', id);
    assert RowsOf(st'.history, id) == rows + [t];
    forall k | 0 <= k < |before|
      ensures after[k + 1] == before[k]
    {
      assert after[k + 1] == (rows + [t])[|rows| - 1 - k];
    }
  }

  /** Publishing twice in a row: the second call finds the entry published and changes nothing. */
  lemma PublishTwiceFails(st: Store, id: EntryId, user: UserId, c1: Option<string>, c2: Option<string>)
    requires id in st.entries && st.entries[id].status == Validated
    ensures PublishTheme(st, id, user, c1).reply.Success?
    ensures var s1 := PublishTheme(st, id, user, c1).store;
            && PublishTheme(s1, id, user, c2).reply == Failure(OnlyValidatedPublished)
            && PublishTheme(s1, id, user, c2).store == s1
  {
  }

  /**
   * The cyclic recovery path: a published entry is archived, then the
   * archived -> draft edge brings it back; each step logs one row, in order.
   */
  lemma ArchiveThenBackToDraft(st: Store, id: EntryId, user: UserId, reason: Option<string>, comment: string)
    requires Consistent(st)
    requires id in st.entries && st.entries[id].status == Published
    ensures var s1 := ArchiveTheme(st, id, user, reason);
            var s2 := TransitionStatus(s1.store, id, user, Archived, Draft, comment);
            && s1.reply.Success? && s2.reply.Success?
            && s2.store.entries[id].status == Draft
            && Consistent(s2.store)
            && |s2.store.history| == |st.history| + 2
            && |GetWorkflowHistory(s2.store, id)| == |GetWorkflowHistory(st, id)| + 2
            && GetWorkflowHistory(s2.store, id)[0] == Transition(id, user, Archived, Draft, comment)
            && GetWorkflowHistory(s2.store, id)[1] == Transition(id, user, Published, Archived, reason.GetOr("Theme archived"))
  {
    var reasonText := reason.GetOr("Theme archived");
    var s1 := ArchiveTheme(st, id, user, reason);
    assert Committed(st, s1.store, id, user, Published, Archived, reasonText);
    CommittedKeepsConsistent(st, s1.store, id, user, Published, Archived, reasonText);
    NewRowComesFirst(st, s1.store, id, user, Published, Archived, reasonText);
    assert s1.store.entries[id].status == Archived;
    var s2 := TransitionStatus(s1.store, id, user, Archived, Draft, comment);
    assert Committed(s1.store, s2.store, id, user, Archived, Draft, comment);
    CommittedKeepsConsistent(s1.store, s2.store, id, user, Archived, Draft, comment);
    NewRowComesFirst(s1.store, s2.store, id, user, Archived, Draft, comment);
  }
}
