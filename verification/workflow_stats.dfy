/**
 * `getWorkflowStats`: the per-status count of a tenant's catalog entries, as
 * the `GROUP BY workflow_status` query returns it. A status none of the
 * tenant's entries is in has no row in the query result and therefore no key
 * in the map.
 */
module WorkflowStats {
  import opened Workflow

  /** The ids of the tenant's entries that are in status `s`. */
  function IdsIn(st: Store, tenant: TenantId, s: Status): set<EntryId> {
    set id | id in st.entries && st.entries[id].tenant == tenant && st.entries[id].status == s
  }

  /** The ids of all of the tenant's entries. */
  function TenantIds(st: Store, tenant: TenantId): set<EntryId> {
    set id | id in st.entries && st.entries[id].tenant == tenant
  }

  function GetWorkflowStats(st: Store, tenant: TenantId): (m: map<Status, nat>)
    ensures forall s: Status :: s in m <==> exists id :: id in st.entries && st.entries[id].tenant == tenant && st.entries[id].status == s
    ensures forall s: Status :: s in m ==> m[s] == |IdsIn(st, tenant, s)| && m[s] > 0
  {
    OccupiedStatusesCounted(st, tenant);
    map s | s in Occupied(st, tenant) :: |IdsIn(st, tenant, s)|
  }

  /** The statuses the tenant's entries are in: the groups the query returns. */
  function Occupied(st: Store, tenant: TenantId): set<Status> {
    set id | id in TenantIds(st, tenant) :: st.entries[id].status
  }

  lemma OccupiedStatusesCounted(st: Store, tenant: TenantId)
    ensures forall s :: s in Occupied(st, tenant) ==> |IdsIn(st, tenant, s)| > 0
  {
    forall s | s in Occupied(st, tenant)
      ensures |IdsIn(st, tenant, s)| > 0
    {
      var id :| id in TenantIds(st, tenant) && st.entries[id].status == s;
      assert id in IdsIn(st, tenant, s);
    }
  }

  /** The count for one status, zero when the map has no key for it. */
  function CountOf(m: map<Status, nat>, s: Status): nat {
    if s in m then m[s] else 0
  }

  lemma DisjointUnionSize(a: set<EntryId>, b: set<EntryId>)
    requires a !! b
    ensures |a + b| == |a| + |b|
  {
  }

  lemma UnionDisjoint(a: set<EntryId>, b: set<EntryId>, c: set<EntryId>)
    requires a !! c && b !! c
    ensures a + b !! c
  {
  }

  /** An entry is in one status at a time, so the groups do not overlap. */
  lemma DisjointGroups(st: Store, tenant: TenantId)
    ensures forall s, t :: s != t ==> IdsIn(st, tenant, s) !! IdsIn(st, tenant, t)
  {
  }

  lemma Partition(st: Store, tenant: TenantId)
    ensures TenantIds(st, tenant) ==
              IdsIn(st, tenant, Draft) + IdsIn(st, tenant, Proposed) + IdsIn(st, tenant, Validated)
              + IdsIn(st, tenant, Published) + IdsIn(st, tenant, Rejected) + IdsIn(st, tenant, Archived)
  {
  }

  /** The counts add up to the number of the tenant's entries: every entry is counted once. */
  lemma StatsAddUp(st: Store, tenant: TenantId)
    ensures var m := GetWorkflowStats(st, tenant);
            CountOf(m, Draft) + CountOf(m, Proposed) + CountOf(m, Validated)
            + CountOf(m, Published) + CountOf(m, Rejected) + CountOf(m, Archived)
            == |TenantIds(st, tenant)|
  {
    var m := GetWorkflowStats(st, tenant);
    forall s: Status
      ensures CountOf(m, s) == |IdsIn(st, tenant, s)|
    {
      if s !in m {
        assert IdsIn(st, tenant, s) == {};
      }
    }
    var d, p, v := IdsIn(st, tenant, Draft), IdsIn(st, tenant, Proposed), IdsIn(st, tenant, Validated);
    var u, r, a := IdsIn(st, tenant, Published), IdsIn(st, tenant, Rejected), IdsIn(st, tenant, Archived);
    Partition(st, tenant);
    DisjointGroups(st, tenant);
    DisjointUnionSize(d, p);
    UnionDisjoint(d, p, v);
    DisjointUnionSize(d + p, v);
    UnionDisjoint(d, p, u);
    UnionDisjoint(d + p, v, u);
    DisjointUnionSize(d + p + v, u);
    UnionDisjoint(d, p, r);
    UnionDisjoint(d + p, v, r);
    UnionDisjoint(d + p + v, u, r);
    DisjointUnionSize(d + p + v + u, r);
    UnionDisjoint(d, p, a);
    UnionDisjoint(d + p, v, a);
    UnionDisjoint(d + p + v, u, a);
    UnionDisjoint(d + p + v + u, r, a);
    DisjointUnionSize(d + p + v + u + r, a);
  }
}
