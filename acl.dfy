/** Per-node principal roles kept in the principal_roles table: one row per
    (node uuid, principal id, role). A node's principal-roles mapping reads
    and rewrites only the rows carrying its own uuid. */
module Acl {
  import opened Wrappers
  import opened Guid

  /** One row of principal_roles (its generated rec_id is not modelled). */
  datatype RoleRecord = RoleRecord(node: Uuid, principal: string, role: string)

  /** The principal_roles table, in storage order. */
  class RoleTable {
    var rows: seq<RoleRecord>

    constructor(rows: seq<RoleRecord>)
      ensures this.rows == rows
    {
      this.rows := rows;
    }
  }

  /** The distinct roles stored for (node, principal). */
  function RolesOf(rows: seq<RoleRecord>, node: Uuid, principal: string): (roles: set<string>)
    ensures forall role :: role in roles <==> RoleRecord(node, principal, role) in rows
  {
    set rec | rec in rows && rec.node == node && rec.principal == principal :: rec.role
  }

  /** The distinct principals having at least one row for the node. */
  function PrincipalsOf(rows: seq<RoleRecord>, node: Uuid): (ps: set<string>)
    ensures forall p :: p in ps <==> RolesOf(rows, node, p) != {}
  {
    var ps := set rec | rec in rows && rec.node == node :: rec.principal;
    assert forall p :: p in ps ==> RolesOf(rows, node, p) != {} by {
      forall p | p in ps ensures RolesOf(rows, node, p) != {} {
        var rec :| rec in rows && rec.node == node && rec.principal == p;
        assert rec.role in RolesOf(rows, node, p);
      }
    }
    ps
  }

  /** The rows a delete query selects: this node and principal, and a role in
      `roles` when that filter is given. */
  predicate Selected(rec: RoleRecord, node: Uuid, principal: string, roles: Option<set<string>>)
  {
    rec.node == node && rec.principal == principal && (roles.None? || rec.role in roles.value)
  }

  /** How many rows equal to `rec` the first loop of __setitem__ adds. */
  function Added(rec: RoleRecord, node: Uuid, principal: string, value: seq<string>, existing: set<string>): nat
  {
    if rec.node == node && rec.principal == principal && rec.role !in existing
    then multiset(value)[rec.role] else 0
  }

  /** The two phases of __setitem__ together: rows for (node, principal) are
      added, then the stale ones removed; the outcome, counted row by row. */
  lemma ReplaceCounts(before: seq<RoleRecord>, added: seq<RoleRecord>, after: seq<RoleRecord>,
                      node: Uuid, principal: string, value: seq<string>,
                      existing: set<string>, delete: set<string>)
    requires existing == RolesOf(before, node, principal)
    requires forall rec :: multiset(added)[rec] == multiset(before)[rec] + Added(rec, node, principal, value, existing)
    requires forall role :: role in delete <==> role in existing && role !in value
    requires forall rec ::
               multiset(after)[rec] == (if Selected(rec, node, principal, Some(delete)) then 0 else multiset(added)[rec])
    ensures forall rec: RoleRecord :: !(rec.node == node && rec.principal == principal) ==>
      multiset(after)[rec] == multiset(before)[rec]
    ensures forall role ::
              multiset(after)[RoleRecord(node, principal, role)] ==
              (if role in existing
               then (if role in value then multiset(before)[RoleRecord(node, principal, role)] else 0)
               else multiset(value)[role])
    ensures RolesOf(after, node, principal) == set role | role in value
  {
    forall role ensures multiset(after)[RoleRecord(node, principal, role)] ==
              (if role in existing
               then (if role in value then multiset(before)[RoleRecord(node, principal, role)] else 0)
               else multiset(value)[role])
    {
      var rec := RoleRecord(node, principal, role);
      if role !in existing {
        assert rec !in before;
      }
    }
  }

  /** The rows left after deleting the selected ones, in order. */
  function Unselected(rows: seq<RoleRecord>, node: Uuid, principal: string, roles: Option<set<string>>)
    : (r: seq<RoleRecord>)
    ensures |r| <= |rows|
  {
    if |rows| == 0 then []
    else
      var last := rows[|rows| - 1];
      Unselected(rows[..|rows| - 1], node, principal, roles)
        + if Selected(last, node, principal, roles) then [] else [last]
  }

  /** Deleting the selected rows removes every copy of them and keeps every
      other row as often as before. */
  lemma {:induction false} UnselectedCount(rows: seq<RoleRecord>, node: Uuid, principal: string,
                                           roles: Option<set<string>>)
    ensures forall rec ::
              multiset(Unselected(rows, node, principal, roles))[rec]
              == (if Selected(rec, node, principal, roles) then 0 else multiset(rows)[rec])
  {
    if |rows| > 0 {
      var init, last := rows[..|rows| - 1], rows[|rows| - 1];
      assert rows == init + [last];
      UnselectedCount(init, node, principal, roles);
    }
  }

  /** The principal-roles mapping of one node. */
  class PrincipalRoles {
    const node: Uuid
    const table: RoleTable

    constructor(node: Uuid, table: RoleTable)
      ensures this.node == node && this.table == table
    {
      this.node := node;
      this.table := table;
    }

    /** `roles[principal]` (_roles_for): the distinct roles of the principal
        on this node, empty for an unknown principal. */
    function GetItem(principal: string): (roles: set<string>)
      reads this, table
      ensures principal !in Principals() ==> roles == {}
      ensures forall role :: role in roles <==> RoleRecord(node, principal, role) in table.rows
    {
      RolesOf(table.rows, node, principal)
    }

    /** `list(roles)`: each principal with a role on this node, once. */
    function Principals(): (ps: set<string>)
      reads this, table
      ensures forall p :: p in ps <==> RolesOf(table.rows, node, p) != {}
    {
      PrincipalsOf(table.rows, node)
    }

    /** Deletes, in one pass over the table, every selected row. */
    method DeleteSelected(principal: string, roles: Option<set<string>>)
      modifies table
      ensures table.rows == Unselected(old(table.rows), node, principal, roles)
    {
      var rows := table.rows;
      var kept: seq<RoleRecord> := [];
      var i := 0;
      while i < |rows|
        invariant 0 <= i <= |rows|
        invariant kept == Unselected(rows[..i], node, principal, roles)
      {
        assert rows[..i + 1][..i] == rows[..i];
        if !Selected(rows[i], node, principal, roles) {
          kept := kept + [rows[i]];
        }
        i := i + 1;
      }
      assert rows[..i] == rows;
      table.rows := kept;
    }

    /** The first loop of __setitem__: a row for every element of `value`
        that is not among the `existing` roles. */
    method AddMissing(principal: string, value: seq<string>, existing: set<string>)
      modifies table
      ensures forall rec ::
                multiset(table.rows)[rec] == multiset(old(table.rows))[rec] + Added(rec, node, principal, value, existing)
    {
      ghost var before := table.rows;
      var i := 0;
      while i < |value|
        invariant 0 <= i <= |value|
        invariant forall rec ::
                    multiset(table.rows)[rec] == multiset(before)[rec] + Added(rec, node, principal, value[..i], existing)
      {
        assert value[..i + 1] == value[..i] + [value[i]];
        if value[i] !in existing {
          table.rows := table.rows + [RoleRecord(node, principal, value[i])];
        }
        i := i + 1;
      }
      assert value[..i] == value;
    }

    /** `roles[principal] = value`: adds a row for each role of `value` not
        yet stored (one per occurrence in `value`), then deletes the stored
        roles that `value` lacks. Rows of other principals and other nodes,
        and rows of roles kept, stay as they were. */
    method SetItem(principal: string, value: seq<string>)
      modifies table
      ensures forall rec: RoleRecord :: !(rec.node == node && rec.principal == principal) ==>
        multiset(table.rows)[rec] == multiset(old(table.rows))[rec]
      ensures forall role ::
                multiset(table.rows)[RoleRecord(node, principal, role)] ==
                (if role in old(GetItem(principal))
                 then (if role in value then multiset(old(table.rows))[RoleRecord(node, principal, role)] else 0)
                 else multiset(value)[role])
      ensures GetItem(principal) == set role | role in value
    {
      ghost var before := table.rows;
      var existing := RolesOf(table.rows, node, principal);
      AddMissing(principal, value, existing);
      ghost var added := table.rows;
      var delete := Stale(existing, value);
      if delete != {} {
        DeleteSelected(principal, Some(delete));
        UnselectedCount(added, node, principal, Some(delete));
      } else {
        assert forall rec :: !Selected(rec, node, principal, Some(delete));
      }
      ReplaceCounts(before, added, table.rows, node, principal, value, existing, delete);
    }

    /** `del roles[principal]`: deletes every row of the principal on this
        node; none is not an error. */
    method DelItem(principal: string)
      modifies table
      ensures forall rec: RoleRecord :: !(rec.node == node && rec.principal == principal) ==>
        multiset(table.rows)[rec] == multiset(old(table.rows))[rec]
      ensures forall role :: RoleRecord(node, principal, role) !in table.rows
      ensures GetItem(principal) == {} && principal !in Principals()
    {
      ghost var before := table.rows;
      DeleteSelected(principal, None);
      UnselectedCount(before, node, principal, None);
      assert forall role :: multiset(table.rows)[RoleRecord(node, principal, role)] == 0;
    }
  }

  /** The second loop of __setitem__: the existing roles that the new value
      lacks, which are to be deleted. */
  method Stale(existing: set<string>, value: seq<string>) returns (delete: set<string>)
    ensures forall role :: role in delete <==> role in existing && role !in value
  {
    delete := {};
    var remaining := existing;
    while remaining != {}
      invariant remaining <= existing
      invariant forall role :: role in delete <==> role in existing - remaining && role !in value
      decreases remaining
    {
      var role :| role in remaining;
      if role !in value {
        delete := delete + {role};
      }
      remaining := remaining - {role};
    }
  }

  /** A node that the ACL is asked for: it provides IUUID when it has a uuid. */
  datatype AclNode = AclNode(name: string, uuid: Option<Uuid>)

  /** SQLPrincipalACL.principal_roles: RuntimeError on a node without IUUID,
      otherwise the mapping over that node's rows. */
  method PrincipalRolesFor(aclNode: AclNode, table: RoleTable) returns (r: Result<PrincipalRoles>)
    ensures r.Err? <==> aclNode.uuid.None?
    ensures r.Err? ==> r.error.RuntimeError?
    ensures r.Ok? ==> r.value.node == aclNode.uuid.value && r.value.table == table
  {
    if aclNode.uuid.None? {
      return Err(RuntimeError(aclNode.name + " does not implement IUUID"));
    }
    var roles := new PrincipalRoles(aclNode.uuid.value, table);
    r := Ok(roles);
  }
}
