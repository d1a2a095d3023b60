/** The SQL-backed UGM store: the user and group tables, the membership
    edges between them (the group_assignment table, whose composite key
    makes it a set), and the operations of Users, Groups, User, Group and
    Ugm over them. */
module UgmEngine {
  import opened Wrappers
  import opened Text
  import opened Guid
  import opened Principals
  import opened Search
  import opened Auth
  import Base64

  /** A row of group_assignment. */
  datatype Assignment = Assignment(group: Uuid, user: Uuid)

  // ---------------------------------------------------------------------------
  // Tables
  // ---------------------------------------------------------------------------

  /** `query(cls).filter(cls.id == id)`: the index of the row with that id. */
  function FindRow(rows: seq<Principal>, id: string): (r: Option<nat>)
    ensures r.Some? ==> r.value < |rows| && Id(rows[r.value]) == VStr(id)
    ensures r.Some? ==> forall j :: 0 <= j < r.value ==> Id(rows[j]) != VStr(id)
    ensures r.None? <==> forall i :: 0 <= i < |rows| ==> Id(rows[i]) != VStr(id)
  {
    if |rows| == 0 then None
    else if Id(rows[0]) == VStr(id) then Some(0)
    else match FindRow(rows[1..], id)
      case None => None
      case Some(i) => Some(i + 1)
  }

  function RemoveAt(rows: seq<Principal>, k: nat): (r: seq<Principal>)
    requires k < |rows|
    ensures |r| == |rows| - 1
    ensures forall i :: 0 <= i < k ==> r[i] == rows[i]
    ensures forall i :: k <= i < |r| ==> r[i] == rows[i + 1]
  {
    rows[..k] + rows[k + 1..]
  }

  function Guids(rows: seq<Principal>): set<Uuid>
  {
    set i | 0 <= i < |rows| :: rows[i].guid
  }

  /** Every row is a well-formed row of its table; ids (unique column) and
      guids (primary key) are distinct. */
  ghost predicate TableValid(rows: seq<Principal>, kind: Kind)
  {
    && (forall i :: 0 <= i < |rows| ==> rows[i].kind == kind && WellFormed(rows[i]))
    && (forall i, j :: 0 <= i < j < |rows| ==> Id(rows[i]) != Id(rows[j]))
    && (forall i, j :: 0 <= i < j < |rows| ==> rows[i].guid != rows[j].guid)
  }

  /** Every edge joins an existing group and an existing user (foreign keys). */
  ghost predicate EdgesValid(users: seq<Principal>, groups: seq<Principal>, assignments: set<Assignment>)
  {
    forall a :: a in assignments ==> a.user in Guids(users) && a.group in Guids(groups)
  }

  /** The state invariant of the store: both tables valid, no guid shared
      between them, every edge between existing rows. */
  ghost predicate StoreValid(users: seq<Principal>, groups: seq<Principal>, assignments: set<Assignment>)
  {
    && TableValid(users, UserKind)
    && TableValid(groups, GroupKind)
    && Guids(users) !! Guids(groups)
    && EdgesValid(users, groups, assignments)
  }

  /** With distinct ids the row found for an id is the only one with it. */
  lemma FindUnique(rows: seq<Principal>, kind: Kind, id: string, i: nat)
    requires TableValid(rows, kind) && i < |rows| && Id(rows[i]) == VStr(id)
    ensures FindRow(rows, id) == Some(i)
  {
  }

  lemma ReplaceValid(rows: seq<Principal>, kind: Kind, i: nat, p: Principal)
    requires TableValid(rows, kind) && i < |rows|
    requires p.kind == kind && WellFormed(p) && Id(p) == Id(rows[i]) && p.guid == rows[i].guid
    ensures TableValid(rows[i := p], kind)
    ensures Guids(rows[i := p]) == Guids(rows)
  {
    var r := rows[i := p];
    assert forall j :: 0 <= j < |rows| ==> r[j].guid == rows[j].guid;
    assert Guids(r) == Guids(rows) by {
      forall g | g in Guids(rows) ensures g in Guids(r) {
        var j :| 0 <= j < |rows| && rows[j].guid == g;
        assert r[j].guid == g;
      }
    }
  }

  lemma RemoveValid(rows: seq<Principal>, kind: Kind, k: nat)
    requires TableValid(rows, kind) && k < |rows|
    ensures TableValid(RemoveAt(rows, k), kind)
    ensures Guids(RemoveAt(rows, k)) == Guids(rows) - {rows[k].guid}
    ensures forall i :: 0 <= i < |RemoveAt(rows, k)| ==> Id(RemoveAt(rows, k)[i]) != Id(rows[k])
  {
    var r := RemoveAt(rows, k);
    forall i, j | 0 <= i < j < |r|
      ensures Id(r[i]) != Id(r[j]) && r[i].guid != r[j].guid
    {
      var i' := if i < k then i else i + 1;
      var j' := if j < k then j else j + 1;
      assert r[i] == rows[i'] && r[j] == rows[j'] && i' < j';
    }
    forall i | 0 <= i < |r| ensures Id(r[i]) != Id(rows[k]) {
      var i' := if i < k then i else i + 1;
      assert r[i] == rows[i'] && i' != k;
    }
    RemoveGuids(rows, kind, k);
  }

  lemma RemoveGuids(rows: seq<Principal>, kind: Kind, k: nat)
    requires TableValid(rows, kind) && k < |rows|
    ensures Guids(RemoveAt(rows, k)) == Guids(rows) - {rows[k].guid}
  {
    RemoveKeepsGuids(rows, k);
    RemoveDropsGuid(rows, k);
  }

  lemma RemoveKeepsGuids(rows: seq<Principal>, k: nat)
    requires k < |rows|
    ensures Guids(rows) - {rows[k].guid} <= Guids(RemoveAt(rows, k))
  {
    var r := RemoveAt(rows, k);
    forall g | g in Guids(rows) - {rows[k].guid} ensures g in Guids(r) {
      var j :| 0 <= j < |rows| && rows[j].guid == g;
      if j < k {
        assert r[j].guid == g;
      } else {
        assert r[j - 1].guid == g;
      }
    }
  }

  lemma RemoveDropsGuid(rows: seq<Principal>, k: nat)
    requires k < |rows| && forall i, j :: 0 <= i < j < |rows| ==> rows[i].guid != rows[j].guid
    ensures Guids(RemoveAt(rows, k)) <= Guids(rows) - {rows[k].guid}
  {
    var r := RemoveAt(rows, k);
    forall g | g in Guids(r) ensures g in Guids(rows) - {rows[k].guid} {
      var j :| 0 <= j < |r| && r[j].guid == g;
      var j' := if j < k then j else j + 1;
      assert rows[j'].guid == g && j' != k;
    }
  }

  /** The edges left when a user goes (delete-orphan cascade). */
  function DropUserEdges(assignments: set<Assignment>, user: Uuid): set<Assignment>
  {
    set a | a in assignments && a.user != user
  }

  /** The edges left when a group goes. */
  function DropGroupEdges(assignments: set<Assignment>, group: Uuid): set<Assignment>
  {
    set a | a in assignments && a.group != group
  }

  /** Deleting a user row and, with it, every edge to that user keeps the
      store valid. */
  lemma DeleteUserValid(users: seq<Principal>, groups: seq<Principal>, assignments: set<Assignment>, k: nat)
    requires StoreValid(users, groups, assignments) && k < |users|
    ensures StoreValid(RemoveAt(users, k), groups, DropUserEdges(assignments, users[k].guid))
  {
    RemoveValid(users, UserKind, k);
  }

  /** Deleting a group row and, with it, every edge to that group keeps the
      store valid. */
  lemma DeleteGroupValid(users: seq<Principal>, groups: seq<Principal>, assignments: set<Assignment>, k: nat)
    requires StoreValid(users, groups, assignments) && k < |groups|
    ensures StoreValid(users, RemoveAt(groups, k), DropGroupEdges(assignments, groups[k].guid))
  {
    RemoveValid(groups, GroupKind, k);
  }

  /** A new edge between an existing group and an existing user keeps the
      store valid. */
  lemma AddEdgeValid(users: seq<Principal>, groups: seq<Principal>, assignments: set<Assignment>, gi: nat, ui: nat)
    requires StoreValid(users, groups, assignments) && gi < |groups| && ui < |users|
    ensures StoreValid(users, groups, assignments + {Assignment(groups[gi].guid, users[ui].guid)})
  {
    assert groups[gi].guid in Guids(groups) && users[ui].guid in Guids(users);
  }

  /** Removing edges keeps the store valid. */
  lemma RemoveEdgeValid(users: seq<Principal>, groups: seq<Principal>, assignments: set<Assignment>, edge: Assignment)
    requires StoreValid(users, groups, assignments)
    ensures StoreValid(users, groups, assignments - {edge})
  {
  }

  /** Appending a user with a fresh guid and an unused id keeps the store
      valid. */
  lemma AppendUserValid(users: seq<Principal>, groups: seq<Principal>, assignments: set<Assignment>, p: Principal, id: string)
    requires StoreValid(users, groups, assignments) && FindRow(users, id).None?
    requires p.kind == UserKind && WellFormed(p) && Id(p) == VStr(id)
    requires p.guid !in Guids(users) && p.guid !in Guids(groups)
    ensures StoreValid(users + [p], groups, assignments)
    ensures FindRow(users + [p], id) == Some(|users|)
  {
    AppendValid(users, UserKind, p, id);
  }

  /** Appending a group with a fresh guid and an unused id keeps the store
      valid. */
  lemma AppendGroupValid(users: seq<Principal>, groups: seq<Principal>, assignments: set<Assignment>, p: Principal, id: string)
    requires StoreValid(users, groups, assignments) && FindRow(groups, id).None?
    requires p.kind == GroupKind && WellFormed(p) && Id(p) == VStr(id)
    requires p.guid !in Guids(users) && p.guid !in Guids(groups)
    ensures StoreValid(users, groups + [p], assignments)
    ensures FindRow(groups + [p], id) == Some(|groups|)
  {
    AppendValid(groups, GroupKind, p, id);
  }

  lemma AppendValid(rows: seq<Principal>, kind: Kind, p: Principal, id: string)
    requires TableValid(rows, kind) && FindRow(rows, id).None?
    requires p.kind == kind && WellFormed(p) && Id(p) == VStr(id) && p.guid !in Guids(rows)
    ensures TableValid(rows + [p], kind)
    ensures Guids(rows + [p]) == Guids(rows) + {p.guid}
    ensures FindRow(rows + [p], id) == Some(|rows|)
  {
    var r := rows + [p];
    forall i | 0 <= i < |rows| ensures r[i].guid != p.guid {
      assert rows[i].guid in Guids(rows);
    }
    assert Guids(r) == Guids(rows) + {p.guid} by {
      forall g | g in Guids(rows) ensures g in Guids(r) {
        var j :| 0 <= j < |rows| && rows[j].guid == g;
        assert r[j].guid == g;
      }
      assert r[|rows|].guid == p.guid;
    }
    FindUnique(r, kind, id, |rows|);
  }

  /** The ids of some rows of a table are exactly the ids whose lookup
      lands on one of those rows. */
  lemma IdsOfSubset(rows: seq<Principal>, kind: Kind, sub: seq<Principal>)
    requires TableValid(rows, kind) && forall p :: p in sub ==> p in rows
    ensures forall id :: VStr(id) in IdsOf(sub) <==>
              FindRow(rows, id).Some? && rows[FindRow(rows, id).value] in sub
  {
    var ids := IdsOf(sub);
    forall id | VStr(id) in ids
      ensures FindRow(rows, id).Some? && rows[FindRow(rows, id).value] in sub
    {
      var i :| 0 <= i < |ids| && ids[i] == VStr(id);
      assert sub[i] in rows;
      var j :| 0 <= j < |rows| && rows[j] == sub[i];
      FindUnique(rows, kind, id, j);
    }
    forall id | FindRow(rows, id).Some? && rows[FindRow(rows, id).value] in sub
      ensures VStr(id) in ids
    {
      var p := rows[FindRow(rows, id).value];
      var i :| 0 <= i < |sub| && sub[i] == p;
      assert ids[i] == VStr(id);
    }
  }

  /** The users with an edge to the group, in user-table order. */
  function MembersOf(users: seq<Principal>, assignments: set<Assignment>, group: Uuid): (r: seq<Principal>)
    ensures forall u :: u in r <==> u in users && Assignment(group, u.guid) in assignments
  {
    if |users| == 0 then []
    else
      var init, last := users[..|users| - 1], users[|users| - 1];
      assert users == init + [last];
      MembersOf(init, assignments, group) + (if Assignment(group, last.guid) in assignments then [last] else [])
  }

  /** The groups with an edge to the user, in group-table order. */
  function GroupsOf(groups: seq<Principal>, assignments: set<Assignment>, user: Uuid): (r: seq<Principal>)
    ensures forall g :: g in r <==> g in groups && Assignment(g.guid, user) in assignments
  {
    if |groups| == 0 then []
    else
      var init, last := groups[..|groups| - 1], groups[|groups| - 1];
      assert groups == init + [last];
      GroupsOf(init, assignments, user) + (if Assignment(last.guid, user) in assignments then [last] else [])
  }

  function RolesOfEach(ps: seq<Principal>): (r: seq<seq<string>>)
    ensures |r| == |ps| && forall i :: 0 <= i < |ps| ==> r[i] == ps[i].roles
  {
    seq(|ps|, i requires 0 <= i < |ps| => ps[i].roles)
  }

  /** id_for_login: the `login` column of a user names the `data` field
      holding its login name. */
  predicate LoginMatches(u: Principal, login: string)
  {
    "login" in u.columns && u.columns["login"].VStr?
    && u.columns["login"].s in u.data && u.data[u.columns["login"].s] == VStr(login)
  }

  function UsersWithLogin(users: seq<Principal>, login: string): (r: seq<Principal>)
    ensures |r| <= |users|
    ensures forall u :: u in r <==> u in users && LoginMatches(u, login)
  {
    if |users| == 0 then []
    else
      var init, last := users[..|users| - 1], users[|users| - 1];
      assert users == init + [last];
      UsersWithLogin(init, login) + (if LoginMatches(last, login) then [last] else [])
  }

  /** A password column holds nothing or a hash that decodes. */
  predicate HashDecodes(v: Val)
  {
    v == VNone || DecodeHash(v).Ok?
  }

  /** Every stored password is unset or a hash that decodes. */
  ghost predicate PasswordsDecodeIn(users: seq<Principal>)
  {
    forall i :: 0 <= i < |users| && "password" in users[i].columns ==> HashDecodes(users[i].columns["password"])
  }

  lemma PasswordsReplace(users: seq<Principal>, i: nat, p: Principal)
    requires PasswordsDecodeIn(users) && i < |users|
    requires "password" in p.columns ==> HashDecodes(p.columns["password"])
    ensures PasswordsDecodeIn(users[i := p])
  {
  }

  /** The user row after a login with log_auth: `first_login` set to now
      when unset, `last_login` set to now, every other column kept. */
  function Stamped(u: Principal, now: nat): (p: Principal)
    requires u.kind == UserKind && WellFormed(u)
    ensures p.kind == UserKind && WellFormed(p) && p.guid == u.guid && Id(p) == Id(u)
    ensures p.columns["last_login"] == VTime(now)
    ensures p.columns["first_login"] == (if u.columns["first_login"] == VNone then VTime(now) else u.columns["first_login"])
    ensures p.columns["password"] == u.columns["password"]
    ensures p.data == u.data && p.roles == u.roles && p.columns.Keys == u.columns.Keys
    ensures forall c :: c in u.columns && c != "first_login" && c != "last_login" ==> p.columns[c] == u.columns[c]
  {
    var first := if u.columns["first_login"] == VNone then VTime(now) else u.columns["first_login"];
    assert |"password"| == 8 && |"first_login"| == 11 && |"last_login"| == 10 && |"id"| == 2;
    u.(columns := u.columns["first_login" := first]["last_login" := VTime(now)])
  }

  lemma PasswordsAppend(users: seq<Principal>, p: Principal)
    requires PasswordsDecodeIn(users)
    requires "password" in p.columns ==> HashDecodes(p.columns["password"])
    ensures PasswordsDecodeIn(users + [p])
  {
  }

  lemma PasswordsRemove(users: seq<Principal>, k: nat)
    requires PasswordsDecodeIn(users) && k < |users|
    ensures PasswordsDecodeIn(RemoveAt(users, k))
  {
  }

  /** The base64 encoding of binary values in create() (a loop over
      `kw.items()` rewriting `kw`), as a function. */
  function EncodedData(kw: map<string, Val>, binaryAttrs: seq<string>): (r: Result<map<string, Val>>)
    ensures r.Ok? <==> forall k :: k in kw ==> EncodeValue(k, kw[k], binaryAttrs).Ok?
    ensures r.Err? ==> r == Err(TypeError(ENCODE_TYPE_MESSAGE))
    ensures r.Ok? ==>
              && r.value.Keys == kw.Keys
              && (forall k :: k in kw ==> EncodeValue(k, kw[k], binaryAttrs) == Ok(r.value[k]))
  {
    if forall k :: k in kw ==> EncodeValue(k, kw[k], binaryAttrs).Ok? then
      Ok(map k | k in kw :: EncodeValue(k, kw[k], binaryAttrs).value)
    else Err(TypeError(ENCODE_TYPE_MESSAGE))
  }

  /** The loop of create() over the keyword arguments. */
  method EncodeBinary(kw: map<string, Val>, binaryAttrs: seq<string>) returns (r: Result<map<string, Val>>)
    ensures r == EncodedData(kw, binaryAttrs)
  {
    var out := kw;
    var remaining := kw.Keys;
    while remaining != {}
      invariant remaining <= kw.Keys && out.Keys == kw.Keys
      invariant forall k :: k in kw && k !in remaining ==> EncodeValue(k, kw[k], binaryAttrs) == Ok(out[k])
      invariant forall k :: k in remaining ==> out[k] == kw[k]
      decreases remaining
    {
      var k :| k in remaining;
      var v := EncodeValue(k, kw[k], binaryAttrs);
      if v.Err? {
        return Err(v.error);
      }
      out := out[k := v.value];
      remaining := remaining - {k};
    }
    assert out == map k | k in kw :: EncodeValue(k, kw[k], binaryAttrs).value;
    r := Ok(out);
  }

  /** Values read back from data written by create() are the keyword values. */
  lemma ReadBackCreated(p: Principal, kw: map<string, Val>, binaryAttrs: seq<string>, k: string)
    requires EncodedData(kw, binaryAttrs).Ok? && p.data == EncodedData(kw, binaryAttrs).value
    requires k in kw && k !in p.columns
    ensures GetAttr(p, binaryAttrs, k) == Ok(kw[k])
  {
    DecodeEncodeValue(k, kw[k], binaryAttrs);
  }

  /** Every keyword value create() stored in `data` reads back as given. */
  lemma ReadBackAll(p: Principal, kw: map<string, Val>, binaryAttrs: seq<string>)
    requires EncodedData(kw, binaryAttrs).Ok? && p.data == EncodedData(kw, binaryAttrs).value
    ensures forall k :: k in kw && k !in p.columns ==> GetAttr(p, binaryAttrs, k) == Ok(kw[k])
  {
    forall k | k in kw && k !in p.columns ensures GetAttr(p, binaryAttrs, k) == Ok(kw[k]) {
      ReadBackCreated(p, kw, binaryAttrs, k);
    }
  }

  /** The same for Users.create, which first pops `login` into its column. */
  lemma ReadBackLogin(p: Principal, kw: map<string, Val>, binaryAttrs: seq<string>)
    requires WellFormed(p) && p.kind == UserKind
    requires EncodedData(kw - {"login"}, binaryAttrs).Ok? && p.data == EncodedData(kw - {"login"}, binaryAttrs).value
    ensures forall k :: k in kw && k !in ColumnNames(UserKind) ==> GetAttr(p, binaryAttrs, k) == Ok(kw[k])
  {
    var rest := kw - {"login"};
    ReadBackAll(p, rest, binaryAttrs);
    forall k | k in kw && k !in ColumnNames(UserKind) ensures GetAttr(p, binaryAttrs, k) == Ok(kw[k]) {
      assert k in rest && rest[k] == kw[k];
    }
  }

  /** A Users or Groups node object; invalidate() replaces it by a new one. */
  class PrincipalsNode {
    const name: string

    constructor(name: string)
      ensures this.name == name
    {
      this.name := name;
    }
  }

  class Ugm {
    var users: seq<Principal>
    var groups: seq<Principal>
    var assignments: set<Assignment>
    var usersNode: PrincipalsNode
    var groupsNode: PrincipalsNode
    const userAttrs: seq<string>
    const groupAttrs: seq<string>
    const binaryAttrs: seq<string>
    const logAuth: bool
    /** hash_func, sha256 by default. */
    const digest: Digest

    ghost predicate Valid()
      reads this`users, this`groups, this`assignments
    {
      StoreValid(users, groups, assignments)
    }

    /** Ugm.__init__: fresh users and groups nodes over the tables. */
    constructor(users: seq<Principal>, groups: seq<Principal>, assignments: set<Assignment>,
                userAttrs: seq<string>, groupAttrs: seq<string>, binaryAttrs: seq<string>,
                logAuth: bool, digest: Digest)
      requires TableValid(users, UserKind) && TableValid(groups, GroupKind)
      requires Guids(users) !! Guids(groups) && EdgesValid(users, groups, assignments)
      ensures Valid()
      ensures this.users == users && this.groups == groups && this.assignments == assignments
      ensures this.userAttrs == userAttrs && this.groupAttrs == groupAttrs
      ensures this.binaryAttrs == binaryAttrs && this.logAuth == logAuth && this.digest == digest
      ensures fresh(usersNode) && fresh(groupsNode) && usersNode.name == "users" && groupsNode.name == "groups"
    {
      this.users := users;
      this.groups := groups;
      this.assignments := assignments;
      this.userAttrs := userAttrs;
      this.groupAttrs := groupAttrs;
      this.binaryAttrs := binaryAttrs;
      this.logAuth := logAuth;
      this.digest := digest;
      usersNode := new PrincipalsNode("users");
      groupsNode := new PrincipalsNode("groups");
    }

    function Rows(kind: Kind): seq<Principal>
      reads this`users, this`groups
    {
      if kind == UserKind then users else groups
    }

    // -------------------------------------------------------------------------
    // Users and Groups as mappings
    // -------------------------------------------------------------------------

    /** `users[id]` / `groups[id]`: KeyError(id) for an unknown id. */
    function GetItem(kind: Kind, id: string): (r: Result<Principal>)
      reads this`users, this`groups
      ensures r.Err? <==> forall i :: 0 <= i < |Rows(kind)| ==> Id(Rows(kind)[i]) != VStr(id)
      ensures r.Err? ==> r.error == KeyError(id)
      ensures r.Ok? ==> r.value in Rows(kind) && Id(r.value) == VStr(id)
    {
      match FindRow(Rows(kind), id)
      case None => Err(KeyError(id))
      case Some(i) => Ok(Rows(kind)[i])
    }

    /** `iter(users)` / `iter(groups)`: the id of every row in table order;
        an id is listed exactly when looking it up succeeds. */
    function Iter(kind: Kind): (ids: seq<Val>)
      reads this`users, this`groups
      ensures |ids| == |Rows(kind)|
      ensures forall id :: VStr(id) in ids <==> GetItem(kind, id).Ok?
    {
      var ids := IdsOf(Rows(kind));
      assert forall id :: VStr(id) in ids ==> GetItem(kind, id).Ok? by {
        forall id | VStr(id) in ids ensures GetItem(kind, id).Ok? {
          var i :| 0 <= i < |ids| && ids[i] == VStr(id);
          assert Id(Rows(kind)[i]) == VStr(id);
        }
      }
      assert forall id :: GetItem(kind, id).Ok? ==> VStr(id) in ids by {
        forall id | GetItem(kind, id).Ok? ensures VStr(id) in ids {
          var i := FindRow(Rows(kind), id).value;
          assert ids[i] == VStr(id);
        }
      }
      ids
    }

    /** `users[key] = value` / `groups[key] = value`: always refused. */
    method SetItem(kind: Kind, key: string, value: Principal) returns (out: Outcome)
      ensures out.Fail? && out.error.NotImplementedError?
      ensures kind == UserKind ==> out.error.message == "users can only be added using the create() method"
      ensures kind == GroupKind ==> out.error.message == "groups can only be added using the create() method"
    {
      if kind == UserKind {
        out := Fail(NotImplementedError("users can only be added using the create() method"));
      } else {
        out := Fail(NotImplementedError("groups can only be added using the create() method"));
      }
    }

    /** Users.__delitem__: KeyError for an unknown id; otherwise the row
        goes, and with it (delete-orphan cascade) every membership edge of
        the user. */
    method DelUser(id: string) returns (out: Outcome)
      requires Valid()
      modifies this`users, this`assignments
      ensures Valid()
      ensures out.Fail? <==> old(GetItem(UserKind, id)).Err?
      ensures out.Fail? ==> out.error == KeyError(id) && users == old(users) && assignments == old(assignments)
      ensures out.Pass? ==>
                && users == RemoveAt(old(users), old(FindRow(users, id)).value)
                && assignments == DropUserEdges(old(assignments), old(GetItem(UserKind, id)).value.guid)
                && GetItem(UserKind, id).Err?
      ensures PasswordsDecodeIn(old(users)) ==> PasswordsDecodeIn(users)
    {
      var found := FindRow(users, id);
      if found.None? {
        return Fail(KeyError(id));
      }
      var k := found.value;
      RemoveValid(users, UserKind, k);
      DeleteUserValid(users, groups, assignments, k);
      if PasswordsDecodeIn(users) {
        PasswordsRemove(users, k);
      }
      assignments := DropUserEdges(assignments, users[k].guid);
      users := RemoveAt(users, k);
      out := Pass;
    }

    /** Groups.__delitem__: KeyError for an unknown id; otherwise the row
        goes, and with it every membership edge of the group. */
    method DelGroup(id: string) returns (out: Outcome)
      requires Valid()
      modifies this`groups, this`assignments
      ensures Valid()
      ensures out.Fail? <==> old(GetItem(GroupKind, id)).Err?
      ensures out.Fail? ==> out.error == KeyError(id) && groups == old(groups) && assignments == old(assignments)
      ensures out.Pass? ==>
                && groups == RemoveAt(old(groups), old(FindRow(groups, id)).value)
                && assignments == DropGroupEdges(old(assignments), old(GetItem(GroupKind, id)).value.guid)
                && GetItem(GroupKind, id).Err?
      ensures PasswordsDecodeIn(old(users)) ==> PasswordsDecodeIn(users)
    {
      var found := FindRow(groups, id);
      if found.None? {
        return Fail(KeyError(id));
      }
      var k := found.value;
      RemoveValid(groups, GroupKind, k);
      DeleteGroupValid(users, groups, assignments, k);
      assignments := DropGroupEdges(assignments, groups[k].guid);
      groups := RemoveAt(groups, k);
      out := Pass;
    }

    /** Users.create: `login` is popped into its column, the remaining
        keyword values go to `data`, binary ones base64-encoded (a TypeError
        for a true binary value that is not bytes); the new user has no
        roles, no password and no logins. */
    method CreateUser(id: string, kw: map<string, Val>, guid: Uuid, now: nat) returns (r: Result<Principal>)
      requires Valid()
      requires GetItem(UserKind, id).Err?
      requires guid !in Guids(users) && guid !in Guids(groups)
      modifies this`users
      ensures Valid()
      ensures r.Err? <==> EncodedData(kw - {"login"}, binaryAttrs).Err?
      ensures r.Err? ==> r.error.TypeError? && users == old(users)
      ensures r.Ok? ==> users == old(users) + [r.value] && GetItem(UserKind, id) == Ok(r.value)
      ensures r.Ok? ==>
                r.value == NewPrincipal(UserKind, guid, id, if "login" in kw then kw["login"] else VNone,
                                        EncodedData(kw - {"login"}, binaryAttrs).value, now)
      ensures r.Ok? ==> forall k :: k in kw && k !in ColumnNames(UserKind) ==>
                GetAttr(r.value, binaryAttrs, k) == Ok(kw[k])
      ensures PasswordsDecodeIn(old(users)) ==> PasswordsDecodeIn(users)
    {
      var login := if "login" in kw then kw["login"] else VNone;
      var rest := kw - {"login"};
      var data := EncodeBinary(rest, binaryAttrs);
      if data.Err? {
        return Err(data.error);
      }
      var p := NewPrincipal(UserKind, guid, id, login, data.value, now);
      AddUserRow(p, id);
      r := Ok(p);
      ReadBackLogin(p, kw, binaryAttrs);
    }

    /** `session.add(user)`: a row with an unused id and guid and no stored
        hash goes at the end of the users table. */
    method AddUserRow(p: Principal, id: string)
      requires Valid() && FindRow(users, id).None?
      requires p.kind == UserKind && WellFormed(p) && Id(p) == VStr(id) && p.columns["password"] == VNone
      requires p.guid !in Guids(users) && p.guid !in Guids(groups)
      modifies this`users
      ensures Valid() && users == old(users) + [p] && GetItem(UserKind, id) == Ok(p)
      ensures PasswordsDecodeIn(old(users)) ==> PasswordsDecodeIn(users)
    {
      AppendUserValid(users, groups, assignments, p, id);
      if PasswordsDecodeIn(users) {
        PasswordsAppend(users, p);
      }
      users := users + [p];
    }

    /** Groups.create: every keyword value goes to `data` (a `login` too),
        binary ones base64-encoded. */
    method CreateGroup(id: string, kw: map<string, Val>, guid: Uuid, now: nat) returns (r: Result<Principal>)
      requires Valid()
      requires GetItem(GroupKind, id).Err?
      requires guid !in Guids(users) && guid !in Guids(groups)
      modifies this`groups
      ensures Valid()
      ensures r.Err? <==> EncodedData(kw, binaryAttrs).Err?
      ensures r.Err? ==> r.error.TypeError? && groups == old(groups)
      ensures r.Ok? ==> groups == old(groups) + [r.value] && GetItem(GroupKind, id) == Ok(r.value)
      ensures r.Ok? ==> r.value == NewPrincipal(GroupKind, guid, id, VNone, EncodedData(kw, binaryAttrs).value, now)
      ensures r.Ok? ==> forall k :: k in kw && k !in r.value.columns ==>
                GetAttr(r.value, binaryAttrs, k) == Ok(kw[k])
      ensures PasswordsDecodeIn(old(users)) ==> PasswordsDecodeIn(users)
    {
      var data := EncodeBinary(kw, binaryAttrs);
      if data.Err? {
        return Err(data.error);
      }
      var p := NewPrincipal(GroupKind, guid, id, VNone, data.value, now);
      AppendGroupValid(users, groups, assignments, p, id);
      groups := groups + [p];
      r := Ok(p);
      ReadBackAll(p, kw, binaryAttrs);
    }

    // -------------------------------------------------------------------------
    // Membership
    // -------------------------------------------------------------------------

    /** `group[uid]`: the user, or KeyError(uid) for an unknown user or one
        without an edge to the group. */
    function GroupGetItem(gid: string, uid: string): (r: Result<Principal>)
      reads this`users, this`groups, this`assignments
      requires GetItem(GroupKind, gid).Ok?
      ensures r.Err? ==> r.error == KeyError(uid)
      ensures r.Ok? <==>
                && GetItem(UserKind, uid).Ok?
                && Assignment(GetItem(GroupKind, gid).value.guid, GetItem(UserKind, uid).value.guid) in assignments
      ensures r.Ok? ==> r == GetItem(UserKind, uid)
    {
      var g := GetItem(GroupKind, gid).value;
      match GetItem(UserKind, uid)
      case Err(_) => Err(KeyError(uid))
      case Ok(u) => if Assignment(g.guid, u.guid) in assignments then Ok(u) else Err(KeyError(uid))
    }

    /** Group.member_ids, which is also `iter(group)`: the ids of the users
        with an edge to the group; exactly the ids `group[uid]` accepts. */
    function MemberIds(gid: string): (ids: seq<Val>)
      reads this`users, this`groups, this`assignments
      requires Valid() && GetItem(GroupKind, gid).Ok?
      ensures forall uid :: VStr(uid) in ids <==> GroupGetItem(gid, uid).Ok?
    {
      var g := GetItem(GroupKind, gid).value;
      var members := MembersOf(users, assignments, g.guid);
      IdsOfSubset(users, UserKind, members);
      IdsOf(members)
    }

    /** User.group_ids: the ids of the groups the user has an edge to;
        exactly the groups whose `group[uid]` accepts the user. */
    function GroupIds(uid: string): (ids: seq<Val>)
      reads this`users, this`groups, this`assignments
      requires Valid() && GetItem(UserKind, uid).Ok?
      ensures forall gid :: VStr(gid) in ids <==>
                GetItem(GroupKind, gid).Ok? && GroupGetItem(gid, uid).Ok?
    {
      var u := GetItem(UserKind, uid).value;
      var gs := GroupsOf(groups, assignments, u.guid);
      IdsOfSubset(groups, GroupKind, gs);
      IdsOf(gs)
    }

    /** Group.add: KeyError for an unknown user, otherwise a new edge. The
        edge must not exist yet (the composite key of group_assignment). */
    method GroupAdd(gid: string, uid: string) returns (out: Outcome)
      requires Valid() && GetItem(GroupKind, gid).Ok?
      requires GetItem(UserKind, uid).Ok? ==>
                 Assignment(GetItem(GroupKind, gid).value.guid, GetItem(UserKind, uid).value.guid) !in assignments
      modifies this`assignments
      ensures Valid()
      ensures PasswordsDecodeIn(old(users)) ==> PasswordsDecodeIn(users)
      ensures out.Fail? <==> GetItem(UserKind, uid).Err?
      ensures out.Fail? ==> out.error == KeyError(uid) && assignments == old(assignments)
      ensures out.Pass? ==>
                assignments == old(assignments)
                   + {Assignment(old(GetItem(GroupKind, gid)).value.guid, old(GetItem(UserKind, uid)).value.guid)}
      ensures out.Pass? ==> GroupGetItem(gid, uid) == GetItem(UserKind, uid)
    {
      var g := GetItem(GroupKind, gid).value;
      var u := GetItem(UserKind, uid);
      if u.Err? {
        return Fail(u.error);
      }
      AddEdgeValid(users, groups, assignments, FindRow(groups, gid).value, FindRow(users, uid).value);
      assignments := assignments + {Assignment(g.guid, u.value.guid)};
      out := Pass;
    }

    /** `del group[uid]`: KeyError for an unknown user, ValueError when the
        user is not a member (the association list's remove), otherwise the
        edge goes. */
    method GroupDelItem(gid: string, uid: string) returns (out: Outcome)
      requires Valid() && GetItem(GroupKind, gid).Ok?
      modifies this`assignments
      ensures Valid()
      ensures PasswordsDecodeIn(old(users)) ==> PasswordsDecodeIn(users)
      ensures out.Fail? ==> assignments == old(assignments)
      ensures GetItem(UserKind, uid).Err? ==> out == Fail(KeyError(uid))
      ensures GetItem(UserKind, uid).Ok? && old(GroupGetItem(gid, uid)).Err? ==> out == Fail(ValueError("value not in list"))
      ensures out.Pass? <==> old(GroupGetItem(gid, uid)).Ok?
      ensures out.Pass? ==>
                assignments == old(assignments)
                - {Assignment(old(GetItem(GroupKind, gid)).value.guid, old(GetItem(UserKind, uid)).value.guid)}
      ensures out.Pass? ==> GroupGetItem(gid, uid).Err?
    {
      var g := GetItem(GroupKind, gid).value;
      var u := GetItem(UserKind, uid);
      if u.Err? {
        return Fail(u.error);
      }
      var edge := Assignment(g.guid, u.value.guid);
      if edge !in assignments {
        return Fail(ValueError("value not in list"));
      }
      RemoveEdgeValid(users, groups, assignments, edge);
      assignments := assignments - {edge};
      out := Pass;
    }

    // -------------------------------------------------------------------------
    // Roles
    // -------------------------------------------------------------------------

    /** Ugm.roles(principal): a group's own roles; a user's own roles and
        those of every group it has an edge to, without duplicates. */
    function Roles(kind: Kind, id: string): (roles: set<string>)
      reads this`users, this`groups, this`assignments
      requires GetItem(kind, id).Ok?
      ensures kind == GroupKind ==> roles == set r | r in GetItem(kind, id).value.roles
      ensures kind == UserKind ==> forall r :: r in roles <==>
                || r in GetItem(kind, id).value.roles
                || exists g :: g in groups && Assignment(g.guid, GetItem(kind, id).value.guid) in assignments
                                         && r in g.roles
    {
      var p := GetItem(kind, id).value;
      if kind == GroupKind then set r | r in p.roles
      else
        var gs := GroupsOf(groups, assignments, p.guid);
        var roles := EffectiveRoles(p.roles, RolesOfEach(gs));
        assert forall r :: r in roles ==> r in p.roles || exists g :: g in gs && r in g.roles by {
          forall r | r in roles && r !in p.roles ensures exists g :: g in gs && r in g.roles {
            var i :| 0 <= i < |gs| && r in RolesOfEach(gs)[i];
            assert gs[i] in gs;
          }
        }
        assert forall g, r :: g in gs && r in g.roles ==> r in roles by {
          forall g, r | g in gs && r in g.roles ensures r in roles {
            var i :| 0 <= i < |gs| && gs[i] == g;
            assert r in RolesOfEach(gs)[i];
          }
        }
        roles
    }

    /** Writes row `i` of a table with the same id and guid. */
    method ReplaceRow(kind: Kind, i: nat, p: Principal)
      requires Valid() && i < |Rows(kind)|
      requires p.kind == kind && WellFormed(p) && Id(p) == Id(Rows(kind)[i]) && p.guid == Rows(kind)[i].guid
      modifies this`users, this`groups
      ensures Valid()
      ensures Rows(kind) == old(Rows(kind))[i := p]
      ensures kind == UserKind ==> groups == old(groups)
      ensures kind == GroupKind ==> users == old(users)
    {
      ReplaceValid(Rows(kind), kind, i, p);
      if kind == UserKind {
        users := users[i := p];
      } else {
        groups := groups[i := p];
      }
    }

    /** Ugm.add_role(role, principal): the role is appended to the own roles
        unless it is already there. */
    method AddRole(role: string, kind: Kind, id: string)
      requires Valid() && GetItem(kind, id).Ok?
      modifies this`users, this`groups
      ensures Valid()
      ensures Rows(kind) == old(Rows(kind))[old(FindRow(Rows(kind), id)).value :=
                             old(GetItem(kind, id)).value.(roles := AddRoleTo(old(GetItem(kind, id)).value.roles, role))]
      ensures kind == UserKind ==> groups == old(groups)
      ensures kind == GroupKind ==> users == old(users)
      ensures PasswordsDecodeIn(old(users)) ==> PasswordsDecodeIn(users)
      ensures GetItem(kind, id).Ok? && role in GetItem(kind, id).value.roles && role in Roles(kind, id)
    {
      var i := FindRow(Rows(kind), id).value;
      var p := Rows(kind)[i];
      if PasswordsDecodeIn(users) && kind == UserKind {
        PasswordsReplace(users, i, p.(roles := AddRoleTo(p.roles, role)));
      }
      ReplaceRow(kind, i, p.(roles := AddRoleTo(p.roles, role)));
      FindUnique(Rows(kind), kind, id, i);
    }

    /** Ugm.remove_role(role, principal): every occurrence of the role
        leaves the own roles; nothing happens when it is absent. */
    method RemoveRole(role: string, kind: Kind, id: string)
      requires Valid() && GetItem(kind, id).Ok?
      modifies this`users, this`groups
      ensures Valid()
      ensures Rows(kind) == old(Rows(kind))[old(FindRow(Rows(kind), id)).value :=
                             old(GetItem(kind, id)).value.(roles := RemoveRoleFrom(old(GetItem(kind, id)).value.roles, role))]
      ensures kind == UserKind ==> groups == old(groups)
      ensures kind == GroupKind ==> users == old(users)
      ensures PasswordsDecodeIn(old(users)) ==> PasswordsDecodeIn(users)
      ensures GetItem(kind, id).Ok? && role !in GetItem(kind, id).value.roles
      ensures kind == GroupKind ==> role !in Roles(kind, id)
    {
      var i := FindRow(Rows(kind), id).value;
      var p := Rows(kind)[i];
      if PasswordsDecodeIn(users) && kind == UserKind {
        PasswordsReplace(users, i, p.(roles := RemoveRoleFrom(p.roles, role)));
      }
      ReplaceRow(kind, i, p.(roles := RemoveRoleFrom(p.roles, role)));
      FindUnique(Rows(kind), kind, id, i);
    }

    // -------------------------------------------------------------------------
    // Attributes
    // -------------------------------------------------------------------------

    /** `principal.attrs[name]`: the column, else the `data` entry, else
        None; a true binary value comes back base64-decoded. */
    function GetAttribute(kind: Kind, id: string, name: string): (r: Result<Val>)
      reads this`users, this`groups
      requires GetItem(kind, id).Ok?
      ensures var p := GetItem(kind, id).value;
              name in p.columns && !(Truthy(p.columns[name]) && name in binaryAttrs) ==> r == Ok(p.columns[name])
      ensures var p := GetItem(kind, id).value;
              name !in p.columns && name in p.data && !(Truthy(p.data[name]) && name in binaryAttrs) ==> r == Ok(p.data[name])
      ensures var p := GetItem(kind, id).value;
              name !in p.columns && name !in p.data ==> r == Ok(VNone)
      ensures var v := Principals.GetAttribute(GetItem(kind, id).value, name);
              Truthy(v) && name in binaryAttrs ==>
                && (v.VStr? ==> (r.Ok? <==> Base64.Decode(v.s).Some?) && (r.Ok? ==> r.value == VBytes(Base64.Decode(v.s).value)))
                && (v.VBytes? ==> (r.Ok? <==> Base64.Decode(BytesText(v.b)).Some?))
                && (!v.VStr? && !v.VBytes? ==> r == Err(TypeError(DECODE_TYPE_MESSAGE)))
                && (r.Err? && (v.VStr? || v.VBytes?) ==> r.error == DecodeError)
    {
      GetAttr(GetItem(kind, id).value, binaryAttrs, name)
    }

    /** `principal.attrs[name] = value`: routed to the column or to `data`;
        reading the attribute back gives the value written, except a
        user's `password`. */
    method SetAttribute(kind: Kind, id: string, name: string, input: Input) returns (out: Outcome)
      requires Valid() && GetItem(kind, id).Ok? && name != "id"
      modifies this`users, this`groups
      ensures Valid()
      ensures out.Fail? <==> SetAttr(old(GetItem(kind, id)).value, binaryAttrs, name, input).Err?
      ensures out.Fail? ==> out.error.TypeError? && users == old(users) && groups == old(groups)
      ensures out.Pass? ==> Rows(kind) == old(Rows(kind))[old(FindRow(Rows(kind), id)).value :=
                                SetAttr(old(GetItem(kind, id)).value, binaryAttrs, name, input).value]
      ensures kind == UserKind ==> groups == old(groups)
      ensures kind == GroupKind ==> users == old(users)
      ensures PasswordsDecodeIn(old(users)) ==> PasswordsDecodeIn(users)
      ensures out.Pass? && !(kind == UserKind && name == "password") ==>
                GetItem(kind, id).Ok? && GetAttribute(kind, id, name) == Ok(if input.Unset? then VStr("") else input.v)
    {
      var i := FindRow(Rows(kind), id).value;
      var p := Rows(kind)[i];
      var q := SetAttr(p, binaryAttrs, name, input);
      if q.Err? {
        return Fail(q.error);
      }
      if PasswordsDecodeIn(users) && kind == UserKind {
        assert "password" in q.value.columns ==> q.value.columns["password"] == p.columns["password"];
        PasswordsReplace(users, i, q.value);
      }
      ReplaceRow(kind, i, q.value);
      FindUnique(Rows(kind), kind, id, i);
      if !(kind == UserKind && name == "password") {
        SetGetAttr(p, binaryAttrs, name, input);
      }
      out := Pass;
    }

    // -------------------------------------------------------------------------
    // Authentication
    // -------------------------------------------------------------------------

    /** Users.get_hashed_pw */
    function GetHashedPw(id: string): (r: Result<Val>)
      reads this`users, this`groups, this`assignments
      requires Valid()
      ensures r.Err? <==> GetItem(UserKind, id).Err?
      ensures r.Err? ==> r.error == KeyError(id)
    {
      match GetItem(UserKind, id)
      case Err(e) => Err(e)
      case Ok(u) => Ok(u.columns["password"])
    }

    /** Users.set_hashed_pw */
    method SetHashedPw(id: string, hpw: string) returns (out: Outcome)
      requires Valid()
      modifies this`users
      ensures Valid()
      ensures out.Fail? <==> old(GetItem(UserKind, id)).Err?
      ensures out.Fail? ==> out.error == KeyError(id) && users == old(users)
      ensures out.Pass? ==> GetHashedPw(id) == Ok(VStr(hpw))
      ensures out.Pass? ==>
                users == old(users)[old(FindRow(users, id)).value :=
                           old(GetItem(UserKind, id)).value.(columns :=
                             old(GetItem(UserKind, id)).value.columns["password" := VStr(hpw)])]
      ensures |users| == |old(users)|
      ensures PasswordsDecodeIn(old(users)) && Base64.Decode(hpw).Some? ==> PasswordsDecodeIn(users)
    {
      var found := FindRow(users, id);
      if found.None? {
        return Fail(KeyError(id));
      }
      var i := found.value;
      var u := users[i];
      var p := u.(columns := u.columns["password" := VStr(hpw)]);
      if PasswordsDecodeIn(users) && Base64.Decode(hpw).Some? {
        PasswordsReplace(users, i, p);
      }
      ReplaceValid(users, UserKind, i, p);
      users := users[i := p];
      FindUnique(users, UserKind, id, i);
      out := Pass;
    }

    /** Users.on_authenticated: with log_auth, `first_login` is set to now
        when unset and `last_login` is set to now; KeyError for an unknown
        user. Without log_auth nothing happens. */
    method OnAuthenticated(id: string, now: nat) returns (out: Outcome)
      requires Valid()
      modifies this`users
      ensures Valid()
      ensures out.Fail? <==> logAuth && old(GetItem(UserKind, id)).Err?
      ensures out.Fail? ==> out.error == KeyError(id)
      ensures !logAuth || out.Fail? ==> users == old(users)
      ensures logAuth && out.Pass? ==>
                && GetItem(UserKind, id).Ok?
                && GetItem(UserKind, id).value.columns["last_login"] == VTime(now)
                && GetItem(UserKind, id).value.columns["first_login"]
                   == (if old(GetItem(UserKind, id)).value.columns["first_login"] == VNone then VTime(now)
                       else old(GetItem(UserKind, id)).value.columns["first_login"])
                && GetItem(UserKind, id).value.columns["password"] == old(GetItem(UserKind, id)).value.columns["password"]
      ensures logAuth && out.Pass? ==>
                users == old(users)[old(FindRow(users, id)).value := Stamped(old(GetItem(UserKind, id)).value, now)]
      ensures |users| == |old(users)|
      ensures PasswordsDecodeIn(old(users)) ==> PasswordsDecodeIn(users)
    {
      if !logAuth {
        return Pass;
      }
      var found := FindRow(users, id);
      if found.None? {
        return Fail(KeyError(id));
      }
      var i := found.value;
      var p := Stamped(users[i], now);
      if PasswordsDecodeIn(users) {
        PasswordsReplace(users, i, p);
      }
      ReplaceValid(users, UserKind, i, p);
      users := users[i := p];
      FindUnique(users, UserKind, id, i);
      assert GetItem(UserKind, id) == Ok(p);
      out := Pass;
    }

    /** Users.authenticate: False for an empty id or password, an unknown
        user or an unset hash; otherwise the check of the password against
        the stored hash, and on success on_authenticated. It raises only
        for a stored hash that does not decode. */
    method Authenticate(id: Option<string>, pw: Option<seq<byte>>, now: nat) returns (r: Result<bool>)
      requires Valid()
      modifies this`users
      ensures Valid()
      ensures r.Ok? && r.value <==>
                && id.Some? && id.value != "" && pw.Some? && pw.value != []
                && old(GetHashedPw(id.value)).Ok? && Truthy(old(GetHashedPw(id.value)).value)
                && ChkPw(digest, SALT_LEN, pw.value, old(GetHashedPw(id.value)).value) == Ok(true)
      ensures r.Err? <==>
                && id.Some? && id.value != "" && pw.Some? && pw.value != []
                && old(GetHashedPw(id.value)).Ok? && Truthy(old(GetHashedPw(id.value)).value)
                && !HashDecodes(old(GetHashedPw(id.value)).value)
      ensures PasswordsDecodeIn(old(users)) ==> r.Ok? && PasswordsDecodeIn(users)
      ensures !(r.Ok? && r.value && logAuth) ==> users == old(users)
      ensures r.Ok? && r.value && logAuth ==>
                GetItem(UserKind, id.value).Ok? && GetItem(UserKind, id.value).value.columns["last_login"] == VTime(now)
      ensures r.Ok? && r.value && logAuth ==>
                users == old(users)[old(FindRow(users, id.value)).value :=
                                      Stamped(old(GetItem(UserKind, id.value)).value, now)]
      ensures |users| == |old(users)|
    {
      if id.None? || id.value == "" || pw.None? || pw.value == [] {
        return Ok(false);
      }
      var hpw := GetHashedPw(id.value);
      if hpw.Err? || !Truthy(hpw.value) {
        return Ok(false);
      }
      var check := ChkPw(digest, SALT_LEN, pw.value, hpw.value);
      if check.Err? {
        assert !HashDecodes(hpw.value);
        return Err(check.error);
      }
      if check.value {
        var _ := OnAuthenticated(id.value, now);
      }
      r := Ok(check.value);
    }

    /** Users.passwd: ValueError for an unknown user; with an old password
        given, a TypeError when no hash is stored and a ValueError when it
        does not check; otherwise the hash of the new password with a new
        salt is stored, and the new password checks against it. */
    method Passwd(id: string, oldpw: Option<seq<byte>>, newpw: seq<byte>, salt: seq<byte>) returns (out: Outcome)
      requires Valid() && |salt| == SALT_LEN
      modifies this`users
      ensures Valid()
      ensures old(GetItem(UserKind, id)).Err? ==> out.Fail? && out.error.ValueError?
      ensures out.Pass? <==>
                && old(GetItem(UserKind, id)).Ok?
                && (oldpw.Some? ==> ChkPw(digest, SALT_LEN, oldpw.value, old(GetHashedPw(id)).value) == Ok(true))
      ensures old(GetItem(UserKind, id)).Ok? && oldpw.Some?
              && ChkPw(digest, SALT_LEN, oldpw.value, old(GetHashedPw(id)).value) == Ok(false) ==>
                out == Fail(ValueError("Old password does not match."))
      ensures old(GetItem(UserKind, id)).Ok? && oldpw.Some?
              && ChkPw(digest, SALT_LEN, oldpw.value, old(GetHashedPw(id)).value).Err? ==>
                out == Fail(ChkPw(digest, SALT_LEN, oldpw.value, old(GetHashedPw(id)).value).error)
      ensures out.Fail? ==> users == old(users)
      ensures out.Pass? ==>
                && GetHashedPw(id) == Ok(VStr(HashPasswd(digest, newpw, salt)))
                && ChkPw(digest, SALT_LEN, newpw, GetHashedPw(id).value) == Ok(true)
      ensures out.Pass? ==>
                users == old(users)[old(FindRow(users, id)).value :=
                           old(GetItem(UserKind, id)).value.(columns :=
                             old(GetItem(UserKind, id)).value.columns["password" := VStr(HashPasswd(digest, newpw, salt))])]
      ensures |users| == |old(users)|
      ensures PasswordsDecodeIn(old(users)) ==> PasswordsDecodeIn(users)
    {
      if GetItem(UserKind, id).Err? {
        return Fail(ValueError("User with id '" + id + "' does not exist."));
      }
      if oldpw.Some? {
        var check := ChkPw(digest, SALT_LEN, oldpw.value, GetHashedPw(id).value);
        if check.Err? {
          return Fail(check.error);
        }
        if !check.value {
          return Fail(ValueError("Old password does not match."));
        }
      }
      var hpw := HashPasswd(digest, newpw, salt);
      out := SetHashedPw(id, hpw);
      CheckHashed(digest, SALT_LEN, newpw, salt);
    }

    /** Users.id_for_login: the id of the one user whose login field holds
        `login`; `login` itself when there is none; MultipleResultsFound
        when there are several. */
    function IdForLogin(login: string): (r: Result<Val>)
      reads this`users
      ensures r.Err? <==> |UsersWithLogin(users, login)| >= 2
      ensures r.Err? ==> r.error == MultipleResultsFound
      ensures (forall u :: u in users ==> !LoginMatches(u, login)) ==> r == Ok(VStr(login))
      ensures r.Ok? && (exists u :: u in users && LoginMatches(u, login)) ==>
                exists u :: u in users && LoginMatches(u, login) && r.value == Id(u)
    {
      var matches := UsersWithLogin(users, login);
      if |matches| == 0 then
        assert forall u :: u in users && LoginMatches(u, login) ==> u in matches;
        Ok(VStr(login))
      else
        assert matches[0] in matches;
        assert matches[0] in users && LoginMatches(matches[0], login);
        if |matches| == 1 then Ok(Id(matches[0]))
        else Err(MultipleResultsFound)
    }

    // -------------------------------------------------------------------------
    // Ugm node
    // -------------------------------------------------------------------------

    /** `users.search(...)` / `groups.search(...)` over the table. */
    function SearchPrincipals(kind: Kind, criteria: map<string, Criterion>, attrlist: Option<seq<string>>,
                              exact: bool, orSearch: bool): (r: Result<SearchResult>)
      reads this`users, this`groups
      ensures r == Search.Search(Rows(kind), kind, binaryAttrs, criteria, attrlist, exact, orSearch)
      ensures r.Ok? ==> Size(r.value) == |Hits(Rows(kind), criteria, exact, orSearch)|
    {
      Search.Search(Rows(kind), kind, binaryAttrs, criteria, attrlist, exact, orSearch)
    }

    /** `ugm[key]`: the users or groups node. */
    function GetNode(key: string): (r: Result<PrincipalsNode>)
      reads this`usersNode, this`groupsNode
      ensures key == "users" ==> r == Ok(usersNode)
      ensures key == "groups" ==> r == Ok(groupsNode)
      ensures key != "users" && key != "groups" ==> r == Err(AttributeError(key))
    {
      if key == "users" then Ok(usersNode)
      else if key == "groups" then Ok(groupsNode)
      else Err(AttributeError(key))
    }

    /** Ugm.invalidate: no key renews both nodes, "users" or "groups" the
        one named, any other key is a KeyError; the stored rows stay. */
    method Invalidate(key: Option<string>) returns (out: Outcome)
      modifies this`usersNode, this`groupsNode
      ensures key.None? || key.value == "" ==> out.Pass? && fresh(usersNode) && fresh(groupsNode)
      ensures key == Some("users") ==> out.Pass? && fresh(usersNode) && groupsNode == old(groupsNode)
      ensures key == Some("groups") ==> out.Pass? && usersNode == old(usersNode) && fresh(groupsNode)
      ensures key.Some? && key.value !in {"", "users", "groups"} ==>
                out == Fail(KeyError(key.value)) && usersNode == old(usersNode) && groupsNode == old(groupsNode)
      ensures usersNode.name == "users" || usersNode == old(usersNode)
      ensures groupsNode.name == "groups" || groupsNode == old(groupsNode)
    {
      if key.None? || key.value == "" {
        usersNode := new PrincipalsNode("users");
        groupsNode := new PrincipalsNode("groups");
        return Pass;
      }
      if key.value == "users" {
        usersNode := new PrincipalsNode("users");
        return Pass;
      }
      if key.value == "groups" {
        groupsNode := new PrincipalsNode("groups");
        return Pass;
      }
      out := Fail(KeyError(key.value));
    }

    /** `ugm[key] = value`: refused. */
    method SetNode(key: string) returns (out: Outcome)
      ensures out == Fail(NotImplementedError("``__setitem__`` not in cone.sql.ugm.Ugm"))
    {
      out := Fail(NotImplementedError("``__setitem__`` not in cone.sql.ugm.Ugm"));
    }
  }
}
