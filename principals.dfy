/** The principal records of the SQL UGM: users and groups with their
    schema columns, their own roles and their free-form `data` attributes,
    and the attribute routing between the two. */
module Principals {
  import opened Wrappers
  import opened Text
  import opened Guid
  import Base64

  /** A value held in a column or in `data`. */
  datatype Val = VNone | VInt(i: int) | VStr(s: string) | VBytes(b: seq<byte>) | VTime(t: nat)

  /** Python truthiness: None, 0, '' and b'' are false. */
  predicate Truthy(v: Val)
  {
    match v
    case VNone => false
    case VInt(i) => i != 0
    case VStr(s) => s != ""
    case VBytes(b) => b != []
    case VTime(_) => true
  }

  datatype Kind = UserKind | GroupKind

  /** A row of the user or group table. `columns` holds the mapped columns
      other than guid, data and principal_roles; `roles` is principal_roles. */
  datatype Principal = Principal(
    kind: Kind,
    guid: Uuid,
    columns: map<string, Val>,
    roles: seq<string>,
    data: map<string, Val>)

  /** The mapped columns of each table besides the technical ones. */
  function ColumnNames(kind: Kind): set<string>
  {
    match kind
    case UserKind => {"id", "login", "password", "first_login", "last_login", "created"}
    case GroupKind => {"id", "created"}
  }

  /** PrincipalAttributes.schema_attrs: the columns an attribute write goes
      to; `password` is technical and never written through attributes. */
  function SchemaAttrs(kind: Kind): (attrs: set<string>)
    ensures attrs == ColumnNames(kind) - {"password"}
    ensures "password" !in attrs && "id" in attrs && "created" in attrs
  {
    match kind
    case UserKind => {"id", "login", "first_login", "last_login", "created"}
    case GroupKind => {"id", "created"}
  }

  predicate WellFormed(p: Principal)
  {
    p.columns.Keys == ColumnNames(p.kind)
  }

  /** A new row as create() builds it: the id and (for users) login columns
      set, the other columns None, `created` the current time, no roles. */
  function NewPrincipal(kind: Kind, guid: Uuid, id: string, login: Val, data: map<string, Val>, now: nat)
    : (p: Principal)
    ensures WellFormed(p) && p.kind == kind && p.guid == guid && p.roles == [] && p.data == data
    ensures p.columns["id"] == VStr(id) && p.columns["created"] == VTime(now)
    ensures kind == UserKind ==>
              && p.columns["login"] == login && p.columns["password"] == VNone
              && p.columns["first_login"] == VNone && p.columns["last_login"] == VNone
  {
    var columns := match kind
      case UserKind => map["id" := VStr(id), "login" := login, "password" := VNone,
                           "first_login" := VNone, "last_login" := VNone, "created" := VTime(now)]
      case GroupKind => map["id" := VStr(id), "created" := VTime(now)];
    Principal(kind, guid, columns, [], data)
  }

  /** SQLPrincipal.get_attribute: a column when the record has one by that
      name, else `data.get(key)`. */
  function GetAttribute(p: Principal, key: string): (v: Val)
    ensures key in p.columns ==> v == p.columns[key]
    ensures key !in p.columns && key in p.data ==> v == p.data[key]
    ensures key !in p.columns && key !in p.data ==> v == VNone
  {
    if key in p.columns then p.columns[key]
    else if key in p.data then p.data[key]
    else VNone
  }

  // ---------------------------------------------------------------------------
  // Attribute values: base64 for binary attributes
  // ---------------------------------------------------------------------------

  /** The value an attribute write receives: UNSET or a value. */
  datatype Input = Unset | Given(v: Val)

  const ENCODE_TYPE_MESSAGE := "a bytes-like object is required"

  /** `base64.b64encode(value).decode()` where the attribute is binary and
      the value true; b64encode of anything but bytes is a TypeError. */
  function EncodeValue(name: string, v: Val, binaryAttrs: seq<string>): (r: Result<Val>)
    ensures !(Truthy(v) && name in binaryAttrs) ==> r == Ok(v)
    ensures Truthy(v) && name in binaryAttrs ==>
      && (r.Ok? <==> v.VBytes?) && (r.Ok? ==> r.value == VStr(Base64.Encode(v.b)))
      && (r.Err? ==> r.error == TypeError(ENCODE_TYPE_MESSAGE))
  {
    if Truthy(v) && name in binaryAttrs then
      match v
      case VBytes(b) => Ok(VStr(Base64.Encode(b)))
      case _ => Err(TypeError(ENCODE_TYPE_MESSAGE))
    else Ok(v)
  }

  const DECODE_TYPE_MESSAGE := "argument should be a bytes-like object or ASCII string"

  /** The characters base64.b64decode reads from bytes: one per byte. */
  function BytesText(b: seq<byte>): (t: string)
    ensures |t| == |b| && forall i :: 0 <= i < |b| ==> t[i] as int == b[i] as int
  {
    seq(|b|, i requires 0 <= i < |b| => b[i] as char)
  }

  /** `base64.b64decode(value)` where the attribute is binary and the stored
      value true: a string must be valid base64, bytes are decoded as well,
      anything else is a TypeError. */
  function DecodeValue(name: string, v: Val, binaryAttrs: seq<string>): (r: Result<Val>)
    ensures !(Truthy(v) && name in binaryAttrs) ==> r == Ok(v)
  {
    if Truthy(v) && name in binaryAttrs then
      match v
      case VStr(s) =>
        (match Base64.Decode(s)
         case Some(b) => Ok(VBytes(b))
         case None => Err(DecodeError))
      case VBytes(b) =>
        (match Base64.Decode(BytesText(b))
         case Some(d) => Ok(VBytes(d))
         case None => Err(DecodeError))
      case _ => Err(TypeError(DECODE_TYPE_MESSAGE))
    else Ok(v)
  }

  /** Encoding then decoding a binary attribute gives back the bytes. */
  lemma DecodeEncodeValue(name: string, v: Val, binaryAttrs: seq<string>)
    requires EncodeValue(name, v, binaryAttrs).Ok?
    ensures DecodeValue(name, EncodeValue(name, v, binaryAttrs).value, binaryAttrs) == Ok(v)
  {
    if Truthy(v) && name in binaryAttrs {
      Base64.DecodeEncode(v.b);
    }
  }

  /** PrincipalAttributes.__setitem__: UNSET becomes '', binary values are
      base64-encoded, and the value goes to its column for schema
      attributes and to `data` otherwise. */
  function SetAttr(p: Principal, binaryAttrs: seq<string>, name: string, input: Input): (r: Result<Principal>)
    requires WellFormed(p)
    ensures r.Ok? ==>
              && WellFormed(r.value) && r.value.kind == p.kind && r.value.guid == p.guid
              && r.value.roles == p.roles
    ensures r.Ok? && name in SchemaAttrs(p.kind) ==>
              && r.value.data == p.data && r.value.columns.Keys == p.columns.Keys
              && (forall c :: c in p.columns && c != name ==> r.value.columns[c] == p.columns[c])
    ensures r.Ok? && name !in SchemaAttrs(p.kind) ==>
              && r.value.columns == p.columns && r.value.data.Keys == p.data.Keys + {name}
              && (forall k :: k in p.data && k != name ==> r.value.data[k] == p.data[k])
    ensures r.Err? <==> input.Given? && EncodeValue(name, input.v, binaryAttrs).Err?
  {
    var v := if input.Unset? then VStr("") else input.v;
    match EncodeValue(name, v, binaryAttrs)
    case Err(e) => Err(e)
    case Ok(stored) =>
      if name in SchemaAttrs(p.kind) then Ok(p.(columns := p.columns[name := stored]))
      else Ok(p.(data := p.data[name := stored]))
  }

  /** PrincipalAttributes.__getitem__: get_attribute, then base64-decoded
      for a binary attribute holding a true value. */
  function GetAttr(p: Principal, binaryAttrs: seq<string>, name: string): (r: Result<Val>)
    ensures !(Truthy(GetAttribute(p, name)) && name in binaryAttrs) ==> r == Ok(GetAttribute(p, name))
  {
    DecodeValue(name, GetAttribute(p, name), binaryAttrs)
  }

  /** Writing an attribute and reading it back gives the value written (''
      for UNSET), for every attribute but a user's password. */
  lemma SetGetAttr(p: Principal, binaryAttrs: seq<string>, name: string, input: Input)
    requires WellFormed(p) && SetAttr(p, binaryAttrs, name, input).Ok?
    requires !(p.kind == UserKind && name == "password")
    ensures GetAttr(SetAttr(p, binaryAttrs, name, input).value, binaryAttrs, name)
      == Ok(if input.Unset? then VStr("") else input.v)
  {
    var v := if input.Unset? then VStr("") else input.v;
    DecodeEncodeValue(name, v, binaryAttrs);
  }

  /** A user's password is not an attribute: writing `password` stores the
      value in `data`, while reading `password` returns the hash column,
      unchanged by the write. */
  lemma PasswordNotWritable(p: Principal, binaryAttrs: seq<string>, input: Input)
    requires WellFormed(p) && p.kind == UserKind && SetAttr(p, binaryAttrs, "password", input).Ok?
    ensures SetAttr(p, binaryAttrs, "password", input).value.columns == p.columns
    ensures GetAttr(SetAttr(p, binaryAttrs, "password", input).value, binaryAttrs, "password")
      == GetAttr(p, binaryAttrs, "password")
  {
  }

  /** The attribute names of a principal (attrs keys): the configured
      attributes when there are any, else the schema attributes and the keys
      of `data`. */
  function AttrNames(p: Principal, configured: seq<string>): (names: set<string>)
    ensures |configured| > 0 ==> names == set a | a in configured
    ensures |configured| == 0 ==> names == SchemaAttrs(p.kind) + p.data.Keys
  {
    if |configured| > 0 then set a | a in configured else SchemaAttrs(p.kind) + p.data.Keys
  }

  // ---------------------------------------------------------------------------
  // Own roles
  // ---------------------------------------------------------------------------

  function Count(s: seq<string>, x: string): nat
  {
    multiset(s)[x]
  }

  /** add_role: appends the role unless it is already there. */
  function AddRoleTo(roles: seq<string>, role: string): (r: seq<string>)
    ensures role in r
    ensures role !in roles ==> r == roles + [role] && Count(r, role) == 1
    ensures role in roles ==> r == roles
  {
    if role !in roles then
      assert multiset(roles)[role] == 0;
      roles + [role]
    else roles
  }

  /** `[r for r in roles if r != role]` */
  function Without(roles: seq<string>, role: string): (r: seq<string>)
    ensures role !in r
    ensures |r| <= |roles|
  {
    if |roles| == 0 then []
    else (if roles[0] == role then [] else [roles[0]]) + Without(roles[1..], role)
  }

  /** remove_role: drops every occurrence of the role; nothing happens when
      it is absent. */
  function RemoveRoleFrom(roles: seq<string>, role: string): (r: seq<string>)
    ensures role !in r
    ensures role !in roles ==> r == roles
  {
    if role in roles then Without(roles, role) else roles
  }

  /** Removing a role keeps every other role, as often as before. */
  lemma {:induction false} WithoutKeepsOthers(roles: seq<string>, role: string)
    ensures forall x :: x != role ==> Count(Without(roles, role), x) == Count(roles, x)
  {
    if |roles| > 0 {
      WithoutKeepsOthers(roles[1..], role);
      assert roles == [roles[0]] + roles[1..];
      var front := if roles[0] == role then [] else [roles[0]];
      assert Without(roles, role) == front + Without(roles[1..], role);
      assert multiset(Without(roles, role)) == multiset(front) + multiset(Without(roles[1..], role));
      assert multiset(roles) == multiset([roles[0]]) + multiset(roles[1..]);
      forall x | x != role
        ensures Count(Without(roles, role), x) == Count(roles, x)
      {
        assert Count(Without(roles[1..], role), x) == Count(roles[1..], x);
      }
    }
  }

  /** ... and in their order: removing from a concatenation removes from
      each part. */
  lemma {:induction false} WithoutAppend(a: seq<string>, b: seq<string>, role: string)
    ensures Without(a + b, role) == Without(a, role) + Without(b, role)
  {
    if |a| == 0 {
      assert a + b == b;
    } else {
      var front := if a[0] == role then [] else [a[0]];
      calc {
        Without(a + b, role);
      == { assert (a + b)[0] == a[0] && (a + b)[1..] == a[1..] + b; }
        front + Without(a[1..] + b, role);
      == { WithoutAppend(a[1..], b, role); }
        front + (Without(a[1..], role) + Without(b, role));
      ==
        (front + Without(a[1..], role)) + Without(b, role);
      }
    }
  }

  /** Adding a role that was absent and removing it again restores the roles. */
  lemma RemoveAfterAdd(roles: seq<string>, role: string)
    requires role !in roles
    ensures RemoveRoleFrom(AddRoleTo(roles, role), role) == roles
  {
    WithoutAppend(roles, [role], role);
    WithoutAbsent(roles, role);
  }

  lemma {:induction false} WithoutAbsent(roles: seq<string>, role: string)
    requires role !in roles
    ensures Without(roles, role) == roles
  {
    if |roles| > 0 {
      WithoutAbsent(roles[1..], role);
      assert roles == [roles[0]] + roles[1..];
    }
  }

  /** User.roles: the distinct roles of the user and of every group it
      belongs to. */
  function EffectiveRoles(own: seq<string>, groupRoles: seq<seq<string>>): (r: set<string>)
    ensures forall x :: x in r <==> x in own || exists i :: 0 <= i < |groupRoles| && x in groupRoles[i]
  {
    if |groupRoles| == 0 then set x | x in own
    else
      var rest := EffectiveRoles(own, groupRoles[..|groupRoles| - 1]);
      var last := groupRoles[|groupRoles| - 1];
      assert forall i :: 0 <= i < |groupRoles| - 1 ==> groupRoles[..|groupRoles| - 1][i] == groupRoles[i];
      rest + set x | x in last
  }
}
