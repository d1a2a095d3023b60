# cone.sql: users, groups, roles and row storage, modelled in Dafny

cone.sql stores cone application nodes and a UGM ("users, groups and
membership") backend in a relational database through SQLAlchemy. This
project models its core:

- **The UGM engine** (`src/cone/sql/ugm.py`), module `UgmEngine`. Class `Ugm`
  holds:
  - the users table and the groups table, as sequences of principal records;
  - the group-assignment association table, as a set of (group guid, user
    guid) edges;
  - the `users` and `groups` child nodes, whose identity `invalidate` renews.

  The operations cover lookup, iteration, creation, deletion with cascading
  memberships, group membership, own and effective roles, principal
  attributes with base64 binary attributes, salted password hashing and
  checking, authentication (with the `log_auth` login timestamps),
  `passwd`, `id_for_login`, and `search`. The pure parts live in
  `Principals` (records, attributes, roles), `Search` (criteria and result
  shapes) and `Auth` (the hash format and `_chk_pw`).
- **The GUID column type and the generic table and row storage**
  (`src/cone/sql/model.py`), modules `Guid` and `Storage`.
  - `Guid` covers the CHAR(32) / PostgreSQL UUID binding, with
    `uuid.UUID` parsing of the hex, hyphenated, braced and URN forms.
  - `Storage` covers a table node keyed by its converted primary key
    (`TableStorage`) and a row node with column attributes and `_new`
    tracking (`RowNode`).
- **The principal-roles table of node ACLs** (`src/cone/sql/acl.py`), module
  `Acl`: the rows of one node, read and rewritten by `PrincipalRoles`.
- **The settings helpers** (`src/cone/sql/__init__.py`), module `Settings`:
  - `use_tm` and the environment flag that startup writes;
  - the `SqlUGMFactory` configuration parsing;
  - the session-setup handler registry.

Python built-ins that the source relies on are written out in `Text` and
`Base64`. These are `str.split`, `str.strip` (with Python's full set of
Unicode whitespace), `str.find`, negative slices, `int()`/`str()` of
integers, `int(text, 16)` as `uuid.UUID` uses it, and RFC 4648 base64
encoding.

The clock, `os.urandom` and `uuid.uuid4` are parameters: a timestamp `now`,
the `salt` bytes and the new `guid`. The hash function (`hashlib.sha256` by
default) is an arbitrary `Digest` function. The database session is
modelled by the tables it holds, plus a log of persistence actions (flush or
commit).

## Model

| member | source | states |
|---|---|---|
| Text.PySuffix | src/cone/sql/ugm.py:544 | a slice `s[-n:]` is the last n elements when 0 < n <= len, and the whole sequence when n is 0 or at least len |
| Text.JoinSplit | src/cone/sql/__init__.py:171-185 | `str.split(',')` loses nothing: joining the pieces with the separator gives the input back |
| Text.StripSpec | src/cone/sql/__init__.py:172-174 | `str.strip` removes exactly the leading and trailing whitespace (every character `str.isspace` accepts, Unicode ones included), and keeps the middle as is |
| Text.StripTrimmed | src/cone/sql/__init__.py:172-174 | text that neither starts nor ends with whitespace is left as it is |
| Text.FindContains | src/cone/sql/__init__.py:148 | `find(needle) > -1` holds exactly when the needle occurs somewhere |
| Text.ParseIntToString | src/cone/sql/model.py:95 | `int()` reads back every integer's decimal text |
| Base64.DecodeEncode | src/cone/sql/ugm.py:156-166 | base64 decoding inverts encoding for every byte string |
| Guid.HexValueOfDigits | src/cone/sql/model.py:66-69 | `"%.32x"` formatting of a value below 16^32 reads back as that value |
| Guid.ParseHexInt | src/cone/sql/model.py:65-69 | `int(text, 16)` succeeds only when, after the surrounding whitespace that `int` skips (every `str.isspace` character except the separators U+001C–U+001F), an optional sign and an optional `0x` prefix, what remains is hex digits with single underscores between them |
| Guid.ParseUuid | src/cone/sql/model.py:65-75 | `uuid.UUID(text)` succeeds exactly when, after removing `urn:`, `uuid:`, braces and hyphens, 32 characters remain and `int(..., 16)` reads them; the UUID is the value read |
| Guid.HexIntInRange | src/cone/sql/model.py:65-75 | 32 characters without a hyphen never read as a negative number or one of 2^128 or more, so the range check of `uuid.UUID` never fails |
| Text.IntStrip | src/cone/sql/model.py:65-69 | the text `int` reads keeps only characters of its input and neither starts nor ends with whitespace that `int` skips |
| Guid.HexIntKeepsSeparators | src/cone/sql/model.py:65-69 | `str.strip` removes a leading U+001C, but `int(text, 16)` does not skip it and rejects the text |
| Guid.ParseHexIntOfHex | src/cone/sql/model.py:65-69 | `int(text, 16)` of plain hex digits is their value |
| Guid.ParseUuidOfHexDigits | src/cone/sql/model.py:65-75 | every text whose cleaned-up form is 32 hex digits is a UUID, the value of those digits |
| Guid.ParseUuidPrefixed | src/cone/sql/model.py:65-75 | `0x` followed by 30 hex digits is also accepted, and reads as the value of those 30 digits |
| Guid.ParseHex32 | src/cone/sql/model.py:66-69 | the 32-digit hex text of a UUID parses back to that UUID |
| Guid.ParseHyphenated | src/cone/sql/model.py:63 | the hyphenated `str(uuid)` text parses back to that UUID |
| Guid.LoadDialectImpl | src/cone/sql/model.py:53-57 | the column is a native UUID exactly on PostgreSQL, and CHAR(32) elsewhere |
| Guid.ProcessBindParam | src/cone/sql/model.py:59-69 | None binds as None; PostgreSQL binds `str(value)`; elsewhere the result is 32 lowercase hex digits of the value, and the call fails exactly for text that `uuid.UUID` rejects |
| Guid.ProcessResultValue | src/cone/sql/model.py:71-75 | None reads as None; text reads as the UUID it parses to, and fails exactly when it does not parse |
| Guid.BindStringLikeUuid | src/cone/sql/model.py:59-69 | off PostgreSQL, binding the hyphenated or hex text of a UUID stores what binding the UUID stores |
| Guid.BindParsedLikeUuid | src/cone/sql/model.py:64-69 | off PostgreSQL, any text that parses to a UUID binds like that UUID |
| Guid.RoundTrip | src/cone/sql/model.py:59-75 | on every dialect, a bound UUID reads back as the same UUID |
| Guid.RoundTripText | src/cone/sql/model.py:59-75 | on every dialect, bound UUID text reads back as the UUID it names |
| Settings.Get | src/cone/sql/__init__.py:139 | `settings.get(key, default)` is the stored value when present, otherwise the default |
| Settings.PersistAction | src/cone/sql/__init__.py:50-53 | flush exactly when `CONE_SQL_USE_TM` is `'1'`, commit otherwise |
| Settings.TmFlag | src/cone/sql/__init__.py:148-149 | the flag written is always `'1'` or `'0'` |
| Settings.TmFlagSpec | src/cone/sql/__init__.py:148-149 | the flag is `'1'` exactly when `pyramid_tm` occurs in `pyramid.includes` |
| Settings.Environment.InitializeConeSql | src/cone/sql/__init__.py:134-149 | without `sql.db.url` the environment is untouched; otherwise only `CONE_SQL_USE_TM` is set, and `use_tm()` then holds exactly when `pyramid_tm` is included |
| Settings.ParseAttrListClean | src/cone/sql/__init__.py:171-185 | every parsed attribute name is non-empty, has no surrounding whitespace and contains no comma |
| Settings.StrippedNonEmptyKeeps | src/cone/sql/__init__.py:172-174 | every comma-separated piece that is not blank is kept, stripped |
| Settings.StrippedNonEmptyAppend | src/cone/sql/__init__.py:172-174 | the filter works piece by piece: it distributes over concatenation |
| Settings.ParseAttrListAround | src/cone/sql/__init__.py:171-185 | parsing `a,b` is parsing `a` followed by parsing `b` |
| Settings.ParseAttrListSingle | src/cone/sql/__init__.py:171-185 | a single clean name parses to just that name |
| Settings.SqlUgmFactory | src/cone/sql/__init__.py:161-186 | fails exactly without `cone.plugins`. With `cone.ugm` among the plugins, the attribute lists come from the cone.ugm settings; otherwise they are parsed from `sql.user_attrs` and `sql.group_attrs`. The binary attributes are parsed from `sql.binary_attrs`. `log_auth` holds exactly for `true`, `True` or `1` |
| Settings.SessionSetupRegistry.Register | src/cone/sql/__init__.py:32-40 | the decorator returns its argument and appends it to the registry |
| Settings.SessionSetupRegistry.SetupSession | src/cone/sql/__init__.py:43-47 | every registered handler is called once with the session, in registration order |
| Settings.RegisterThenSetup | src/cone/sql/__init__.py:32-47 | two handlers registered on an empty registry are called in that order |
| Storage.ConvertPrimaryKey | src/cone/sql/model.py:106-119 | a converted key has the key column's type; String keys are the name itself; keys of other types always fail; any failure is a KeyError with the conversion message |
| Storage.ConvertAccepts | src/cone/sql/model.py:106-119 | a GUID key converts exactly when the name parses as a UUID, an Integer key exactly when the name parses as an integer |
| Storage.ConvertKeyName | src/cone/sql/model.py:106-173 | the name that iteration yields for a key converts back to that key |
| Storage.Filled | src/cone/sql/model.py:127-128 | a falsy primary key attribute is filled with the converted key; a truthy one, and every other column, is kept |
| Storage.RowNode.constructor | src/cone/sql/model.py:226-232 | a row node without a record is new and gets an empty record; one with a record is not new and keeps it |
| Storage.RowNode.AttrGet | src/cone/sql/model.py:203-206 | a column reads its value; any other name is a KeyError `Unknown attribute` |
| Storage.RowNode.AttrSet | src/cone/sql/model.py:197-201 | a column is written and nothing else changes; any other name is a KeyError and the record is unchanged |
| Storage.RowNode.AttrDelete | src/cone/sql/model.py:208-209 | deleting an attribute is always a KeyError |
| Storage.RowNode.Children | src/cone/sql/model.py:254-255 | a row node has no children |
| Storage.RowNode.GetChild | src/cone/sql/model.py:244-245 | every child lookup is a KeyError of the name |
| Storage.RowNode.SetChild | src/cone/sql/model.py:240-241 | every child assignment is a KeyError of the name |
| Storage.RowNode.Call | src/cone/sql/model.py:258-266 | a new row's record is added to the session once and the row is then no longer new; the session is flushed or committed as `use_tm` says |
| Storage.CallTwice | src/cone/sql/model.py:258-266 | calling a row twice adds its record at most once |
| Storage.CopyAttributes | src/cone/sql/model.py:140-143 | copying every column of the given row onto the stored record makes the stored record equal to the given one |
| Storage.WellKeyedPut | src/cone/sql/model.py:122-143 | storing a conforming record under its own key keeps every row keyed by its primary key |
| Storage.WellKeyedRemove | src/cone/sql/model.py:161-164 | deleting a row keeps every remaining row keyed by its primary key |
| Storage.TableStorage.constructor | src/cone/sql/model.py:83-103 | a new table is empty and keyed by a column of its own |
| Storage.TableStorage.GetItem | src/cone/sql/model.py:146-158 | a name that does not convert is a conversion KeyError; otherwise the row stored under the converted key, or a KeyError of the name |
| Storage.TableStorage.SetItem | src/cone/sql/model.py:122-143 | the conversion error leaves everything unchanged. A key attribute that disagrees with the name is a KeyError. Otherwise the row is stored under the key: inserted when new, updated in place when present. The stored row is then found under the name |
| Storage.TableStorage.DelItem | src/cone/sql/model.py:161-164 | deleting fails with the lookup's own error when lookup fails; otherwise exactly that row is removed; afterwards the name is not found |
| Storage.TableStorage.Names | src/cone/sql/model.py:167-173 | iteration yields the text of each stored key, and nothing else |
| Storage.TableStorage.Call | src/cone/sql/model.py:176-180 | the session is flushed or committed as `use_tm` says, and nothing is added |
| Storage.NamesResolve | src/cone/sql/model.py:146-173 | every name that iteration yields looks up its own row |
| Acl.RolesOf | src/cone/sql/acl.py:43-51 | a role is among the distinct roles for (node, principal) exactly when such a row exists |
| Acl.PrincipalsOf | src/cone/sql/acl.py:94-100 | a principal is listed exactly when it has some role on the node |
| Acl.ReplaceCounts | src/cone/sql/acl.py:56-80 | after both phases of `__setitem__`, rows of others are untouched, roles kept keep their rows, dropped roles have none, new roles get one row per occurrence, and the principal's roles are exactly the new value |
| Acl.Unselected | src/cone/sql/acl.py:82-92 | the delete query's result never grows the table |
| Acl.UnselectedCount | src/cone/sql/acl.py:69-92 | a delete query removes every copy of a selected row and keeps every other row as often as before |
| Acl.PrincipalRoles.GetItem | src/cone/sql/acl.py:53-54 | `roles[p]` is the set of roles stored for p on this node, empty for an unknown principal |
| Acl.PrincipalRoles.Principals | src/cone/sql/acl.py:94-100 | iteration yields the principals with some role on this node |
| Acl.PrincipalRoles.DeleteSelected | src/cone/sql/acl.py:69-92 | one delete pass leaves the table as the delete query's result |
| Acl.PrincipalRoles.AddMissing | src/cone/sql/acl.py:58-64 | one row is added per occurrence of a role not yet stored, and nothing else changes |
| Acl.PrincipalRoles.SetItem | src/cone/sql/acl.py:56-80 | rows of other principals and nodes are untouched; roles kept keep their rows; dropped roles lose all rows; new roles get one row per occurrence; afterwards `roles[p]` is exactly the set of the new value |
| Acl.PrincipalRoles.DelItem | src/cone/sql/acl.py:82-92 | every row of the principal on this node is gone, every other row is untouched, and the principal is no longer listed |
| Acl.Stale | src/cone/sql/acl.py:65-68 | the roles to delete are exactly the stored roles missing from the new value |
| Acl.PrincipalRolesFor | src/cone/sql/acl.py:109-112 | a node without a uuid is a RuntimeError; otherwise the mapping over that node's rows |
| Principals.SchemaAttrs | src/cone/sql/ugm.py:177-189 | the schema attributes are the record's columns without the password |
| Principals.NewPrincipal | src/cone/sql/ugm.py:609-617 | a created record has no roles, the given data, id, guid and creation time; a user also has the given login and no password or login times |
| Principals.GetAttribute | src/cone/sql/ugm.py:68-72 | a column's value, else the data entry, else None |
| Principals.EncodeValue | src/cone/sql/ugm.py:155-156 | only a truthy binary attribute is encoded: bytes become their base64 text, anything else is a TypeError |
| Principals.DecodeValue | src/cone/sql/ugm.py:165-166 | only a truthy binary attribute is decoded; others are returned as they are |
| Principals.DecodeEncodeValue | src/cone/sql/ugm.py:152-167 | reading an attribute back decodes what writing encoded |
| Principals.SetAttr | src/cone/sql/ugm.py:152-161 | a schema attribute is written to its column and the data is untouched; any other name is written to the data and the columns are untouched; it fails exactly when encoding fails |
| Principals.GetAttr | src/cone/sql/ugm.py:163-167 | a value that is falsy or not binary is returned as stored |
| Principals.SetGetAttr | src/cone/sql/ugm.py:152-167 | an attribute reads back as written (`UNSET` as empty text), except a user's password |
| Principals.PasswordNotWritable | src/cone/sql/ugm.py:152-189 | writing `password` as an attribute changes no column, and reading it still gives the stored hash |
| Principals.AttrNames | src/cone/sql/ugm.py:170-196 | configured attributes when any are configured, else the schema attributes plus the data keys |
| Principals.AddRoleTo | src/cone/sql/ugm.py:243-246 | the role is present afterwards: appended once when absent, the list unchanged when present |
| Principals.RemoveRoleFrom | src/cone/sql/ugm.py:248-251 | the role is absent afterwards; the list is unchanged when it was absent |
| Principals.WithoutKeepsOthers | src/cone/sql/ugm.py:251 | filtering out a role keeps every other role as often as before |
| Principals.WithoutAppend | src/cone/sql/ugm.py:251 | filtering distributes over concatenation |
| Principals.WithoutAbsent | src/cone/sql/ugm.py:251 | filtering out an absent role changes nothing |
| Principals.RemoveAfterAdd | src/cone/sql/ugm.py:243-251 | removing a role just added to a list without it gives the list back |
| Principals.EffectiveRoles | src/cone/sql/ugm.py:289-297 | a role is effective exactly when it is the user's own or belongs to one of the user's groups |
| Auth.HashPasswd | src/cone/sql/ugm.py:533-539 | the stored hash decodes to digest(password + salt) followed by the salt |
| Auth.DecodeHash | src/cone/sql/ugm.py:543 | a text hash, or a bytes hash read as characters, decodes exactly when it is valid base64, to the decoded bytes; a malformed one is a decoding error; a hash of any other type is a TypeError |
| Auth.DecodeHashBytes | src/cone/sql/ugm.py:543 | a bytes hash decodes exactly as the text with the same characters |
| Auth.ChkPwAsWritten | src/cone/sql/ugm.py:542-548 | the check fails exactly when the stored hash does not decode |
| Auth.ChkPw | src/cone/sql/ugm.py:542-548 | the check fails exactly when the stored hash does not decode |
| Auth.CheckHashed | src/cone/sql/ugm.py:533-548 | a password checks against the hash made from it, for every hash function |
| Auth.CheckOther | src/cone/sql/ugm.py:533-548 | another password checks exactly when it has the same digest with that salt |
| Auth.AsWrittenAgrees | src/cone/sql/ugm.py:544 | with a positive salt length, the source's slice is the intended one |
| Auth.AsWrittenRejectsZeroSalt | src/cone/sql/ugm.py:544 | with salt length 0, the source refuses the very password the hash was made from, while the corrected check accepts it |
| Search.Render | src/cone/sql/ugm.py:396-411 | a text criterion renders as itself, and a non-negative integer as digits that read back as it |
| Search.NoStarMatch | src/cone/sql/ugm.py:396-411 | a pattern without `*` matches only itself |
| Search.StarMatchesAll | src/cone/sql/ugm.py:396-411 | `*` matches everything |
| Search.PrefixStarMatch | src/cone/sql/ugm.py:396-411 | `prefix*` matches exactly the texts that start with the prefix |
| Search.IntCriterionExact | src/cone/sql/ugm.py:416-420 | an integer criterion compares for equality whether or not the search is exact |
| Search.StarFreeExact | src/cone/sql/ugm.py:416-420 | a text criterion without `*` selects the same records in exact and pattern mode |
| Search.SingleCriterion | src/cone/sql/ugm.py:427-432 | with one criterion, the or and and searches agree |
| Search.Hits | src/cone/sql/ugm.py:427-438 | a record is a hit exactly when the criteria select it |
| Search.AttrsFor | src/cone/sql/ugm.py:443-454 | the attribute map has exactly the requested keys, each read as `get_attribute` reads it; the first failing read is the error |
| Search.MergedAttrs | src/cone/sql/ugm.py:456-463 | for an empty attribute list, the map has `login` plus the data keys, each read as `get_attribute` reads it |
| Search.Entries | src/cone/sql/ugm.py:450-463 | one (id, attributes) pair per hit, in hit order |
| Search.IdsOf | src/cone/sql/ugm.py:465 | the ids of the hits, in hit order |
| Search.Search | src/cone/sql/ugm.py:384-471 | a `login` criterion on groups is an AttributeError. The result has one entry per hit, and ids alone exactly when no attribute list is given. The ids are those of the hits in order; with an attribute list, the entries are each hit's id and attributes in order. An exact search finds something or is a ValueError. An id search fails exactly for an exact search without hits, and an attribute search exactly when that is so or reading some hit's attributes fails |
| Search.SearchEntryKeys | src/cone/sql/ugm.py:450-466 | a successful search with an attribute list has one entry per hit, in order, holding the hit's id and exactly the requested keys, or for an empty list the login and every key of the row's data |
| Search.SearchAsWritten | src/cone/sql/ugm.py:393-429 | apart from an or search with three or more criteria, the source behaves as the corrected search |
| Search.OrOfThree | src/cone/sql/ugm.py:393-429 | an or search with three criteria that should find a record is a TypeError in the source, while the corrected search finds it |
| Search.NoCriteriaFindsAll | src/cone/sql/ugm.py:390-438 | a search without criteria lists every record's id |
| Search.HitsAll | src/cone/sql/ugm.py:433-438 | without criteria, every record is a hit |
| UgmEngine.FindRow | src/cone/sql/ugm.py:583-588 | the first row with the id, or none exactly when no row has it |
| UgmEngine.RemoveAt | src/cone/sql/ugm.py:591-596 | removing a row keeps the others in order |
| UgmEngine.FindUnique | src/cone/sql/ugm.py:54-66 | in a table with unique ids, the row carrying an id is the one found |
| UgmEngine.ReplaceValid | src/cone/sql/ugm.py:152-161 | updating a row in place keeps ids and guids unique and the guid set unchanged |
| UgmEngine.RemoveValid | src/cone/sql/ugm.py:591-596 | deleting a row keeps ids unique and removes exactly its guid; no remaining row has its id |
| UgmEngine.RemoveGuids | src/cone/sql/ugm.py:591-596 | the guids left after deleting a row are exactly the old guids without the deleted one |
| UgmEngine.AppendValid | src/cone/sql/ugm.py:609-617 | adding a row with a new id and guid keeps them unique, and the new row is found under its id |
| UgmEngine.IdsOfSubset | src/cone/sql/ugm.py:279-328 | the ids of some of a table's rows name exactly those rows |
| UgmEngine.MembersOf | src/cone/sql/ugm.py:327-328 | a group's members are exactly the users with an edge to it |
| UgmEngine.GroupsOf | src/cone/sql/ugm.py:279-285 | a user's groups are exactly the groups with an edge to it |
| UgmEngine.RolesOfEach | src/cone/sql/ugm.py:295 | the own roles of each group, in order |
| UgmEngine.UsersWithLogin | src/cone/sql/ugm.py:568-576 | a user is matched exactly when its login field equals the login |
| UgmEngine.PasswordsReplace | src/cone/sql/ugm.py:625-627 | replacing a user row by one whose hash decodes keeps every stored hash decodable |
| UgmEngine.EncodedData | src/cone/sql/ugm.py:611-613 | the data keeps every keyword, each encoded as an attribute write encodes it; it fails exactly when one of them fails, with the TypeError |
| UgmEngine.EncodeBinary | src/cone/sql/ugm.py:611-613 | the loop computes the encoded data |
| UgmEngine.ReadBackCreated | src/cone/sql/ugm.py:609-617 | a keyword given at creation that is not a column reads back as given |
| UgmEngine.ReadBackAll | src/cone/sql/ugm.py:665-672 | every keyword given at creation that is not a column reads back as given |
| UgmEngine.ReadBackLogin | src/cone/sql/ugm.py:609-617 | after `login` is popped into its column, every other keyword that is not a column reads back as given |
| UgmEngine.PrincipalsNode.constructor | src/cone/sql/ugm.py:737-738 | a child node has the given name |
| UgmEngine.Ugm.constructor | src/cone/sql/ugm.py:733-742 | the engine keeps the configuration and tables it is given, and has fresh `users` and `groups` nodes |
| UgmEngine.Ugm.GetItem | src/cone/sql/ugm.py:583-588 | the principal with the id, or a KeyError of the id exactly when there is none |
| UgmEngine.Ugm.Iter | src/cone/sql/ugm.py:599-601 | one id per row, and an id is listed exactly when it looks up |
| UgmEngine.Ugm.SetItem | src/cone/sql/ugm.py:604-606 | assignment is always a NotImplementedError with the message for users or groups |
| UgmEngine.Ugm.DelUser | src/cone/sql/ugm.py:591-596 | an unknown id is a KeyError and changes nothing; otherwise exactly that user row is removed, with every membership edge of the user, and the id no longer looks up. Every stored hash that decoded still decodes |
| UgmEngine.Ugm.DelGroup | src/cone/sql/ugm.py:686-694 | an unknown id is a KeyError and changes nothing; otherwise exactly that group row is removed, with every membership edge of the group, and the id no longer looks up. Every stored hash that decoded still decodes |
| UgmEngine.DeleteUserValid | src/cone/sql/ugm.py:591-596 | removing a user row together with the user's edges keeps both tables valid, the guids disjoint and every remaining edge between existing rows |
| UgmEngine.DeleteGroupValid | src/cone/sql/ugm.py:686-694 | removing a group row together with the group's edges keeps the store invariant |
| UgmEngine.AppendUserValid | src/cone/sql/ugm.py:609-617 | appending a user with an unused id and a guid used by no user or group keeps the store invariant, and the id then finds the new row |
| UgmEngine.AppendGroupValid | src/cone/sql/ugm.py:665-672 | appending a group with an unused id and a guid used by no user or group keeps the store invariant, and the id then finds the new row |
| UgmEngine.AddEdgeValid | src/cone/sql/ugm.py:331-333 | an edge between an existing group and an existing user keeps every edge between existing rows |
| UgmEngine.RemoveEdgeValid | src/cone/sql/ugm.py:345-346 | removing an edge keeps the store invariant |
| UgmEngine.Ugm.CreateUser | src/cone/sql/ugm.py:609-617 | the user is appended and then found under its id; it is the new row for the id, the given login (None when absent), the encoded keywords and the creation time, so it has no password and no roles; every keyword that is not a column reads back as given; it fails exactly when a binary keyword is not bytes. Every stored hash that decoded still decodes |
| UgmEngine.Ugm.CreateGroup | src/cone/sql/ugm.py:665-672 | the group is appended and then found under its id; it is the new row for the id, the encoded keywords and the creation time, so it has no roles; every keyword that is not a column reads back as given; it fails exactly when a binary keyword is not bytes. Every stored hash that decoded still decodes |
| UgmEngine.Ugm.GroupGetItem | src/cone/sql/ugm.py:336-342 | `group[uid]` is the user exactly when the user exists and is a member, otherwise a KeyError of the id |
| UgmEngine.Ugm.MemberIds | src/cone/sql/ugm.py:327-351 | a user id is listed exactly when `group[uid]` succeeds |
| UgmEngine.Ugm.GroupIds | src/cone/sql/ugm.py:279-285 | a group id is listed exactly when the group exists and has the user as member |
| UgmEngine.Ugm.GroupAdd | src/cone/sql/ugm.py:331-333 | an unknown user is a KeyError and changes nothing; otherwise exactly the edge is added and the user is then a member. Every stored hash that decoded still decodes |
| UgmEngine.Ugm.GroupDelItem | src/cone/sql/ugm.py:345-346 | an unknown user is a KeyError and a non-member the association list's `value not in list` ValueError, both changing nothing; otherwise exactly the edge is removed and the user is no longer a member. Every stored hash that decoded still decodes |
| UgmEngine.Ugm.Roles | src/cone/sql/ugm.py:289-297 | a group's roles are its own; a user's roles are its own together with those of every group it belongs to |
| UgmEngine.Ugm.ReplaceRow | src/cone/sql/ugm.py:152-161 | exactly one row is replaced, and the tables stay valid |
| UgmEngine.Ugm.AddRole | src/cone/sql/ugm.py:243-246 | only the principal's role list changes, as `add_role` changes it; the role is then among its own and its effective roles. Every stored hash that decoded still decodes |
| UgmEngine.Ugm.RemoveRole | src/cone/sql/ugm.py:248-251 | only the principal's role list changes, as `remove_role` changes it; the role is then not among its own roles, nor a group's roles. Every stored hash that decoded still decodes |
| UgmEngine.Ugm.GetAttribute | src/cone/sql/ugm.py:163-167 | an attribute reads as its column, else its `data` entry, else None; a true binary value is base64-decoded, text or bytes decoding exactly when valid and any other type being a TypeError; a false or non-binary value comes back as stored |
| UgmEngine.Ugm.SetAttribute | src/cone/sql/ugm.py:152-167 | the row changes as the attribute write says, or not at all when encoding fails; every attribute but a user's password then reads back as written. Every stored hash that decoded still decodes |
| UgmEngine.Ugm.GetHashedPw | src/cone/sql/ugm.py:620-622 | the stored hash of an existing user, a KeyError otherwise |
| UgmEngine.Ugm.SetHashedPw | src/cone/sql/ugm.py:625-627 | only the user's password column changes, to the new hash, which then reads back; an unknown user is a KeyError |
| UgmEngine.Stamped | src/cone/sql/ugm.py:636-640 | a stamped user keeps its kind, id, guid, password, data, roles and every column but the two login times; its last login is the time given and its first login is kept once set, otherwise becomes that time |
| UgmEngine.Ugm.OnAuthenticated | src/cone/sql/ugm.py:634-640 | with `log_auth`, the user's row is replaced by itself stamped with the time: the last login is now, the first login is set once, nothing else in the users table changes; without it nothing changes. Every stored hash that decoded still decodes |
| UgmEngine.Ugm.Authenticate | src/cone/sql/ugm.py:503-519 | true exactly for a non-empty id and password of an existing user with a set hash that the password checks against. It raises exactly when a non-empty id and password meet a set hash that does not decode, so never while every stored hash decodes. Only a success with `log_auth` changes anything: the users table is the old one with that user's row stamped with the login time |
| UgmEngine.Ugm.Passwd | src/cone/sql/ugm.py:522-531 | an unknown user is a ValueError and a wrong old password is the `Old password does not match.` ValueError. A stored hash that does not decode fails the call with the decoding error. It succeeds exactly for an existing user whose old password is omitted or checks. The users table is then the old one with only that user's password column replaced by the new hash, which checks against the new password |
| UgmEngine.Ugm.IdForLogin | src/cone/sql/ugm.py:565-580 | with no user matching, the login itself; with one, that user's id; two or more matches are an error |
| UgmEngine.Ugm.SearchPrincipals | src/cone/sql/ugm.py:384-471 | a search of the users or the groups is the search over that table's rows, with the engine's binary attributes, so it returns one entry per hit |
| UgmEngine.Ugm.GetNode | src/cone/sql/ugm.py:764-765 | `ugm['users']` and `ugm['groups']` are the child nodes; other names are an AttributeError |
| UgmEngine.Ugm.Invalidate | src/cone/sql/ugm.py:780-791 | no key renews both child nodes; `users` or `groups` renews that one; any other key is a KeyError and renews none; a renewed node is named `users` or `groups` after its slot; the tables are untouched |
| UgmEngine.Ugm.SetNode | src/cone/sql/ugm.py:772-773 | assignment on the engine is always a NotImplementedError |

## Left out

- Database plumbing is not modelled: the engine, the session factory, the WSGI session middleware (`WSGISQLSession`, `make_app`), `get_session`, `initialize_sql` and table creation. A session is its tables plus a log of flush/commit actions.
- Transactions are not modelled: rollback, IntegrityError at flush, concurrency.
- Settings.SqlUgmFactory: the cone.ugm `general_settings` attribute maps are parameters, because they are read from another package.
- Settings.Environment.InitializeConeSql: the import of `cone.sql.ugm` and the `SQLSessionFactory`/`initialize_sql` calls are not modelled; only the `CONE_SQL_USE_TM` flag is.
- The clock (`datetime.now`), `os.urandom` and `uuid.uuid4` are parameters of the operations that use them.
- The hash function is any `Digest` function rather than SHA-256, so the results hold for every hash function.
- UTF-8 encoding of text passwords is not modelled: passwords are bytes.
- Search.Search: SQL `LIKE` is modelled with `*` as the only wildcard. The `_` and `%` wildcards, case-insensitive matching on some databases, the JSON quoting of data values and database-specific casts are not modelled.
- Search.Search: an integer criterion on a fixed column (`id`, `login`) compares against its decimal text.
- Search.Search: criteria of other Python types (which raise a KeyError in `typemap`) are not modelled; criteria are text or integers.
- Search.MergedAttrs: when reading several attributes fails, the model reports a TypeError if any read raises one, rather than the first failure in dictionary order.
- Base64.Decode: only canonical padded base64 is decoded; Python's lenient decoding of other input is not modelled.
- Guid.ParseUuid: `uuid.UUID` of a value that is neither text nor a UUID is not modelled.
- Guid.ParseHexInt: `int(text, 16)` also reads non-ASCII decimal digits (Arabic-Indic, full-width and the other Unicode `Nd` digits) as their values; the model rejects them, so a UUID text spelled with such digits is reported as badly formed.
- Principals.GetAttribute: `get_attribute` uses `getattr` on the ORM record first, so a key naming a mapped attribute that is not one of the modelled columns (`guid`, `data`, `principal_roles`, a relationship or a method) returns that attribute; the model returns the `data` entry for such a key.
- Storage.ConvertPrimaryKey: key types other than GUID, String and Integer fail, as a missing converter does. `int()` accepts only an optional sign and decimal digits (no surrounding whitespace or underscores), and the error message does not carry the converter's own exception text.
- Storage.TableStorage.SetItem: the aliasing of the row node onto the stored record (`value.record = record`) is modelled by copying the attributes. The node and the stored row are not the same object afterwards.
- Storage: the `child_factory` node wrapper and `rec_id` are not modelled.
- Acl: the generated `rec_id` of principal-role rows is not modelled.
- Acl: a node's uuid is a value, not the IUUID interface check.
- UgmEngine.Ugm.SetAttribute: renaming a principal by writing `id` is not modelled (the `name != "id"` precondition). ORM attributes other than columns (`guid`, `data`, `principal_roles`, relationships) are treated as data keys.
- UgmEngine.Ugm.GroupAdd: adding an existing member is a precondition, because the ORM would insert a duplicate association row that fails at flush.
- UgmEngine.Ugm.CreateUser: creating with an existing id or guid is a precondition for the same reason (the duplicate fails at flush).
- UgmEngine.Ugm.CreateGroup: the same precondition as UgmEngine.Ugm.CreateUser.
- UgmEngine.Ugm.MemberIds: members are listed in user-table order; the ORM relationship order is not modelled.
- UgmEngine.Ugm.GroupIds: groups are listed in group-table order; the ORM relationship order is not modelled.
- UgmEngine.Ugm.Roles: a user's roles are a set; the order of `list(set(...))` is not modelled.
- UgmEngine.Ugm.GetNode: `getattr` on attribute names other than `users` and `groups` (such as `user_attrs`) is not modelled; they are an AttributeError here.
- UgmEngine.Ugm.IdForLogin: the SQLite JSON path spelling is not modelled. The login column value names the data field that is compared against the login.
- `Ugm.__iter__` and `Ugm.__delitem__` (ugm.py:768-777) take a parameter that their callers never pass, so neither can be called as a mapping method. They are not modelled.
- `Users.invalidate`, `Groups.invalidate`, `User.authenticate` and `User.passwd` only delegate to the engine operations modelled here.
- Plumbing order is resolved by hand. `Users` uses `UsersBehavior.on_authenticated` and `AuthenticationBehavior.authenticate`/`passwd`.
- The `__call__` persistence of principals and of the engine is not modelled beyond `Storage.RowNode.Call` and `Storage.TableStorage.Call`.
- JSON serializability of data values is not checked.

## Findings

| source | as written | input that shows it | evidently intended | confidence | as-written member | corrected member |
|---|---|---|---|---|---|---|
| src/cone/sql/ugm.py:393-429 | an or search combines its comparators with `operator.or_(*comparators)`, which takes exactly two arguments | `users.search(criteria={'height': 1, 'status': 'super1', 'email': 'x'}, or_search=True)`: three comparators raise TypeError | the disjunction of all criteria (`sqlalchemy.or_`), as the and search does with `and_` | not executed | Search.SearchAsWritten, Search.OrOfThree | Search.Search |
| src/cone/sql/ugm.py:544 | the salt is `hashed[-self.salt_len:]`; with `salt_len = 0` that is the whole decoded hash | a Users node with `salt_len = 0`: `passwd(id, None, b'secret')` then `authenticate(id, b'secret')` returns False | the salt is the last `salt_len` bytes, none when the length is 0, so the password the hash was made from checks | not executed | Auth.ChkPwAsWritten, Auth.AsWrittenRejectsZeroSalt | Auth.ChkPw, Auth.CheckHashed |
