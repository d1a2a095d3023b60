/** Principal search of the SQL UGM: criteria on the fixed columns (id,
    login) and on the keys of `data`, combined with AND or OR, with `*` as
    a wildcard unless the match is exact, and three result shapes. */
module Search {
  import opened Wrappers
  import opened Text
  import opened Principals

  /** A criterion value: text or an integer. */
  datatype Criterion = CStr(s: string) | CInt(i: int)

  /** `'%s' % value` */
  function Render(c: Criterion): (s: string)
    ensures c.CStr? ==> s == c.s
    ensures c.CInt? && c.i >= 0 ==> ParseInt(s) == Some(c.i)
  {
    match c
    case CStr(s) => s
    case CInt(i) =>
      if i >= 0 then ParseIntToString(i); IntToString(i) else IntToString(i)
  }

  // ---------------------------------------------------------------------------
  // LIKE with `*` as the wildcard
  // ---------------------------------------------------------------------------

  /** `pattern` with every `*` standing for any run of characters (the `%%`
      it is replaced with in a LIKE pattern) matches all of `s`. */
  predicate WildMatch(pattern: string, s: string)
    decreases |pattern| + |s|
  {
    if |pattern| == 0 then |s| == 0
    else if pattern[0] == '*' then WildMatch(pattern[1..], s) || (|s| > 0 && WildMatch(pattern, s[1..]))
    else |s| > 0 && s[0] == pattern[0] && WildMatch(pattern[1..], s[1..])
  }

  /** Without a star a pattern matches exactly itself. */
  lemma {:induction false} NoStarMatch(pattern: string, s: string)
    requires '*' !in pattern
    ensures WildMatch(pattern, s) <==> s == pattern
    decreases |pattern|
  {
    if |pattern| > 0 && |s| > 0 {
      NoStarMatch(pattern[1..], s[1..]);
      assert s == [s[0]] + s[1..];
      assert pattern == [pattern[0]] + pattern[1..];
    }
  }

  /** A lone star matches every string. */
  lemma {:induction false} StarMatchesAll(s: string)
    ensures WildMatch("*", s)
    decreases |s|
  {
    if |s| > 0 {
      StarMatchesAll(s[1..]);
    }
  }

  /** A star-free pattern followed by a star matches the strings it starts. */
  lemma {:induction false} PrefixStarMatch(prefix: string, s: string)
    requires '*' !in prefix
    ensures WildMatch(prefix + "*", s) <==> prefix <= s
    decreases |prefix|
  {
    if |prefix| == 0 {
      assert prefix + "*" == "*";
      StarMatchesAll(s);
    } else {
      assert (prefix + "*")[1..] == prefix[1..] + "*";
      if |s| > 0 {
        PrefixStarMatch(prefix[1..], s[1..]);
      }
    }
  }

  // ---------------------------------------------------------------------------
  // Criteria
  // ---------------------------------------------------------------------------

  /** A fixed column against a criterion: equality with the rendered value
      when exact, else a LIKE match. */
  predicate FixedMatches(column: Val, c: Criterion, exact: bool)
  {
    if exact then column == VStr(Render(c))
    else column.VStr? && WildMatch(Render(c), column.s)
  }

  /** `data[key]` against a criterion: an integer compares equal, text
      compares with the stored text (a LIKE match unless exact). */
  predicate DynamicMatches(data: map<string, Val>, key: string, c: Criterion, exact: bool)
  {
    key in data &&
    match c
    case CInt(i) => data[key] == VInt(i)
    case CStr(s) => data[key].VStr? && (if exact then data[key].s == s else WildMatch(s, data[key].s))
  }

  /** Integer criteria ignore the exact flag. */
  lemma IntCriterionExact(data: map<string, Val>, key: string, i: int)
    ensures DynamicMatches(data, key, CInt(i), true) == DynamicMatches(data, key, CInt(i), false)
      == (key in data && data[key] == VInt(i))
  {
  }

  /** Text criteria without a star select the same rows exact or not. */
  lemma StarFreeExact(data: map<string, Val>, key: string, s: string)
    requires '*' !in s
    ensures DynamicMatches(data, key, CStr(s), true) == DynamicMatches(data, key, CStr(s), false)
  {
    if key in data && data[key].VStr? {
      NoStarMatch(s, data[key].s);
    }
  }

  predicate IsFixed(key: string)
  {
    key == "id" || key == "login"
  }

  /** One comparator: a fixed column for id and login, `data` otherwise. */
  predicate CriterionMatches(p: Principal, key: string, c: Criterion, exact: bool)
  {
    if IsFixed(key) then FixedMatches(GetAttribute(p, key), c, exact)
    else DynamicMatches(p.data, key, c, exact)
  }

  /** The filter clause: none without criteria, otherwise the comparators
      joined by OR or AND. */
  predicate Selects(p: Principal, criteria: map<string, Criterion>, exact: bool, orSearch: bool)
  {
    if |criteria| == 0 then true
    else if orSearch then exists key :: key in criteria && CriterionMatches(p, key, criteria[key], exact)
    else forall key :: key in criteria ==> CriterionMatches(p, key, criteria[key], exact)
  }

  /** A single criterion selects the same rows joined either way. */
  lemma SingleCriterion(p: Principal, criteria: map<string, Criterion>, exact: bool)
    requires |criteria| == 1
    ensures Selects(p, criteria, exact, true) == Selects(p, criteria, exact, false)
  {
    var key :| key in criteria;
    assert |criteria.Keys - {key}| == 0;
    assert criteria.Keys == {key};
  }

  /** The rows of the query, in table order. */
  function Hits(records: seq<Principal>, criteria: map<string, Criterion>, exact: bool, orSearch: bool)
    : (h: seq<Principal>)
    ensures |h| <= |records|
    ensures forall p :: p in h <==> p in records && Selects(p, criteria, exact, orSearch)
  {
    if |records| == 0 then []
    else
      var init := records[..|records| - 1];
      var last := records[|records| - 1];
      assert records == init + [last];
      Hits(init, criteria, exact, orSearch) + (if Selects(last, criteria, exact, orSearch) then [last] else [])
  }

  // ---------------------------------------------------------------------------
  // Result shapes
  // ---------------------------------------------------------------------------

  /** `p.id` */
  function Id(p: Principal): Val
  {
    GetAttribute(p, "id")
  }

  /** The ids alone, or each id with its attributes. */
  datatype SearchResult = Ids(ids: seq<Val>) | WithAttrs(entries: seq<(Val, map<string, Val>)>)

  function Size(r: SearchResult): nat
  {
    match r
    case Ids(ids) => |ids|
    case WithAttrs(entries) => |entries|
  }

  /** `{k: get_attribute(p, k) for k in attrlist}`: the first failing read
      in list order raises. */
  function AttrsFor(p: Principal, binaryAttrs: seq<string>, keys: seq<string>): (r: Result<map<string, Val>>)
    ensures r.Err? <==> exists k :: k in keys && GetAttr(p, binaryAttrs, k).Err?
    ensures r.Ok? ==>
              && r.value.Keys == (set k | k in keys)
              && (forall k :: k in keys ==> GetAttr(p, binaryAttrs, k) == Ok(r.value[k]))
  {
    if |keys| == 0 then Ok(map[])
    else
      match GetAttr(p, binaryAttrs, keys[0])
      case Err(e) => Err(e)
      case Ok(v) =>
        match AttrsFor(p, binaryAttrs, keys[1..])
        case Err(e) => Err(e)
        case Ok(rest) =>
          assert forall k :: k in keys <==> k == keys[0] || k in keys[1..];
          Ok(rest[keys[0] := v])
  }

  /** The merged attributes of `attrlist=[]`: `login`, then every key of
      `data`. When several reads of `data` fail, the error raised depends
      on dict order; here a TypeError is reported if any read raises one. */
  function MergedAttrs(p: Principal, binaryAttrs: seq<string>): (r: Result<map<string, Val>>)
    ensures r.Err? <==> exists k :: k in {"login"} + p.data.Keys && GetAttr(p, binaryAttrs, k).Err?
    ensures r.Ok? ==>
              && r.value.Keys == {"login"} + p.data.Keys
              && (forall k :: k in r.value ==> GetAttr(p, binaryAttrs, k) == Ok(r.value[k]))
  {
    var keys := {"login"} + p.data.Keys;
    if GetAttr(p, binaryAttrs, "login").Err? then Err(GetAttr(p, binaryAttrs, "login").error)
    else if forall k :: k in keys ==> GetAttr(p, binaryAttrs, k).Ok? then
      Ok(map k | k in keys :: GetAttr(p, binaryAttrs, k).value)
    else if exists k :: k in keys && GetAttr(p, binaryAttrs, k).Err? && GetAttr(p, binaryAttrs, k).error.TypeError?
    then Err(TypeError(DECODE_TYPE_MESSAGE))
    else Err(DecodeError)
  }

  /** The attributes reported for one row. */
  function AttrsOf(p: Principal, binaryAttrs: seq<string>, attrlist: seq<string>): Result<map<string, Val>>
  {
    if |attrlist| > 0 then AttrsFor(p, binaryAttrs, attrlist) else MergedAttrs(p, binaryAttrs)
  }

  /** `(p.id, attrs)` for each row, in order; the first failing row raises. */
  function Entries(hits: seq<Principal>, binaryAttrs: seq<string>, attrlist: seq<string>)
    : (r: Result<seq<(Val, map<string, Val>)>>)
    ensures r.Err? <==> exists i :: 0 <= i < |hits| && AttrsOf(hits[i], binaryAttrs, attrlist).Err?
    ensures r.Ok? ==>
              && |r.value| == |hits|
              && (forall i :: 0 <= i < |hits| ==>
                    r.value[i].0 == Id(hits[i]) && AttrsOf(hits[i], binaryAttrs, attrlist) == Ok(r.value[i].1))
  {
    if |hits| == 0 then Ok([])
    else
      match AttrsOf(hits[0], binaryAttrs, attrlist)
      case Err(e) => Err(e)
      case Ok(a) =>
        match Entries(hits[1..], binaryAttrs, attrlist)
        case Err(e) =>
          assert exists i :: 0 <= i < |hits| - 1 && AttrsOf(hits[1..][i], binaryAttrs, attrlist).Err?;
          Err(e)
        case Ok(rest) => Ok([(Id(hits[0]), a)] + rest)
  }

  function IdsOf(hits: seq<Principal>): (ids: seq<Val>)
    ensures |ids| == |hits| && forall i :: 0 <= i < |hits| ==> ids[i] == Id(hits[i])
  {
    seq(|hits|, i requires 0 <= i < |hits| => Id(hits[i]))
  }

  /** search() with OR joining any number of comparators: an AttributeError
      for a login criterion on groups (their table has no login column),
      a ValueError for an exact search finding nothing, otherwise the ids
      or (id, attributes) of the rows the clause selects, in table order. */
  function Search(records: seq<Principal>, kind: Kind, binaryAttrs: seq<string>,
                  criteria: map<string, Criterion>, attrlist: Option<seq<string>>,
                  exact: bool, orSearch: bool): (r: Result<SearchResult>)
    ensures kind == GroupKind && "login" in criteria ==> r == Err(AttributeError("login"))
    ensures r.Ok? ==> Size(r.value) == |Hits(records, criteria, exact, orSearch)|
    ensures r.Ok? && exact ==> Size(r.value) > 0
    ensures r.Ok? ==> (r.value.Ids? <==> attrlist.None?)
    ensures r.Ok? && attrlist.None? ==> r.value.ids == IdsOf(Hits(records, criteria, exact, orSearch))
    ensures !(kind == GroupKind && "login" in criteria) && attrlist.None? ==>
              (r.Err? <==> exact && |Hits(records, criteria, exact, orSearch)| == 0)
    ensures r.Ok? && attrlist.Some? ==>
              Entries(Hits(records, criteria, exact, orSearch), binaryAttrs, attrlist.value) == Ok(r.value.entries)
    ensures !(kind == GroupKind && "login" in criteria) && attrlist.Some? ==>
              (r.Err? <==> || Entries(Hits(records, criteria, exact, orSearch), binaryAttrs, attrlist.value).Err?
                           || (exact && |Hits(records, criteria, exact, orSearch)| == 0))
  {
    if kind == GroupKind && "login" in criteria then Err(AttributeError("login"))
    else
      var hits := Hits(records, criteria, exact, orSearch);
      var res := match attrlist
        case None => Ok(Ids(IdsOf(hits)))
        case Some(keys) =>
          (match Entries(hits, binaryAttrs, keys)
           case Err(e) => Err(e)
           case Ok(entries) => Ok(WithAttrs(entries)));
      if res.Ok? && exact && |hits| == 0 then Err(ValueError("no entries found"))
      else res
  }

  /** The attribute shapes of a search with an attribute list: each entry
      holds exactly the requested keys, or for `attrlist=[]` the login and
      every key of the row's data. */
  lemma SearchEntryKeys(records: seq<Principal>, kind: Kind, binaryAttrs: seq<string>,
                        criteria: map<string, Criterion>, keys: seq<string>, exact: bool, orSearch: bool)
    requires Search(records, kind, binaryAttrs, criteria, Some(keys), exact, orSearch).Ok?
    ensures var r := Search(records, kind, binaryAttrs, criteria, Some(keys), exact, orSearch).value;
            var hits := Hits(records, criteria, exact, orSearch);
            && r.WithAttrs? && |r.entries| == |hits|
            && forall i :: 0 <= i < |hits| ==>
                 && r.entries[i].0 == Id(hits[i])
                 && r.entries[i].1.Keys == (if |keys| > 0 then set k | k in keys else {"login"} + hits[i].data.Keys)
  {
    var r := Search(records, kind, binaryAttrs, criteria, Some(keys), exact, orSearch).value;
    var hits := Hits(records, criteria, exact, orSearch);
    assert Entries(hits, binaryAttrs, keys) == Ok(r.entries);
    forall i | 0 <= i < |hits|
      ensures r.entries[i].1.Keys == (if |keys| > 0 then set k | k in keys else {"login"} + hits[i].data.Keys)
    {
      assert AttrsOf(hits[i], binaryAttrs, keys) == Ok(r.entries[i].1);
    }
  }

  /** search() as written: `or_` comes from the operator module and takes
      exactly two operands, so an OR search with three or more criteria
      raises a TypeError. */
  function SearchAsWritten(records: seq<Principal>, kind: Kind, binaryAttrs: seq<string>,
                           criteria: map<string, Criterion>, attrlist: Option<seq<string>>,
                           exact: bool, orSearch: bool): (r: Result<SearchResult>)
    ensures !(orSearch && |criteria| >= 3) ==>
              r == Search(records, kind, binaryAttrs, criteria, attrlist, exact, orSearch)
  {
    if kind == GroupKind && "login" in criteria then Err(AttributeError("login"))
    else if orSearch && |criteria| >= 3 then Err(TypeError("or_ expected 2 arguments"))
    else Search(records, kind, binaryAttrs, criteria, attrlist, exact, orSearch)
  }

  /** Three or more OR criteria and a user matching one of them: the
      corrected search finds the user, the source raises a TypeError. */
  lemma OrOfThree(p: Principal, criteria: map<string, Criterion>, key: string)
    requires |criteria| >= 3 && key in criteria && CriterionMatches(p, key, criteria[key], false)
    ensures SearchAsWritten([p], UserKind, [], criteria, None, false, true).Err?
    ensures SearchAsWritten([p], UserKind, [], criteria, None, false, true).error.TypeError?
    ensures Search([p], UserKind, [], criteria, None, false, true) == Ok(Ids([Id(p)]))
  {
    assert Selects(p, criteria, false, true);
    HitsSingle(p, criteria, false, true);
    assert IdsOf([p]) == [Id(p)];
  }

  /** A single row is found exactly as the clause selects it. */
  lemma HitsSingle(p: Principal, criteria: map<string, Criterion>, exact: bool, orSearch: bool)
    requires Selects(p, criteria, exact, orSearch)
    ensures Hits([p], criteria, exact, orSearch) == [p]
  {
    assert [p][..0] == [];
  }

  /** Without criteria every row is found, joined either way. */
  lemma NoCriteriaFindsAll(records: seq<Principal>, kind: Kind, binaryAttrs: seq<string>, orSearch: bool)
    ensures Search(records, kind, binaryAttrs, map[], None, false, orSearch) == Ok(Ids(IdsOf(records)))
  {
    HitsAll(records, orSearch);
  }

  lemma {:induction false} HitsAll(records: seq<Principal>, orSearch: bool)
    ensures Hits(records, map[], false, orSearch) == records
  {
    if |records| > 0 {
      HitsAll(records[..|records| - 1], orSearch);
    }
  }
}
