/** Process-level settings of cone.sql: the transaction-manager flag kept in
    the process environment, the startup hook that derives it from the
    application settings, the settings parsed by the SQL UGM factory, and
    the registry of session setup handlers. */
module Settings {
  import opened Wrappers
  import opened Text

  /** An ini-file settings section or the process environment. */
  type Settings = map<string, string>

  /** `settings.get(key, default)` */
  function Get(settings: Settings, key: string, default: string): (r: string)
    ensures key in settings ==> r == settings[key]
    ensures key !in settings ==> r == default
  {
    if key in settings then settings[key] else default
  }

  const USE_TM_KEY := "CONE_SQL_USE_TM"

  /** use_tm(): the environment variable CONE_SQL_USE_TM is exactly "1". */
  predicate UseTm(environ: Settings)
  {
    USE_TM_KEY in environ && environ[USE_TM_KEY] == "1"
  }

  /** What a node's __call__ does to the session to persist changes. */
  datatype SessionAction = Flush | Commit

  /** Nodes flush when a transaction manager commits for them, and commit
      themselves otherwise. */
  function PersistAction(environ: Settings): (a: SessionAction)
    ensures a == Flush <==> UseTm(environ)
    ensures a == Commit <==> !UseTm(environ)
  {
    if UseTm(environ) then Flush else Commit
  }

  /** The value the startup hook stores in CONE_SQL_USE_TM: "1" when
      "pyramid_tm" occurs anywhere in pyramid.includes, else "0". */
  function TmFlag(settings: Settings): (flag: string)
    ensures flag == "1" || flag == "0"
  {
    if Find(Get(settings, "pyramid.includes", ""), "pyramid_tm") > -1 then "1" else "0"
  }

  /** The flag is "1" exactly when the includes mention pyramid_tm. */
  lemma TmFlagSpec(settings: Settings)
    ensures TmFlag(settings) == "1" <==>
      exists i: nat :: OccursAt(Get(settings, "pyramid.includes", ""), "pyramid_tm", i)
  {
    FindContains(Get(settings, "pyramid.includes", ""), "pyramid_tm");
  }

  /** The process environment (os.environ). */
  class Environment {
    var vars: Settings

    constructor(vars: Settings)
      ensures this.vars == vars
    {
      this.vars := vars;
    }

    /** initialize_cone_sql, as far as the environment is concerned: nothing
        happens without sql.db.url; otherwise the flag is (re)written. */
    method InitializeConeSql(settings: Settings)
      modifies this
      ensures "sql.db.url" !in settings ==> vars == old(vars)
      ensures "sql.db.url" in settings ==> vars == old(vars)[USE_TM_KEY := TmFlag(settings)]
      ensures "sql.db.url" in settings ==>
        (UseTm(vars) <==> exists i: nat :: OccursAt(Get(settings, "pyramid.includes", ""), "pyramid_tm", i))
    {
      if "sql.db.url" !in settings {
        return;
      }
      vars := vars[USE_TM_KEY := TmFlag(settings)];
      TmFlagSpec(settings);
    }
  }

  // ---------------------------------------------------------------------------
  // SqlUGMFactory settings
  // ---------------------------------------------------------------------------

  /** An attribute name with nothing to strip and no separator in it. */
  predicate CleanName(a: string)
  {
    a != "" && !IsSpace(a[0]) && !IsSpace(a[|a| - 1]) && ',' !in a
  }

  /** What one piece contributes: its stripped form unless that is empty. */
  function Kept(piece: string): (r: seq<string>)
    ensures |r| <= 1
  {
    var p := Strip(piece);
    if p != "" then [p] else []
  }

  /** The stripped, non-empty pieces, in order. */
  function StrippedNonEmpty(pieces: seq<string>): (r: seq<string>)
    ensures |r| <= |pieces|
  {
    if |pieces| == 0 then [] else Kept(pieces[0]) + StrippedNonEmpty(pieces[1..])
  }

  lemma KeptClean(piece: string)
    requires ',' !in piece
    ensures forall a :: a in Kept(piece) ==> CleanName(a)
  {
    StripSpec(piece);
    var p := Strip(piece);
    if p != "" {
      var i := StripStart(piece);
      assert p == piece[i..i + |p|];
      assert ',' !in p by {
        forall j | 0 <= j < |p| ensures p[j] != ',' {
          assert p[j] == piece[i + j];
        }
      }
    }
  }

  /** `[a.strip() for a in s.split(',') if a.strip()]` */
  function ParseAttrList(s: string): seq<string>
  {
    StrippedNonEmpty(Split(s, ','))
  }

  /** Every parsed attribute name is non-empty, has no surrounding
      whitespace and holds no comma. */
  lemma {:induction false} StrippedNonEmptyClean(pieces: seq<string>)
    requires forall k :: 0 <= k < |pieces| ==> ',' !in pieces[k]
    ensures forall a :: a in StrippedNonEmpty(pieces) ==> CleanName(a)
  {
    if |pieces| > 0 {
      StrippedNonEmptyClean(pieces[1..]);
      KeptClean(pieces[0]);
    }
  }

  lemma ParseAttrListClean(s: string)
    ensures forall a :: a in ParseAttrList(s) ==> CleanName(a)
  {
    SplitPieces(s, ',');
    StrippedNonEmptyClean(Split(s, ','));
  }

  /** A piece whose stripped form is non-empty is kept. */
  lemma {:induction false} StrippedNonEmptyKeeps(pieces: seq<string>, k: nat)
    requires k < |pieces| && Strip(pieces[k]) != ""
    ensures Strip(pieces[k]) in StrippedNonEmpty(pieces)
  {
    if k > 0 {
      StrippedNonEmptyKeeps(pieces[1..], k - 1);
    }
  }

  /** The step of StrippedNonEmptyAppend: one more piece in front. */
  lemma StrippedNonEmptyAppendStep(a: seq<string>, b: seq<string>)
    requires |a| > 0
    requires StrippedNonEmpty(a[1..] + b) == StrippedNonEmpty(a[1..]) + StrippedNonEmpty(b)
    ensures StrippedNonEmpty(a + b) == StrippedNonEmpty(a) + StrippedNonEmpty(b)
  {
    AppendHeadTail(a, b);
    AppendAssoc(Kept(a[0]), StrippedNonEmpty(a[1..]), StrippedNonEmpty(b));
  }

  lemma {:induction false} StrippedNonEmptyAppend(a: seq<string>, b: seq<string>)
    ensures StrippedNonEmpty(a + b) == StrippedNonEmpty(a) + StrippedNonEmpty(b)
  {
    if |a| == 0 {
      assert a + b == b;
    } else {
      StrippedNonEmptyAppend(a[1..], b);
      StrippedNonEmptyAppendStep(a, b);
    }
  }

  /** Split of a string with a known first character. */
  lemma SplitCons(c: char, t: string, sep: char)
    ensures Split([c] + t, sep) ==
              if c == sep then [""] + Split(t, sep) else [[c] + Split(t, sep)[0]] + Split(t, sep)[1..]
  {
    assert ([c] + t)[0] == c && ([c] + t)[1..] == t;
  }

  /** The step of SplitAround: one more character in front. */
  lemma SplitAroundStep(c: char, a: string, b: string, sep: char)
    requires Split(a + [sep] + b, sep) == Split(a, sep) + Split(b, sep)
    ensures Split([c] + (a + [sep] + b), sep) == Split([c] + a, sep) + Split(b, sep)
  {
    SplitCons(c, a + [sep] + b, sep);
    SplitCons(c, a, sep);
    var rest, tail := Split(a, sep), Split(b, sep);
    if c == sep {
      AppendAssoc([""], rest, tail);
    } else {
      AppendHeadTail(rest, tail);
      AppendAssoc([[c] + rest[0]], rest[1..], tail);
    }
  }

  /** Splitting around one separator splits the pieces there. */
  lemma {:induction false} SplitAround(a: string, b: string, sep: char)
    ensures Split(a + [sep] + b, sep) == Split(a, sep) + Split(b, sep)
  {
    if |a| == 0 {
      assert a + [sep] + b == [sep] + b;
      SplitCons(sep, b, sep);
    } else {
      SplitAround(a[1..], b, sep);
      assert a == [a[0]] + a[1..] && a + [sep] + b == [a[0]] + (a[1..] + [sep] + b);
      SplitAroundStep(a[0], a[1..], b, sep);
    }
  }

  /** Parsing keeps the order of the list: the attributes before a comma come
      first, then those after it. */
  lemma ParseAttrListAround(a: string, b: string)
    ensures ParseAttrList(a + "," + b) == ParseAttrList(a) + ParseAttrList(b)
  {
    SplitAround(a, b, ',');
    StrippedNonEmptyAppend(Split(a, ','), Split(b, ','));
  }

  /** A name with no comma and no surrounding whitespace parses to itself. */
  lemma ParseAttrListSingle(s: string)
    requires s != "" && ',' !in s && !IsSpace(s[0]) && !IsSpace(s[|s| - 1])
    ensures ParseAttrList(s) == [s]
  {
    assert Split(s, ',') == [s] by { SplitNoSep(s, ','); }
    StripTrimmed(s);
  }

  lemma {:induction false} SplitNoSep(s: string, sep: char)
    requires sep !in s
    ensures Split(s, sep) == [s]
  {
    if |s| > 0 {
      SplitNoSep(s[1..], sep);
      assert [s[0]] + s[1..] == s;
    }
  }

  /** `settings.get('sql.log_auth') in ['true', 'True', '1']` */
  predicate LogAuth(settings: Settings)
  {
    "sql.log_auth" in settings && settings["sql.log_auth"] in ["true", "True", "1"]
  }

  /** The settings the factory hands to Ugm. */
  datatype UgmConfig = UgmConfig(
    userAttrs: seq<string>,
    groupAttrs: seq<string>,
    binaryAttrs: seq<string>,
    logAuth: bool)

  /** SqlUGMFactory.__init__. When cone.plugins mentions cone.ugm the user
      and group attributes come from the cone.ugm form configuration, given
      here as `ugmUserAttrs`/`ugmGroupAttrs`; a missing cone.plugins raises
      AttributeError (None has no find). */
  function SqlUgmFactory(settings: Settings, ugmUserAttrs: seq<string>, ugmGroupAttrs: seq<string>)
    : (r: Result<UgmConfig>)
    ensures r.Err? <==> "cone.plugins" !in settings
    ensures r.Ok? ==> r.value.binaryAttrs == ParseAttrList(Get(settings, "sql.binary_attrs", ""))
    ensures r.Ok? ==> (r.value.logAuth <==> LogAuth(settings))
    ensures r.Ok? && Find(settings["cone.plugins"], "cone.ugm") > -1 ==>
      r.value.userAttrs == ugmUserAttrs && r.value.groupAttrs == ugmGroupAttrs
    ensures r.Ok? && Find(settings["cone.plugins"], "cone.ugm") == -1 ==>
      r.value.userAttrs == ParseAttrList(Get(settings, "sql.user_attrs", "")) &&
      r.value.groupAttrs == ParseAttrList(Get(settings, "sql.group_attrs", ""))
  {
    if "cone.plugins" !in settings then Err(AttributeError("find"))
    else
      var fromUgm := Find(settings["cone.plugins"], "cone.ugm") > -1;
      Ok(UgmConfig(
        if fromUgm then ugmUserAttrs else ParseAttrList(Get(settings, "sql.user_attrs", "")),
        if fromUgm then ugmGroupAttrs else ParseAttrList(Get(settings, "sql.group_attrs", "")),
        ParseAttrList(Get(settings, "sql.binary_attrs", "")),
        LogAuth(settings)))
  }

  // ---------------------------------------------------------------------------
  // Session setup handlers
  // ---------------------------------------------------------------------------

  /** A registered setup callback, identified by name. */
  datatype Handler = Handler(name: string)

  /** One invocation `handler(session)`. */
  datatype Call = Call(handler: Handler, session: nat)

  /** The module-level list of session setup handlers. */
  class SessionSetupRegistry {
    var handlers: seq<Handler>

    constructor()
      ensures handlers == []
    {
      handlers := [];
    }

    /** sql_session_setup: registers the handler and returns it unchanged. */
    method Register(ob: Handler) returns (r: Handler)
      modifies this
      ensures r == ob
      ensures handlers == old(handlers) + [ob]
    {
      handlers := handlers + [ob];
      r := ob;
    }

    /** setup_session: calls every handler with the session, in
        registration order; the result is the sequence of calls made. */
    method SetupSession(session: nat) returns (calls: seq<Call>)
      ensures |calls| == |handlers|
      ensures forall i :: 0 <= i < |calls| ==> calls[i] == Call(handlers[i], session)
    {
      calls := [];
      var i := 0;
      while i < |handlers|
        invariant 0 <= i <= |handlers|
        invariant |calls| == i
        invariant forall k :: 0 <= k < i ==> calls[k] == Call(handlers[k], session)
      {
        calls := calls + [Call(handlers[i], session)];
        i := i + 1;
      }
    }
  }

  /** Registering handlers one after the other and setting up a session calls
      them in that order. */
  method RegisterThenSetup(a: Handler, b: Handler, session: nat) returns (calls: seq<Call>)
    ensures calls == [Call(a, session), Call(b, session)]
  {
    var registry := new SessionSetupRegistry();
    var _ := registry.Register(a);
    var _ := registry.Register(b);
    calls := registry.SetupSession(session);
  }
}
