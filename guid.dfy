/** The platform-independent GUID column type: a 128-bit UUID stored as
    PostgreSQL's native UUID, or elsewhere as CHAR(32) holding 32 lower-case
    hexadecimal digits. Also models the parts of Python's uuid.UUID that the
    column type relies on: parsing a UUID string and the two ways of
    printing one. */
module Guid {
  import opened Wrappers
  import opened Text

  /** 2^128 = 16^32. */
  const UUID_LIMIT: nat := 0x1_0000_0000_0000_0000_0000_0000_0000_0000

  /** A UUID is its 128-bit integer value (int(uuid.UUID(...))). */
  type Uuid = n: nat | n < UUID_LIMIT

  // ---------------------------------------------------------------------------
  // Hexadecimal digits
  // ---------------------------------------------------------------------------

  predicate IsHexDigit(c: char)
  {
    IsDigit(c) || 'a' <= c <= 'f' || 'A' <= c <= 'F'
  }

  predicate IsLowerHexDigit(c: char)
  {
    IsDigit(c) || 'a' <= c <= 'f'
  }

  predicate AllHex(s: string)
  {
    forall i :: 0 <= i < |s| ==> IsHexDigit(s[i])
  }

  predicate AllLowerHex(s: string)
  {
    forall i :: 0 <= i < |s| ==> IsLowerHexDigit(s[i])
  }

  function HexChar(d: nat): (c: char)
    requires d < 16
    ensures IsLowerHexDigit(c)
  {
    if d < 10 then DigitChar(d) else ('a' as int + (d - 10)) as char
  }

  /** The value of a hexadecimal digit of either case, as int(c, 16). */
  function HexCharValue(c: char): (d: nat)
    requires IsHexDigit(c)
    ensures d < 16
  {
    if IsDigit(c) then DigitValue(c)
    else if 'a' <= c <= 'f' then c as int - 'a' as int + 10
    else c as int - 'A' as int + 10
  }

  lemma HexCharValueOf(d: nat)
    requires d < 16
    ensures HexCharValue(HexChar(d)) == d
  {
  }

  function Pow16(k: nat): (p: nat)
    ensures p >= 1
  {
    if k == 0 then 1 else 16 * Pow16(k - 1)
  }

  lemma Pow16Uuid()
    ensures Pow16(32) == UUID_LIMIT
  {
    assert Pow16(4) == 0x1_0000;
    assert Pow16(8) == 0x1_0000_0000;
    assert Pow16(12) == 0x1_0000_0000_0000;
    assert Pow16(16) == 0x1_0000_0000_0000_0000;
    assert Pow16(20) == 0x1_0000_0000_0000_0000_0000;
    assert Pow16(24) == 0x1_0000_0000_0000_0000_0000_0000;
    assert Pow16(28) == 0x1_0000_0000_0000_0000_0000_0000_0000;
  }

  /** `"%.{width}x" % n` for an n that fits: exactly `width` lower-case
      digits, most significant first, zero-padded on the left. */
  function HexDigits(n: nat, width: nat): (s: string)
    ensures |s| == width && AllLowerHex(s)
  {
    if width == 0 then "" else HexDigits(n / 16, width - 1) + [HexChar(n % 16)]
  }

  /** int(s, 16) for a non-empty string of hexadecimal digits. */
  function HexValue(s: string): (v: nat)
    requires AllHex(s)
    ensures v < Pow16(|s|)
  {
    if |s| == 0 then 0
    else HexValue(s[..|s| - 1]) * 16 + HexCharValue(s[|s| - 1])
  }

  /** Reading back the digits printed for n gives n. */
  lemma {:induction false} HexValueOfDigits(n: nat, width: nat)
    requires n < Pow16(width)
    ensures HexValue(HexDigits(n, width)) == n
  {
    if width > 0 {
      var s := HexDigits(n, width);
      assert s[..|s| - 1] == HexDigits(n / 16, width - 1);
      HexValueOfDigits(n / 16, width - 1);
      HexCharValueOf(n % 16);
    }
  }

  // ---------------------------------------------------------------------------
  // Printing a UUID
  // ---------------------------------------------------------------------------

  /** `"%.32x" % int(u)`: the CHAR(32) form. */
  function Hex32(u: Uuid): (s: string)
    ensures |s| == 32 && AllLowerHex(s)
  {
    HexDigits(u, 32)
  }

  /** `str(u)`: the 8-4-4-4-12 hyphenated form. */
  function Hyphenated(u: Uuid): (s: string)
    ensures |s| == 36
  {
    var h := Hex32(u);
    h[..8] + "-" + h[8..12] + "-" + h[12..16] + "-" + h[16..20] + "-" + h[20..]
  }

  // ---------------------------------------------------------------------------
  // Parsing a UUID: uuid.UUID(hex)
  // ---------------------------------------------------------------------------

  /** `s.replace(needle, '')`: drops every non-overlapping occurrence of
      `needle`, scanning from the left. */
  function RemoveAll(s: string, needle: string): (r: string)
    requires |needle| > 0
    ensures |r| <= |s|
    decreases |s|
  {
    if |s| == 0 then s
    else if OccursAt(s, needle, 0) then RemoveAll(s[|needle|..], needle)
    else [s[0]] + RemoveAll(s[1..], needle)
  }

  /** `s.replace(c, '')` for one character. */
  function RemoveChar(s: string, c: char): (r: string)
    ensures c !in r
    ensures |r| <= |s|
  {
    if |s| == 0 then s
    else if s[0] == c then RemoveChar(s[1..], c)
    else [s[0]] + RemoveChar(s[1..], c)
  }

  predicate IsBrace(c: char) { c == '{' || c == '}' }

  /** `s.strip('{}')`. */
  function StripBraces(s: string): (r: string)
    ensures |r| <= |s|
    ensures r == [] || (!IsBrace(r[0]) && !IsBrace(r[|r| - 1]))
  {
    if |s| > 0 && IsBrace(s[0]) then StripBraces(s[1..])
    else if |s| > 0 && IsBrace(s[|s| - 1]) then StripBraces(s[..|s| - 1])
    else s
  }

  /** The 32 characters uuid.UUID looks at: prefixes "urn:" and "uuid:"
      removed, braces stripped, hyphens removed. */
  function UuidDigits(s: string): string
  {
    RemoveChar(StripBraces(RemoveAll(RemoveAll(s, "urn:"), "uuid:")), '-')
  }

  /** The digit run `int(t, 16)` accepts after its sign and prefix: hex
      digits, with single underscores only between two digits. */
  predicate UnderscoredHex(d: string)
  {
    && |d| > 0 && d[0] != '_' && d[|d| - 1] != '_'
    && (forall i :: 0 <= i < |d| ==> IsHexDigit(d[i]) || d[i] == '_')
    && (forall i :: 0 <= i < |d| - 1 ==> d[i] != '_' || d[i + 1] != '_')
  }

  /** `t` after int()'s optional "+"/"-" sign (the whitespace is already
      stripped). */
  function Unsigned(t: string): string
  {
    if |t| > 0 && (t[0] == '+' || t[0] == '-') then t[1..] else t
  }

  /** What follows an optional "0x"/"0X" prefix and the one underscore
      allowed right after it. */
  function Unprefixed(t: string): string
  {
    if |t| >= 2 && t[0] == '0' && (t[1] == 'x' || t[1] == 'X') then
      if |t| > 2 && t[2] == '_' then t[3..] else t[2..]
    else t
  }

  /** `int(t, 16)`: None where Python raises ValueError. Whitespace around
      the number (IsIntSpace), one sign, a "0x"/"0X" prefix and underscores
      between digits are accepted. */
  function ParseHexInt(t: string): (r: Option<int>)
    ensures r.Some? ==> UnderscoredHex(Unprefixed(Unsigned(IntStrip(t))))
  {
    var u := IntStrip(t);
    var d := Unprefixed(Unsigned(u));
    if UnderscoredHex(d) then
      RemoveUnderscores(d);
      var n: int := HexValue(RemoveChar(d, '_'));
      Some(if u[0] == '-' then -n else n)
    else None
  }

  /** `uuid.UUID(s)`: None where Python raises ValueError ("badly formed
      hexadecimal UUID string"). Its later check that the integer lies in
      [0, 2^128) cannot fail on 32 characters without a hyphen, as
      HexIntInRange shows, so it has no branch here. */
  function ParseUuid(s: string): (r: Option<Uuid>)
    ensures r.Some? <==> |UuidDigits(s)| == 32 && ParseHexInt(UuidDigits(s)).Some?
    ensures r.Some? ==> r.value == ParseHexInt(UuidDigits(s)).value
  {
    var h := UuidDigits(s);
    if |h| == 32 && ParseHexInt(h).Some? then
      HexIntInRange(h);
      Some(ParseHexInt(h).value)
    else None
  }

  lemma {:induction false} Pow16Monotone(i: nat, j: nat)
    requires i <= j
    ensures Pow16(i) <= Pow16(j)
    decreases j
  {
    if i < j {
      Pow16Monotone(i, j - 1);
    }
  }

  lemma LowerHexIsHex(s: string)
    requires AllLowerHex(s)
    ensures AllHex(s)
  {
    forall i | 0 <= i < |s| ensures IsHexDigit(s[i]) { assert IsLowerHexDigit(s[i]); }
  }

  /** Dropping the underscores from an underscored run leaves its digits. */
  lemma {:induction false} RemoveUnderscores(d: string)
    requires forall i :: 0 <= i < |d| ==> IsHexDigit(d[i]) || d[i] == '_'
    ensures AllHex(RemoveChar(d, '_'))
  {
    if |d| > 0 {
      RemoveUnderscores(d[1..]);
    }
  }

  /** int() does not skip the ASCII separators U+001C-U+001F that
      str.strip() removes: a leading U+001C makes the number unreadable. */
  lemma HexIntKeepsSeparators()
    ensures Strip("\U{1C}1") == "1"
    ensures ParseHexInt("\U{1C}1") == None
  {
    assert LStrip("\U{1C}1") == LStrip("1") == "1";
    assert IntStrip("\U{1C}1") == "\U{1C}1";
  }

  /** Once the hyphens are gone, int() cannot read a negative number, and 32
      characters hold at most 32 digits: uuid.UUID's range check never fails. */
  lemma HexIntInRange(h: string)
    requires |h| <= 32 && '-' !in h && ParseHexInt(h).Some?
    ensures 0 <= ParseHexInt(h).value < UUID_LIMIT
  {
    var u := IntStrip(h);
    assert u[0] != '-';
    var d := Unprefixed(Unsigned(u));
    assert |RemoveChar(d, '_')| <= |d| <= |u| <= |h|;
    Pow16Monotone(|RemoveChar(d, '_')|, 32);
    Pow16Uuid();
  }

  lemma HexDigitIsPlain(c: char)
    requires IsHexDigit(c)
    ensures !IsSpace(c) && c != '_' && c != '-' && c != '+' && c != 'x' && c != 'X'
  {
  }

  lemma NoUnderscoreInHex(d: string)
    requires AllHex(d)
    ensures '_' !in d
  {
    forall i | 0 <= i < |d| ensures d[i] != '_' { HexDigitIsPlain(d[i]); }
  }

  /** When what follows the sign and prefix of an unsigned, unpadded number
      is plain hex digits, int() reads their value. */
  lemma HexIntOfDigitRun(t: string, d: string)
    requires IntStrip(t) == t && |t| > 0 && t[0] != '-'
    requires Unprefixed(Unsigned(t)) == d && |d| > 0 && AllHex(d)
    ensures ParseHexInt(t) == Some(HexValue(d))
  {
    HexDigitIsPlain(d[0]);
    HexDigitIsPlain(d[|d| - 1]);
    NoUnderscoreInHex(d);
    RemoveCharAbsent(d, '_');
    assert UnderscoredHex(d);
  }

  /** A plain run of hex digits reads as its value. */
  lemma ParseHexIntOfHex(t: string)
    requires |t| > 0 && AllHex(t)
    ensures ParseHexInt(t) == Some(HexValue(t))
  {
    HexDigitIsPlain(t[0]);
    HexDigitIsPlain(t[|t| - 1]);
    assert IntStrip(t) == t;
    if |t| >= 2 { HexDigitIsPlain(t[1]); }
    assert Unprefixed(Unsigned(t)) == t;
    HexIntOfDigitRun(t, t);
  }

  /** uuid.UUID accepts every string whose cleaned-up form is 32 hex digits,
      and reads it as those digits' value. */
  lemma ParseUuidOfHexDigits(s: string)
    requires |UuidDigits(s)| == 32 && AllHex(UuidDigits(s))
    ensures ParseUuid(s) == Some(HexValue(UuidDigits(s)))
  {
    ParseHexIntOfHex(UuidDigits(s));
  }

  /** int(..., 16) is more lenient than "32 hex digits": "0x" followed by
      30 digits passes uuid.UUID's length check and reads as those 30
      digits' value. */
  lemma ParseUuidPrefixed(z: string)
    requires |z| == 30 && AllLowerHex(z)
    ensures ParseUuid("0x" + z) == Some(HexValue(z))
  {
    PrefixedUuidDigits(z);
    PrefixedHexInt(z);
  }

  lemma PrefixedUuidDigits(z: string)
    requires AllLowerHex(z)
    ensures UuidDigits("0x" + z) == "0x" + z
  {
    var s := "0x" + z;
    assert ':' !in s && '-' !in s by {
      forall i | 0 <= i < |s| ensures s[i] != ':' && s[i] != '-' {
        if i >= 2 { assert s[i] == z[i - 2] && IsLowerHexDigit(z[i - 2]); }
      }
    }
    RemoveAllAbsent(s, "urn:");
    RemoveAllAbsent(s, "uuid:");
    assert |z| > 0 ==> s[|s| - 1] == z[|z| - 1] && IsLowerHexDigit(z[|z| - 1]);
    RemoveCharAbsent(s, '-');
  }

  lemma PrefixedHexInt(z: string)
    requires |z| > 0 && AllLowerHex(z)
    ensures ParseHexInt("0x" + z) == Some(HexValue(z))
  {
    var s := "0x" + z;
    LowerHexIsHex(z);
    HexDigitIsPlain(z[0]);
    HexDigitIsPlain(z[|z| - 1]);
    assert s[|s| - 1] == z[|z| - 1];
    assert IntStrip(s) == s;
    assert Unprefixed(Unsigned(s)) == z;
    HexIntOfDigitRun(s, z);
  }

  lemma RemoveAllAbsent(s: string, needle: string)
    requires |needle| > 0 && ':' in needle && ':' !in s
    ensures RemoveAll(s, needle) == s
  {
    if |s| > 0 {
      RemoveAllAbsent(s[1..], needle);
      assert !OccursAt(s, needle, 0);
      assert s == [s[0]] + s[1..];
    }
  }

  lemma RemoveCharAbsent(s: string, c: char)
    requires c !in s
    ensures RemoveChar(s, c) == s
  {
    if |s| > 0 {
      RemoveCharAbsent(s[1..], c);
      assert s == [s[0]] + s[1..];
    }
  }

  lemma {:induction false} RemoveCharAppend(a: string, b: string, c: char)
    ensures RemoveChar(a + b, c) == RemoveChar(a, c) + RemoveChar(b, c)
    decreases |a|
  {
    if |a| > 0 {
      RemoveCharAppend(a[1..], b, c);
      assert (a + b)[1..] == a[1..] + b;
    } else {
      assert a + b == b;
    }
  }

  /** The digits of a printed UUID pass the clean-up steps unchanged. */
  lemma UuidDigitsOfHex(h: string)
    requires |h| == 32 && AllLowerHex(h)
    ensures UuidDigits(h) == h
  {
    assert ':' !in h by {
      forall i | 0 <= i < |h| ensures h[i] != ':' { assert IsLowerHexDigit(h[i]); }
    }
    RemoveAllAbsent(h, "urn:");
    RemoveAllAbsent(h, "uuid:");
    assert !IsBrace(h[0]) && !IsBrace(h[31]) by {
      assert IsLowerHexDigit(h[0]) && IsLowerHexDigit(h[31]);
    }
    assert '-' !in h by {
      forall i | 0 <= i < |h| ensures h[i] != '-' { assert IsLowerHexDigit(h[i]); }
    }
    RemoveCharAbsent(h, '-');
  }

  /** uuid.UUID("%.32x" % int(u)) == u. */
  lemma ParseHex32(u: Uuid)
    ensures ParseUuid(Hex32(u)) == Some(u)
  {
    var h := Hex32(u);
    UuidDigitsOfHex(h);
    LowerHexIsHex(h);
    ParseUuidOfHexDigits(h);
    Pow16Uuid();
    HexValueOfDigits(u, 32);
  }

  lemma RemoveHyphenJoin(a: string, b: string)
    requires '-' !in b
    ensures RemoveChar(a + "-" + b, '-') == RemoveChar(a, '-') + b
  {
    RemoveCharAppend(a + "-", b, '-');
    RemoveCharAppend(a, "-", '-');
    RemoveCharAbsent(b, '-');
    assert RemoveChar("-", '-') == [];
    assert RemoveChar(a, '-') + [] == RemoveChar(a, '-');
  }

  lemma NoHyphenInHex(h: string, i: nat, j: nat)
    requires AllLowerHex(h) && i <= j <= |h|
    ensures '-' !in h[i..j]
  {
    forall k | i <= k < j ensures h[k] != '-' { assert IsLowerHexDigit(h[k]); }
  }

  /** Removing the hyphens from str(u) leaves "%.32x" % int(u). */
  lemma DehyphenateHyphenated(u: Uuid)
    ensures RemoveChar(Hyphenated(u), '-') == Hex32(u)
  {
    var h := Hex32(u);
    NoHyphenInHex(h, 0, 8);
    NoHyphenInHex(h, 8, 12);
    NoHyphenInHex(h, 12, 16);
    NoHyphenInHex(h, 16, 20);
    NoHyphenInHex(h, 20, 32);
    RemoveCharAbsent(h[..8], '-');
    RemoveHyphenJoin(h[..8], h[8..12]);
    RemoveHyphenJoin(h[..8] + "-" + h[8..12], h[12..16]);
    RemoveHyphenJoin(h[..8] + "-" + h[8..12] + "-" + h[12..16], h[16..20]);
    RemoveHyphenJoin(h[..8] + "-" + h[8..12] + "-" + h[12..16] + "-" + h[16..20], h[20..]);
    assert h[..8] + h[8..12] + h[12..16] + h[16..20] + h[20..] == h;
  }

  /** The prefix removal and brace stripping leave str(u) unchanged. */
  lemma CleanHyphenated(u: Uuid)
    ensures StripBraces(RemoveAll(RemoveAll(Hyphenated(u), "urn:"), "uuid:")) == Hyphenated(u)
  {
    var h := Hex32(u);
    var s := Hyphenated(u);
    assert ':' !in s by {
      forall i | 0 <= i < |s| ensures s[i] != ':' {
        assert s[i] == '-' || s[i] in h;
        if s[i] in h {
          var k :| 0 <= k < |h| && h[k] == s[i];
          assert IsLowerHexDigit(h[k]);
        }
      }
    }
    RemoveAllAbsent(s, "urn:");
    RemoveAllAbsent(s, "uuid:");
    assert s[0] == h[0] && s[35] == h[31];
    assert IsLowerHexDigit(h[0]) && IsLowerHexDigit(h[31]);
  }

  /** uuid.UUID(str(u)) == u. */
  lemma ParseHyphenated(u: Uuid)
    ensures ParseUuid(Hyphenated(u)) == Some(u)
  {
    CleanHyphenated(u);
    DehyphenateHyphenated(u);
    assert UuidDigits(Hyphenated(u)) == Hex32(u);
    LowerHexIsHex(Hex32(u));
    ParseUuidOfHexDigits(Hyphenated(u));
    Pow16Uuid();
    HexValueOfDigits(u, 32);
  }

  // ---------------------------------------------------------------------------
  // The column type
  // ---------------------------------------------------------------------------

  datatype Dialect = Dialect(name: string)

  predicate IsPostgres(d: Dialect) { d.name == "postgresql" }

  /** The database type a GUID column uses under a dialect. */
  datatype ColumnType = UuidColumn | Char(length: nat)

  function LoadDialectImpl(d: Dialect): (t: ColumnType)
    ensures t.UuidColumn? <==> IsPostgres(d)
    ensures t.Char? ==> t.length == 32
  {
    if IsPostgres(d) then UuidColumn else Char(32)
  }

  /** What the ORM hands to a GUID column: None, a uuid.UUID or a string. */
  datatype BindValue = NoValue | UuidValue(u: Uuid) | TextValue(s: string)

  /** `str(value)` */
  function BindText(v: BindValue): string
  {
    match v
    case NoValue => "None"
    case UuidValue(u) => Hyphenated(u)
    case TextValue(s) => s
  }

  /** GUID.process_bind_param: the column value sent to the database, None
      for None; ValueError when a string is not a UUID on a CHAR(32)
      dialect. */
  function ProcessBindParam(v: BindValue, d: Dialect): (r: Result<Option<string>>)
    ensures v.NoValue? ==> r == Ok(None)
    ensures !v.NoValue? && IsPostgres(d) ==> r == Ok(Some(BindText(v)))
    ensures r.Ok? && r.value.Some? && !IsPostgres(d) ==>
      |r.value.value| == 32 && AllLowerHex(r.value.value)
    ensures r.Err? <==> !IsPostgres(d) && v.TextValue? && ParseUuid(v.s).None?
  {
    match v
    case NoValue => Ok(None)
    case _ =>
      if IsPostgres(d) then Ok(Some(BindText(v)))
      else
        match v
        case UuidValue(u) => Ok(Some(Hex32(u)))
        case TextValue(s) =>
          match ParseUuid(s)
          case None => Err(ValueError("badly formed hexadecimal UUID string"))
          case Some(u) => Ok(Some(Hex32(u)))
  }

  /** GUID.process_result_value: the uuid.UUID read back, None for None. */
  function ProcessResultValue(value: Option<string>, d: Dialect): (r: Result<Option<Uuid>>)
    ensures value.None? ==> r == Ok(None)
    ensures value.Some? ==> (r.Ok? <==> ParseUuid(value.value).Some?)
    ensures value.Some? && r.Ok? ==> r.value == ParseUuid(value.value)
  {
    match value
    case None => Ok(None)
    case Some(s) =>
      match ParseUuid(s)
      case None => Err(ValueError("badly formed hexadecimal UUID string"))
      case Some(u) => Ok(Some(u))
  }

  /** On a CHAR(32) dialect a UUID and its string form are stored alike. */
  lemma BindStringLikeUuid(u: Uuid, d: Dialect)
    requires !IsPostgres(d)
    ensures ProcessBindParam(TextValue(Hyphenated(u)), d) == ProcessBindParam(UuidValue(u), d)
    ensures ProcessBindParam(TextValue(Hex32(u)), d) == ProcessBindParam(UuidValue(u), d)
  {
    ParseHyphenated(u);
    ParseHex32(u);
  }

  /** More generally, any string naming u binds like u itself. */
  lemma BindParsedLikeUuid(s: string, u: Uuid, d: Dialect)
    requires !IsPostgres(d) && ParseUuid(s) == Some(u)
    ensures ProcessBindParam(TextValue(s), d) == ProcessBindParam(UuidValue(u), d)
  {
  }

  /** Reading back what was bound gives the UUID, under every dialect. */
  lemma RoundTrip(u: Uuid, d: Dialect)
    ensures ProcessBindParam(UuidValue(u), d).Ok?
    ensures ProcessResultValue(ProcessBindParam(UuidValue(u), d).value, d) == Ok(Some(u))
  {
    if IsPostgres(d) {
      ParseHyphenated(u);
    } else {
      ParseHex32(u);
    }
  }

  /** A string that names a UUID also reads back as that UUID. */
  lemma RoundTripText(s: string, u: Uuid, d: Dialect)
    requires ParseUuid(s) == Some(u)
    ensures ProcessBindParam(TextValue(s), d).Ok?
    ensures ProcessResultValue(ProcessBindParam(TextValue(s), d).value, d) == Ok(Some(u))
  {
    if IsPostgres(d) {
      assert ProcessBindParam(TextValue(s), d) == Ok(Some(s));
    } else {
      assert ProcessBindParam(TextValue(s), d) == Ok(Some(Hex32(u)));
      ParseHex32(u);
    }
  }
}
