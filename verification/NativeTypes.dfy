/** Type identity across spellings: `canonicalizeNativeType` and exactly when it is idempotent. */
module NativeTypes {
  import opened Common

  datatype Dialect = Postgres | MySql | Mongo

  function AliasTable(d: Dialect): map<string, string> {
    match d
    case Postgres =>
      map["timestamptz" := "timestamp with time zone", "timestamp with time zone" := "timestamp with time zone",
          "timestamp" := "timestamp without time zone",
          "timestamp without time zone" := "timestamp without time zone",
          "int8" := "bigint", "bigint" := "bigint", "int4" := "integer", "int" := "integer", "integer" := "integer",
          "int2" := "smallint", "smallint" := "smallint",
          "float8" := "double precision", "double precision" := "double precision",
          "float4" := "real", "real" := "real",
          "bool" := "boolean", "boolean" := "boolean",
          "varchar" := "character varying", "character varying" := "character varying",
          "numeric" := "numeric", "decimal" := "numeric"]
    case MySql =>
      map["bigint" := "bigint", "int" := "int", "integer" := "int", "mediumint" := "mediumint",
          "smallint" := "smallint", "tinyint" := "tinyint", "bool" := "tinyint", "boolean" := "tinyint",
          "double" := "double", "double precision" := "double", "float" := "float",
          "decimal" := "decimal", "numeric" := "decimal", "char" := "char", "varchar" := "varchar", "text" := "text",
          "datetime" := "datetime", "timestamp" := "timestamp", "date" := "date", "blob" := "blob", "json" := "json"]
    case Mongo =>
      map["string" := "string", "long" := "number", "double" := "number", "decimal128" := "number",
          "number" := "number", "int" := "number", "boolean" := "boolean", "bool" := "boolean", "date" := "date",
          "bindata" := "binary", "binary" := "binary", "object" := "json", "array" := "json", "json" := "json",
          "unknown" := "unknown"]
  }

  function TrimEnd(s: string): string {
    if s != "" && IsSpace(s[|s| - 1]) then TrimEnd(s[..|s| - 1]) else s
  }

  function Trim(s: string): string {
    TrimEnd(SkipSpaces(s))
  }

  function Lower(s: string): string {
    Map(s, LowerLetter)
  }

  predicate LineBreak(c: char) {
    c as int == 0x0a || c as int == 0x0d || c as int == 0x2028 || c as int == 0x2029
  }

  predicate OneLine(s: string) {
    forall i :: 0 <= i < |s| ==> !LineBreak(s[i])
  }

  /** A parameter list closing the text can start at i: an opening parenthesis with no line break after it. */
  predicate ListAt(s: string, i: nat)
    requires i < |s|
  {
    s[i] == '(' && i < |s| - 1 && s[|s| - 1] == ')' && OneLine(s[i..])
  }

  /** Cuts a trailing parameter list off, from the first place where one can start. */
  function StripParametersFrom(s: string, i: nat): string
    requires i <= |s|
    decreases |s| - i
  {
    if i == |s| then s else if ListAt(s, i) then s[..i] else StripParametersFrom(s, i + 1)
  }

  function BaseType(raw: string): string {
    Trim(StripParametersFrom(Lower(Trim(raw)), 0))
  }

  function CanonicalizeNativeType(d: Dialect, raw: string): string {
    var base := BaseType(raw);
    if base in AliasTable(d) then AliasTable(d)[base] else base
  }

  // ---- Which spellings share an identity ----

  /** The name of the type a spelling stands for; a spelling that is none of these stands for itself. */
  function TypeNamed(d: Dialect, t: string): string {
    match d
    case Postgres =>
      if t == "timestamptz" then "timestamp with time zone"
      else if t == "timestamp" then "timestamp without time zone"
      else if t == "int8" then "bigint"
      else if t in {"int4", "int"} then "integer"
      else if t == "int2" then "smallint"
      else if t == "float8" then "double precision"
      else if t == "float4" then "real"
      else if t == "bool" then "boolean"
      else if t == "varchar" then "character varying"
      else if t == "decimal" then "numeric"
      else t
    case MySql =>
      if t == "integer" then "int"
      else if t in {"bool", "boolean"} then "tinyint"
      else if t == "double precision" then "double"
      else if t == "numeric" then "decimal"
      else t
    case Mongo =>
      if t in {"int", "long", "double", "decimal128"} then "number"
      else if t == "bool" then "boolean"
      else if t == "bindata" then "binary"
      else if t in {"object", "array"} then "json"
      else t
  }

  lemma PostgresNamesTypes(t: string)
    ensures t in AliasTable(Postgres) ==> AliasTable(Postgres)[t] == TypeNamed(Postgres, t)
  {
  }

  lemma PostgresOthers(t: string)
    ensures t !in AliasTable(Postgres) ==> TypeNamed(Postgres, t) == t
  {
  }

  lemma MySqlNamesTypes(t: string)
    ensures (if t in AliasTable(MySql) then AliasTable(MySql)[t] else t) == TypeNamed(MySql, t)
  {
  }

  lemma MongoNamesTypes(t: string)
    ensures (if t in AliasTable(Mongo) then AliasTable(Mongo)[t] else t) == TypeNamed(Mongo, t)
  {
  }

  lemma AliasesNameTypes(d: Dialect, t: string)
    ensures (if t in AliasTable(d) then AliasTable(d)[t] else t) == TypeNamed(d, t)
  {
    match d {
      case Postgres =>
        PostgresNamesTypes(t);
        PostgresOthers(t);
      case MySql => MySqlNamesTypes(t);
      case Mongo => MongoNamesTypes(t);
    }
  }

  /** Two type texts have one identity exactly when their base forms stand for one type. */
  lemma IdentityIsTheType(d: Dialect, x: string, y: string)
    ensures CanonicalizeNativeType(d, x) == CanonicalizeNativeType(d, y) <==>
            TypeNamed(d, BaseType(x)) == TypeNamed(d, BaseType(y))
  {
    AliasesNameTypes(d, BaseType(x));
    AliasesNameTypes(d, BaseType(y));
  }

  // ---- Canonicalising twice ----

  predicate NoOuterSpace(s: string) {
    s != "" ==> !IsSpace(s[0]) && !IsSpace(s[|s| - 1])
  }

  lemma {:induction false} TrimEndCuts(s: string) returns (k: nat)
    ensures k <= |s| && TrimEnd(s) == s[..k] && (k > 0 ==> !IsSpace(s[k - 1]))
  {
    if s != "" && IsSpace(s[|s| - 1]) {
      k := TrimEndCuts(s[..|s| - 1]);
    } else {
      k := |s|;
    }
  }

  lemma {:induction false} SkipSpacesCuts(s: string) returns (k: nat)
    ensures k <= |s| && SkipSpaces(s) == s[k..] && (k < |s| ==> !IsSpace(s[k]))
  {
    if s != "" && IsSpace(s[0]) {
      k := SkipSpacesCuts(s[1..]);
      k := k + 1;
    } else {
      k := 0;
    }
  }

  /** Trimming leaves a stretch of the text, without white space at its ends. */
  lemma TrimCuts(s: string) returns (lo: nat, hi: nat)
    ensures lo <= hi <= |s| && Trim(s) == s[lo..hi] && NoOuterSpace(Trim(s))
  {
    lo := SkipSpacesCuts(s);
    var k := TrimEndCuts(s[lo..]);
    hi := lo + k;
    assert s[lo..][..k] == s[lo..hi];
  }

  lemma TrimOfTrimmed(s: string)
    requires NoOuterSpace(s)
    ensures Trim(s) == s
  {
  }

  lemma {:induction false} TrimsBlanks(s: string, blank: string)
    requires Blank(blank) && (s != "" ==> !IsSpace(s[|s| - 1]))
    ensures TrimEnd(s + blank) == s
    decreases |blank|
  {
    if blank == "" {
      assert s + blank == s;
    } else {
      var init := blank[..|blank| - 1];
      assert (s + blank)[..|s + blank| - 1] == s + init;
      TrimsBlanks(s, init);
    }
  }

  lemma TrimsAround(before: string, s: string, after: string)
    requires Blank(before) && Blank(after) && NoOuterSpace(s) && s != ""
    ensures Trim(before + s + after) == s
  {
    assert before + s + after == before + (s + after);
    SkipsBlanks(before, s + after);
    TrimsBlanks(s, after);
  }

  /** Nothing, or arguments of one line in parentheses. */
  predicate Parameters(s: string) {
    s == "" || (|s| > 1 && s[0] == '(' && s[|s| - 1] == ')' && OneLine(s))
  }

  /** A type name keeps its base form in every spelling: in capitals, with white space around it, and with parameters
      behind it. */
  lemma BaseOfSpelling(before: string, name: string, gap: string, parameters: string, after: string)
    requires Blank(before) && Blank(gap) && Blank(after) && Parameters(parameters)
    requires name != "" && NoOuterSpace(name) && '(' !in name
    ensures BaseType(before + name + gap + parameters + after) == Lower(name)
  {
    if parameters == "" {
      assert before + name + gap + parameters + after == before + name + (gap + after);
      TrimsAround(before, name, gap + after);
      NoOpenParenthesis(Lower(name));
      TrimOfTrimmed(Lower(name));
    } else {
      var text := name + gap + parameters;
      assert before + name + gap + parameters + after == before + text + after;
      TrimsAround(before, text, after);
      ParametersAreCut(name, gap, parameters);
      TrimsBlanks(Lower(name), Lower(gap));
      assert SkipSpaces(Lower(name) + Lower(gap)) == Lower(name) + Lower(gap);
    }
  }

  lemma ParametersAreCut(name: string, gap: string, parameters: string)
    requires Blank(gap) && Parameters(parameters) && parameters != "" && '(' !in name
    ensures StripParametersFrom(Lower(name + gap + parameters), 0) == Lower(name) + Lower(gap)
  {
    var low, at := Lower(name + gap + parameters), |name| + |gap|;
    assert low == Lower(name) + Lower(gap) + Lower(parameters);
    assert low[at..] == Lower(parameters);
    assert ListAt(low, at);
    var k := StripFindsFirst(low, 0);
    assert forall j :: 0 <= j < at ==> low[j] != '(';
  }

  predicate LowerCase(s: string) {
    forall i :: 0 <= i < |s| ==> LowerLetter(s[i]) == s[i]
  }

  /** Text that the base form leaves alone. */
  predicate Settled(s: string) {
    NoOuterSpace(s) && LowerCase(s) && StripParametersFrom(s, 0) == s
  }

  lemma SettledIsFixed(s: string)
    requires Settled(s)
    ensures BaseType(s) == s
  {
    TrimOfTrimmed(s);
    assert Lower(s) == s;
  }

  lemma {:induction false} StripFindsFirst(s: string, i: nat) returns (k: nat)
    requires i <= |s|
    ensures i <= k <= |s| && StripParametersFrom(s, i) == s[..k]
    ensures k < |s| ==> ListAt(s, k)
    ensures forall j: nat :: i <= j < k && j < |s| ==> !ListAt(s, j)
    decreases |s| - i
  {
    if i == |s| || ListAt(s, i) {
      k := i;
    } else {
      k := StripFindsFirst(s, i + 1);
    }
  }

  lemma NoOpenParenthesis(s: string)
    requires '(' !in s
    ensures StripParametersFrom(s, 0) == s
  {
    var k := StripFindsFirst(s, 0);
  }

  lemma LowerTrimmed(s: string)
    requires NoOuterSpace(s)
    ensures NoOuterSpace(Lower(s)) && LowerCase(Lower(s)) && (OneLine(s) ==> OneLine(Lower(s)))
  {
  }

  lemma BaseIsSettled(raw: string)
    requires OneLine(raw)
    ensures Settled(BaseType(raw))
  {
    var lo, hi := TrimCuts(raw);
    var t := Lower(Trim(raw));
    LowerTrimmed(Trim(raw));
    var k := StripFindsFirst(t, 0);
    var stripped := t[..k];
    var lo', hi' := TrimCuts(stripped);
    var base := Trim(stripped);
    assert base == t[lo'..hi'];
    if k == |t| {
      assert stripped == t;
      TrimOfTrimmed(t);
    } else {
      forall j | 0 <= j < k ensures t[j] != '(' {
        assert !ListAt(t, j);
        assert OneLine(t[j..]);
      }
      NoOpenParenthesis(base);
    }
  }

  predicate PlainChar(c: char) {
    ('a' <= c <= 'z') || ('0' <= c <= '9') || c == ' '
  }

  predicate PlainName(s: string) {
    |s| > 0 && s[0] != ' ' && s[|s| - 1] != ' ' && forall i :: 0 <= i < |s| ==> PlainChar(s[i])
  }

  lemma PlainIsSettled(s: string)
    requires PlainName(s)
    ensures Settled(s)
  {
    NoOpenParenthesis(s);
  }

  lemma AliasesAreSettled(d: Dialect, base: string)
    requires base in AliasTable(d)
    ensures AliasTable(d)[base] in AliasTable(d) && AliasTable(d)[AliasTable(d)[base]] == AliasTable(d)[base]
  {
  }

  lemma PlainNumberNames()
    ensures PlainName("bigint") && PlainName("integer") && PlainName("int") && PlainName("smallint")
    ensures PlainName("mediumint") && PlainName("tinyint") && PlainName("numeric") && PlainName("decimal")
    ensures PlainName("real") && PlainName("double") && PlainName("float") && PlainName("number")
    ensures PlainName("double precision")
  {
  }

  lemma PlainOtherNames()
    ensures PlainName("timestamp") && PlainName("datetime") && PlainName("date")
    ensures PlainName("boolean") && PlainName("json") && PlainName("binary") && PlainName("blob")
    ensures PlainName("character varying") && PlainName("char") && PlainName("varchar") && PlainName("text")
    ensures PlainName("string") && PlainName("unknown")
  {
  }

  lemma PlainTimestampWithZone()
    ensures PlainName("timestamp with time zone")
  {
  }

  lemma PlainTimestampWithoutZone()
    ensures PlainName("timestamp without time zone")
  {
  }

  lemma PlainAliases(d: Dialect, base: string)
    requires base in AliasTable(d)
    ensures PlainName(AliasTable(d)[base])
  {
    PlainNumberNames();
    PlainOtherNames();
    PlainTimestampWithZone();
    PlainTimestampWithoutZone();
  }

  /** The text closes with a parameter list that has no line break in it. */
  predicate EndsInList(s: string) {
    exists i :: 0 <= i < |s| && ListAt(s, i)
  }

  lemma StripsExactlyLists(s: string)
    ensures EndsInList(s) <==> StripParametersFrom(s, 0) != s
    ensures |StripParametersFrom(s, 0)| <= |s|
  {
    var k := StripFindsFirst(s, 0);
    if EndsInList(s) {
      var i :| 0 <= i < |s| && ListAt(s, i);
    }
  }

  /** The base form is trimmed and in lower case, whatever the text. */
  lemma BaseIsTrimmed(raw: string)
    ensures NoOuterSpace(BaseType(raw)) && LowerCase(BaseType(raw))
  {
    var t := Lower(Trim(raw));
    var k := StripFindsFirst(t, 0);
    var lo, hi := TrimCuts(t[..k]);
    assert BaseType(raw) == t[lo..hi];
  }

  /** A list at the end of the base form is cut on the second pass, so what is left is shorter. */
  lemma SecondCut(base: string)
    requires NoOuterSpace(base) && LowerCase(base) && EndsInList(base)
    ensures |BaseType(base)| < |base|
  {
    TrimOfTrimmed(base);
    assert Lower(base) == base;
    StripsExactlyLists(base);
    var k := StripFindsFirst(base, 0);
    var lo, hi := TrimCuts(base[..k]);
  }

  lemma PlainHasNoList(s: string)
    requires PlainName(s)
    ensures !EndsInList(s) && ')' !in s
  {
  }

  /** No alias closes with a parenthesis. */
  lemma AliasesEndInLetters(d: Dialect, base: string)
    requires base in AliasTable(d)
    ensures |base| > 0 && base[|base| - 1] != ')'
  {
    match d {
      case Postgres => PostgresEndings(base);
      case MySql => MySqlEndings(base);
      case Mongo => MongoEndings(base);
    }
  }

  lemma PostgresEndings(base: string)
    requires base in AliasTable(Postgres)
    ensures |base| > 0 && base[|base| - 1] != ')'
  {
  }

  lemma MySqlEndings(base: string)
    requires base in AliasTable(MySql)
    ensures |base| > 0 && base[|base| - 1] != ')'
  {
  }

  lemma MongoEndings(base: string)
    requires base in AliasTable(Mongo)
    ensures |base| > 0 && base[|base| - 1] != ')'
  {
  }

  /** One canonical spelling per type: canonicalising twice is canonicalising once exactly when what is left after the
      first cut does not close with a parameter list of its own. */
  lemma CanonicalTypeIsIdempotent(d: Dialect, raw: string)
    ensures CanonicalizeNativeType(d, CanonicalizeNativeType(d, raw)) == CanonicalizeNativeType(d, raw)
            <==> !EndsInList(BaseType(raw))
  {
    var base := BaseType(raw);
    BaseIsTrimmed(raw);
    StripsExactlyLists(base);
    if EndsInList(base) {
      ListComesBackShorter(d, base);
    } else {
      SettledIsFixed(base);
      if base in AliasTable(d) {
        AliasesAreSettled(d, base);
        PlainAliases(d, base);
        PlainIsSettled(AliasTable(d)[base]);
        SettledIsFixed(AliasTable(d)[base]);
      }
    }
  }

  lemma ListComesBackShorter(d: Dialect, base: string)
    requires NoOuterSpace(base) && LowerCase(base) && EndsInList(base)
    ensures base !in AliasTable(d) && CanonicalizeNativeType(d, base) != base
  {
    assert base[|base| - 1] == ')';
    if base in AliasTable(d) { AliasesEndInLetters(d, base); }
    SecondCut(base);
    if BaseType(base) in AliasTable(d) {
      PlainAliases(d, BaseType(base));
      PlainHasNoList(AliasTable(d)[BaseType(base)]);
    }
  }

  /** Text without line breaks is never cut twice. */
  lemma OneLineIsCutOnce(d: Dialect, raw: string)
    requires OneLine(raw)
    ensures CanonicalizeNativeType(d, CanonicalizeNativeType(d, raw)) == CanonicalizeNativeType(d, raw)
  {
    BaseIsSettled(raw);
    StripsExactlyLists(BaseType(raw));
    CanonicalTypeIsIdempotent(d, raw);
  }

  /** With a line break in the text a second pass can cut more: the first parameter list is only reached then. */
  lemma LineBreaksBreakIdempotence()
    ensures CanonicalizeNativeType(Mongo, "a(x)\n(b)") == "a(x)"
    ensures CanonicalizeNativeType(Mongo, "a(x)") == "a"
  {
    FirstPass();
    SecondPass();
    if "a(x)" in AliasTable(Mongo) { AliasesEndInLetters(Mongo, "a(x)"); }
    if "a" in AliasTable(Mongo) { MongoAliasesAreLong("a"); }
  }

  lemma MongoAliasesAreLong(base: string)
    requires base in AliasTable(Mongo)
    ensures |base| > 1
  {
  }

  lemma FirstPass()
    ensures BaseType("a(x)\n(b)") == "a(x)"
  {
    var s := "a(x)\n(b)";
    FirstStrip(s);
    TrimOfTrimmed(s);
    assert Lower(s) == s;
    assert TrimEnd("a(x)\n") == "a(x)" by { assert "a(x)\n"[..4] == "a(x)"; }
  }

  lemma FirstStrip(s: string)
    requires s == "a(x)\n(b)"
    ensures StripParametersFrom(s, 0) == "a(x)\n"
  {
    assert s[1..][3] == '\n' && LineBreak(s[1..][3]);
    StripsAt(s, 5);
    assert s[..5] == "a(x)\n";
  }

  lemma SecondPass()
    ensures BaseType("a(x)") == "a"
  {
    var s := "a(x)";
    StripsAt(s, 1);
    TrimOfTrimmed(s);
    TrimOfTrimmed("a");
    assert Lower(s) == s && s[..1] == "a";
  }

  lemma {:induction false} StripsFirst(s: string, i: nat, k: nat)
    requires i <= k < |s| && ListAt(s, k) && forall j: nat :: i <= j < k ==> !ListAt(s, j)
    ensures StripParametersFrom(s, i) == s[..k]
    decreases k - i
  {
    if i < k { StripsFirst(s, i + 1, k); }
  }

  lemma StripsAt(s: string, k: nat)
    requires k < |s| && ListAt(s, k) && forall j: nat :: j < k ==> s[j] != '(' || !OneLine(s[j..])
    ensures StripParametersFrom(s, 0) == s[..k]
  {
    StripsFirst(s, 0, k);
  }
}
