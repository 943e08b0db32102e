/** Destination field names: cleaning a raw name, cutting it to length, and resolving collisions. */
module FieldNames {
  import opened Common

  const MAX_LENGTH := 63

  predicate NameChar(c: char) {
    'a' <= c <= 'z' || IsDigit(c) || c == '_'
  }

  predicate NameChars(s: string) {
    forall i :: 0 <= i < |s| ==> NameChar(s[i])
  }

  /** Lower-casing as far as it decides about name characters: besides A to Z, two other capitals lower to text with an
      ASCII letter in it. Every other character is no name character before and after. */
  function LowerText(c: char): string {
    if c == '\U{212A}' then "k"
    else if c == '\U{0130}' then "i\U{0307}"
    else [LowerLetter(c)]
  }

  /** Each longest run of gap characters becomes one underscore. */
  function ReplaceRuns(s: string, gap: char -> bool): (r: string)
    ensures |r| <= |s| && (r == "" <==> s == "")
  {
    if s == "" then ""
    else if !gap(s[0]) then [s[0]] + ReplaceRuns(s[1..], gap)
    else if |s| > 1 && gap(s[1]) then ReplaceRuns(s[1..], gap)
    else "_" + ReplaceRuns(s[1..], gap)
  }

  function OtherThanName(): char -> bool {
    c => !NameChar(c)
  }

  function Underscore(): char -> bool {
    c => c == '_'
  }

  function StripFront(s: string): (r: string)
    ensures |r| <= |s|
  {
    if s != "" && s[0] == '_' then StripFront(s[1..]) else s
  }

  function StripBack(s: string): (r: string)
    ensures |r| <= |s|
  {
    if s != "" && s[|s| - 1] == '_' then StripBack(s[..|s| - 1]) else s
  }

  function Squeezed(raw: string): string {
    StripBack(StripFront(ReplaceRuns(ReplaceRuns(FlatMap(raw, LowerText), OtherThanName()), Underscore())))
  }

  function NameBase(raw: string): string {
    if Squeezed(raw) == "" then "field" else Squeezed(raw)
  }

  // ---- The short hash ----

  /** 32-bit FNV-1a over the characters. */
  function Fnv(s: string, h: bv32): bv32 {
    if s == "" then h else Fnv(s[1..], FnvStep(h, s[0]))
  }

  function FnvStep(h: bv32, c: char): bv32 {
    (h ^ (c as bv32)) * 16777619
  }

  lemma FnvGoesOn(s: string, i: nat, h: bv32)
    requires i < |s|
    ensures Fnv(s[i..], h) == Fnv(s[i + 1..], FnvStep(h, s[i]))
  {
    assert s[i..][0] == s[i] && s[i..][1..] == s[i + 1..];
  }

  function Digit36(d: nat): (c: char)
    requires d < 36
    ensures NameChar(c) && c != '_'
  {
    if d < 10 then DigitChar(d) else ('a' as int + (d - 10)) as char
  }

  function Base36(n: nat): (s: string)
    ensures s != "" && NameChars(s) && '_' !in s
  {
    if n < 36 then [Digit36(n)] else Base36(n / 36) + [Digit36(n % 36)]
  }

  function Leading(digits: string): string {
    if |digits| > 6 then digits[..6] else digits
  }

  function ShortHash(raw: string): (h: string)
    ensures 1 <= |h| <= 6 && NameChars(h) && '_' !in h
  {
    Leading(Base36(Fnv(raw, 2166136261) as nat))
  }

  method ComputeShortHash(raw: string) returns (hash: string)
    ensures hash == ShortHash(raw)
  {
    var h: bv32 := 2166136261;
    for i := 0 to |raw|
      invariant Fnv(raw[i..], h) == Fnv(raw, 2166136261)
    {
      FnvGoesOn(raw, i, h);
      h := FnvStep(h, raw[i]);
    }
    return Leading(Base36(h as nat));
  }

  /** The name before collisions are looked at. */
  function Clean(raw: string): string {
    var base := NameBase(raw);
    if |base| > MAX_LENGTH then Cut(base, ShortHash(raw)) else base
  }

  function Cut(base: string, hash: string): (r: string)
    requires |base| > MAX_LENGTH && 1 <= |hash| <= 6
    ensures |r| == MAX_LENGTH
  {
    base[..MAX_LENGTH - |hash| - 1] + ("_" + hash)
  }

  // ---- What a cleaned name looks like ----

  /** Name characters only, no underscore at either end, no two in a row. */
  predicate Normal(s: string) {
    && s != "" && NameChars(s) && NoDouble(s)
    && s[0] != '_' && s[|s| - 1] != '_'
  }

  predicate NoDouble(s: string) {
    forall i :: 0 <= i < |s| - 1 ==> s[i] != '_' || s[i + 1] != '_'
  }

  lemma {:induction false} GapsReplaced(s: string)
    ensures NameChars(ReplaceRuns(s, OtherThanName()))
    decreases |s|
  {
    if s != "" { GapsReplaced(s[1..]); }
  }

  lemma {:induction false} UnderscoresReplaced(s: string)
    requires NameChars(s)
    ensures var r := ReplaceRuns(s, Underscore());
            NameChars(r) && NoDouble(r) && (s != "" ==> (r[0] == '_' <==> s[0] == '_'))
    decreases |s|
  {
    if s != "" { UnderscoresReplaced(s[1..]); }
  }

  lemma {:induction false} FrontStripped(s: string)
    requires NameChars(s) && NoDouble(s)
    ensures var r := StripFront(s); NameChars(r) && NoDouble(r) && (r != "" ==> r[0] != '_')
    decreases |s|
  {
    if s != "" && s[0] == '_' { FrontStripped(s[1..]); }
  }

  lemma {:induction false} BackStripped(s: string)
    requires NameChars(s) && NoDouble(s) && (s != "" ==> s[0] != '_')
    ensures StripBack(s) == "" || Normal(StripBack(s))
    decreases |s|
  {
    if s != "" && s[|s| - 1] == '_' { BackStripped(s[..|s| - 1]); }
  }

  lemma BaseIsNormal(raw: string)
    ensures Normal(NameBase(raw))
  {
    var once := ReplaceRuns(FlatMap(raw, LowerText), OtherThanName());
    GapsReplaced(FlatMap(raw, LowerText));
    UnderscoresReplaced(once);
    FrontStripped(ReplaceRuns(once, Underscore()));
    BackStripped(StripFront(ReplaceRuns(once, Underscore())));
  }

  /** Every cleaned name is a non-empty text of at most 63 lower-case letters, digits and underscores. */
  lemma CleanShape(raw: string)
    ensures 1 <= |Clean(raw)| <= 63 && NameChars(Clean(raw))
    ensures Clean(raw)[0] != '_' && Clean(raw)[|Clean(raw)| - 1] != '_'
  {
    BaseIsNormal(raw);
  }

  // ---- What cleaning keeps ----

  predicate WordChar(c: char) {
    'a' <= c <= 'z' || '0' <= c <= '9'
  }

  /** The longest runs of letters and digits, in order. */
  function Words(s: string): (ws: seq<string>)
    ensures s != "" && WordChar(s[0]) ==> ws != []
  {
    if s == "" then []
    else if !WordChar(s[0]) then Words(s[1..])
    else if |s| > 1 && WordChar(s[1]) then
      var ws := Words(s[1..]);
      [[s[0]] + ws[0]] + ws[1..]
    else [[s[0]]] + Words(s[1..])
  }

  /** No letter or digit is a gap. */
  ghost predicate SparesWords(gap: char -> bool) {
    forall c :: WordChar(c) ==> !gap(c)
  }

  lemma {:induction false} RunsKeepWords(s: string, gap: char -> bool)
    requires SparesWords(gap)
    ensures Words(ReplaceRuns(s, gap)) == Words(s)
    ensures s != "" ==> (WordChar(ReplaceRuns(s, gap)[0]) <==> WordChar(s[0]))
    decreases |s|
  {
    if s != "" {
      var rest := ReplaceRuns(s[1..], gap);
      RunsKeepWords(s[1..], gap);
      if !gap(s[0]) {
        assert ([s[0]] + rest)[1..] == rest;
      } else if !(|s| > 1 && gap(s[1])) {
        assert ("_" + rest)[1..] == rest;
      }
    }
  }

  lemma {:induction false} FrontKeepsWords(s: string)
    ensures Words(StripFront(s)) == Words(s)
    decreases |s|
  {
    if s != "" && s[0] == '_' { FrontKeepsWords(s[1..]); }
  }

  lemma {:induction false} WordsBeforeUnderscore(s: string)
    ensures Words(s + "_") == Words(s)
    decreases |s|
  {
    var t := s + "_";
    if s == "" {
      assert t[1..] == "";
    } else {
      assert t[1..] == s[1..] + "_";
      WordsBeforeUnderscore(s[1..]);
    }
  }

  lemma {:induction false} BackKeepsWords(s: string)
    ensures Words(StripBack(s)) == Words(s)
    decreases |s|
  {
    if s != "" && s[|s| - 1] == '_' {
      var init := s[..|s| - 1];
      BackKeepsWords(init);
      WordsBeforeUnderscore(init);
      assert s == init + "_";
    }
  }

  /** Words with single underscores between them, and nothing else, are the text they were taken from. */
  lemma {:induction false} NormalIsItsWords(s: string)
    requires NameChars(s) && NoDouble(s) && (s != "" ==> s[0] != '_' && s[|s| - 1] != '_')
    ensures Join(Words(s), "_") == s
    decreases |s|
  {
    if s != "" {
      var rest := s[1..];
      assert s == [s[0]] + rest;
      if rest == "" {
        assert Words(rest) == [];
      } else if rest[0] == '_' {
        var more := rest[1..];
        assert rest == "_" + more && more != "" && more[0] != '_';
        NormalIsItsWords(more);
        assert Words(rest) == Words(more) && Words(more) != [];
        JoinStep([s[0]], Words(more), "_");
      } else {
        NormalIsItsWords(rest);
        JoinGrows(s[0], Words(rest), "_");
      }
    }
  }

  /** The base of a name is its words, lower-cased, in order, with single underscores between; or "field" for none. */
  lemma BaseIsTheWords(raw: string)
    ensures var ws := Words(FlatMap(raw, LowerText)); NameBase(raw) == if ws == [] then "field" else Join(ws, "_")
  {
    var lowered := FlatMap(raw, LowerText);
    var once := ReplaceRuns(lowered, OtherThanName());
    var twice := ReplaceRuns(once, Underscore());
    RunsKeepWords(lowered, OtherThanName());
    RunsKeepWords(once, Underscore());
    FrontKeepsWords(twice);
    BackKeepsWords(StripFront(twice));
    GapsReplaced(lowered);
    UnderscoresReplaced(once);
    FrontStripped(twice);
    BackStripped(StripFront(twice));
    assert Words(Squeezed(raw)) == Words(lowered);
    NormalIsItsWords(Squeezed(raw));
  }

  /** The two capitals outside ASCII that are lowered to a name character, or to one and a mark. */
  lemma OtherCapitals()
    ensures LowerText('\U{212A}') == "k" && LowerText('\U{0130}') == "i\U{0307}"
    ensures forall c :: c != '\U{212A}' && c != '\U{0130}' ==> LowerText(c) == [LowerLetter(c)]
  {
  }

  // ---- The short hash, checked ----

  /** Published values of 32-bit FNV-1a: of the empty text and of "a". */
  lemma FnvVectors()
    ensures Fnv("", 2166136261) == 0x811c9dc5
    ensures Fnv("a", 2166136261) == 0xe40c292c
  {
    assert ('a' as bv32) == 97;
    assert ((2166136261 as bv32) ^ 97) * 16777619 == 0xe40c292c;
    assert "a"[1..] == "";
  }

  function Value36(s: string): nat {
    if s == "" then 0
    else
      var c := s[|s| - 1];
      36 * Value36(s[..|s| - 1])
      + if IsDigit(c) then c as nat - '0' as nat else if 'a' <= c <= 'z' then 10 + (c as nat - 'a' as nat) else 0
  }

  lemma {:induction false} Base36ReadsBack(n: nat)
    ensures Value36(Base36(n)) == n
  {
    if n >= 36 {
      Base36ReadsBack(n / 36);
      assert Base36(n)[..|Base36(n)| - 1] == Base36(n / 36);
    }
  }

  lemma {:induction false} Base36Length(n: nat, k: nat, bound: nat)
    requires bound == Pow36(k) && k > 0
    ensures |Base36(n)| <= k <==> n < bound
  {
    if n >= 36 && k > 1 { Base36Length(n / 36, k - 1, Pow36(k - 1)); }
    if k == 1 { assert bound == 36 * Pow36(0); }
  }

  function Pow36(k: nat): (p: nat)
    ensures p > 0
  {
    if k == 0 then 1 else 36 * Pow36(k - 1)
  }

  lemma LeadingDigits(n: nat)
    requires n < 36 * 2176782336
    ensures Value36(Leading(Base36(n))) == if n < 2176782336 then n else n / 36
  {
    SixOrSeven(n);
    Base36ReadsBack(n);
    if n >= 2176782336 {
      assert Base36(n)[..6] == Base36(n / 36);
      Base36ReadsBack(n / 36);
    }
  }

  lemma SixOrSeven(n: nat)
    ensures n < 2176782336 <==> |Base36(n)| <= 6
    ensures n < 36 * 2176782336 <==> |Base36(n)| <= 7
  {
    assert Pow36(6) == 2176782336 && Pow36(7) == 36 * 2176782336;
    Base36Length(n, 6, Pow36(6));
    Base36Length(n, 7, Pow36(7));
  }

  /** The short hash is the hash in base 36, without its last digit when there are seven. */
  lemma HashIsLeadingDigits(raw: string)
    ensures var n := Fnv(raw, 2166136261) as nat;
            Value36(ShortHash(raw)) == if n < 2176782336 then n else n / 36
  {
    LeadingDigits(Fnv(raw, 2166136261) as nat);
  }

  function LastUnderscore(s: string): nat {
    if s == "" then 0 else if s[|s| - 1] == '_' then |s| - 1 else LastUnderscore(s[..|s| - 1])
  }

  lemma {:induction false} HashStandsLast(front: string, hash: string)
    requires '_' !in hash
    ensures LastUnderscore(front + ("_" + hash)) == |front|
    decreases |hash|
  {
    var s := front + ("_" + hash);
    if hash != "" {
      var init := hash[..|hash| - 1];
      assert s[|s| - 1] == hash[|hash| - 1] && s[..|s| - 1] == front + ("_" + init);
      HashStandsLast(front, init);
    }
  }

  lemma SameTail(a: string, g: string, b: string, h: string)
    requires '_' !in g && '_' !in h && a + ("_" + g) == b + ("_" + h)
    ensures a == b && g == h
  {
    HashStandsLast(a, g);
    HashStandsLast(b, h);
    var s := a + ("_" + g);
    assert s[..|a|] == a && s[..|a|] == b;
    assert s[|a| + 1..] == g && s[|a| + 1..] == h;
  }

  lemma CutsDiffer(a: string, g: string, b: string, h: string)
    requires |a| > 63 && |b| > 63 && 1 <= |g| <= 6 && 1 <= |h| <= 6 && '_' !in g && '_' !in h
    ensures Cut(a, g) == Cut(b, h) <==> g == h && a[..62 - |g|] == b[..62 - |g|]
  {
    if Cut(a, g) == Cut(b, h) { SameTail(a[..62 - |g|], g, b[..62 - |h|], h); }
  }

  /** Two names that are too long come out the same exactly when their short hashes agree, and so does as much of their
      bases as there is room for in front of an underscore and the hash. */
  lemma LongNamesStayApart(x: string, y: string)
    requires |NameBase(x)| > 63 && |NameBase(y)| > 63
    ensures Clean(x) == Clean(y) <==>
            && ShortHash(x) == ShortHash(y)
            && NameBase(x)[..62 - |ShortHash(x)|] == NameBase(y)[..62 - |ShortHash(x)|]
  {
    CutsDiffer(NameBase(x), ShortHash(x), NameBase(y), ShortHash(y));
  }

  // ---- Cleaning twice ----

  lemma {:induction false} LoweredAlready(s: string)
    requires NameChars(s)
    ensures FlatMap(s, LowerText) == s
    decreases |s|
  {
    if s != "" {
      LoweredAlready(s[1..]);
      assert s == [s[0]] + s[1..];
    }
  }

  lemma {:induction false} NothingToReplace(s: string, gap: char -> bool)
    requires forall i :: 0 <= i < |s| && gap(s[i]) ==> s[i] == '_' && (i + 1 < |s| ==> !gap(s[i + 1]))
    ensures ReplaceRuns(s, gap) == s
    decreases |s|
  {
    if s != "" {
      NothingToReplace(s[1..], gap);
      assert s == [s[0]] + s[1..];
    }
  }

  lemma NormalIsItsBase(s: string)
    requires Normal(s)
    ensures NameBase(s) == s
  {
    LoweredAlready(s);
    NothingToReplace(s, OtherThanName());
    NothingToReplace(s, Underscore());
  }

  /** A name survives another cleaning exactly when it is normal and short enough. */
  lemma CleanKeeps(s: string)
    ensures Clean(s) == s <==> Normal(s) && |s| <= 63
  {
    BaseIsNormal(s);
    if Normal(s) && |s| <= MAX_LENGTH { NormalIsItsBase(s); }
    if Clean(s) == s && |NameBase(s)| > MAX_LENGTH {
      CleanShape(s);
      LoweredAlready(s);
    }
  }

  /** Cleaning is idempotent on every name that is not cut, and on a cut one exactly when the cut does not fall right
      behind an underscore: then two underscores meet, and the next cleaning merges them. */
  lemma CleanTwice(raw: string)
    ensures var base := NameBase(raw);
            Clean(Clean(raw)) == Clean(raw) <==>
            (|base| > 63 ==> base[61 - |ShortHash(raw)|] != '_')
  {
    var base := NameBase(raw);
    BaseIsNormal(raw);
    CleanKeeps(Clean(raw));
    if |base| > MAX_LENGTH { CutIsNormal(base, ShortHash(raw)); }
  }

  lemma CutIsNormal(base: string, hash: string)
    requires Normal(base) && |base| > MAX_LENGTH
    requires 1 <= |hash| <= 6 && NameChars(hash) && '_' !in hash
    ensures Normal(Cut(base, hash)) <==> base[MAX_LENGTH - |hash| - 2] != '_'
  {
    var k, r := MAX_LENGTH - |hash| - 1, Cut(base, hash);
    assert r[k - 1] == base[k - 1] && r[k] == '_' && r[k + 1] == hash[0];
    assert forall i :: k < i < |r| ==> r[i] == hash[i - k - 1] && r[i] != '_';
  }

  // ---- Collisions ----

  function Suffixed(base: string, k: nat): string {
    base + "_" + Decimal(k)
  }

  lemma SuffixesDiffer(base: string, j: nat, k: nat)
    requires Suffixed(base, j) == Suffixed(base, k)
    ensures j == k
  {
    assert Suffixed(base, j)[|base| + 1..] == Decimal(j);
    assert Suffixed(base, k)[|base| + 1..] == Decimal(k);
    DecimalInjective(j, k);
  }

  /** The base itself when it is free, otherwise the base with the first free number from 2 on. */
  ghost predicate FirstFree(base: string, seen: set<string>, name: string) {
    if base !in seen then name == base
    else
      exists k: nat :: k >= 2 && name == Suffixed(base, k) && name !in seen
                       && forall j: nat :: 2 <= j < k ==> Suffixed(base, j) in seen
  }

  /** The collision loop of the name normaliser. It stops because each round meets another name of a finite set. */
  method PickName(base: string, seen0: set<string>) returns (candidate: string, seen: set<string>)
    ensures candidate !in seen0 && seen == seen0 + {candidate}
    ensures FirstFree(base, seen0, candidate)
  {
    candidate := base;
    var suffix := 2;
    ghost var left := seen0;
    while candidate in seen0
      invariant suffix >= 2 && left <= seen0
      invariant candidate == if suffix == 2 then base else Suffixed(base, suffix - 1)
      invariant candidate in seen0 ==> candidate in left
      invariant suffix > 2 ==> base in seen0
      invariant forall j: nat :: 2 <= j < suffix - 1 ==> Suffixed(base, j) in seen0
      invariant forall j: nat :: suffix <= j && Suffixed(base, j) in seen0 ==> Suffixed(base, j) in left
      decreases left
    {
      left := left - {candidate};
      forall j: nat | suffix <= j && Suffixed(base, j) in seen0 ensures Suffixed(base, j) in left {
        if suffix > 2 && Suffixed(base, j) == candidate { SuffixesDiffer(base, j, suffix - 1); }
        assert |Suffixed(base, j)| > |base|;
      }
      candidate := Suffixed(base, suffix);
      suffix := suffix + 1;
    }
    seen := seen0 + {candidate};
  }

  lemma SuffixedIsNormal(base: string, k: nat)
    requires base != "" && NameChars(base) && base[0] != '_' && base[|base| - 1] != '_'
    ensures NameChars(Suffixed(base, k)) && Suffixed(base, k)[0] != '_'
    ensures Normal(Suffixed(base, k)) <==> Normal(base)
  {
    var s, digits := Suffixed(base, k), Decimal(k);
    assert forall i :: 0 <= i < |base| ==> s[i] == base[i];
    assert s[|base|] == '_';
    assert forall i :: |base| < i < |s| ==> s[i] == digits[i - |base| - 1] && IsDigit(s[i]);
  }

  /** Whatever was taken before, a picked name is made of name characters; picked again with nothing taken it stays as
      it is exactly when it is at most 63 long, which a collision suffix can break, and its base was normal. */
  lemma PickedName(raw: string, seen: set<string>, name: string)
    requires FirstFree(Clean(raw), seen, name)
    ensures name != "" && NameChars(name) && name[0] != '_'
    ensures Clean(name) == name <==> |name| <= 63 && Normal(Clean(raw))
  {
    CleanShape(raw);
    CleanKeeps(name);
    PickedFrom(Clean(raw), seen, name);
  }

  lemma PickedFrom(base: string, seen: set<string>, name: string)
    requires base != "" && NameChars(base) && base[0] != '_' && base[|base| - 1] != '_'
    requires FirstFree(base, seen, name)
    ensures name != "" && NameChars(name) && name[0] != '_' && (Normal(name) <==> Normal(base))
  {
    if base in seen {
      var k: nat :| k >= 2 && name == Suffixed(base, k);
      SuffixedIsNormal(base, k);
    }
  }
}
