/** Prefix search through LIKE: the wildcard escaping and the pattern language it has to be exact for. */
module Like {
  import opened Common

  // ---- LIKE, as section 8.5 of ISO/IEC 9075-2 describes it ----

  datatype Item = Exactly(c: char) | AnyCharacter | AnyString

  predicate Special(c: char, esc: char) {
    c == esc || c == '%' || c == '_'
  }

  /** The escape character must be followed by itself or a wildcard; any other use makes the pattern invalid. */
  function ParsePattern(p: string, esc: char): Option<seq<Item>> {
    if p == "" then Some([])
    else if p[0] == esc then
      if |p| > 1 && Special(p[1], esc) then Prepend(Exactly(p[1]), ParsePattern(p[2..], esc)) else None
    else
      var item := if p[0] == '%' then AnyString else if p[0] == '_' then AnyCharacter else Exactly(p[0]);
      Prepend(item, ParsePattern(p[1..], esc))
  }

  function Prepend(item: Item, rest: Option<seq<Item>>): Option<seq<Item>> {
    if rest.Some? then Some([item] + rest.value) else None
  }

  predicate Matches(items: seq<Item>, s: string)
    decreases |items|
  {
    if items == [] then s == ""
    else
      match items[0]
      case Exactly(c) => s != "" && s[0] == c && Matches(items[1..], s[1..])
      case AnyCharacter => s != "" && Matches(items[1..], s[1..])
      case AnyString => exists k :: 0 <= k <= |s| && Matches(items[1..], s[k..])
  }

  predicate Like(s: string, pattern: string, esc: char) {
    var items := ParsePattern(pattern, esc);
    items.Some? && Matches(items.value, s)
  }

  // ---- Escaping ----

  function ReplaceAll(s: string, c: char, rep: string): string {
    Join(Split(s, c), rep)
  }

  function EscapeLikeWildcards(value: string, esc: char): string {
    var escaped := ReplaceAll(value, esc, [esc, esc]);
    ReplaceAll(ReplaceAll(escaped, '%', [esc, '%']), '_', [esc, '_'])
  }

  function PrefixPattern(value: string, esc: char): string {
    EscapeLikeWildcards(value, esc) + "%"
  }

  /** Character by character: `f` of each, joined. */
  function PerChar(s: string, f: char -> string): string {
    if s == "" then "" else f(s[0]) + PerChar(s[1..], f)
  }

  function Swap(c: char, rep: string): char -> string {
    x => if x == c then rep else [x]
  }

  function EscapeOne(esc: char): char -> string {
    x => if Special(x, esc) then [esc, x] else [x]
  }

  lemma {:induction false} ReplaceAllIsPerChar(s: string, c: char, rep: string)
    ensures ReplaceAll(s, c, rep) == PerChar(s, Swap(c, rep))
  {
    if s != "" {
      ReplaceAllIsPerChar(s[1..], c, rep);
      var rest := Split(s[1..], c);
      if s[0] == c { JoinStep("", rest, rep); } else { JoinGrows(s[0], rest, rep); }
    }
  }

  lemma {:induction false} PerCharConcat(a: string, b: string, f: char -> string)
    ensures PerChar(a + b, f) == PerChar(a, f) + PerChar(b, f)
  {
    if a == "" {
      assert a + b == b;
    } else {
      PerCharConcat(a[1..], b, f);
      assert (a + b)[1..] == a[1..] + b;
    }
  }

  lemma {:induction false} ThreePasses(s: string, esc: char)
    requires esc != '%' && esc != '_'
    ensures PerChar(PerChar(PerChar(s, Swap(esc, [esc, esc])), Swap('%', [esc, '%'])), Swap('_', [esc, '_']))
            == PerChar(s, EscapeOne(esc))
  {
    var f, g, h := Swap(esc, [esc, esc]), Swap('%', [esc, '%']), Swap('_', [esc, '_']);
    if s != "" {
      var head, tail := f(s[0]), PerChar(s[1..], f);
      ThreePasses(s[1..], esc);
      PerCharConcat(head, tail, g);
      PerCharConcat(PerChar(head, g), PerChar(tail, g), h);
      assert head == (if s[0] == esc then [esc] + [esc] else [s[0]]);
      OneChar(s[0], g);
      OneChar(esc, g);
      OneChar(s[0], h);
      OneChar(esc, h);
      PerCharConcat([esc], [esc], g);
      PerCharConcat([esc], [esc], h);
      PerCharConcat([esc], ['%'], h);
      OneChar('%', h);
      assert [esc, '%'] == [esc] + ['%'];
      assert PerChar(PerChar(head, g), h) == EscapeOne(esc)(s[0]);
    }
  }

  lemma OneChar(c: char, f: char -> string)
    ensures PerChar([c], f) == f(c)
  {
  }

  /** The three whole-string replacements are one escape per special character. */
  lemma SequentialEscapeIsOnePass(value: string, esc: char)
    requires esc != '%' && esc != '_'
    ensures EscapeLikeWildcards(value, esc) == PerChar(value, EscapeOne(esc))
  {
    var once := ReplaceAll(value, esc, [esc, esc]);
    ReplaceAllIsPerChar(value, esc, [esc, esc]);
    ReplaceAllIsPerChar(once, '%', [esc, '%']);
    ReplaceAllIsPerChar(ReplaceAll(once, '%', [esc, '%']), '_', [esc, '_']);
    ThreePasses(value, esc);
  }

  // ---- Exactness ----

  function PrefixItems(v: string): seq<Item> {
    if v == "" then [AnyString] else [Exactly(v[0])] + PrefixItems(v[1..])
  }

  lemma LonePercent(esc: char)
    requires esc != '%'
    ensures ParsePattern("%", esc) == Some([AnyString])
  {
    assert "%"[1..] == "" && [AnyString] + [] == [AnyString];
  }

  lemma {:induction false} ParseEscaped(v: string, esc: char)
    requires esc != '%' && esc != '_'
    ensures ParsePattern(PerChar(v, EscapeOne(esc)) + "%", esc) == Some(PrefixItems(v))
  {
    var p := PerChar(v, EscapeOne(esc)) + "%";
    if v == "" {
      assert p == "%";
      LonePercent(esc);
    } else {
      ParseEscaped(v[1..], esc);
      var rest := PerChar(v[1..], EscapeOne(esc)) + "%";
      assert p == EscapeOne(esc)(v[0]) + rest;
      if Special(v[0], esc) {
        assert p[2..] == rest;
      } else {
        assert p[1..] == rest;
      }
    }
  }

  lemma {:induction false} PrefixItemsMatch(v: string, s: string)
    ensures Matches(PrefixItems(v), s) <==> IsPrefix(v, s)
  {
    if v == "" {
      assert s[|s|..] == "" && Matches([], s[|s|..]);
    } else if s != "" {
      PrefixItemsMatch(v[1..], s[1..]);
      assert IsPrefix(v, s) <==> v[0] == s[0] && IsPrefix(v[1..], s[1..]);
    }
  }

  /** The compiled pattern is valid and matches exactly the strings that start with the value. */
  lemma PrefixPatternIsExact(v: string, s: string, esc: char)
    requires esc != '%' && esc != '_'
    ensures ParsePattern(PrefixPattern(v, esc), esc).Some?
    ensures Like(s, PrefixPattern(v, esc), esc) <==> IsPrefix(v, s)
  {
    SequentialEscapeIsOnePass(v, esc);
    ParseEscaped(v, esc);
    PrefixItemsMatch(v, s);
  }

  /** The escape character must not be a wildcard itself: only then is the search exact for every value. */
  lemma ExactOnlyForNonWildcardEscapes(esc: char)
    ensures (forall v, s :: Like(s, PrefixPattern(v, esc), esc) <==> IsPrefix(v, s)) <==> esc != '%' && esc != '_'
  {
    if esc == '%' {
      assert PrefixPattern("", esc) == "%";
      assert !Like("", PrefixPattern("", esc), esc) && IsPrefix("", "");
    } else if esc == '_' {
      UnderscoreEscapesItself();
      assert !Like("_", PrefixPattern("_", esc), esc) && IsPrefix("_", "_");
    } else {
      forall v, s ensures Like(s, PrefixPattern(v, esc), esc) <==> IsPrefix(v, s) {
        PrefixPatternIsExact(v, s, esc);
      }
    }
  }

  lemma UnderscoreEscapesItself()
    ensures !Like("_", PrefixPattern("_", '_'), '_')
  {
    var once := ReplaceAll("_", '_', "__");
    ReplaceAllIsPerChar("_", '_', "__");
    OneChar('_', Swap('_', "__"));
    assert once == "__" == "_" + "_";
    ReplaceAllIsPerChar(once, '%', "_%");
    PerCharConcat("_", "_", Swap('%', "_%"));
    OneChar('_', Swap('%', "_%"));
    ReplaceAllIsPerChar("__", '_', "__");
    PerCharConcat("_", "_", Swap('_', "__"));
    var p := PrefixPattern("_", '_');
    assert p == "____%";
    assert p[2..] == "__%" && p[2..][2..] == "%" && "%"[1..] == "";
    LonePercent('_');
    assert ParsePattern("__%", '_') == Some([Exactly('_')] + [AnyString]);
    assert ParsePattern(p, '_') == Some([Exactly('_')] + ([Exactly('_')] + [AnyString]));
  }
}
