/** Token-based parameter binding: values are recorded under opaque tokens embedded in SQL text, and bound in the order
    the finished text shows them. */
module ParamSink {
  import opened Common

  const TOKEN_CHAR: char := '\0'

  // ---- Tokens and the scan for them ----

  datatype Piece = Plain(c: char) | Token(digits: string)

  function TokenText(digits: string): string {
    [TOKEN_CHAR] + digits + [TOKEN_CHAR]
  }

  function NthToken(n: nat): string {
    TokenText(Decimal(n))
  }

  /** The length of the token the text starts with, or 0: delimiter, at least one digit, delimiter. */
  function TokenLength(s: string): (n: nat)
    ensures n == 0 || 3 <= n <= |s|
    ensures n > 0 ==> AllDigits(s[1..n - 1]) && s[..n] == TokenText(s[1..n - 1])
  {
    if s == "" || s[0] != TOKEN_CHAR then 0
    else
      var k := DigitRun(s[1..]);
      if k > 0 && 1 + k < |s| && s[1 + k] == TOKEN_CHAR then
        assert s[1..][..k] == s[1..k + 1];
        k + 2
      else 0
  }

  /** The global left-to-right match: each token where it starts, every other character by itself. */
  function Scan(s: string): seq<Piece> {
    if s == "" then []
    else
      var n := TokenLength(s);
      if n > 0 then [Token(s[1..n - 1])] + Scan(s[n..]) else [Plain(s[0])] + Scan(s[1..])
  }

  function PieceText(p: Piece): string {
    match p
    case Plain(c) => [c]
    case Token(digits) => TokenText(digits)
  }

  function Render(pieces: seq<Piece>): string {
    if pieces == [] then "" else PieceText(pieces[0]) + Render(pieces[1..])
  }

  /** Pieces a caller may lay out: text free of the delimiter, and tokens with decimal names. */
  predicate CleanPiece(p: Piece) {
    match p
    case Plain(c) => c != TOKEN_CHAR
    case Token(digits) => digits != "" && AllDigits(digits)
  }

  predicate CleanPieces(pieces: seq<Piece>) {
    forall i :: 0 <= i < |pieces| ==> CleanPiece(pieces[i])
  }

  lemma TokenLengthOfToken(digits: string, rest: string)
    requires digits != "" && AllDigits(digits)
    ensures TokenLength(TokenText(digits) + rest) == |digits| + 2
  {
    var s := TokenText(digits) + rest;
    assert s[1..] == digits + ([TOKEN_CHAR] + rest);
    DigitRunStops(digits, [TOKEN_CHAR] + rest);
  }

  /** Scanning undoes rendering, whatever tokens the text holds and wherever they stand. */
  lemma {:induction false} ScanInvertsRender(pieces: seq<Piece>)
    requires CleanPieces(pieces)
    ensures Scan(Render(pieces)) == pieces
  {
    if pieces != [] {
      ScanInvertsRender(pieces[1..]);
      ScanFirst(pieces[0], Render(pieces[1..]));
    }
  }

  lemma ScanFirst(p: Piece, rest: string)
    requires CleanPiece(p)
    ensures Scan(PieceText(p) + rest) == [p] + Scan(rest)
  {
    var s := PieceText(p) + rest;
    match p {
      case Plain(c) => assert s[1..] == rest;
      case Token(digits) =>
        TokenLengthOfToken(digits, rest);
        assert s[|digits| + 2..] == rest;
        assert s[1..|digits| + 1] == digits;
    }
  }

  /** Scanning loses nothing: any text at all is the rendering of its pieces. */
  lemma {:induction false} RenderInvertsScan(s: string)
    ensures Render(Scan(s)) == s
    decreases |s|
  {
    if s != "" {
      var p, rest := FirstPiece(s);
      RenderInvertsScan(rest);
      RenderFirst(p, Scan(rest));
    }
  }

  lemma FirstPiece(s: string) returns (p: Piece, rest: string)
    requires s != ""
    ensures |rest| < |s| && PieceText(p) + rest == s && Scan(s) == [p] + Scan(rest)
  {
    var n := TokenLength(s);
    if n > 0 {
      p, rest := Token(s[1..n - 1]), s[n..];
    } else {
      p, rest := Plain(s[0]), s[1..];
    }
  }

  lemma RenderFirst(p: Piece, rest: seq<Piece>)
    ensures Render([p] + rest) == PieceText(p) + Render(rest)
  {
    assert ([p] + rest)[1..] == rest;
  }

  lemma {:induction false} RenderConcat(a: seq<Piece>, b: seq<Piece>)
    ensures Render(a + b) == Render(a) + Render(b)
  {
    if a == [] {
      assert a + b == b;
    } else {
      assert (a + b)[1..] == a[1..] + b;
      RenderConcat(a[1..], b);
    }
  }

  // ---- The sink ----

  class Sink<V> {
    var recorded: map<string, V>
    var n: nat
    ghost var pushed: seq<V>  // the values, in call order

    ghost predicate Valid()
      reads this
    {
      recorded == Recorded(pushed) && n == |pushed|
    }

    constructor ()
      ensures Valid() && pushed == []
    {
      recorded, n, pushed := map[], 0, [];
    }

    method Push(value: V) returns (token: string)
      requires Valid()
      modifies this
      ensures Valid() && pushed == old(pushed) + [value]
      ensures token == NthToken(|old(pushed)|)
    {
      token := NthToken(n);
      n := n + 1;
      recorded := recorded[token := value];
      assert (pushed + [value])[..|pushed|] == pushed;
      pushed := pushed + [value];
    }
  }

  lemma NthTokenInjective(j: nat, k: nat)
    requires NthToken(j) == NthToken(k)
    ensures j == k
  {
    assert NthToken(j)[1..|NthToken(j)| - 1] == Decimal(j);
    assert NthToken(k)[1..|NthToken(k)| - 1] == Decimal(k);
    DecimalInjective(j, k);
  }

  /** Each pushed value under its own token. */
  ghost function Recorded<V>(pushed: seq<V>): map<string, V> {
    if pushed == [] then map[]
    else Recorded(pushed[..|pushed| - 1])[NthToken(|pushed| - 1) := pushed[|pushed| - 1]]
  }

  lemma {:induction false} RecordedHoldsAll<V>(pushed: seq<V>)
    ensures Records(Recorded(pushed), pushed)
  {
    if pushed != [] {
      var init, n := pushed[..|pushed| - 1], |pushed| - 1;
      RecordedHoldsAll(init);
      forall k | 0 <= k < n ensures NthToken(k) != NthToken(n) {
        if NthToken(k) == NthToken(n) { NthTokenInjective(k, n); }
      }
      PushedOnTop(Recorded(init), init, pushed[n]);
      assert init + [pushed[n]] == pushed;
    }
  }

  lemma PushedOnTop<V>(recorded: map<string, V>, pushed: seq<V>, value: V)
    requires Records(recorded, pushed)
    requires forall k :: 0 <= k < |pushed| ==> NthToken(k) != NthToken(|pushed|)
    ensures Records(recorded[NthToken(|pushed|) := value], pushed + [value])
  {
  }

  /** `recorded` holds the k-th pushed value under the k-th token, and nothing else. */
  ghost predicate Records<V>(recorded: map<string, V>, pushed: seq<V>) {
    && (forall k :: 0 <= k < |pushed| ==> NthToken(k) in recorded && recorded[NthToken(k)] == pushed[k])
    && (forall t :: t in recorded ==> exists k :: 0 <= k < |pushed| && t == NthToken(k))
  }

  // ---- Resolution ----

  datatype Resolved<V> = Resolved(sql: string, params: seq<V>)

  datatype BindError = Duplicate(token: string) | Foreign(token: string) | Orphaned(count: nat)

  function TokenOf(p: Piece): seq<string> {
    if p.Token? then [TokenText(p.digits)] else []
  }

  /** The tokens of a text, left to right. */
  function Tokens(pieces: seq<Piece>): seq<string> {
    FlatMap(pieces, TokenOf)
  }

  /** The text with its k-th token replaced by placeholder number base + k, counting from 1. */
  function Substitute(pieces: seq<Piece>, base: nat, placeholder: nat -> string): string {
    if pieces == [] then ""
    else
      Shown(pieces[0], base, placeholder) + Substitute(pieces[1..], base + |TokenOf(pieces[0])|, placeholder)
  }

  /** A piece as it stands in the final text when `before` tokens precede it. */
  function Shown(p: Piece, before: nat, placeholder: nat -> string): string {
    if p.Token? then placeholder(before + 1) else [p.c]
  }

  lemma {:induction false} SubstituteConcat(a: seq<Piece>, b: seq<Piece>, base: nat, placeholder: nat -> string)
    ensures Substitute(a + b, base, placeholder) ==
            Substitute(a, base, placeholder) + Substitute(b, base + |Tokens(a)|, placeholder)
  {
    if a == [] {
      assert a + b == b;
    } else {
      var next := base + |TokenOf(a[0])|;
      assert (a + b)[1..] == a[1..] + b;
      SubstituteConcat(a[1..], b, next, placeholder);
      Associate(Shown(a[0], base, placeholder), Substitute(a[1..], next, placeholder),
                Substitute(b, base + |Tokens(a)|, placeholder));
    }
  }

  function Bound<V>(recorded: map<string, V>, tokens: seq<string>): (params: seq<V>)
    requires forall t :: t in tokens ==> t in recorded
    ensures |params| == |tokens| && forall k :: 0 <= k < |tokens| ==> params[k] == recorded[tokens[k]]
  {
    seq(|tokens|, k requires 0 <= k < |tokens| => recorded[tokens[k]])
  }

  /** The first k tokens are recorded ones, each seen once. */
  ghost predicate GoodSoFar<V>(recorded: map<string, V>, tokens: seq<string>, k: nat) {
    && k <= |tokens|
    && NoRepeats(tokens[..k])
    && forall i :: 0 <= i < k ==> tokens[i] in recorded
  }

  /** The error names the first token that is not good, or counts the recorded tokens the text never shows. */
  ghost predicate Faulty<V>(recorded: map<string, V>, tokens: seq<string>, e: BindError) {
    match e
    case Duplicate(t) =>
      exists k :: 0 <= k < |tokens| && GoodSoFar(recorded, tokens, k) && tokens[k] == t && t in tokens[..k]
    case Foreign(t) =>
      exists k :: 0 <= k < |tokens| && GoodSoFar(recorded, tokens, k) && tokens[k] == t
                  && t !in tokens[..k] && t !in recorded
    case Orphaned(count) =>
      NoRepeats(tokens) && (forall t :: t in tokens ==> t in recorded)
      && count > 0 && count + |tokens| == |recorded|
  }

  /** Every recorded token stands in the text exactly once, and no other token does. */
  ghost predicate ExactlyOnce<V>(recorded: map<string, V>, tokens: seq<string>) {
    NoRepeats(tokens) && forall t :: t in tokens <==> t in recorded
  }

  method ResolveParamSink<V>(recorded: map<string, V>, sql: string, placeholder: nat -> string)
    returns (r: Result<Resolved<V>, BindError>)
    ensures r.Ok? <==> ExactlyOnce(recorded, Tokens(Scan(sql)))
    ensures r.Ok? ==>
              && r.value.sql == Substitute(Scan(sql), 0, placeholder)
              && r.value.params == Bound(recorded, Tokens(Scan(sql)))
              && |r.value.params| == |recorded|
    ensures r.Err? ==> Faulty(recorded, Tokens(Scan(sql)), r.error)
  {
    var pieces := Scan(sql);
    var params, resolved := [], "";
    var seen: set<string> := {};
    for i := 0 to |pieces|
      invariant Binding(recorded, Tokens(pieces[..i]), seen, params)
      invariant resolved == Substitute(pieces[..i], 0, placeholder)
    {
      ghost var before := Tokens(pieces[..i]);
      SplitAt(pieces, i, placeholder);
      match pieces[i] {
        case Token(digits) =>
          var fault;
          fault, seen, params := OnMatch(recorded, TokenText(digits), seen, params, before, Tokens(pieces[i + 1..]));
          if fault.Some? { return Err(fault.value); }
          resolved := resolved + placeholder(|params|);
        case Plain(c) =>
          resolved := resolved + [c];
      }
    }
    assert pieces[..|pieces|] == pieces;
    AllBound(recorded, Tokens(pieces), seen, params);
    if |seen| != |recorded| {
      return Err(Orphaned(|recorded| - |seen|));
    }
    return Ok(Resolved(resolved, params));
  }

  /** The replacement callback: refuses a token met before or never recorded, otherwise binds its value next. */
  method OnMatch<V>(recorded: map<string, V>, token: string, seen0: set<string>, params0: seq<V>,
                    ghost before: seq<string>, ghost after: seq<string>)
    returns (fault: Option<BindError>, seen: set<string>, params: seq<V>)
    requires Binding(recorded, before, seen0, params0)
    ensures fault.Some? ==>
              var all := before + [token] + after;
              Faulty(recorded, all, fault.value) && !ExactlyOnce(recorded, all)
    ensures fault.None? ==> Binding(recorded, before + [token], seen, params) && |params| == |before| + 1
  {
    FirstFault(recorded, before, seen0, params0, token, after);
    seen, params := seen0, params0;
    if token in seen { return Some(Duplicate(token)), seen, params; }
    if token !in recorded { return Some(Foreign(token)), seen, params; }
    return None, seen + {token}, params + [recorded[token]];
  }

  /** What the scan has collected after meeting `tokens`. */
  ghost predicate Binding<V>(recorded: map<string, V>, tokens: seq<string>, seen: set<string>, params: seq<V>) {
    && NoRepeats(tokens)
    && (forall t :: t in tokens ==> t in recorded)
    && seen == Distinct(tokens) && |seen| == |tokens|
    && params == Bound(recorded, tokens)
  }

  /** The next token is either bound, or it is the first fault of the text. */
  lemma FirstFault<V>(recorded: map<string, V>, before: seq<string>, seen: set<string>, params: seq<V>,
                      token: string, after: seq<string>)
    requires Binding(recorded, before, seen, params)
    ensures var all := before + [token] + after;
            && (token in seen ==> Faulty(recorded, all, Duplicate(token)))
            && (token !in seen && token !in recorded ==> Faulty(recorded, all, Foreign(token)))
            && (token in seen || token !in recorded ==> !ExactlyOnce(recorded, all))
    ensures token !in seen && token in recorded ==>
              Binding(recorded, before + [token], seen + {token}, params + [recorded[token]])
  {
    var all := before + [token] + after;
    assert all[..|before|] == before && all[|before|] == token && token in all;
    assert GoodSoFar(recorded, all, |before|);
    assert forall t :: t in before + [token] <==> t in before || t == token;
    if token in seen {
      var k :| 0 <= k < |before| && before[k] == token;
      assert all[k] == all[|before|];
    }
  }

  ghost function Distinct(tokens: seq<string>): set<string> {
    set t | t in tokens
  }

  lemma SplitAt(pieces: seq<Piece>, i: nat, placeholder: nat -> string)
    requires i < |pieces|
    ensures Tokens(pieces[..i + 1]) == Tokens(pieces[..i]) + TokenOf(pieces[i])
    ensures Tokens(pieces) == Tokens(pieces[..i]) + TokenOf(pieces[i]) + Tokens(pieces[i + 1..])
    ensures Substitute(pieces[..i + 1], 0, placeholder) ==
            Substitute(pieces[..i], 0, placeholder) + Shown(pieces[i], |Tokens(pieces[..i])|, placeholder)
  {
    var done, piece, later := pieces[..i], pieces[i], pieces[i + 1..];
    assert pieces[..i + 1] == done + [piece];
    assert pieces == done + [piece] + later;
    FlatMapConcat(done, [piece], TokenOf);
    FlatMapConcat(done + [piece], later, TokenOf);
    SubstituteConcat(done, [piece], 0, placeholder);
  }

  /** Comparing the two sizes at the end tells whether every recorded token was seen. */
  lemma AllBound<V>(recorded: map<string, V>, tokens: seq<string>, seen: set<string>, params: seq<V>)
    requires Binding(recorded, tokens, seen, params)
    ensures |seen| == |tokens| <= |recorded|
    ensures |seen| == |recorded| <==> ExactlyOnce(recorded, tokens)
  {
    var missing := recorded.Keys - seen;
    assert recorded.Keys == seen + missing;
    assert |recorded.Keys| == |seen| + |missing|;
    if ExactlyOnce(recorded, tokens) {
      assert missing == {};
    }
  }

  // ---- What a successful resolution binds ----

  lemma BoundConcat<V>(recorded: map<string, V>, a: seq<string>, b: seq<string>)
    requires forall t :: t in a || t in b ==> t in recorded
    ensures Bound(recorded, a + b) == Bound(recorded, a) + Bound(recorded, b)
  {
  }

  /** Taking one token out takes its value out. */
  lemma BoundWithout<V>(recorded: map<string, V>, s: seq<string>, j: nat) returns (rest: seq<string>)
    requires j < |s| && forall t :: t in s ==> t in recorded
    ensures rest == s[..j] + s[j + 1..] && forall t :: t in rest ==> t in recorded
    ensures multiset(Bound(recorded, s)) == multiset(Bound(recorded, rest)) + multiset{recorded[s[j]]}
    ensures multiset(s) == multiset(rest) + multiset{s[j]}
  {
    rest := s[..j] + s[j + 1..];
    assert s == s[..j] + ([s[j]] + s[j + 1..]);
    BoundConcat(recorded, s[..j], s[j + 1..]);
    BoundAround(recorded, s[..j], s[j], s[j + 1..]);
    TakenOut(s[..j], s[j], s[j + 1..]);
    TakenOut(Bound(recorded, s[..j]), recorded[s[j]], Bound(recorded, s[j + 1..]));
  }

  lemma BoundAround<V>(recorded: map<string, V>, a: seq<string>, t: string, b: seq<string>)
    requires t in recorded && forall u :: u in a || u in b ==> u in recorded
    ensures forall u :: u in a + ([t] + b) ==> u in recorded
    ensures Bound(recorded, a + ([t] + b)) == Bound(recorded, a) + ([recorded[t]] + Bound(recorded, b))
  {
    BoundConcat(recorded, [t], b);
    BoundConcat(recorded, a, [t] + b);
  }

  lemma TakenOut<T>(a: seq<T>, t: T, b: seq<T>)
    ensures multiset(a + ([t] + b)) == multiset(a + b) + multiset{t}
  {
  }

  lemma {:induction false} MultisetOfBound<V>(recorded: map<string, V>, a: seq<string>, b: seq<string>)
    requires forall t :: t in a || t in b ==> t in recorded
    requires multiset(a) == multiset(b)
    ensures multiset(Bound(recorded, a)) == multiset(Bound(recorded, b))
    decreases |a|
  {
    assert |multiset(a)| == |a| && |multiset(b)| == |b|;
    if a != [] {
      assert a[0] in multiset(b);
      var j :| 0 <= j < |b| && b[j] == a[0];
      var a' := BoundWithout(recorded, a, 0);
      var b' := BoundWithout(recorded, b, j);
      CancelOne(multiset(a'), multiset(b'), a[0]);
      MultisetOfBound(recorded, a', b');
    }
  }

  function FirstTokens(n: nat): (ts: seq<string>)
    ensures |ts| == n && forall k :: 0 <= k < n ==> ts[k] == NthToken(k)
  {
    seq(n, k requires 0 <= k < n => NthToken(k))
  }

  /** On success the parameters are a rearrangement of the pushed values: none lost, none doubled. */
  lemma ParamsArePermutation<V>(recorded: map<string, V>, pushed: seq<V>, tokens: seq<string>)
    requires Records(recorded, pushed) && ExactlyOnce(recorded, tokens)
    ensures multiset(Bound(recorded, tokens)) == multiset(pushed)
  {
    var all := FirstTokens(|pushed|);
    forall i, j | 0 <= i < j < |all| ensures all[i] != all[j] {
      if all[i] == all[j] { NthTokenInjective(i, j); }
    }
    forall t ensures t in tokens <==> t in all {
      if t in recorded {
        var k :| 0 <= k < |pushed| && t == NthToken(k);
        assert all[k] == t;
      }
    }
    CountedOnce(tokens);
    CountedOnce(all);
    assert multiset(tokens) == multiset(all);
    MultisetOfBound(recorded, tokens, all);
    assert Bound(recorded, all) == pushed;
  }

  function TokensInOrder(order: seq<nat>): (ts: seq<string>)
    ensures |ts| == |order| && forall k :: 0 <= k < |order| ==> ts[k] == NthToken(order[k])
  {
    seq(|order|, k requires 0 <= k < |order| => NthToken(order[k]))
  }

  /** A rearrangement of the numbers below n. */
  ghost predicate Rearranges(order: seq<nat>, n: nat) {
    && NoRepeats(order)
    && (forall k :: 0 <= k < |order| ==> order[k] < n)
    && forall i :: 0 <= i < n ==> i in order
  }

  lemma OrderedTokensExactlyOnce<V>(recorded: map<string, V>, pushed: seq<V>, order: seq<nat>)
    requires Records(recorded, pushed) && Rearranges(order, |pushed|)
    ensures ExactlyOnce(recorded, TokensInOrder(order))
  {
    var tokens := TokensInOrder(order);
    forall i, j | 0 <= i < j < |tokens| ensures tokens[i] != tokens[j] {
      if tokens[i] == tokens[j] { NthTokenInjective(order[i], order[j]); }
    }
    forall t ensures t in tokens <==> t in recorded {
      if t in recorded {
        var n :| 0 <= n < |pushed| && t == NthToken(n);
        assert n in order;
        var k :| 0 <= k < |order| && order[k] == n;
        assert tokens[k] == t;
      }
    }
  }

  /** A text laid out from clean pieces that shows the sink's tokens in any order, each once, resolves, and its k-th
      placeholder binds the value of the k-th token in the text: physical order decides, push order does not. */
  lemma TextOrderBinds<V>(recorded: map<string, V>, pushed: seq<V>, pieces: seq<Piece>, order: seq<nat>)
    requires Records(recorded, pushed) && Rearranges(order, |pushed|)
    requires CleanPieces(pieces) && Tokens(pieces) == TokensInOrder(order)
    ensures Scan(Render(pieces)) == pieces
    ensures ExactlyOnce(recorded, Tokens(pieces))
    ensures forall k :: 0 <= k < |order| ==> Bound(recorded, Tokens(pieces))[k] == pushed[order[k]]
  {
    ScanInvertsRender(pieces);
    OrderedTokensExactlyOnce(recorded, pushed, order);
  }
}
