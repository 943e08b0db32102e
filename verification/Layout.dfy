/** Query text as literal chunks with numbered slots: the same layout filled with tokens before resolution and with
    placeholders after it. */
module Layout {
  import opened Common
  import opened ParamSink

  datatype Chunk = Lit(text: string) | Slot

  function Slots(chunks: seq<Chunk>): nat {
    if chunks == [] then 0 else (if chunks[0].Slot? then 1 else 0) + Slots(chunks[1..])
  }

  function Shape(c: Chunk, n: nat, fill: nat -> string): string {
    match c
    case Lit(text) => text
    case Slot => fill(n)
  }

  function Next(c: Chunk, n: nat): nat {
    if c.Slot? then n + 1 else n
  }

  /** The text, its slots filled from left to right with fill(n), fill(n + 1), ... */
  function Fill(chunks: seq<Chunk>, n: nat, fill: nat -> string): string {
    if chunks == [] then "" else Shape(chunks[0], n, fill) + Fill(chunks[1..], Next(chunks[0], n), fill)
  }

  lemma {:induction false} FillConcat(a: seq<Chunk>, b: seq<Chunk>, n: nat, fill: nat -> string)
    ensures Fill(a + b, n, fill) == Fill(a, n, fill) + Fill(b, n + Slots(a), fill)
    ensures Slots(a + b) == Slots(a) + Slots(b)
  {
    if a == [] {
      assert a + b == b;
    } else {
      var m := Next(a[0], n);
      assert (a + b)[1..] == a[1..] + b;
      FillConcat(a[1..], b, m, fill);
      Associate(Shape(a[0], n, fill), Fill(a[1..], m, fill), Fill(b, m + Slots(a[1..]), fill));
    }
  }

  lemma FillOne(c: Chunk, n: nat, fill: nat -> string)
    ensures Fill([c], n, fill) == Shape(c, n, fill)
    ensures Slots([c]) == if c.Slot? then 1 else 0
  {
    assert [c][1..] == [];
    assert Shape(c, n, fill) + "" == Shape(c, n, fill);
  }

  lemma FillTwo(c: Chunk, d: Chunk, n: nat, fill: nat -> string)
    ensures Fill([c, d], n, fill) == Shape(c, n, fill) + Shape(d, Next(c, n), fill)
    ensures Slots([c, d]) == Slots([c]) + Slots([d])
  {
    FillOne(c, n, fill);
    FillOne(d, Next(c, n), fill);
    FillConcat([c], [d], n, fill);
    assert [c, d] == [c] + [d];
  }

  // ---- From chunks to scanned pieces ----

  function Chars(s: string): (pieces: seq<Piece>)
    ensures |pieces| == |s| && forall i :: 0 <= i < |s| ==> pieces[i] == Plain(s[i])
  {
    seq(|s|, i requires 0 <= i < |s| => Plain(s[i]))
  }

  function ChunkPieces(c: Chunk, n: nat): seq<Piece> {
    match c
    case Lit(text) => Chars(text)
    case Slot => [Token(Decimal(n))]
  }

  function Pieces(chunks: seq<Chunk>, n: nat): seq<Piece> {
    if chunks == [] then [] else ChunkPieces(chunks[0], n) + Pieces(chunks[1..], Next(chunks[0], n))
  }

  ghost predicate CleanChunks(chunks: seq<Chunk>) {
    forall i :: 0 <= i < |chunks| && chunks[i].Lit? ==> TOKEN_CHAR !in chunks[i].text
  }

  lemma {:induction false} CharsMeaning(s: string, base: nat, placeholder: nat -> string)
    ensures Render(Chars(s)) == s && Tokens(Chars(s)) == [] && Substitute(Chars(s), base, placeholder) == s
  {
    if s != "" {
      assert Chars(s)[1..] == Chars(s[1..]);
      CharsMeaning(s[1..], base, placeholder);
    }
  }

  lemma ChunkMeaning(c: Chunk, n: nat, base: nat, placeholder: nat -> string)
    ensures Render(ChunkPieces(c, n)) == Shape(c, n, NthToken)
    ensures Tokens(ChunkPieces(c, n)) == if c.Slot? then [NthToken(n)] else []
    ensures Substitute(ChunkPieces(c, n), base, placeholder) == Shape(c, base + 1, placeholder)
  {
    match c {
      case Lit(text) => CharsMeaning(text, base, placeholder);
      case Slot =>
        assert ChunkPieces(c, n)[1..] == [];
        FlatMapOne(Token(Decimal(n)), TokenOf);
        assert placeholder(base + 1) + "" == placeholder(base + 1);
        assert NthToken(n) + "" == NthToken(n);
    }
  }

  function TokenRun(n: nat, count: nat): (ts: seq<string>)
    ensures |ts| == count && forall k :: 0 <= k < count ==> ts[k] == NthToken(n + k)
  {
    seq(count, k requires 0 <= k < count => NthToken(n + k))
  }

  lemma {:induction false} PiecesRender(chunks: seq<Chunk>, n: nat)
    ensures Render(Pieces(chunks, n)) == Fill(chunks, n, NthToken)
  {
    if chunks != [] {
      var c, rest, m := chunks[0], chunks[1..], Next(chunks[0], n);
      ChunkMeaning(c, n, 0, NthToken);
      PiecesRender(rest, m);
      RenderConcat(ChunkPieces(c, n), Pieces(rest, m));
    }
  }

  lemma {:induction false} PiecesTokens(chunks: seq<Chunk>, n: nat)
    ensures Tokens(Pieces(chunks, n)) == TokenRun(n, Slots(chunks))
  {
    if chunks != [] {
      var c, rest, m := chunks[0], chunks[1..], Next(chunks[0], n);
      ChunkMeaning(c, n, 0, NthToken);
      PiecesTokens(rest, m);
      FlatMapConcat(ChunkPieces(c, n), Pieces(rest, m), TokenOf);
      TokenRunOf(c, n, Slots(rest));
    }
  }

  lemma TokenRunOf(c: Chunk, n: nat, count: nat)
    ensures (if c.Slot? then [NthToken(n)] else []) + TokenRun(Next(c, n), count) ==
            TokenRun(n, (if c.Slot? then 1 else 0) + count)
  {
  }

  lemma {:induction false} PiecesSubstitute(chunks: seq<Chunk>, n: nat, base: nat, placeholder: nat -> string)
    ensures Substitute(Pieces(chunks, n), base, placeholder) == Fill(chunks, base + 1, placeholder)
  {
    if chunks != [] {
      var c, rest, m := chunks[0], chunks[1..], Next(chunks[0], n);
      ChunkMeaning(c, n, base, placeholder);
      var base' := base + |Tokens(ChunkPieces(c, n))|;
      PiecesSubstitute(rest, m, base', placeholder);
      SubstituteConcat(ChunkPieces(c, n), Pieces(rest, m), base, placeholder);
    }
  }

  lemma {:induction false} PiecesClean(chunks: seq<Chunk>, n: nat)
    requires CleanChunks(chunks)
    ensures CleanPieces(Pieces(chunks, n))
  {
    if chunks != [] {
      PiecesClean(chunks[1..], Next(chunks[0], n));
    }
  }

  /** A clean layout filled with a sink's own tokens, in push order, always resolves: the text becomes the same layout
      filled with placeholders 1, 2, 3, ... and the parameters are the pushed values in order. */
  lemma LayoutResolves<V>(chunks: seq<Chunk>, recorded: map<string, V>, pushed: seq<V>, placeholder: nat -> string)
    requires CleanChunks(chunks) && Records(recorded, pushed) && |pushed| == Slots(chunks)
    ensures var pieces := Scan(Fill(chunks, 0, NthToken));
            && ExactlyOnce(recorded, Tokens(pieces))
            && Bound(recorded, Tokens(pieces)) == pushed
            && Substitute(pieces, 0, placeholder) == Fill(chunks, 1, placeholder)
  {
    ScanOfLayout(chunks);
    LayoutBinds(chunks, recorded, pushed, Scan(Fill(chunks, 0, NthToken)), placeholder);
  }

  lemma LayoutBinds<V>(chunks: seq<Chunk>, recorded: map<string, V>, pushed: seq<V>, pieces: seq<Piece>,
                       placeholder: nat -> string)
    requires Records(recorded, pushed) && |pushed| == Slots(chunks) && pieces == Pieces(chunks, 0)
    ensures ExactlyOnce(recorded, Tokens(pieces)) && Bound(recorded, Tokens(pieces)) == pushed
    ensures Substitute(pieces, 0, placeholder) == Fill(chunks, 1, placeholder)
  {
    PiecesTokens(chunks, 0);
    PushOrderBinds(recorded, pushed, TokenRun(0, |pushed|));
    PiecesSubstitute(chunks, 0, 0, placeholder);
  }

  /** Tokens that stand in push order bind the pushed values as they are. */
  lemma PushOrderBinds<V>(recorded: map<string, V>, pushed: seq<V>, tokens: seq<string>)
    requires Records(recorded, pushed)
    requires |tokens| == |pushed| && forall k :: 0 <= k < |pushed| ==> tokens[k] == NthToken(k)
    ensures ExactlyOnce(recorded, tokens) && Bound(recorded, tokens) == pushed
  {
    var order := Identity(|pushed|);
    IdentityRearranges(|pushed|);
    OrderedTokensExactlyOnce(recorded, pushed, order);
    assert tokens == TokensInOrder(order);
  }

  lemma ScanOfLayout(chunks: seq<Chunk>)
    requires CleanChunks(chunks)
    ensures Scan(Fill(chunks, 0, NthToken)) == Pieces(chunks, 0)
  {
    PiecesRender(chunks, 0);
    PiecesClean(chunks, 0);
    ScanInvertsRender(Pieces(chunks, 0));
  }

  function Identity(n: nat): (order: seq<nat>)
    ensures |order| == n && forall k :: 0 <= k < n ==> order[k] == k
  {
    seq(n, k requires 0 <= k < n => k)
  }

  lemma IdentityRearranges(n: nat)
    ensures Rearranges(Identity(n), n)
  {
    forall i: nat | i < n ensures i in Identity(n) {
      assert Identity(n)[i] in Identity(n);
    }
  }
}
