/** Quoted names in SQL text: reading them by the rule that a doubled quote stands for one, and what that rule makes
    of a name that was put between quotes as it is. */
module QuotedNames {
  import opened Common

  datatype Parsed<+T> = Fail | Got(value: T, rest: string)

  function Consing(c: char, p: Parsed<string>): (r: Parsed<string>)
    ensures r.Got? <==> p.Got?
    ensures r.Got? ==> r.rest == p.rest && r.value == [c] + p.value
  {
    match p
    case Fail => Fail
    case Got(v, rest) => Got([c] + v, rest)
  }

  /** The name up to its closing quote, and what follows the quote. */
  function ReadBody(q: char, s: string): (r: Parsed<string>)
    ensures r.Got? ==> |r.rest| < |s|
  {
    if s == "" then Fail
    else if s[0] == q then
      if |s| > 1 && s[1] == q then Consing(q, ReadBody(q, s[2..])) else Got("", s[1..])
    else Consing(s[0], ReadBody(q, s[1..]))
  }

  function ReadQuoted(open: char, close: char, s: string): (r: Parsed<string>)
    ensures r.Got? ==> |r.rest| < |s|
  {
    if s != "" && s[0] == open then ReadBody(close, s[1..]) else Fail
  }

  lemma {:induction false} PlainBody(q: char, name: string, rest: string)
    requires q !in name && (rest == "" || rest[0] != q)
    ensures ReadBody(q, name + ([q] + rest)) == Got(name, rest)
  {
    var s := name + ([q] + rest);
    if name == "" {
      assert s == [q] + rest && s[1..] == rest;
    } else {
      PlainBody(q, name[1..], rest);
      assert s[1..] == name[1..] + ([q] + rest);
      assert name == [name[0]] + name[1..];
    }
  }

  function Repeat(q: char, n: nat): string {
    if n == 0 then "" else [q] + Repeat(q, n - 1)
  }

  lemma {:induction false} RepeatAround(q: char, n: nat, tail: string)
    ensures Repeat(q, n) + ([q] + tail) == [q] + (Repeat(q, n) + tail)
  {
    if n == 0 {
      assert "" + ([q] + tail) == [q] + ("" + tail);
    } else {
      RepeatAround(q, n - 1, tail);
      Associate([q], Repeat(q, n - 1), [q] + tail);
      Associate([q], Repeat(q, n - 1), tail);
    }
  }

  /** Reading a bare name never gives the name with quotes put in front of it, nor a name that has quotes in it. */
  lemma {:induction false} QuotesAreLost(q: char, name: string, n: nat, rest: string)
    requires rest == "" || rest[0] != q
    requires n > 0 || q in name
    ensures ReadBody(q, name + ([q] + rest)).Got? ==>
              ReadBody(q, name + ([q] + rest)).value != Repeat(q, n) + name
    decreases |name|
  {
    var s := name + ([q] + rest);
    if name == "" {
      assert s == [q] + rest;
    } else if name[0] != q {
      if n == 0 { QuotesAreLost(q, name[1..], 0, rest); }
      PlainFirst(q, name, n, rest);
    } else if |name| == 1 {
      OneQuote(q, n, rest);
      assert name == [q];
    } else if name[1] != q {
      assert s[0] == q && s[1] == name[1];
    } else {
      QuotesAreLost(q, name[2..], n + 1, rest);
      TwoQuotes(q, name, n, rest);
    }
  }

  lemma PlainFirst(q: char, name: string, n: nat, rest: string)
    requires name != "" && name[0] != q
    requires n == 0 ==> var r := ReadBody(q, name[1..] + ([q] + rest)); r.Got? ==> r.value != Repeat(q, 0) + name[1..]
    ensures var r := ReadBody(q, name + ([q] + rest)); r.Got? ==> r.value != Repeat(q, n) + name
  {
    var s := name + ([q] + rest);
    assert s[1..] == name[1..] + ([q] + rest);
    if n == 0 {
      assert Repeat(q, 0) + name == name && Repeat(q, 0) + name[1..] == name[1..];
      FirstDropped(name[0], ReadBody(q, s[1..]));
    } else {
      assert (Repeat(q, n) + name)[0] == q;
    }
  }

  lemma OneQuote(q: char, n: nat, rest: string)
    requires rest == "" || rest[0] != q
    ensures var r := ReadBody(q, [q] + ([q] + rest)); r.Got? ==> r.value != Repeat(q, n) + [q]
  {
    var s := [q] + ([q] + rest);
    assert s[2..] == rest;
    RepeatAround(q, n, "");
    assert [q] + "" == [q] && Repeat(q, n) + "" == Repeat(q, n);
    assert (Repeat(q, n) + [q])[1..] == Repeat(q, n);
    FirstDropped(q, ReadBody(q, rest));
    ReadStartsWithText(q, rest);
  }

  lemma TwoQuotes(q: char, name: string, n: nat, rest: string)
    requires |name| > 1 && name[0] == q && name[1] == q
    requires var r := ReadBody(q, name[2..] + ([q] + rest)); r.Got? ==> r.value != Repeat(q, n + 1) + name[2..]
    ensures var r := ReadBody(q, name + ([q] + rest)); r.Got? ==> r.value != Repeat(q, n) + name
  {
    var s, tail := name + ([q] + rest), name[2..];
    assert s[2..] == tail + ([q] + rest);
    assert name == [q] + ([q] + tail);
    RepeatAround(q, n, [q] + tail);
    RepeatAround(q, n, tail);
    assert Repeat(q, n + 1) + tail == [q] + (Repeat(q, n) + tail);
    assert (Repeat(q, n) + name)[1..] == Repeat(q, n + 1) + tail;
    FirstDropped(q, ReadBody(q, s[2..]));
  }

  lemma FirstDropped(c: char, p: Parsed<string>)
    ensures p.Got? ==> Consing(c, p).value[1..] == p.value
  {
  }

  lemma ReadStartsWithText(q: char, rest: string)
    requires rest == "" || rest[0] != q
    ensures var r := ReadBody(q, rest); r.Got? ==> r.value != "" && r.value[0] != q
  {
  }

  /** A name put between quotes as it is reads back as itself exactly when it has no quote in it. */
  lemma BareReadsBackExactly(q: char, name: string, rest: string)
    requires rest == "" || rest[0] != q
    ensures q !in name ==> ReadBody(q, name + ([q] + rest)) == Got(name, rest)
    ensures q in name ==> var r := ReadBody(q, name + ([q] + rest)); r.Got? ==> r.value != name
  {
    if q in name {
      QuotesAreLost(q, name, 0, rest);
      assert Repeat(q, 0) + name == name;
    } else {
      PlainBody(q, name, rest);
    }
  }
}
