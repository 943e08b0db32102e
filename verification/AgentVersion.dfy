/** `isAgentVersionTooOld`: dot-separated numeric version comparison. */
module AgentVersion {
  import opened Common
  import StableSort

  // ---- Segments ----

  /** `parseInt(part, 10) || 0`: leading white space, a sign, then as many digits as there are; 0 when there are
      none. */
  function ParseSegment(part: string): int {
    var s := SkipSpaces(part);
    var signed := s != "" && (s[0] == '-' || s[0] == '+');
    var digits := if signed then s[1..] else s;
    var n: int := DecimalValue(digits[..DigitRun(digits)]);
    if signed && s[0] == '-' then -n else n
  }

  /** A decimal number reads as itself, with a minus sign as its negative, whatever but a digit stands behind it. */
  lemma SegmentReadsBack(n: nat, rest: string)
    requires rest == "" || !IsDigit(rest[0])
    ensures ParseSegment(Decimal(n) + rest) == n
    ensures ParseSegment("-" + (Decimal(n) + rest)) == 0 - n
    ensures ParseSegment("+" + (Decimal(n) + rest)) == n
  {
    var s := Decimal(n) + rest;
    assert s[0] == Decimal(n)[0] && IsDigit(s[0]) && SkipSpaces(s) == s;
    DigitRunStops(Decimal(n), rest);
    DecimalRoundTrip(n);
    assert s[..|Decimal(n)|] == Decimal(n);
    var minus, plus := "-" + s, "+" + s;
    assert minus[0] == '-' && minus[1..] == s && SkipSpaces(minus) == minus;
    assert plus[0] == '+' && plus[1..] == s && SkipSpaces(plus) == plus;
  }

  /** Text in which no number starts counts as 0. */
  lemma OtherTextIsZero(part: string)
    requires part == "" || (!IsDigit(part[0]) && !IsSpace(part[0]) && part[0] != '-' && part[0] != '+')
    ensures ParseSegment(part) == 0
  {
    assert part[..0] == "";
  }

  function Segments(version: string): (segments: seq<int>)
    ensures |segments| > 0
  {
    Map(Split(version, '.'), ParseSegment)
  }

  /** A missing segment counts as 0. */
  function At(a: seq<int>, i: nat): int {
    if i < |a| then a[i] else 0
  }

  ghost predicate SameUpTo(a: seq<int>, b: seq<int>, i: nat) {
    forall j: nat :: j < i ==> At(a, j) == At(b, j)
  }

  /** At the first segment where they differ, a has the smaller one. */
  ghost predicate Older(a: seq<int>, b: seq<int>) {
    exists i: nat :: SameUpTo(a, b, i) && At(a, i) < At(b, i)
  }

  method IsAgentVersionTooOld(version: string, minVersion: string) returns (tooOld: bool)
    ensures tooOld <==> Older(Segments(version), Segments(minVersion))
  {
    var a := Segments(version);
    var b := Segments(minVersion);
    var len := if |a| > |b| then |a| else |b|;
    for i := 0 to len
      invariant SameUpTo(a, b, i)
    {
      var ai := if i < |a| then a[i] else 0;
      var bi := if i < |b| then b[i] else 0;
      if ai != bi {
        assert SameUpTo(b, a, i);
        OlderIsAsymmetric(a, b);
        return ai < bi;
      }
    }
    return false;
  }

  /** Versions of three numbers compare as their numbers do, one after the other. */
  lemma NumbersCompare(a: nat, b: nat, c: nat, a': nat, b': nat, c': nat)
    ensures Older(Segments(VersionText(a, b, c)), Segments(VersionText(a', b', c'))) <==>
            a < a' || (a == a' && (b < b' || (b == b' && c < c')))
  {
    ThreeSegments(a, b, c);
    ThreeSegments(a', b', c');
    TriplesCompare(a, b, c, a', b', c');
  }

  lemma TriplesCompare(a: int, b: int, c: int, a': int, b': int, c': int)
    ensures Older([a, b, c], [a', b', c']) <==> a < a' || (a == a' && (b < b' || (b == b' && c < c')))
  {
    var x, y := [a, b, c], [a', b', c'];
    assert At(x, 0) == a && At(x, 1) == b && At(x, 2) == c && At(y, 0) == a' && At(y, 1) == b' && At(y, 2) == c';
    assert SameUpTo(x, y, 0) && (a == a' ==> SameUpTo(x, y, 1)) && (a == a' && b == b' ==> SameUpTo(x, y, 2));
  }

  function VersionText(a: nat, b: nat, c: nat): string {
    Decimal(a) + ("." + (Decimal(b) + ("." + Decimal(c))))
  }

  lemma ThreeSegments(a: nat, b: nat, c: nat)
    ensures Segments(VersionText(a, b, c)) == [a, b, c]
  {
    NoDots(Decimal(a));
    NoDots(Decimal(b));
    NoDots(Decimal(c));
    SplitTwoDots(Decimal(a), Decimal(b), Decimal(c));
    NumberAlone(a);
    NumberAlone(b);
    NumberAlone(c);
  }

  lemma NoDots(s: string)
    requires AllDigits(s)
    ensures '.' !in s
  {
  }

  lemma NumberAlone(n: nat)
    ensures ParseSegment(Decimal(n)) == n
  {
    SegmentReadsBack(n, "");
    assert Decimal(n) + "" == Decimal(n);
  }

  /** Segments are compared as numbers: 0.10.0 is newer than 0.9.2. */
  lemma TenIsNewerThanNine()
    ensures Older(Segments("0.9.2"), Segments("0.10.0"))
  {
    assert Decimal(10) == Decimal(1) + "0" && Decimal(1) == "1" && "1" + "0" == "10";
    assert VersionText(0, 9, 2) == "0.9.2";
    assert VersionText(0, 10, 0) == "0.10.0";
    NumbersCompare(0, 9, 2, 0, 10, 0);
  }

  lemma {:induction false} SplitFirst(part: string, rest: string)
    requires '.' !in part
    ensures Split(part + ("." + rest), '.') == [part] + Split(rest, '.')
  {
    var s := part + ("." + rest);
    if part == "" {
      assert s[1..] == rest;
    } else {
      assert s[1..] == part[1..] + ("." + rest);
      SplitFirst(part[1..], rest);
      assert part == [part[0]] + part[1..];
    }
  }

  lemma {:induction false} SplitNone(part: string)
    requires '.' !in part
    ensures Split(part, '.') == [part]
  {
    if part != "" {
      SplitNone(part[1..]);
      assert part == [part[0]] + part[1..];
    }
  }

  lemma SplitTwoDots(a: string, b: string, c: string)
    requires '.' !in a && '.' !in b && '.' !in c
    ensures Split(a + ("." + (b + ("." + c))), '.') == [a, b, c]
  {
    SplitFirst(a, b + ("." + c));
    SplitFirst(b, c);
    SplitNone(c);
  }

  // ---- The order ----

  lemma OlderIsAsymmetric(a: seq<int>, b: seq<int>)
    ensures Older(a, b) ==> !Older(b, a)
  {
  }

  lemma OlderIsTransitive(a: seq<int>, b: seq<int>, c: seq<int>)
    requires Older(a, b) && Older(b, c)
    ensures Older(a, c)
  {
    var i: nat :| SameUpTo(a, b, i) && At(a, i) < At(b, i);
    var j: nat :| SameUpTo(b, c, j) && At(b, j) < At(c, j);
    var k := if i < j then i else j;
    assert SameUpTo(a, c, k) && At(a, k) < At(c, k);
  }

  /** Equal once both are continued with zeros. */
  ghost predicate SameVersion(a: seq<int>, b: seq<int>) {
    forall i: nat :: At(a, i) == At(b, i)
  }

  lemma {:induction false} FirstDifference(a: seq<int>, b: seq<int>, n: nat)
    requires At(a, n) != At(b, n)
    ensures Older(a, b) || Older(b, a)
    decreases n
  {
    if SameUpTo(a, b, n) {
      assert SameUpTo(b, a, n);
      if At(a, n) < At(b, n) { assert Older(a, b); } else { assert Older(b, a); }
    } else {
      var j: nat :| j < n && At(a, j) != At(b, j);
      FirstDifference(a, b, j);
    }
  }

  /** Exactly one of: older, newer, the same up to trailing zeros. */
  lemma Trichotomy(a: seq<int>, b: seq<int>)
    ensures SameVersion(a, b) <==> !Older(a, b) && !Older(b, a)
    ensures !(Older(a, b) && Older(b, a))
  {
    OlderIsAsymmetric(a, b);
    if !SameVersion(a, b) {
      var n: nat :| At(a, n) != At(b, n);
      FirstDifference(a, b, n);
    }
  }

  ghost function OlderOrder(): (seq<int>, seq<int>) -> bool {
    (a, b) => Older(a, b)
  }

  lemma OlderIsStrictWeakOrder()
    ensures StableSort.StrictWeakOrder(OlderOrder())
  {
    var older := OlderOrder();
    forall a ensures !older(a, a) { OlderIsAsymmetric(a, a); }
    forall a, b, c | older(a, b) && older(b, c) ensures older(a, c) { OlderIsTransitive(a, b, c); }
    forall a, b, c | !older(a, b) && !older(b, c) ensures !older(a, c) {
      NotOlderIsTransitive(a, b, c);
    }
  }

  lemma NotOlderIsTransitive(a: seq<int>, b: seq<int>, c: seq<int>)
    requires !Older(a, b) && !Older(b, c)
    ensures !Older(a, c)
  {
    Trichotomy(a, b);
    Trichotomy(b, c);
    Trichotomy(a, c);
    if Older(b, a) && Older(c, b) { OlderIsTransitive(c, b, a); }
    if SameVersion(a, b) { SameVersionsCompareAlike(a, b, c); }
    if SameVersion(b, c) { SameVersionsCompareAlike(b, c, a); }
  }

  lemma SameVersionsCompareAlike(a: seq<int>, b: seq<int>, c: seq<int>)
    requires SameVersion(a, b)
    ensures Older(a, c) <==> Older(b, c)
    ensures Older(c, a) <==> Older(c, b)
  {
    assert forall i: nat :: SameUpTo(a, c, i) <==> SameUpTo(b, c, i);
    assert forall i: nat :: SameUpTo(c, a, i) <==> SameUpTo(c, b, i);
  }

  // ---- Agreement with lexicographic order on padded lists ----

  function Padded(a: seq<int>, n: nat): (r: seq<int>)
    ensures |r| == n && forall i :: 0 <= i < n ==> r[i] == At(a, i)
  {
    seq(n, i requires 0 <= i < n => At(a, i))
  }

  predicate LexLess(a: seq<int>, b: seq<int>)
    requires |a| == |b|
  {
    a != [] && (a[0] < b[0] || (a[0] == b[0] && LexLess(a[1..], b[1..])))
  }

  lemma {:induction false} LexLessIsFirstDifference(a: seq<int>, b: seq<int>)
    requires |a| == |b|
    ensures LexLess(a, b) <==> exists i :: 0 <= i < |a| && a[..i] == b[..i] && a[i] < b[i]
  {
    if a != [] {
      LexLessIsFirstDifference(a[1..], b[1..]);
      if LexLess(a, b) {
        if a[0] < b[0] {
          assert a[..0] == b[..0];
        } else {
          var i :| 0 <= i < |a[1..]| && a[1..][..i] == b[1..][..i] && a[1..][i] < b[1..][i];
          assert a[..i + 1] == [a[0]] + a[1..][..i] && b[..i + 1] == [b[0]] + b[1..][..i];
          assert a[i + 1] < b[i + 1];
        }
      }
      if exists i :: 0 <= i < |a| && a[..i] == b[..i] && a[i] < b[i] {
        var i :| 0 <= i < |a| && a[..i] == b[..i] && a[i] < b[i];
        if i > 0 {
          assert a[0] == a[..i][0] == b[..i][0] == b[0];
          assert a[1..][..i - 1] == a[..i][1..] && b[1..][..i - 1] == b[..i][1..];
          assert a[1..][i - 1] < b[1..][i - 1];
        }
      }
    }
  }

  /** The comparison is lexicographic order on the lists padded with zeros to any common length. */
  lemma OlderIsLexicographic(a: seq<int>, b: seq<int>, n: nat)
    requires |a| <= n && |b| <= n
    ensures Older(a, b) <==> LexLess(Padded(a, n), Padded(b, n))
  {
    var p, q := Padded(a, n), Padded(b, n);
    LexLessIsFirstDifference(p, q);
    if Older(a, b) {
      var i: nat :| SameUpTo(a, b, i) && At(a, i) < At(b, i);
      assert i < n;
      assert p[..i] == q[..i] && p[i] < q[i];
    }
    if LexLess(p, q) {
      var i :| 0 <= i < |p| && p[..i] == q[..i] && p[i] < q[i];
      forall j: nat | j < i ensures At(a, j) == At(b, j) {
        assert p[..i][j] == q[..i][j];
      }
      assert SameUpTo(a, b, i);
    }
  }

  // ---- Appending ".0" ----

  lemma {:induction false} SplitAppend(s: string, c: char, t: string)
    ensures Split(s + ([c] + t), c) == Split(s, c) + Split(t, c)
  {
    if s == "" {
      assert s + ([c] + t) == [c] + t;
      assert ([c] + t)[1..] == t;
    } else {
      assert (s + ([c] + t))[1..] == s[1..] + ([c] + t);
      SplitAppend(s[1..], c, t);
      GrowFirst(s[0], Split(s[1..], c), Split(t, c));
    }
  }

  lemma GrowFirst(x: char, rest: seq<string>, more: seq<string>)
    requires rest != []
    ensures [""] + (rest + more) == [""] + rest + more
    ensures [[x] + (rest + more)[0]] + (rest + more)[1..] == [[x] + rest[0]] + rest[1..] + more
  {
    assert (rest + more)[0] == rest[0] && (rest + more)[1..] == rest[1..] + more;
  }

  /** A trailing ".0" changes neither side of any comparison. */
  lemma TrailingZeroIsIgnored(version: string, other: string)
    ensures SameVersion(Segments(version + ".0"), Segments(version))
    ensures Older(Segments(version + ".0"), Segments(other)) <==> Older(Segments(version), Segments(other))
    ensures Older(Segments(other), Segments(version + ".0")) <==> Older(Segments(other), Segments(version))
  {
    SplitAppend(version, '.', "0");
    assert "." + "0" == ".0" && version + ("." + "0") == version + ".0";
    var nothing := Split("", '.');
    assert nothing == [""] && nothing[1..] == [] && ['0'] + nothing[0] == "0";
    assert "0"[1..] == "" && [['0'] + nothing[0]] + nothing[1..] == ["0"];
    assert Split("0", '.') == ["0"];
    assert Segments(version + ".0") == Segments(version) + [ParseSegment("0")];
    ZeroParses();
    SameVersionsCompareAlike(Segments(version + ".0"), Segments(version), Segments(other));
  }

  lemma ZeroParses()
    ensures ParseSegment("0") == 0
  {
    assert SkipSpaces("0") == "0";
    assert "0"[1..] == "" && DigitRun("0") == 1 && "0"[..1] == "0" && "0"[..0] == "";
    assert DecimalValue("0") == 0;
  }
}
