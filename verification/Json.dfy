/** JSON trees, with objects as entry lists in enumeration order, and equality up to that order. */
module Json {
  import opened Common

  datatype Json =
    | Null
    | Bool(b: bool)
    | Num(n: real)
    | Str(s: string)
    | Arr(items: seq<Json>)
    | Obj(entries: seq<Entry>)

  datatype Entry = Entry(key: string, value: Json)

  ghost predicate DistinctKeys(es: seq<Entry>) {
    forall i, j :: 0 <= i < j < |es| ==> es[i].key != es[j].key
  }

  /** No object, at any depth, has a key twice. */
  ghost predicate WellFormed(j: Json) {
    match j
    case Arr(items) => forall i :: 0 <= i < |items| ==> WellFormed(items[i])
    case Obj(es) => DistinctKeys(es) && forall i :: 0 <= i < |es| ==> WellFormed(es[i].value)
    case _ => true
  }

  predicate HasKey(es: seq<Entry>, k: string) {
    exists i :: 0 <= i < |es| && es[i].key == k
  }

  function Lookup(es: seq<Entry>, k: string): (v: Option<Json>)
    ensures v.Some? <==> HasKey(es, k)
    ensures v.Some? ==> exists i :: 0 <= i < |es| && es[i] == Entry(k, v.value)
  {
    if es == [] then None
    else if es[0].key == k then
      assert es[0] == Entry(k, es[0].value);
      Some(es[0].value)
    else
      var rest := Lookup(es[1..], k);
      assert forall i :: 0 < i < |es| ==> es[i] == es[1..][i - 1];
      rest
  }

  /** Equal up to the order of object keys, at every depth. */
  ghost predicate Equivalent(a: Json, b: Json)
    decreases a, 0
  {
    match (a, b)
    case (Arr(xs), Arr(ys)) => |xs| == |ys| && forall i :: 0 <= i < |xs| ==> Equivalent(xs[i], ys[i])
    case (Obj(es), Obj(fs)) => |es| == |fs| && forall i :: 0 <= i < |es| ==> HasEquivalent(es[i].key, es[i].value, fs)
    case _ => a == b
  }

  ghost predicate HasEquivalent(k: string, v: Json, fs: seq<Entry>)
    decreases v, 1
  {
    exists j :: 0 <= j < |fs| && fs[j].key == k && Equivalent(v, fs[j].value)
  }

  ghost function Keys(es: seq<Entry>): set<string> {
    set i | 0 <= i < |es| :: es[i].key
  }

  lemma {:induction false} KeyCount(es: seq<Entry>)
    requires DistinctKeys(es)
    ensures |Keys(es)| == |es|
  {
    if es != [] {
      KeyCount(es[1..]);
      assert es[0].key !in Keys(es[1..]) by {
        assert forall i :: 0 <= i < |es| - 1 ==> es[1..][i] == es[i + 1];
      }
      assert Keys(es) == {es[0].key} + Keys(es[1..]) by {
        assert forall i :: 0 < i < |es| ==> es[i] == es[1..][i - 1];
      }
    }
  }

  lemma EntryOf(es: seq<Entry>, i: nat)
    requires DistinctKeys(es) && i < |es|
    ensures Lookup(es, es[i].key) == Some(es[i].value)
  {
  }

  /** Two objects are equivalent exactly when they have the same keys and equivalent values under each. */
  lemma EquivalentByKey(es: seq<Entry>, fs: seq<Entry>)
    requires DistinctKeys(es) && DistinctKeys(fs)
    ensures Equivalent(Obj(es), Obj(fs)) <==>
            forall k :: (HasKey(es, k) <==> HasKey(fs, k))
                        && (HasKey(es, k) && HasKey(fs, k) ==> Equivalent(Lookup(es, k).value, Lookup(fs, k).value))
  {
    KeyCount(es);
    KeyCount(fs);
    if Equivalent(Obj(es), Obj(fs)) {
      forall i | 0 <= i < |es| ensures es[i].key in Keys(fs) {
        assert HasEquivalent(es[i].key, es[i].value, fs);
      }
      assert Keys(es) <= Keys(fs);
      SubsetOfSameSize(Keys(es), Keys(fs));
      forall k ensures HasKey(es, k) <==> k in Keys(es) {}
      forall k ensures HasKey(fs, k) <==> k in Keys(fs) {}
      forall k | HasKey(es, k) && HasKey(fs, k) ensures Equivalent(Lookup(es, k).value, Lookup(fs, k).value) {
        var i :| 0 <= i < |es| && es[i].key == k;
        assert HasEquivalent(es[i].key, es[i].value, fs);
        var j :| 0 <= j < |fs| && fs[j].key == k && Equivalent(es[i].value, fs[j].value);
        EntryOf(es, i);
        EntryOf(fs, j);
      }
    } else if forall k :: (HasKey(es, k) <==> HasKey(fs, k))
                          && (HasKey(es, k) && HasKey(fs, k) ==> Equivalent(Lookup(es, k).value, Lookup(fs, k).value)) {
      forall k ensures k in Keys(es) <==> k in Keys(fs) {
        assert HasKey(es, k) <==> k in Keys(es);
        assert HasKey(fs, k) <==> k in Keys(fs);
      }
      assert Keys(es) == Keys(fs);
      forall i | 0 <= i < |es| ensures HasEquivalent(es[i].key, es[i].value, fs) {
        assert HasKey(es, es[i].key);
        EntryOf(es, i);
        var v := Lookup(fs, es[i].key).value;
        var j :| 0 <= j < |fs| && fs[j] == Entry(es[i].key, v);
      }
    }
  }
}
