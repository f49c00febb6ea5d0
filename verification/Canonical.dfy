/**
 The canonical form under the install-contract fingerprint.

 `Stable` sorts object keys by UTF-16 code unit and drops fields whose value is undefined, at
 every depth. `Same` says independently when two values are the same contract; the main result
 is that equal images and `Same` are the same thing.
 */
module Canonical {
  type unit = u: int | 0 <= u < 0x1_0000
  type Text = seq<unit>
  type Entry = (Text, Value)

  /** A JSON-like value. An object lists its own properties in property order. */
  datatype Value =
    | Undefined
    | Null
    | Bool(b: bool)
    | Num(n: real)
    | Str(s: Text)
    | Arr(items: seq<Value>)
    | Obj(entries: seq<Entry>)

  predicate DistinctKeys(es: seq<Entry>) {
    forall i, j | 0 <= i < j < |es| :: es[i].0 != es[j].0
  }

  /** An object never has one key twice. */
  predicate Valid(v: Value) {
    match v
    case Arr(items) => forall x | x in items :: Valid(x)
    case Obj(es) => DistinctKeys(es) && forall e | e in es :: Valid(e.1)
    case _ => true
  }

  // ---------- the order of keys ----------

  predicate Less(a: Text, b: Text) {
    b != [] && (a == [] || a[0] < b[0] || (a[0] == b[0] && Less(a[1..], b[1..])))
  }

  lemma {:induction false} LessIsTotal(a: Text, b: Text)
    ensures !Less(a, a)
    ensures Less(a, b) ==> !Less(b, a)
    ensures a != b ==> Less(a, b) || Less(b, a)
    decreases |a|
  {
    if a != [] {
      LessIsTotal(a[1..], if b == [] then [] else b[1..]);
      if b != [] && a[0] == b[0] && a[1..] == b[1..] {
        assert a == [a[0]] + a[1..] && b == [b[0]] + b[1..];
      }
    }
  }

  /** The first code unit that differs decides, and a proper prefix comes first. */
  ghost predicate FirstDifference(a: Text, b: Text, p: nat) {
    p <= |a| && p < |b| && a[..p] == b[..p] && (p == |a| || a[p] < b[p])
  }

  lemma {:induction false} LessExactly(a: Text, b: Text)
    ensures Less(a, b) <==> exists p: nat :: FirstDifference(a, b, p)
    decreases |a|
  {
    if a != [] && b != [] && a[0] == b[0] {
      LessExactly(a[1..], b[1..]);
      if p: nat :| FirstDifference(a[1..], b[1..], p) {
        assert a[..p + 1] == [a[0]] + a[1..][..p] && b[..p + 1] == [b[0]] + b[1..][..p];
        assert FirstDifference(a, b, p + 1);
      }
      if p: nat :| FirstDifference(a, b, p) {
        assert p > 0;
        assert a[1..][..p - 1] == a[..p][1..] && b[1..][..p - 1] == b[..p][1..];
        assert FirstDifference(a[1..], b[1..], p - 1);
      }
    } else {
      assert b != [] && (a == [] || a[0] < b[0]) ==> FirstDifference(a, b, 0);
      assert forall p: nat | 0 < p <= |a| && p < |b| :: a[..p][0] == a[0] && b[..p][0] == b[0];
    }
  }

  lemma {:induction false} LessIsTransitive(a: Text, b: Text, c: Text)
    requires Less(a, b) && Less(b, c)
    ensures Less(a, c)
    decreases |a|
  {
    if a != [] && a[0] == b[0] && b[0] == c[0] { LessIsTransitive(a[1..], b[1..], c[1..]); }
  }

  // ---------- sorting entries ----------

  function Insert(e: Entry, es: seq<Entry>, before: (Text, Text) -> bool): (r: seq<Entry>)
    ensures multiset(r) == multiset(es) + multiset{e}
  {
    if es == [] || before(e.0, es[0].0) then
      [e] + es
    else
      assert es == [es[0]] + es[1..];
      [es[0]] + Insert(e, es[1..], before)
  }

  function Sort(es: seq<Entry>, before: (Text, Text) -> bool): (r: seq<Entry>)
    ensures multiset(r) == multiset(es)
  {
    if es == [] then [] else
      assert es == [es[0]] + es[1..];
      Insert(es[0], Sort(es[1..], before), before)
  }

  lemma SameMultisetSameMembers(xs: seq<Entry>, ys: seq<Entry>)
    requires multiset(xs) == multiset(ys)
    ensures |xs| == |ys| && forall e :: e in xs <==> e in ys
  {
    assert |multiset(xs)| == |xs| && |multiset(ys)| == |ys|;
    forall e ensures e in xs <==> e in ys {
      assert e in xs <==> e in multiset(xs);
      assert e in ys <==> e in multiset(ys);
    }
  }

  function Defined(es: seq<Entry>): (r: seq<Entry>)
    ensures forall e :: e in r <==> e in es && e.1 != Undefined
  {
    if es == [] then []
    else if es[0].1 == Undefined then Defined(es[1..])
    else [es[0]] + Defined(es[1..])
  }

  /** The entries that `stableValue` visits, in its order. */
  function Visited(es: seq<Entry>): (r: seq<Entry>)
    ensures forall e :: e in r <==> e in es && e.1 != Undefined
  {
    SameMultisetSameMembers(Sort(Defined(es), Less), Defined(es));
    Sort(Defined(es), Less)
  }

  // ---------- property order of a fresh object ----------

  predicate IsDigit(u: unit) { 0x30 <= u <= 0x39 }

  function Decimal(k: Text): nat
    requires forall u | u in k :: IsDigit(u)
  {
    if k == [] then 0 else
      assert k[|k| - 1] in k && IsDigit(k[|k| - 1]);
      10 * Decimal(k[..|k| - 1]) + (k[|k| - 1] as int - 0x30)
  }

  /** Keys that are array indices come first in a JavaScript object, in numeric order. */
  predicate IsIndex(k: Text) {
    k != [] && (forall u | u in k :: IsDigit(u)) && (k[0] != 0x30 || |k| == 1) && Decimal(k) < 0xffff_ffff
  }

  predicate IndexBefore(a: Text, b: Text) {
    IsIndex(a) && IsIndex(b) && Decimal(a) < Decimal(b)
  }

  function Select(es: seq<Entry>, index: bool): (r: seq<Entry>)
    ensures forall e :: e in r <==> e in es && IsIndex(e.0) == index
  {
    if es == [] then []
    else if IsIndex(es[0].0) == index then [es[0]] + Select(es[1..], index)
    else Select(es[1..], index)
  }

  /** The own properties of `Object.fromEntries(es)` in property order. */
  function FromEntries(es: seq<Entry>): (r: seq<Entry>)
    ensures forall e :: e in r <==> e in es
  {
    SameMultisetSameMembers(Sort(Select(es, true), IndexBefore), Select(es, true));
    Sort(Select(es, true), IndexBefore) + Select(es, false)
  }

  function Stable(v: Value): (r: Value)
    ensures r == Undefined <==> v == Undefined
  {
    match v
    case Arr(items) => Arr(seq(|items|, i requires 0 <= i < |items| => Stable(items[i])))
    case Obj(es) =>
      var sorted := Visited(es);
      Obj(FromEntries(seq(|sorted|, i requires 0 <= i < |sorted| =>
        (assert sorted[i] in es; (sorted[i].0, Stable(sorted[i].1))))))
    case _ => v
  }

  // ---------- when two values are the same contract ----------

  function DefinedKeys(es: seq<Entry>): set<Text> {
    set e | e in es && e.1 != Undefined :: e.0
  }

  /** Equal up to the order of object keys and up to fields whose value is undefined. */
  predicate Same(a: Value, b: Value) {
    match a
    case Arr(xs) => b.Arr? && |xs| == |b.items| && forall i | 0 <= i < |xs| :: Same(xs[i], b.items[i])
    case Obj(xs) =>
      && b.Obj?
      && DefinedKeys(xs) == DefinedKeys(b.entries)
      && forall e, f | e in xs && f in b.entries && e.0 == f.0 && e.1 != Undefined && f.1 != Undefined ::
           Same(e.1, f.1)
    case _ => a == b
  }

  // ---------- sorted entry lists are determined by their keys ----------

  predicate Ascending(es: seq<Entry>) {
    forall i, j | 0 <= i < j < |es| :: Less(es[i].0, es[j].0)
  }

  function Keys(es: seq<Entry>): set<Text> {
    set e | e in es :: e.0
  }

  lemma InsertMembers(e: Entry, es: seq<Entry>, x: Entry)
    requires x in Insert(e, es, Less)
    ensures x == e || x in es
  {
    hide Insert, Less;
    assert x in multiset(Insert(e, es, Less));
  }

  lemma {:induction false} InsertAscending(e: Entry, es: seq<Entry>)
    requires Ascending(es) && forall f | f in es :: f.0 != e.0
    ensures Ascending(Insert(e, es, Less))
  {
    hide Less;
    if es != [] {
      var r := Insert(e, es, Less);
      LessIsTotal(e.0, es[0].0);
      if Less(e.0, es[0].0) {
        forall j | 1 <= j < |es| ensures Less(e.0, es[j].0) { LessIsTransitive(e.0, es[0].0, es[j].0); }
      } else {
        InsertAscending(e, es[1..]);
        var tail := Insert(e, es[1..], Less);
        forall j | 0 <= j < |tail| ensures Less(es[0].0, tail[j].0) {
          InsertMembers(e, es[1..], tail[j]) by { assert tail[j] in tail; }
          assert tail[j] in es[1..] ==> exists k :: 0 <= k < |es[1..]| && es[1..][k] == tail[j];
        }
      }
    }
  }

  lemma {:induction false} SortAscending(es: seq<Entry>)
    requires DistinctKeys(es)
    ensures Ascending(Sort(es, Less))
  {
    if es != [] {
      SortAscending(es[1..]);
      SameMultisetSameMembers(Sort(es[1..], Less), es[1..]);
      InsertAscending(es[0], Sort(es[1..], Less));
    }
  }

  lemma {:induction false} DefinedIsDistinct(es: seq<Entry>)
    requires DistinctKeys(es)
    ensures DistinctKeys(Defined(es))
  {
    if es != [] {
      DefinedIsDistinct(es[1..]);
      forall f | f in Defined(es[1..]) ensures f.0 != es[0].0 { assert f in es[1..]; }
    }
  }

  lemma VisitedAscending(es: seq<Entry>)
    requires DistinctKeys(es)
    ensures Ascending(Visited(es)) && Keys(Visited(es)) == DefinedKeys(es)
  {
    DefinedIsDistinct(es);
    SortAscending(Defined(es));
  }

  lemma {:induction false} AscendingIsUnique(xs: seq<Entry>, ys: seq<Entry>)
    requires Ascending(xs) && Ascending(ys) && Keys(xs) == Keys(ys)
    ensures |xs| == |ys| && forall i | 0 <= i < |xs| :: xs[i].0 == ys[i].0
  {
    if xs == [] || ys == [] {
      assert xs != [] ==> xs[0].0 in Keys(ys);
      assert ys != [] ==> ys[0].0 in Keys(xs);
    } else {
      HeadsAgree(xs, ys);
      TailKeys(xs);
      TailKeys(ys);
      AscendingIsUnique(xs[1..], ys[1..]);
      assert forall i | 1 <= i < |xs| :: xs[i] == xs[1..][i - 1] && ys[i] == ys[1..][i - 1];
    }
  }

  lemma TailKeys(xs: seq<Entry>)
    requires xs != [] && Ascending(xs)
    ensures Keys(xs[1..]) == Keys(xs) - {xs[0].0}
  {
    forall e | e in xs[1..] ensures e.0 != xs[0].0 {
      var j :| 1 <= j < |xs| && xs[j] == e;
      LessIsTotal(xs[0].0, xs[j].0);
    }
    forall e | e in xs && e.0 != xs[0].0 ensures e in xs[1..] {
      var j :| 0 <= j < |xs| && xs[j] == e;
      assert xs[1..][j - 1] == e;
    }
  }

  lemma HeadsAgree(xs: seq<Entry>, ys: seq<Entry>)
    requires xs != [] && ys != [] && Ascending(xs) && Ascending(ys) && Keys(xs) == Keys(ys)
    ensures xs[0].0 == ys[0].0
  {
    assert xs[0].0 in Keys(ys) && ys[0].0 in Keys(xs);
    var e :| e in ys && e.0 == xs[0].0;
    var f :| f in xs && f.0 == ys[0].0;
    var j :| 0 <= j < |ys| && ys[j] == e;
    var i :| 0 <= i < |xs| && xs[i] == f;
    LessIsTotal(xs[0].0, ys[0].0);
  }

  // ---------- equal images and the same contract are one thing ----------

  function Images(sorted: seq<Entry>): (r: seq<Entry>)
    ensures |r| == |sorted|
    ensures forall i | 0 <= i < |r| :: r[i] == (sorted[i].0, Stable(sorted[i].1))
  {
    seq(|sorted|, i requires 0 <= i < |sorted| => (sorted[i].0, Stable(sorted[i].1)))
  }

  lemma StableOfObject(es: seq<Entry>)
    ensures Stable(Obj(es)) == Obj(FromEntries(Images(Visited(es))))
  {
    var sorted := Visited(es);
    assert Images(sorted) == seq(|sorted|, i requires 0 <= i < |sorted| =>
      (assert sorted[i] in es; (sorted[i].0, Stable(sorted[i].1))));
  }

  // ---------- the order of the properties ----------

  function IndexNumber(k: Text): nat { if IsIndex(k) then Decimal(k) else 0 }

  /** Array indices first, in numeric order; then the other keys, in the order of their code units. */
  predicate Placed(a: Text, b: Text) {
    if IsIndex(a) then !IsIndex(b) || IndexNumber(a) <= IndexNumber(b) else !IsIndex(b) && Less(a, b)
  }

  /** Array indices are the canonical decimals below 2^32 - 1. */
  lemma IndexExactly(k: Text)
    ensures IsIndex(k) <==>
      k != [] && (forall u | u in k :: 48 <= u <= 57) && (k[0] == 48 ==> |k| == 1) && Decimal(k) <= 4_294_967_294
  {
  }

  predicate AllIndex(es: seq<Entry>) { forall e | e in es :: IsIndex(e.0) }

  predicate Numeric(es: seq<Entry>) {
    forall i, j | 0 <= i < j < |es| :: IndexNumber(es[i].0) <= IndexNumber(es[j].0)
  }

  lemma IndexBeforeMeans(a: Text, b: Text)
    requires IsIndex(a) && IsIndex(b)
    ensures IndexBefore(a, b) <==> IndexNumber(a) < IndexNumber(b)
  {
  }

  lemma {:induction false} InsertNumeric(e: Entry, es: seq<Entry>)
    requires IsIndex(e.0) && AllIndex(es) && Numeric(es)
    ensures AllIndex(Insert(e, es, IndexBefore)) && Numeric(Insert(e, es, IndexBefore))
  {
    hide IsIndex, IndexNumber, IndexBefore;
    InsertedAre(e, es);
    if es != [] {
      IndexBeforeMeans(e.0, es[0].0);
      if !IndexBefore(e.0, es[0].0) {
        InsertNumeric(e, es[1..]);
        InsertedAre(e, es[1..]);
        var tail := Insert(e, es[1..], IndexBefore);
        forall j | 0 <= j < |tail| ensures IndexNumber(es[0].0) <= IndexNumber(tail[j].0) {
          assert tail[j] in tail;
        }
      }
    }
  }

  lemma InsertedAre(e: Entry, es: seq<Entry>)
    ensures forall f | f in Insert(e, es, IndexBefore) :: f == e || f in es
  {
    var r := Insert(e, es, IndexBefore);
    hide Insert;
    forall f | f in r ensures f == e || f in es { assert f in multiset(r); }
  }

  lemma {:induction false} SortNumeric(es: seq<Entry>)
    requires AllIndex(es)
    ensures AllIndex(Sort(es, IndexBefore)) && Numeric(Sort(es, IndexBefore))
  {
    hide IsIndex, IndexNumber;
    if es != [] {
      SortNumeric(es[1..]);
      SameMultisetSameMembers(Sort(es[1..], IndexBefore), es[1..]);
      InsertNumeric(es[0], Sort(es[1..], IndexBefore));
    }
  }

  lemma {:induction false} SelectAscending(es: seq<Entry>, index: bool)
    requires Ascending(es)
    ensures Ascending(Select(es, index))
  {
    hide Less, IsIndex;
    if es != [] {
      SelectAscending(es[1..], index);
      var rest := Select(es[1..], index);
      forall i | 0 <= i < |rest| ensures Less(es[0].0, rest[i].0) { assert rest[i] in rest; }
    }
  }

  lemma FromEntriesOrder(es: seq<Entry>, i: nat, j: nat)
    requires Ascending(es) && i < j < |FromEntries(es)|
    ensures Placed(FromEntries(es)[i].0, FromEntries(es)[j].0)
  {
    hide Less, IsIndex, IndexNumber;
    var first, second := Sort(Select(es, true), IndexBefore), Select(es, false);
    SameMultisetSameMembers(first, Select(es, true));
    SortNumeric(Select(es, true));
    SelectAscending(es, false);
    assert i < |first| ==> first[i] in first;
    assert j < |first| ==> first[j] in first;
    assert i >= |first| ==> second[i - |first|] in second;
    assert j >= |first| ==> second[j - |first|] in second;
  }

  /** The properties of a canonical object, whatever order the contract lists them in. */
  lemma PropertyOrder(es: seq<Entry>, i: nat, j: nat)
    requires DistinctKeys(es) && i < j < |Stable(Obj(es)).entries|
    ensures Placed(Stable(Obj(es)).entries[i].0, Stable(Obj(es)).entries[j].0)
  {
    StableOfObject(es);
    VisitedAscending(es);
    hide Visited, FromEntries, Placed;
    FromEntriesOrder(Images(Visited(es)), i, j);
  }

  predicate FieldImage(es: seq<Entry>, e: Entry, g: Entry) {
    e in es && e.1 != Undefined && g == (e.0, Stable(e.1))
  }

  /** What an image object contains: the images of the defined fields, and nothing else. */
  lemma ImageEntries(es: seq<Entry>)
    ensures forall g :: g in Stable(Obj(es)).entries <==> exists e :: FieldImage(es, e, g)
  {
    StableOfObject(es);
    var sorted, images := Visited(es), Images(Visited(es));
    hide Visited, Stable, FromEntries, Images;
    forall g ensures g in images <==> exists e :: FieldImage(es, e, g) {
      if g in images {
        var i :| 0 <= i < |sorted| && images[i] == g;
        assert sorted[i] in sorted && FieldImage(es, sorted[i], g);
      }
      if e :| FieldImage(es, e, g) {
        assert e in sorted;
        var i :| 0 <= i < |sorted| && sorted[i] == e;
        assert images[i] == g;
      }
    }
  }

  lemma KeysDetermineEntry(es: seq<Entry>, e: Entry, f: Entry)
    requires DistinctKeys(es) && e in es && f in es && e.0 == f.0
    ensures e == f
  {
  }

  lemma {:induction false} SameHasOneImage(a: Value, b: Value)
    requires Valid(a) && Valid(b) && Same(a, b)
    ensures Stable(a) == Stable(b)
  {
    match a
    case Arr(xs) =>
      forall i | 0 <= i < |xs| ensures Stable(xs[i]) == Stable(b.items[i]) { SameHasOneImage(xs[i], b.items[i]); }
    case Obj(xs) =>
      var ys := b.entries;
      StableOfObject(xs);
      StableOfObject(ys);
      VisitedAscending(xs);
      VisitedAscending(ys);
      AscendingIsUnique(Visited(xs), Visited(ys));
      forall i | 0 <= i < |Visited(xs)| ensures Images(Visited(xs))[i] == Images(Visited(ys))[i] {
        var e, f := Visited(xs)[i], Visited(ys)[i];
        assert e in xs && f in ys;
        SameHasOneImage(e.1, f.1);
      }
      assert Images(Visited(xs)) == Images(Visited(ys));
    case _ =>
  }

  lemma {:induction false} OneImageIsSame(a: Value, b: Value)
    requires Valid(a) && Valid(b) && Stable(a) == Stable(b)
    ensures Same(a, b)
  {
    match a
    case Arr(xs) =>
      forall i | 0 <= i < |xs| ensures Same(xs[i], b.items[i]) {
        assert Stable(a).items[i] == Stable(b).items[i];
        OneImageIsSame(xs[i], b.items[i]);
      }
    case Obj(xs) =>
      SharedImage(xs, b.entries);
      SharedImage(b.entries, xs);
      forall e, f | e in xs && f in b.entries && e.0 == f.0 && e.1 != Undefined && f.1 != Undefined
        ensures Same(e.1, f.1)
      {
        OneImageIsSame(e.1, f.1);
      }
    case _ =>
  }

  /** Objects with one image define the same keys, with values that have one image. */
  lemma SharedImage(xs: seq<Entry>, ys: seq<Entry>)
    requires DistinctKeys(ys) && Stable(Obj(xs)) == Stable(Obj(ys))
    ensures DefinedKeys(xs) <= DefinedKeys(ys)
    ensures forall e, f | e in xs && f in ys && e.0 == f.0 && e.1 != Undefined :: Stable(e.1) == Stable(f.1)
  {
    ImageEntries(xs);
    ImageEntries(ys);
    hide Visited, FromEntries;
    forall e | e in xs && e.1 != Undefined ensures exists g :: FieldImage(ys, g, (e.0, Stable(e.1))) {
      assert FieldImage(xs, e, (e.0, Stable(e.1)));
      assert (e.0, Stable(e.1)) in Stable(Obj(xs)).entries;
      assert (e.0, Stable(e.1)) in Stable(Obj(ys)).entries;
    }
    forall e, f | e in xs && f in ys && e.0 == f.0 && e.1 != Undefined ensures Stable(e.1) == Stable(f.1) {
      var g :| FieldImage(ys, g, (e.0, Stable(e.1)));
      KeysDetermineEntry(ys, f, g);
    }
  }

  /** Two contracts have one canonical form exactly when they are the same contract. */
  lemma CanonicalExactly(a: Value, b: Value)
    requires Valid(a) && Valid(b)
    ensures Stable(a) == Stable(b) <==> Same(a, b)
  {
    if Same(a, b) { SameHasOneImage(a, b); }
    if Stable(a) == Stable(b) { OneImageIsSame(a, b); }
  }

  lemma {:induction false} ImageIsSame(v: Value)
    requires Valid(v)
    ensures Valid(Stable(v)) && Same(Stable(v), v)
  {
    match v
    case Arr(items) =>
      forall i | 0 <= i < |items| ensures Valid(Stable(items[i])) && Same(Stable(items[i]), items[i]) {
        ImageIsSame(items[i]);
      }
    case Obj(es) =>
      ImageOfObjectIsSame(es);
    case _ =>
  }

  lemma {:induction false} ImageOfObjectIsSame(es: seq<Entry>)
    requires Valid(Obj(es))
    ensures Valid(Stable(Obj(es))) && Same(Stable(Obj(es)), Obj(es))
    decreases Obj(es), 0
  {
    var ts := Stable(Obj(es)).entries;
    ImageKeysDistinct(es);
    ImageEntries(es);
    forall g | g in ts
      ensures Valid(g.1) && g.1 != Undefined && g.0 in DefinedKeys(es)
      ensures forall f | f in es && f.0 == g.0 && f.1 != Undefined :: Same(g.1, f.1)
    {
      var e :| FieldImage(es, e, g);
      ImageIsSame(e.1);
      forall f | f in es && f.0 == g.0 ensures f == e { KeysDetermineEntry(es, e, f); }
    }
    forall e | e in es && e.1 != Undefined ensures e.0 in DefinedKeys(ts) {
      assert FieldImage(es, e, (e.0, Stable(e.1)));
    }
  }

  lemma {:induction false} InsertDistinct(e: Entry, es: seq<Entry>, before: (Text, Text) -> bool)
    requires DistinctKeys(es) && forall f | f in es :: f.0 != e.0
    ensures DistinctKeys(Insert(e, es, before))
  {
    if es != [] && !before(e.0, es[0].0) {
      InsertDistinct(e, es[1..], before);
      var tail := Insert(e, es[1..], before);
      forall j | 0 <= j < |tail| ensures tail[j].0 != es[0].0 {
        assert tail[j] in multiset(tail);
        assert tail[j] == e || tail[j] in es[1..];
      }
    }
  }

  lemma {:induction false} SortDistinct(es: seq<Entry>, before: (Text, Text) -> bool)
    requires DistinctKeys(es)
    ensures DistinctKeys(Sort(es, before))
  {
    if es != [] {
      SortDistinct(es[1..], before);
      SameMultisetSameMembers(Sort(es[1..], before), es[1..]);
      InsertDistinct(es[0], Sort(es[1..], before), before);
    }
  }

  lemma {:induction false} SelectDistinct(es: seq<Entry>, index: bool)
    requires DistinctKeys(es)
    ensures DistinctKeys(Select(es, index))
  {
    if es != [] {
      SelectDistinct(es[1..], index);
      forall f | f in Select(es[1..], index) ensures f.0 != es[0].0 { assert f in es[1..]; }
    }
  }

  lemma FromEntriesDistinct(es: seq<Entry>)
    requires DistinctKeys(es)
    ensures DistinctKeys(FromEntries(es))
  {
    SelectDistinct(es, true);
    SelectDistinct(es, false);
    SortDistinct(Select(es, true), IndexBefore);
    SameMultisetSameMembers(Sort(Select(es, true), IndexBefore), Select(es, true));
    forall e, f | e in Sort(Select(es, true), IndexBefore) && f in Select(es, false) ensures e.0 != f.0 {
      assert e in Select(es, true);
    }
  }

  lemma ImageKeysDistinct(es: seq<Entry>)
    requires DistinctKeys(es)
    ensures DistinctKeys(Stable(Obj(es)).entries)
  {
    StableOfObject(es);
    VisitedAscending(es);
    var images := Images(Visited(es));
    forall i, j | 0 <= i < j < |images| ensures images[i].0 != images[j].0 {
      LessIsTotal(images[i].0, images[j].0);
    }
    FromEntriesDistinct(images);
  }

  /** Canonicalising twice changes nothing. */
  lemma Idempotent(v: Value)
    requires Valid(v)
    ensures Stable(Stable(v)) == Stable(v)
  {
    ImageIsSame(v);
    SameHasOneImage(Stable(v), v);
  }
}
