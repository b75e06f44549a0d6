/**
 Canonical JSON and the binding of two acceptance identities, from
 scripts/testbed/acceptance-release-manifest.ts.
 */
module CanonicalJson {
  import Decimal
  import opened Wrappers

  /** A JavaScript string: a sequence of UTF-16 code units. */
  type CodeUnit = x: int | 0 <= x < 0x1_0000

  type Text = seq<CodeUnit>

  /** A JSON value. An object lists its own properties in enumeration order. */
  datatype Json = Null | Bool(value: bool) | Number(literal: Text) | String(text: Text) | Array(items: seq<Json>) | Object(fields: seq<Field>)

  datatype Field = Field(key: Text, value: Json)

  predicate DistinctKeys(fields: seq<Field>) {
    forall i, j | 0 <= i < j < |fields| :: fields[i].key != fields[j].key
  }

  /** No object at any depth repeats a key. */
  predicate WellFormed(v: Json) {
    match v
    case Array(items) => forall i | 0 <= i < |items| :: WellFormed(items[i])
    case Object(fields) => DistinctKeys(fields) && forall i | 0 <= i < |fields| :: WellFormed(fields[i].value)
    case _ => true
  }

  /** Equal up to the order of object keys, at every depth. */
  predicate SameUpToKeyOrder(a: Json, b: Json) {
    match (a, b)
    case (Array(s), Array(t)) => |s| == |t| && forall i | 0 <= i < |s| :: SameUpToKeyOrder(s[i], t[i])
    case (Object(s), Object(t)) =>
      && (forall f | f in s :: exists g :: g in t && f.key == g.key && SameUpToKeyOrder(f.value, g.value))
      && (forall g | g in t :: exists f :: f in s && f.key == g.key && SameUpToKeyOrder(f.value, g.value))
    case _ => a == b
  }

  predicate HasCounterpart(f: Field, t: seq<Field>) {
    exists g :: g in t && f.key == g.key && SameUpToKeyOrder(f.value, g.value)
  }

  predicate IsCounterpart(g: Field, s: seq<Field>) {
    exists f :: f in s && f.key == g.key && SameUpToKeyOrder(f.value, g.value)
  }

  lemma ObjectsAreSame(s: seq<Field>, t: seq<Field>)
    ensures SameUpToKeyOrder(Object(s), Object(t)) <==>
            (forall f | f in s :: HasCounterpart(f, t)) && (forall g | g in t :: IsCounterpart(g, s))
  {
  }

  // ----- the order of keys

  /** The default order of `sort()`: code unit by code unit, a proper prefix first. */
  predicate Less(a: Text, b: Text) {
    if b == [] then false
    else if a == [] then true
    else a[0] < b[0] || (a[0] == b[0] && Less(a[1..], b[1..]))
  }

  lemma {:induction false} LessIsTotal(a: Text, b: Text)
    ensures !Less(a, a)
    ensures !(Less(a, b) && Less(b, a))
    ensures Less(a, b) || Less(b, a) || a == b
    decreases |a| + |b|
  {
    if a != [] {
      LessIsTotal(a[1..], if b == [] then [] else b[1..]);
      if b != [] && a[0] == b[0] {
        assert a == [a[0]] + a[1..] && b == [b[0]] + b[1..];
      }
    } else if b != [] {
      LessIsTotal(a, b[1..]);
    }
  }

  lemma {:induction false} LessIsTransitive(a: Text, b: Text, c: Text)
    requires Less(a, b) && Less(b, c)
    ensures Less(a, c)
    decreases |a|
  {
    if a != [] && a[0] == b[0] == c[0] {
      LessIsTransitive(a[1..], b[1..], c[1..]);
    }
  }

  predicate SortedByKey(fields: seq<Field>) {
    forall i, j | 0 <= i < j < |fields| :: Less(fields[i].key, fields[j].key)
  }

  predicate SameFields(s: seq<Field>, t: seq<Field>) {
    (forall f | f in s :: f in t) && (forall f | f in t :: f in s)
  }

  function Insert(f: Field, sorted: seq<Field>): (s: seq<Field>)
    ensures |s| == |sorted| + 1
    ensures forall g :: g in s <==> g == f || g in sorted
  {
    if sorted == [] || Less(f.key, sorted[0].key) then [f] + sorted
    else [sorted[0]] + Insert(f, sorted[1..])
  }

  /** `Object.keys(value).sort()`, each key with the property it names. */
  function SortByKey(fields: seq<Field>): (s: seq<Field>)
    ensures |s| == |fields|
    ensures forall f :: f in s <==> f in fields
  {
    if fields == [] then [] else Insert(fields[0], SortByKey(fields[1..]))
  }

  lemma {:induction false} InsertSorts(f: Field, sorted: seq<Field>)
    requires SortedByKey(sorted) && forall g | g in sorted :: g.key != f.key
    ensures SortedByKey(Insert(f, sorted))
  {
    if sorted != [] {
      LessIsTotal(f.key, sorted[0].key);
      if Less(f.key, sorted[0].key) {
        forall g | g in sorted
          ensures Less(f.key, g.key)
        {
          if g != sorted[0] {
            var k :| 0 <= k < |sorted| && sorted[k] == g;
            LessIsTransitive(f.key, sorted[0].key, g.key);
          }
        }
      } else {
        assert sorted[0] in sorted;
        InsertSorts(f, sorted[1..]);
        forall g | g in Insert(f, sorted[1..])
          ensures Less(sorted[0].key, g.key)
        {
          if g != f {
            var k :| 0 <= k < |sorted[1..]| && sorted[1..][k] == g;
            assert sorted[k + 1] == g;
          }
        }
      }
    }
  }

  lemma {:induction false} SortSorts(fields: seq<Field>)
    requires DistinctKeys(fields)
    ensures SortedByKey(SortByKey(fields))
  {
    if fields != [] {
      SortSorts(fields[1..]);
      forall g | g in SortByKey(fields[1..])
        ensures g.key != fields[0].key
      {
        var k :| 0 <= k < |fields[1..]| && fields[1..][k] == g;
        assert fields[k + 1] == g;
      }
      InsertSorts(fields[0], SortByKey(fields[1..]));
    }
  }

  /** A strictly sorted list is determined by its members. */
  lemma {:induction false} SortedIsUnique(s: seq<Field>, t: seq<Field>)
    requires SortedByKey(s) && SortedByKey(t) && SameFields(s, t)
    ensures s == t
    decreases |s|
  {
    assert |t| > 0 ==> t[0] in t;
    if s != [] {
      assert s[0] in s;
      var j :| 0 <= j < |t| && t[j] == s[0];
      var i :| 0 <= i < |s| && s[i] == t[0];
      LessIsTotal(s[0].key, t[0].key);
      assert s[0] == t[0];
      TailHasSameFields(s, t);
      TailHasSameFields(t, s);
      SortedIsUnique(s[1..], t[1..]);
    }
  }

  lemma TailHasSameFields(s: seq<Field>, t: seq<Field>)
    requires SortedByKey(s) && SortedByKey(t) && SameFields(s, t) && s != [] && t != [] && s[0] == t[0]
    ensures forall f | f in s[1..] :: f in t[1..]
  {
    forall f | f in s[1..]
      ensures f in t[1..]
    {
      var k :| 0 <= k < |s[1..]| && s[1..][k] == f;
      LessIsTotal(s[0].key, s[k + 1].key);
      assert f in s;
      var j :| 0 <= j < |t| && t[j] == f;
      assert t[1..][j - 1] == f;
    }
  }

  // ----- the order in which an object enumerates

  predicate IsNumeral(key: Text) {
    forall i :: 0 <= i < |key| ==> 0x30 <= key[i] <= 0x39
  }

  function Chars(key: Text): (s: string)
    requires IsNumeral(key)
    ensures |s| == |key| && forall i :: 0 <= i < |s| ==> Decimal.IsDigit(s[i]) && s[i] as int == key[i]
  {
    seq(|key|, i requires 0 <= i < |key| => key[i] as char)
  }

  /** The number a numeral denotes. */
  function IndexOf(key: Text): nat {
    if IsNumeral(key) then Decimal.Number(Chars(key)) else 0
  }

  /** An array index: a canonical decimal numeral below 2^32 - 1. Such keys enumerate first, by number. */
  predicate IsArrayIndex(key: Text) {
    && 1 <= |key| <= 10
    && IsNumeral(key)
    && (key[0] == 0x30 ==> |key| == 1)
    && IndexOf(key) < 0xFFFF_FFFF
  }

  function InsertByIndex(f: Field, sorted: seq<Field>): (s: seq<Field>)
    ensures forall g :: g in s <==> g == f || g in sorted
  {
    if sorted == [] || IndexOf(f.key) < IndexOf(sorted[0].key) then [f] + sorted
    else [sorted[0]] + InsertByIndex(f, sorted[1..])
  }

  function IndexFields(fields: seq<Field>): (s: seq<Field>)
    ensures forall f :: f in s <==> f in fields && IsArrayIndex(f.key)
  {
    if fields == [] then []
    else if IsArrayIndex(fields[0].key) then InsertByIndex(fields[0], IndexFields(fields[1..]))
    else IndexFields(fields[1..])
  }

  function NamedFields(fields: seq<Field>): (s: seq<Field>)
    ensures forall f :: f in s <==> f in fields && !IsArrayIndex(f.key)
  {
    if fields == [] then []
    else if IsArrayIndex(fields[0].key) then NamedFields(fields[1..])
    else [fields[0]] + NamedFields(fields[1..])
  }

  /** `Object.fromEntries` over distinct keys: array indices in numeric order, then the rest as inserted. */
  function FromEntries(fields: seq<Field>): (s: seq<Field>)
    ensures forall f :: f in s <==> f in fields
  {
    IndexFields(fields) + NamedFields(fields)
  }

  // ----- canonicalisation

  function Canonical(v: Json): Json
    decreases v
  {
    match v
    case Array(items) => Array(seq(|items|, i requires 0 <= i < |items| => Canonical(items[i])))
    case Object(fields) =>
      var sorted := SortByKey(fields);
      Object(FromEntries(seq(|sorted|, i requires 0 <= i < |sorted| =>
        (assert sorted[i] in fields;
         Field(sorted[i].key, Canonical(sorted[i].value))))))
    case _ => v
  }

  // ----- canonical form decides equality up to key order

  /** The canonical fields of an object before they are entered: each key with its canonical value. */
  function CanonicalFields(fields: seq<Field>): (s: seq<Field>)
    ensures |s| == |fields|
  {
    var sorted := SortByKey(fields);
    seq(|sorted|, i requires 0 <= i < |sorted| => Field(sorted[i].key, Canonical(sorted[i].value)))
  }

  lemma CanonicalObject(fields: seq<Field>)
    ensures Canonical(Object(fields)) == Object(FromEntries(CanonicalFields(fields)))
  {
    var sorted := SortByKey(fields);
    assert CanonicalFields(fields) == seq(|sorted|, i requires 0 <= i < |sorted| =>
        (assert sorted[i] in fields;
         Field(sorted[i].key, Canonical(sorted[i].value))));
  }

  /** The members of the canonical fields: every property, its value made canonical. */
  lemma CanonicalMembers(fields: seq<Field>)
    ensures forall f | f in fields :: Field(f.key, Canonical(f.value)) in CanonicalFields(fields)
    ensures forall g | g in CanonicalFields(fields) :: exists i :: 0 <= i < |fields| && g == Field(fields[i].key, Canonical(fields[i].value))
  {
    var sorted := SortByKey(fields);
    forall f | f in fields
      ensures Field(f.key, Canonical(f.value)) in CanonicalFields(fields)
    {
      var k :| 0 <= k < |sorted| && sorted[k] == f;
      assert CanonicalFields(fields)[k] == Field(f.key, Canonical(f.value));
    }
    forall g | g in CanonicalFields(fields)
      ensures exists i :: 0 <= i < |fields| && g == Field(fields[i].key, Canonical(fields[i].value))
    {
      var k :| 0 <= k < |sorted| && CanonicalFields(fields)[k] == g;
      assert sorted[k] in fields;
      var i :| 0 <= i < |fields| && fields[i] == sorted[k];
    }
  }

  lemma CanonicalFieldsAreSorted(fields: seq<Field>)
    requires DistinctKeys(fields)
    ensures SortedByKey(CanonicalFields(fields))
  {
    SortSorts(fields);
  }

  lemma {:induction false} SameHaveSameCanonical(a: Json, b: Json)
    requires WellFormed(a) && WellFormed(b) && SameUpToKeyOrder(a, b)
    ensures Canonical(a) == Canonical(b)
    decreases a
  {
    hide Canonical, SameUpToKeyOrder, WellFormed;
    match (a, b) {
      case (Array(s), Array(t)) =>
        ArraysAreSame(s, t);
        forall i | 0 <= i < |s|
          ensures Canonical(s[i]) == Canonical(t[i])
        {
          SameHaveSameCanonical(s[i], t[i]);
        }
        SameItems(s, t);
      case (Object(s), Object(t)) =>
        WellFormedFields(s);
        WellFormedFields(t);
        forall f, g | f in s && g in t && SameUpToKeyOrder(f.value, g.value)
          ensures Canonical(f.value) == Canonical(g.value)
        {
          SameHaveSameCanonical(f.value, g.value);
        }
        SameObjects(s, t);
      case _ =>
        OtherwiseEqual(a, b);
    }
  }

  lemma ArraysAreSame(s: seq<Json>, t: seq<Json>)
    requires WellFormed(Array(s)) && WellFormed(Array(t)) && SameUpToKeyOrder(Array(s), Array(t))
    ensures |s| == |t|
    ensures forall i | 0 <= i < |s| :: SameUpToKeyOrder(s[i], t[i]) && WellFormed(s[i]) && WellFormed(t[i])
  {
  }

  lemma OtherwiseEqual(a: Json, b: Json)
    requires SameUpToKeyOrder(a, b) && !(a.Array? && b.Array?) && !(a.Object? && b.Object?)
    ensures a == b
  {
  }

  lemma SameItems(s: seq<Json>, t: seq<Json>)
    requires |s| == |t| && forall i | 0 <= i < |s| :: Canonical(s[i]) == Canonical(t[i])
    ensures Canonical(Array(s)) == Canonical(Array(t))
  {
    assert Canonical(Array(s)).items == Canonical(Array(t)).items;
  }

  lemma WellFormedFields(fields: seq<Field>)
    requires WellFormed(Object(fields))
    ensures DistinctKeys(fields) && forall f | f in fields :: WellFormed(f.value)
  {
  }

  lemma SameObjects(s: seq<Field>, t: seq<Field>)
    requires DistinctKeys(s) && DistinctKeys(t)
    requires SameUpToKeyOrder(Object(s), Object(t))
    requires forall f, g | f in s && g in t && SameUpToKeyOrder(f.value, g.value) :: Canonical(f.value) == Canonical(g.value)
    ensures Canonical(Object(s)) == Canonical(Object(t))
  {
    hide Canonical, SameUpToKeyOrder, CanonicalFields, FromEntries;
    ObjectsAreSame(s, t);
    CanonicalObject(s);
    CanonicalObject(t);
    CanonicalMembers(s);
    CanonicalMembers(t);
    CanonicalFieldsAreSorted(s);
    CanonicalFieldsAreSorted(t);
    forall g | g in CanonicalFields(s)
      ensures g in CanonicalFields(t)
    {
      var i :| 0 <= i < |s| && g == Field(s[i].key, Canonical(s[i].value));
      assert s[i] in s && HasCounterpart(s[i], t);
    }
    forall g | g in CanonicalFields(t)
      ensures g in CanonicalFields(s)
    {
      var j :| 0 <= j < |t| && g == Field(t[j].key, Canonical(t[j].value));
      assert t[j] in t && IsCounterpart(t[j], s);
    }
    SortedIsUnique(CanonicalFields(s), CanonicalFields(t));
  }

  lemma {:induction false} SameCanonicalAreSame(a: Json, b: Json)
    requires Canonical(a) == Canonical(b)
    ensures SameUpToKeyOrder(a, b)
    decreases a
  {
    match (a, b) {
      case (Array(s), Array(t)) =>
        forall i | 0 <= i < |s|
          ensures SameUpToKeyOrder(s[i], t[i])
        {
          assert Canonical(a).items[i] == Canonical(s[i]) && Canonical(b).items[i] == Canonical(t[i]);
          SameCanonicalAreSame(s[i], t[i]);
        }
      case (Object(s), Object(t)) =>
        hide Canonical, SameUpToKeyOrder, CanonicalFields, FromEntries;
        CanonicalObject(s);
        CanonicalObject(t);
        forall f | f in s
          ensures HasCounterpart(f, t)
        {
          var g := Counterpart(s, t, f);
          SameCanonicalAreSame(f.value, g.value);
        }
        forall g | g in t
          ensures IsCounterpart(g, s)
        {
          var f := Counterpart(t, s, g);
          SameCanonicalAreSame(f.value, g.value);
        }
        ObjectsAreSame(s, t);
      case _ =>
    }
  }

  /** Equal canonical objects pair up their properties. */
  lemma Counterpart(s: seq<Field>, t: seq<Field>, f: Field) returns (g: Field)
    requires f in s && FromEntries(CanonicalFields(s)) == FromEntries(CanonicalFields(t))
    ensures g in t && f.key == g.key && Canonical(f.value) == Canonical(g.value)
  {
    hide Canonical, CanonicalFields;
    CanonicalMembers(s);
    CanonicalMembers(t);
    var c := Field(f.key, Canonical(f.value));
    assert c in FromEntries(CanonicalFields(t));
    var j :| 0 <= j < |t| && c == Field(t[j].key, Canonical(t[j].value));
    g := t[j];
  }

  /**
   The main result: canonical forms are equal exactly when the values are equal up to key
   order, whatever the nesting and whatever order the keys came in.
   */
  lemma CanonicalDecidesSameness(a: Json, b: Json)
    requires WellFormed(a) && WellFormed(b)
    ensures Canonical(a) == Canonical(b) <==> SameUpToKeyOrder(a, b)
  {
    if SameUpToKeyOrder(a, b) {
      SameHaveSameCanonical(a, b);
    }
    if Canonical(a) == Canonical(b) {
      SameCanonicalAreSame(a, b);
    }
  }

  lemma {:induction false} CanonicalIsSame(v: Json)
    ensures SameUpToKeyOrder(v, Canonical(v))
    decreases v
  {
    match v {
      case Array(items) =>
        forall i | 0 <= i < |items|
          ensures SameUpToKeyOrder(items[i], Canonical(items[i]))
        {
          CanonicalIsSame(items[i]);
        }
      case Object(fields) =>
        hide Canonical, SameUpToKeyOrder, CanonicalFields;
        CanonicalObject(fields);
        CanonicalMembers(fields);
        var entered := FromEntries(CanonicalFields(fields));
        forall f | f in fields
          ensures HasCounterpart(f, entered)
        {
          CanonicalIsSame(f.value);
          var j :| 0 <= j < |entered| && entered[j] == Field(f.key, Canonical(f.value));
        }
        forall g | g in entered
          ensures IsCounterpart(g, fields)
        {
          var i :| 0 <= i < |fields| && g == Field(fields[i].key, Canonical(fields[i].value));
          CanonicalIsSame(fields[i].value);
        }
        ObjectsAreSame(fields, entered);
      case _ =>
    }
  }

  // ----- canonical values are well formed, so canonicalisation is idempotent

  lemma {:induction false} InsertKeepsDistinct(f: Field, sorted: seq<Field>)
    requires DistinctKeys(sorted) && forall g | g in sorted :: g.key != f.key
    ensures DistinctKeys(InsertByIndex(f, sorted))
  {
    if sorted != [] && IndexOf(f.key) >= IndexOf(sorted[0].key) {
      InsertKeepsDistinct(f, sorted[1..]);
      forall g | g in InsertByIndex(f, sorted[1..])
        ensures g.key != sorted[0].key
      {
        if g != f {
          var k :| 0 <= k < |sorted[1..]| && sorted[1..][k] == g;
          assert sorted[k + 1] == g;
        }
      }
    }
  }

  lemma {:induction false} EntriesAreDistinct(fields: seq<Field>)
    requires DistinctKeys(fields)
    ensures DistinctKeys(IndexFields(fields)) && DistinctKeys(NamedFields(fields))
  {
    if fields != [] {
      var tail := fields[1..];
      EntriesAreDistinct(tail);
      forall g | g in tail
        ensures g.key != fields[0].key
      {
        var k :| 0 <= k < |tail| && tail[k] == g;
        assert fields[k + 1] == g;
      }
      if IsArrayIndex(fields[0].key) {
        InsertKeepsDistinct(fields[0], IndexFields(tail));
      }
    }
  }

  lemma FromEntriesIsDistinct(fields: seq<Field>)
    requires DistinctKeys(fields)
    ensures DistinctKeys(FromEntries(fields))
  {
    hide IsArrayIndex;
    EntriesAreDistinct(fields);
    var a: seq<Field>, b: seq<Field> := IndexFields(fields), NamedFields(fields);
    forall i, j | 0 <= i < j < |a + b|
      ensures (a + b)[i].key != (a + b)[j].key
    {
      if i < |a| && |a| <= j {
        assert a[i] in a && b[j - |a|] in b;
      }
    }
  }

  lemma {:induction false} CanonicalIsWellFormed(v: Json)
    requires WellFormed(v)
    ensures WellFormed(Canonical(v))
    decreases v
  {
    match v {
      case Array(items) =>
        forall i | 0 <= i < |items|
          ensures WellFormed(Canonical(items[i]))
        {
          CanonicalIsWellFormed(items[i]);
        }
      case Object(fields) =>
        WellFormedFields(fields);
        CanonicalObject(fields);
        CanonicalMembers(fields);
        CanonicalFieldsAreSorted(fields);
        SortedIsDistinct(CanonicalFields(fields));
        FromEntriesIsDistinct(CanonicalFields(fields));
        hide Canonical, CanonicalFields;
        var entered := FromEntries(CanonicalFields(fields));
        forall k | 0 <= k < |entered|
          ensures WellFormed(entered[k].value)
        {
          assert entered[k] in entered;
          var i :| 0 <= i < |fields| && entered[k] == Field(fields[i].key, Canonical(fields[i].value));
          CanonicalIsWellFormed(fields[i].value);
        }
      case _ =>
    }
  }

  lemma SortedIsDistinct(fields: seq<Field>)
    requires SortedByKey(fields)
    ensures DistinctKeys(fields)
  {
    forall i, j | 0 <= i < j < |fields|
      ensures fields[i].key != fields[j].key
    {
      LessIsTotal(fields[i].key, fields[j].key);
    }
  }

  /** Canonicalising twice is canonicalising once. */
  lemma CanonicalIsIdempotent(v: Json)
    requires WellFormed(v)
    ensures Canonical(Canonical(v)) == Canonical(v)
  {
    hide Canonical, WellFormed, SameUpToKeyOrder;
    CanonicalIsWellFormed(v);
    CanonicalIsSame(v);
    CanonicalDecidesSameness(v, Canonical(v));
  }

  /** Any reordering of an object's keys leaves its canonical form alone. */
  lemma ReorderingIsInvisible(s: seq<Field>, t: seq<Field>)
    requires WellFormed(Object(s)) && WellFormed(Object(t)) && SameFields(s, t)
    ensures Canonical(Object(s)) == Canonical(Object(t))
  {
    hide SameUpToKeyOrder, WellFormed, Canonical;
    forall f | f in s
      ensures HasCounterpart(f, t) && IsCounterpart(f, s)
    {
      SameIsReflexive(f.value);
    }
    ObjectsAreSame(s, t);
    SameHaveSameCanonical(Object(s), Object(t));
  }

  lemma {:induction false} SameIsReflexive(v: Json)
    ensures SameUpToKeyOrder(v, v)
    decreases v
  {
    match v {
      case Array(items) =>
        forall i | 0 <= i < |items|
          ensures SameUpToKeyOrder(items[i], items[i])
        {
          SameIsReflexive(items[i]);
        }
      case Object(fields) =>
        hide SameUpToKeyOrder;
        forall f | f in fields
          ensures HasCounterpart(f, fields) && IsCounterpart(f, fields)
        {
          SameIsReflexive(f.value);
        }
        ObjectsAreSame(fields, fields);
      case _ =>
    }
  }

  /**
   Listing keys as `fromEntries` does agrees with sorting them: every array index sorts before
   every other key, and a smaller index before a larger one.
   */
  predicate IndicesSortFirst(fields: seq<Field>) {
    forall f, g | f in fields && g in fields :: ComesBefore(f.key, g.key) ==> Less(f.key, g.key)
  }

  /** A key that `fromEntries` lists before another because it is an array index. */
  predicate ComesBefore(a: Text, b: Text) {
    IsArrayIndex(a) && (!IsArrayIndex(b) || IndexOf(a) < IndexOf(b))
  }

  predicate IndexOrdered(fields: seq<Field>) {
    forall i, j | 0 <= i < j < |fields| :: IndexOf(fields[i].key) <= IndexOf(fields[j].key)
  }

  lemma {:induction false} InsertKeepsIndexOrder(f: Field, sorted: seq<Field>)
    requires IndexOrdered(sorted)
    ensures IndexOrdered(InsertByIndex(f, sorted))
  {
    hide IndexOf;
    if sorted != [] && IndexOf(f.key) >= IndexOf(sorted[0].key) {
      var tail := InsertByIndex(f, sorted[1..]);
      InsertKeepsIndexOrder(f, sorted[1..]);
      forall g | g in tail
        ensures IndexOf(sorted[0].key) <= IndexOf(g.key)
      {
        if g != f {
          var k :| 0 <= k < |sorted[1..]| && sorted[1..][k] == g;
          assert sorted[k + 1] == g;
        }
      }
    }
  }

  lemma {:induction false} IndicesAreOrdered(fields: seq<Field>)
    ensures IndexOrdered(IndexFields(fields))
  {
    hide IndexOf, IsArrayIndex;
    if fields != [] {
      IndicesAreOrdered(fields[1..]);
      if IsArrayIndex(fields[0].key) {
        InsertKeepsIndexOrder(fields[0], IndexFields(fields[1..]));
      }
    }
  }

  lemma {:induction false} NamesStaySorted(fields: seq<Field>)
    requires SortedByKey(fields)
    ensures SortedByKey(NamedFields(fields))
  {
    hide IsArrayIndex, Less;
    if fields != [] {
      NamesStaySorted(fields[1..]);
      forall g | g in NamedFields(fields[1..])
        ensures Less(fields[0].key, g.key)
      {
        var k :| 0 <= k < |fields[1..]| && fields[1..][k] == g;
        assert fields[k + 1] == g;
      }
    }
  }

  /** Different array indices are different numbers. */
  lemma SameIndexSameKey(a: Text, b: Text)
    requires IsArrayIndex(a) && IsArrayIndex(b) && IndexOf(a) == IndexOf(b)
    ensures a == b
  {
    Decimal.NumeralIsWritten(Chars(a));
    Decimal.NumeralIsWritten(Chars(b));
    forall i | 0 <= i < |a|
      ensures a[i] == b[i]
    {
      assert Chars(a)[i] == Chars(b)[i];
    }
  }

  lemma EnteredInOrder(fields: seq<Field>)
    requires SortedByKey(fields) && IndicesSortFirst(fields)
    ensures SortedByKey(FromEntries(fields))
  {
    hide IsArrayIndex, IndexOf, Less;
    var indices, names := IndexFields(fields), NamedFields(fields);
    SortedIsDistinct(fields);
    EntriesAreDistinct(fields);
    IndicesAreOrdered(fields);
    NamesStaySorted(fields);
    forall i, j | 0 <= i < j < |indices|
      ensures Less(indices[i].key, indices[j].key)
    {
      assert indices[i] in indices && indices[j] in indices;
      if IndexOf(indices[i].key) == IndexOf(indices[j].key) {
        SameIndexSameKey(indices[i].key, indices[j].key);
      }
    }
    forall i, j | 0 <= i < |indices| && 0 <= j < |names|
      ensures Less(indices[i].key, names[j].key)
    {
      assert indices[i] in indices && names[j] in names;
    }
  }

  lemma SortedWhereListedFirst(fields: seq<Field>, f: Field, g: Field)
    requires SortedByKey(FromEntries(fields)) && f in fields && g in fields && ComesBefore(f.key, g.key)
    ensures Less(f.key, g.key)
  {
    hide IsArrayIndex, IndexOf, Less, SortedByKey, IndexFields, NamedFields;
    var indices, names := IndexFields(fields), NamedFields(fields);
    assert f in indices;
    if IsArrayIndex(g.key) {
      assert g in indices;
      IndicesAreOrdered(fields);
      SortedInFront(indices, names, f, g);
    } else {
      assert g in names;
      SortedAcross(indices, names, f, g);
    }
  }

  lemma SortedInFront(indices: seq<Field>, names: seq<Field>, f: Field, g: Field)
    requires SortedByKey(indices + names) && IndexOrdered(indices)
    requires f in indices && g in indices && IndexOf(f.key) < IndexOf(g.key)
    ensures Less(f.key, g.key)
  {
    hide IndexOf, Less;
    var i :| 0 <= i < |indices| && indices[i] == f;
    var j :| 0 <= j < |indices| && indices[j] == g;
    assert (indices + names)[i] == f && (indices + names)[j] == g;
  }

  lemma SortedAcross(indices: seq<Field>, names: seq<Field>, f: Field, g: Field)
    requires SortedByKey(indices + names) && f in indices && g in names
    ensures Less(f.key, g.key)
  {
    hide Less;
    var i :| 0 <= i < |indices| && indices[i] == f;
    var j :| 0 <= j < |names| && names[j] == g;
    assert (indices + names)[i] == f && (indices + names)[|indices| + j] == g;
  }

  lemma SameKeysSortAlike(fields: seq<Field>, others: seq<Field>)
    requires forall f | f in fields :: HasKey(others, f.key)
    requires IndicesSortFirst(others)
    ensures IndicesSortFirst(fields)
  {
    hide ComesBefore, Less;
    forall f, g | f in fields && g in fields && ComesBefore(f.key, g.key)
      ensures Less(f.key, g.key)
    {
      assert HasKey(others, f.key) && HasKey(others, g.key);
    }
  }

  predicate HasKey(fields: seq<Field>, key: Text) {
    exists f :: f in fields && f.key == key
  }

  /** Exactly when the keys of a canonical object come out in sorted order. */
  lemma CanonicalKeysAreSortedIff(fields: seq<Field>)
    requires DistinctKeys(fields)
    ensures Canonical(Object(fields)).Object?
    ensures SortedByKey(Canonical(Object(fields)).fields) <==> IndicesSortFirst(fields)
  {
    hide ComesBefore, Less, IsArrayIndex, Canonical, FromEntries, CanonicalFields;
    var entered := CanonicalFields(fields);
    CanonicalObject(fields);
    CanonicalMembers(fields);
    CanonicalFieldsAreSorted(fields);
    forall f | f in fields
      ensures HasKey(entered, f.key)
    {
      assert Field(f.key, Canonical(f.value)) in entered;
    }
    if SortedByKey(FromEntries(entered)) {
      forall f, g | f in entered && g in entered && ComesBefore(f.key, g.key)
        ensures Less(f.key, g.key)
      {
        SortedWhereListedFirst(entered, f, g);
      }
      SameKeysSortAlike(fields, entered);
    }
    if IndicesSortFirst(fields) {
      SameKeysSortAlike(entered, fields);
      EnteredInOrder(entered);
    }
  }

  /** Without array-index keys, in particular, they are sorted. */
  lemma NamedKeysAreSorted(fields: seq<Field>)
    requires DistinctKeys(fields) && forall f | f in fields :: !IsArrayIndex(f.key)
    ensures Canonical(Object(fields)).Object? && SortedByKey(Canonical(Object(fields)).fields)
  {
    hide Canonical;
    CanonicalKeysAreSortedIff(fields);
  }

  /** The keys "10" and "9": "10" sorts before "9", and is listed behind it. */
  lemma CanonicalKeysNeedNotBeSorted()
    ensures var ten, nine := Field([0x31, 0x30], Null), Field([0x39], Null);
            && Canonical(Object([nine, ten])) == Canonical(Object([ten, nine])) == Object([nine, ten])
            && !SortedByKey([nine, ten]) && !IndicesSortFirst([ten, nine])
  {
    hide IsArrayIndex, IndexOf, Less;
    var ten, nine := Field([0x31, 0x30], Null), Field([0x39], Null);
    TenAndNine();
    PairEntered(nine, ten);
    LessIsTotal(ten.key, nine.key);
    var listed := [nine, ten];
    assert listed[0] == nine && listed[1] == ten;
    assert ten in [ten, nine] && nine in [ten, nine] && ComesBefore(nine.key, ten.key);
  }

  lemma TenAndNine()
    ensures var ten, nine: Text := [0x31, 0x30], [0x39];
            IsArrayIndex(ten) && IsArrayIndex(nine) && IndexOf(nine) < IndexOf(ten) && Less(ten, nine)
  {
    var ten, nine: Text := [0x31, 0x30], [0x39];
    assert Chars(nine) == Decimal.Digits(9) && Chars(ten) == Decimal.Digits(10);
    Decimal.DigitsDenote(9);
    Decimal.DigitsDenote(10);
  }

  /** Two indices that sort against their numbers. */
  lemma PairEntered(small: Field, large: Field)
    requires IsArrayIndex(small.key) && IsArrayIndex(large.key) && IndexOf(small.key) < IndexOf(large.key)
    requires Less(large.key, small.key) && small.value == large.value == Null
    ensures Canonical(Object([small, large])) == Canonical(Object([large, small])) == Object([small, large])
  {
    hide IsArrayIndex, IndexOf, Less;
    PairSorted(large, small);
    PairFromEntries(small, large);
    hide SortByKey, FromEntries, Canonical;
    CanonicalObject([large, small]);
    CanonicalObject([small, large]);
    PairCanonicalFields(large, small);
  }

  lemma PairSorted(a: Field, b: Field)
    requires Less(a.key, b.key)
    ensures SortByKey([a, b]) == SortByKey([b, a]) == [a, b]
  {
    hide Less;
    LessIsTotal(a.key, b.key);
    assert [a, b][1..] == [b] && [b, a][1..] == [a] && [a][1..] == [] && [b][1..] == [];
    assert SortByKey([a]) == [a] && SortByKey([b]) == [b];
  }

  lemma PairFromEntries(a: Field, b: Field)
    requires IsArrayIndex(a.key) && IsArrayIndex(b.key) && IndexOf(a.key) < IndexOf(b.key)
    ensures FromEntries([b, a]) == [a, b]
  {
    hide IsArrayIndex, IndexOf;
    assert [b, a][1..] == [a] && [a][1..] == [];
    assert IndexFields([a]) == [a] && NamedFields([a]) == [];
    assert InsertByIndex(b, [a]) == [a] + InsertByIndex(b, []) == [a, b];
    assert IndexFields([b, a]) == [a, b] && NamedFields([b, a]) == [];
  }

  lemma PairCanonicalFields(a: Field, b: Field)
    requires a.value == b.value == Null && SortByKey([a, b]) == SortByKey([b, a]) == [a, b]
    ensures CanonicalFields([a, b]) == CanonicalFields([b, a]) == [a, b]
  {
    hide SortByKey;
  }

  // ----- binding two identities

  datatype Result<+T> = Ok(value: T) | Err

  /** `recordValue(v)[key]`: a value that is not an object has no properties. */
  function Get(v: Json, key: Text): Option<Json> {
    if !v.Object? then None else Find(v.fields, key)
  }

  function Find(fields: seq<Field>, key: Text): Option<Json> {
    if fields == [] then None
    else if fields[0].key == key then Some(fields[0].value)
    else Find(fields[1..], key)
  }

  /** The code units of a property name. */
  function Name(s: string): (t: Text)
    ensures |t| == |s|
  {
    seq(|s|, i requires 0 <= i < |s| => s[i] as int % 0x1_0000)
  }

  /** The parts of an identity that the manifest is built from. */
  datatype Parts = Parts(backend: Json, githubSha: Json, visionCore: Json, artifacts: Json, commit: Json, sourceDigest: Json) {
    predicate AreWellFormed() {
      && WellFormed(backend) && WellFormed(githubSha) && WellFormed(visionCore)
      && WellFormed(artifacts) && WellFormed(commit) && WellFormed(sourceDigest)
    }

    predicate SameAs(that: Parts) {
      && SameUpToKeyOrder(backend, that.backend) && SameUpToKeyOrder(githubSha, that.githubSha)
      && SameUpToKeyOrder(visionCore, that.visionCore) && SameUpToKeyOrder(artifacts, that.artifacts)
      && SameUpToKeyOrder(commit, that.commit) && SameUpToKeyOrder(sourceDigest, that.sourceDigest)
    }

    function SourceFields(): seq<Field> {
      [Field(Name("sourceCommit"), githubSha)]
    }

    function RuntimeFields(): seq<Field> {
      [Field(Name("artifacts"), artifacts), Field(Name("commit"), commit), Field(Name("sourceDigest"), sourceDigest)]
    }

    function ManifestFields(): seq<Field> {
      [Field(Name("backend"), backend),
       Field(Name("schemaVersion"), String(Name("vem-runtime-testbed-acceptance-release/v1"))),
       Field(Name("vem"), Object(SourceFields())),
       Field(Name("vision"), visionCore),
       Field(Name("windowsRuntime"), Object(RuntimeFields()))]
    }

    /** The record `buildAcceptanceReleaseManifest` hands to `canonical`. */
    function Manifest(): Json {
      Object(ManifestFields())
    }
  }

  /** The required parts, when they are all there and the records among them are objects. */
  function PartsOf(identity: Json): Option<Parts> {
    match (Get(identity, Name("backend")), Get(identity, Name("githubSha")),
           Get(identity, Name("visionCore")), Get(identity, Name("runtimeArtifacts")))
    case (Some(backend), Some(githubSha), Some(visionCore), Some(runtime)) =>
      (match (Get(runtime, Name("artifacts")), Get(runtime, Name("commit")), Get(runtime, Name("sourceDigest")))
       case (Some(artifacts), Some(commit), Some(sourceDigest)) =>
         if backend.Object? && visionCore.Object? && runtime.Object? && artifacts.Object?
         then Some(Parts(backend, githubSha, visionCore, artifacts, commit, sourceDigest))
         else None
       case _ => None)
    case _ => None
  }

  /** `buildAcceptanceReleaseManifest`; `checks` stands for the pattern and size checks of `validateIdentity`. */
  function Build(identity: Json, checks: Json -> bool): Result<Json> {
    if PartsOf(identity).Some? && checks(identity) then Ok(Canonical(PartsOf(identity).value.Manifest())) else Err
  }

  datatype Binding = Binding(manifest: Json, raw: Text)

  /** `bindAcceptanceReleaseManifest`, with `JSON.stringify` as `stringify`; the digest of `raw` is left to the caller. */
  function Bind(a: Json, b: Json, checks: Json -> bool, stringify: Json -> Text): Result<Binding> {
    match (Build(a, checks), Build(b, checks))
    case (Ok(manifest), Ok(second)) =>
      var raw := stringify(Canonical(manifest)) + [0x0A];
      if raw != stringify(Canonical(second)) + [0x0A] then Err else Ok(Binding(manifest, raw))
    case _ => Err
  }

  lemma {:induction false} FoundIsWellFormed(v: Json, key: Text)
    requires WellFormed(v) && Get(v, key).Some?
    ensures WellFormed(Get(v, key).value)
    decreases v
  {
    WellFormedFields(v.fields);
    FindFinds(v.fields, key);
  }

  lemma {:induction false} FindFinds(fields: seq<Field>, key: Text)
    requires Find(fields, key).Some?
    ensures Field(key, Find(fields, key).value) in fields
  {
    if fields[0].key != key {
      FindFinds(fields[1..], key);
    }
  }

  lemma PartsAreWellFormed(identity: Json)
    requires WellFormed(identity) && PartsOf(identity).Some?
    ensures PartsOf(identity).value.AreWellFormed()
  {
    hide WellFormed, Get;
    FoundIsWellFormed(identity, Name("backend"));
    FoundIsWellFormed(identity, Name("githubSha"));
    FoundIsWellFormed(identity, Name("visionCore"));
    FoundIsWellFormed(identity, Name("runtimeArtifacts"));
    var runtime := Get(identity, Name("runtimeArtifacts")).value;
    FoundIsWellFormed(runtime, Name("artifacts"));
    FoundIsWellFormed(runtime, Name("commit"));
    FoundIsWellFormed(runtime, Name("sourceDigest"));
  }

  lemma ManifestIsWellFormed(p: Parts)
    requires p.AreWellFormed()
    ensures WellFormed(p.Manifest())
  {
    var fields := p.ManifestFields();
    assert |fields[0].key| == 7 && |fields[1].key| == 13 && |fields[2].key| == 3 && |fields[3].key| == 6 && |fields[4].key| == 14;
    var runtime := p.RuntimeFields();
    assert |runtime[0].key| == 9 && |runtime[1].key| == 6 && |runtime[2].key| == 12;
    assert WellFormed(Object(runtime)) && WellFormed(Object(p.SourceFields()));
  }

  /** Manifests are equal up to key order exactly when all the parts are. */
  lemma SameManifests(p: Parts, q: Parts)
    ensures SameUpToKeyOrder(p.Manifest(), q.Manifest()) <==> p.SameAs(q)
  {
    hide SameUpToKeyOrder;
    var s, t := p.ManifestFields(), q.ManifestFields();
    assert |s[0].key| == 7 && |s[1].key| == 13 && |s[2].key| == 3 && |s[3].key| == 6 && |s[4].key| == 14;
    var u, v := p.RuntimeFields(), q.RuntimeFields();
    assert |u[0].key| == 9 && |u[1].key| == 6 && |u[2].key| == 12;
    AlignedFields(p.SourceFields(), q.SourceFields());
    AlignedFields(u, v);
    AlignedFields(s, t);
    SameIsReflexive(s[1].value);
    assert t[1].value == s[1].value;
    var x, y := p.SourceFields(), q.SourceFields();
    assert SameUpToKeyOrder(s[2].value, t[2].value) <==> SameUpToKeyOrder(x[0].value, y[0].value);
    assert SameUpToKeyOrder(s[4].value, t[4].value) <==>
      SameUpToKeyOrder(u[0].value, v[0].value) && SameUpToKeyOrder(u[1].value, v[1].value) && SameUpToKeyOrder(u[2].value, v[2].value);
    assert SameUpToKeyOrder(p.Manifest(), q.Manifest()) <==>
      && SameUpToKeyOrder(s[0].value, t[0].value) && SameUpToKeyOrder(s[2].value, t[2].value)
      && SameUpToKeyOrder(s[3].value, t[3].value) && SameUpToKeyOrder(s[4].value, t[4].value);
  }

  /** Objects listing the same keys in the same order are compared property by property. */
  lemma AlignedFields(s: seq<Field>, t: seq<Field>)
    requires |s| == |t| && DistinctKeys(s) && forall i | 0 <= i < |s| :: s[i].key == t[i].key
    ensures SameUpToKeyOrder(Object(s), Object(t)) <==> forall i | 0 <= i < |s| :: SameUpToKeyOrder(s[i].value, t[i].value)
  {
    hide SameUpToKeyOrder;
    ObjectsAreSame(s, t);
    forall i | 0 <= i < |s|
      ensures HasCounterpart(s[i], t) <==> SameUpToKeyOrder(s[i].value, t[i].value)
      ensures IsCounterpart(t[i], s) <==> SameUpToKeyOrder(s[i].value, t[i].value)
    {
      assert s[i] in s && t[i] in t;
    }
    assert forall i | 0 <= i < |s| :: s[i] in s && t[i] in t;
  }

  /** What is assumed of `JSON.stringify`: it does not confuse these two values. */
  predicate Distinguishes(stringify: Json -> Text, a: Json, b: Json) {
    stringify(a) == stringify(b) ==> a == b
  }

  /**
   Binding two identities that each build succeeds exactly when the parts that enter the
   manifest agree up to key order; nothing else in the identities matters. The bound
   manifest is the first one's.
   */
  lemma BindDecidesSameParts(a: Json, b: Json, checks: Json -> bool, stringify: Json -> Text)
    requires WellFormed(a) && WellFormed(b) && Build(a, checks).Ok? && Build(b, checks).Ok?
    requires Distinguishes(stringify, Build(a, checks).value, Build(b, checks).value)
    ensures Bind(a, b, checks, stringify).Ok? <==> PartsOf(a).value.SameAs(PartsOf(b).value)
    ensures Bind(a, b, checks, stringify).Ok? ==>
              Bind(a, b, checks, stringify).value == Binding(Build(a, checks).value, stringify(Build(a, checks).value) + [0x0A])
  {
    hide Canonical, WellFormed, SameUpToKeyOrder, PartsOf, Parts.Manifest;
    var p, q := PartsOf(a).value, PartsOf(b).value;
    PartsAreWellFormed(a);
    PartsAreWellFormed(b);
    ManifestIsWellFormed(p);
    ManifestIsWellFormed(q);
    SameManifests(p, q);
    CanonicalDecidesSameness(p.Manifest(), q.Manifest());
    CanonicalIsIdempotent(p.Manifest());
    CanonicalIsIdempotent(q.Manifest());
    var x, y := stringify(Canonical(p.Manifest())), stringify(Canonical(q.Manifest()));
    assert (x + [0x0A])[..|x|] == x && (y + [0x0A])[..|y|] == y;
  }
}
