/**
 Sorting the working set: the comparator factory `dynamicSort`, JavaScript's
 `<` on field values, and a stable insertion sort driven by the comparator
 (the stable `Array.prototype.sort` the table calls).
 */
module Ordering {
  import opened Records

  // ---------------------------------------------------------------------------
  // JavaScript `<` on field values
  // ---------------------------------------------------------------------------

  /** `a < b` on two strings: lexicographic by character, a proper prefix first. */
  predicate StrLess(a: string, b: string)
    decreases |a|
  {
    if a == [] then b != []
    else if b == [] then false
    else if a[0] != b[0] then a[0] < b[0]
    else StrLess(a[1..], b[1..])
  }

  lemma {:induction false} StrLessAsymmetric(a: string, b: string)
    ensures !(StrLess(a, b) && StrLess(b, a))
    decreases |a|
  {
    if a != [] && b != [] && a[0] == b[0] {
      StrLessAsymmetric(a[1..], b[1..]);
    }
  }

  lemma {:induction false} StrLessTransitive(a: string, b: string, c: string)
    requires StrLess(a, b) && StrLess(b, c)
    ensures StrLess(a, c)
    decreases |a|
  {
    if a != [] && a[0] == b[0] && b[0] == c[0] {
      StrLessTransitive(a[1..], b[1..], c[1..]);
    }
  }

  lemma {:induction false} StrLessTotal(a: string, b: string)
    ensures a == b || StrLess(a, b) || StrLess(b, a)
    decreases |a|
  {
    if a != [] && b != [] && a[0] == b[0] {
      StrLessTotal(a[1..], b[1..]);
      if a[1..] == b[1..] {
        assert a == [a[0]] + a[1..];
        assert b == [b[0]] + b[1..];
      }
    }
  }

  /** The kinds of field value `<` distinguishes: the table's sort only
      orders values of one kind. */
  datatype Kind = Text | Number | Other

  function KindOf(v: Value): Kind {
    match v
    case Str(_) => Text
    case Num(_) => Number
    case _ => Other
  }

  /** `a < b` on field values. Strings and numbers are ordered among
      themselves; a pair of different kinds, or one involving `null` or
      `undefined`, is unordered. */
  predicate Less(a: Value, b: Value) {
    match (a, b)
    case (Str(x), Str(y)) => StrLess(x, y)
    case (Num(x), Num(y)) => x < y
    case _ => false
  }

  lemma LessAsymmetric(a: Value, b: Value)
    ensures !(Less(a, b) && Less(b, a))
  {
    if a.Str? && b.Str? {
      StrLessAsymmetric(a.s, b.s);
    }
  }

  /** Strings and numbers are totally ordered. */
  lemma LessTotal(a: Value, b: Value)
    requires KindOf(a) == KindOf(b) != Other
    ensures a == b || Less(a, b) || Less(b, a)
  {
    if a.Str? {
      StrLessTotal(a.s, b.s);
    }
  }

  /** "Not greater" is transitive among values of one kind. */
  lemma NotLessTransitive(x: Value, y: Value, z: Value)
    requires KindOf(x) == KindOf(y) == KindOf(z)
    requires !Less(y, x) && !Less(z, y)
    ensures !Less(z, x)
  {
    if KindOf(x) == Text {
      StrLessTotal(x.s, y.s);
      StrLessTotal(y.s, z.s);
      if StrLess(z.s, x.s) && x.s != y.s && y.s != z.s {
        StrLessTransitive(x.s, y.s, z.s);
        StrLessAsymmetric(x.s, z.s);
      }
    }
  }

  // ---------------------------------------------------------------------------
  // The comparator factory
  // ---------------------------------------------------------------------------

  /** The closure `dynamicSort` returns: the property it reads and whether the
      sort order is negated. */
  datatype Comparator = Comparator(field: string, descending: bool)

  /** `dynamicSort(property)`: a leading '-' selects descending order and is
      stripped from the property name. */
  function DynamicSort(property: string): (c: Comparator)
    ensures c.descending <==> |property| > 0 && property[0] == '-'
    ensures property == (if c.descending then "-" else "") + c.field
  {
    if |property| > 0 && property[0] == '-' then Comparator(property[1..], true)
    else Comparator(property, false)
  }

  /** The comparator `sort(field, reverse)` builds, as the source writes it:
      `dynamicSort('-' + field)` or `dynamicSort(field)`. */
  function SourceComparator(field: string, reverse: bool): (c: Comparator)
    ensures reverse ==> c == Comparator(field, true)
    ensures !reverse ==> (c.descending <==> |field| > 0 && field[0] == '-')
    ensures !reverse ==> field == (if c.descending then "-" else "") + c.field
  {
    assert reverse ==> ("-" + field)[1..] == field;
    DynamicSort(if reverse then "-" + field else field)
  }

  /** The comparator `sort(field, reverse)` is meant to build: ordered by
      `field`, descending exactly when `reverse`. */
  function SortComparator(field: string, reverse: bool): (c: Comparator)
    ensures c.field == field && c.descending == reverse
  {
    Comparator(field, reverse)
  }

  /** The two agree unless an ascending sort is asked for on a column whose
      name starts with '-'. */
  lemma SourceComparatorAgrees(field: string, reverse: bool)
    requires reverse || field == [] || field[0] != '-'
    ensures SourceComparator(field, reverse) == SortComparator(field, reverse)
  {
    if reverse {
      assert ("-" + field)[1..] == field;
    }
  }

  /** The sort key of an entry: `a.record[property]`. */
  function Key(c: Comparator, e: Entry): Value {
    Get(e.record, c.field)
  }

  /** The comparator applied to two entries: -1, 0 or 1, negated when
      descending. */
  function Compare(c: Comparator, a: Entry, b: Entry): (r: int)
    ensures -1 <= r <= 1
    ensures r == 0 <==> !Less(Key(c, a), Key(c, b)) && !Less(Key(c, b), Key(c, a))
    ensures r < 0 <==> (if c.descending then Less(Key(c, b), Key(c, a)) else Less(Key(c, a), Key(c, b)))
    ensures r > 0 <==> (if c.descending then Less(Key(c, a), Key(c, b)) else Less(Key(c, b), Key(c, a)))
  {
    LessAsymmetric(Key(c, a), Key(c, b));
    var result := if Less(Key(c, a), Key(c, b)) then -1
                  else if Less(Key(c, b), Key(c, a)) then 1
                  else 0;
    if c.descending then -result else result
  }

  /** Swapping the operands negates the comparison. */
  lemma CompareAntisymmetric(c: Comparator, a: Entry, b: Entry)
    ensures Compare(c, a, b) == -Compare(c, b, a)
  {
    LessAsymmetric(Key(c, a), Key(c, b));
  }

  /** The descending comparator is the ascending one with operands swapped. */
  lemma CompareMirror(field: string, a: Entry, b: Entry)
    ensures Compare(Comparator(field, true), a, b) == Compare(Comparator(field, false), b, a)
  {
    LessAsymmetric(Get(a.record, field), Get(b.record, field));
  }

  /** All entries of `s` have a sort key of kind `k`. */
  predicate OfKind(c: Comparator, s: seq<Entry>, k: Kind) {
    forall e :: e in s ==> KindOf(Key(c, e)) == k
  }

  /** "Not after" is transitive among entries whose keys have one kind. */
  lemma CompareTransitive(c: Comparator, a: Entry, b: Entry, d: Entry)
    requires KindOf(Key(c, a)) == KindOf(Key(c, b)) == KindOf(Key(c, d))
    requires Compare(c, a, b) <= 0 && Compare(c, b, d) <= 0
    ensures Compare(c, a, d) <= 0
  {
    if c.descending {
      NotLessTransitive(Key(c, d), Key(c, b), Key(c, a));
    } else {
      NotLessTransitive(Key(c, a), Key(c, b), Key(c, d));
    }
  }

  /** Comparing equal is transitive among entries whose keys have one kind. */
  lemma CompareEqualTransitive(c: Comparator, a: Entry, b: Entry, d: Entry)
    requires KindOf(Key(c, a)) == KindOf(Key(c, b)) == KindOf(Key(c, d))
    requires Compare(c, a, b) == 0 && Compare(c, b, d) == 0
    ensures Compare(c, a, d) == 0
  {
    CompareAntisymmetric(c, a, b);
    CompareAntisymmetric(c, b, d);
    CompareTransitive(c, a, b, d);
    CompareTransitive(c, d, b, a);
    CompareAntisymmetric(c, a, d);
  }

  // ---------------------------------------------------------------------------
  // Stable insertion sort
  // ---------------------------------------------------------------------------

  /** Ordered by the comparator: no entry compares after a later one. */
  predicate Sorted(c: Comparator, s: seq<Entry>) {
    forall i, j :: 0 <= i < j < |s| ==> Compare(c, s[i], s[j]) <= 0
  }

  /** Puts `x` in front of the first entry it does not compare after. */
  function Insert(c: Comparator, x: Entry, t: seq<Entry>): (r: seq<Entry>)
    ensures multiset(r) == multiset(t) + multiset{x}
    ensures forall y :: y in r <==> y == x || y in t
    decreases |t|
  {
    if t == [] then [x]
    else if Compare(c, x, t[0]) <= 0 then [x] + t
    else
      var rest := Insert(c, x, t[1..]);
      assert t == [t[0]] + t[1..];
      [t[0]] + rest
  }

  /** Sorts by inserting each entry, last to first, into the sorted rest, so
      an entry lands before the entries it ties with that followed it. */
  function InsertionSort(c: Comparator, s: seq<Entry>): (r: seq<Entry>)
    ensures multiset(r) == multiset(s)
    ensures |r| == |s|
    decreases |s|
  {
    if s == [] then []
    else
      assert s == [s[0]] + s[1..];
      Insert(c, s[0], InsertionSort(c, s[1..]))
  }

  /** In an ordered sequence the head comes before every later entry. */
  lemma HeadFirst(c: Comparator, t: seq<Entry>)
    requires Sorted(c, t) && t != []
    ensures forall y :: y in t[1..] ==> Compare(c, t[0], y) <= 0
  {
    forall y | y in t[1..]
      ensures Compare(c, t[0], y) <= 0
    {
      var m :| 0 <= m < |t[1..]| && t[1..][m] == y;
      assert t[m + 1] == y;
    }
  }

  /** Prepending an entry that comes before all others keeps order. */
  lemma ConsSorted(c: Comparator, x: Entry, t: seq<Entry>)
    requires Sorted(c, t)
    requires forall y :: y in t ==> Compare(c, x, y) <= 0
    ensures Sorted(c, [x] + t)
  {
    var r := [x] + t;
    forall i, j | 0 <= i < j < |r|
      ensures Compare(c, r[i], r[j]) <= 0
    {
      if i == 0 {
        assert r[j] == t[j - 1];
        assert t[j - 1] in t;
      } else {
        assert r[i] == t[i - 1] && r[j] == t[j - 1];
      }
    }
  }

  lemma {:induction false} InsertSorted(c: Comparator, x: Entry, t: seq<Entry>, k: Kind)
    requires Sorted(c, t) && OfKind(c, t, k) && KindOf(Key(c, x)) == k
    ensures Sorted(c, Insert(c, x, t))
    decreases |t|
  {
    if t == [] {
    } else if Compare(c, x, t[0]) <= 0 {
      HeadFirst(c, t);
      forall y | y in t
        ensures Compare(c, x, y) <= 0
      {
        if y != t[0] {
          assert y in t[1..] by { assert t == [t[0]] + t[1..]; }
          CompareTransitive(c, x, t[0], y);
        }
      }
      ConsSorted(c, x, t);
    } else {
      var rest := Insert(c, x, t[1..]);
      assert OfKind(c, t[1..], k);
      assert Sorted(c, t[1..]);
      InsertSorted(c, x, t[1..], k);
      HeadFirst(c, t);
      CompareAntisymmetric(c, x, t[0]);
      ConsSorted(c, t[0], rest);
    }
  }

  /** With all keys of one kind, the sort's output is ordered. */
  lemma {:induction false} InsertionSortSorted(c: Comparator, s: seq<Entry>, k: Kind)
    requires OfKind(c, s, k)
    ensures Sorted(c, InsertionSort(c, s))
    decreases |s|
  {
    if s != [] {
      assert OfKind(c, s[1..], k);
      InsertionSortSorted(c, s[1..], k);
      var t := InsertionSort(c, s[1..]);
      forall e | e in t
        ensures KindOf(Key(c, e)) == k
      {
        assert e in multiset(s[1..]);
      }
      InsertSorted(c, s[0], t, k);
    }
  }

  /** The entries of `s` that tie with `x`, in their order in `s`. */
  function Ties(c: Comparator, s: seq<Entry>, x: Entry): (r: seq<Entry>)
    ensures forall e :: e in r <==> e in s && Compare(c, e, x) == 0
    decreases |s|
  {
    if s == [] then []
    else if Compare(c, s[0], x) == 0 then [s[0]] + Ties(c, s[1..], x)
    else Ties(c, s[1..], x)
  }

  lemma {:induction false} InsertTies(c: Comparator, y: Entry, t: seq<Entry>, x: Entry, k: Kind)
    requires Sorted(c, t) && OfKind(c, t, k) && KindOf(Key(c, y)) == k && KindOf(Key(c, x)) == k
    ensures Ties(c, Insert(c, y, t), x)
         == (if Compare(c, y, x) == 0 then [y] else []) + Ties(c, t, x)
    decreases |t|
  {
    if t == [] || Compare(c, y, t[0]) <= 0 {
      InsertTiesFront(c, y, t, x);
    } else {
      assert OfKind(c, t[1..], k);
      SortedTail(c, t);
      InsertTies(c, y, t[1..], x, k);
      assert t[0] in t;
      if Compare(c, y, x) == 0 {
        TieNotBeforeHead(c, y, t[0], x);
      }
      InsertTiesBehind(c, y, t, x);
    }
  }

  /** Inserting in front adds the inserted entry's tie, if any, in front. */
  lemma InsertTiesFront(c: Comparator, y: Entry, t: seq<Entry>, x: Entry)
    requires t == [] || Compare(c, y, t[0]) <= 0
    ensures Ties(c, Insert(c, y, t), x)
         == (if Compare(c, y, x) == 0 then [y] else []) + Ties(c, t, x)
  {
    assert Insert(c, y, t) == [y] + t;
    assert ([y] + t)[1..] == t;
  }

  /** Inserting behind the head keeps the head's tie, if any, in front. */
  lemma InsertTiesBehind(c: Comparator, y: Entry, t: seq<Entry>, x: Entry)
    requires t != [] && Compare(c, y, t[0]) > 0
    requires Ties(c, Insert(c, y, t[1..]), x)
          == (if Compare(c, y, x) == 0 then [y] else []) + Ties(c, t[1..], x)
    requires Compare(c, y, x) == 0 ==> Compare(c, t[0], x) != 0
    ensures Ties(c, Insert(c, y, t), x)
         == (if Compare(c, y, x) == 0 then [y] else []) + Ties(c, t, x)
  {
    var rest := Insert(c, y, t[1..]);
    var ins := [t[0]] + rest;
    assert Insert(c, y, t) == ins;
    assert ins[0] == t[0] && ins[1..] == rest;
    if Compare(c, t[0], x) == 0 {
      assert Ties(c, ins, x) == [t[0]] + Ties(c, rest, x);
      assert Ties(c, t, x) == [t[0]] + Ties(c, t[1..], x);
    } else {
      assert Ties(c, ins, x) == Ties(c, rest, x);
      assert Ties(c, t, x) == Ties(c, t[1..], x);
    }
  }

  /** An entry that compares after `h` does not tie with anything `h` ties
      with. */
  lemma TieNotBeforeHead(c: Comparator, y: Entry, h: Entry, x: Entry)
    requires KindOf(Key(c, y)) == KindOf(Key(c, h)) == KindOf(Key(c, x))
    requires Compare(c, y, h) > 0 && Compare(c, y, x) == 0
    ensures Compare(c, h, x) != 0
  {
    if Compare(c, h, x) == 0 {
      CompareAntisymmetric(c, h, x);
      CompareEqualTransitive(c, y, x, h);
    }
  }

  /** Stability: the entries tying with any key keep their relative order. */
  lemma {:induction false} InsertionSortStable(c: Comparator, s: seq<Entry>, x: Entry, k: Kind)
    requires OfKind(c, s, k) && KindOf(Key(c, x)) == k
    ensures Ties(c, InsertionSort(c, s), x) == Ties(c, s, x)
    decreases |s|
  {
    if s != [] {
      assert OfKind(c, s[1..], k);
      InsertionSortStable(c, s[1..], x, k);
      var t := InsertionSort(c, s[1..]);
      forall e | e in t
        ensures KindOf(Key(c, e)) == k
      {
        assert e in multiset(s[1..]);
      }
      InsertionSortSorted(c, s[1..], k);
      InsertTies(c, s[0], t, x, k);
    }
  }

  // ---------------------------------------------------------------------------
  // Descending is the mirror of ascending when keys are distinct
  // ---------------------------------------------------------------------------

  function Reverse<T>(s: seq<T>): (r: seq<T>)
    ensures |r| == |s|
    ensures forall i :: 0 <= i < |s| ==> r[i] == s[|s| - 1 - i]
    ensures multiset(r) == multiset(s)
    decreases |s|
  {
    if s == [] then []
    else
      assert s == [s[0]] + s[1..];
      Reverse(s[1..]) + [s[0]]
  }

  /** No two entries compare equal: the comparator is strict on them. */
  predicate Strict(c: Comparator, s: seq<Entry>) {
    forall a, b :: a in s && b in s && Compare(c, a, b) == 0 ==> a == b
  }

  /** Two ordered arrangements of the same entries under a strict comparator
      are the same sequence. */
  lemma {:induction false} SortedUnique(c: Comparator, a: seq<Entry>, b: seq<Entry>)
    requires multiset(a) == multiset(b)
    requires Sorted(c, a) && Sorted(c, b) && Strict(c, a)
    ensures a == b
    decreases |a|
  {
    assert |b| == |multiset(b)| == |multiset(a)| == |a|;
    if a != [] {
      SortedHeadsEqual(c, a, b);
      SortedTail(c, a);
      SortedTail(c, b);
      SortedUnique(c, a[1..], b[1..]);
      assert a == [a[0]] + a[1..];
      assert b == [b[0]] + b[1..];
    }
  }

  /** Dropping the head keeps order and strictness, and removes one copy of
      the head from the multiset. */
  lemma SortedTail(c: Comparator, a: seq<Entry>)
    requires a != [] && Sorted(c, a)
    ensures Sorted(c, a[1..])
    ensures multiset(a[1..]) == multiset(a) - multiset{a[0]}
    ensures Strict(c, a) ==> Strict(c, a[1..])
  {
    assert a == [a[0]] + a[1..];
    if Strict(c, a) {
      forall x, y | x in a[1..] && y in a[1..] && Compare(c, x, y) == 0
        ensures x == y
      {
        assert x in a && y in a;
      }
    }
  }

  /** Both ordered arrangements start with the same, least, entry. */
  lemma SortedHeadsEqual(c: Comparator, a: seq<Entry>, b: seq<Entry>)
    requires multiset(a) == multiset(b) && a != [] && b != []
    requires Sorted(c, a) && Sorted(c, b) && Strict(c, a)
    ensures a[0] == b[0]
  {
    assert a[0] in multiset(b);
    assert b[0] in multiset(a);
    assert a[0] in b && b[0] in a;
    HeadFirst(c, a);
    HeadFirst(c, b);
    assert a == [a[0]] + a[1..];
    assert b == [b[0]] + b[1..];
    CompareAntisymmetric(c, a[0], b[0]);
  }

  /** The keys of `s` under `field` are pairwise distinct. */
  predicate DistinctKeys(field: string, s: seq<Entry>) {
    forall i, j :: 0 <= i < |s| && 0 <= j < |s| && i != j ==> Get(s[i].record, field) != Get(s[j].record, field)
  }

  /** For distinct string or number keys, sorting descending gives the
      ascending order reversed. */
  lemma DescendingMirrorsAscending(field: string, s: seq<Entry>, k: Kind)
    requires k != Other && OfKind(Comparator(field, false), s, k) && DistinctKeys(field, s)
    ensures InsertionSort(Comparator(field, true), s) == Reverse(InsertionSort(Comparator(field, false), s))
  {
    var asc, desc := Comparator(field, false), Comparator(field, true);
    var up := InsertionSort(asc, s);
    var down := InsertionSort(desc, s);
    var mirrored := Reverse(up);
    assert OfKind(desc, s, k);
    InsertionSortSorted(asc, s, k);
    InsertionSortSorted(desc, s, k);
    forall i, j | 0 <= i < j < |mirrored|
      ensures Compare(desc, mirrored[i], mirrored[j]) <= 0
    {
      CompareMirror(field, mirrored[i], mirrored[j]);
    }
    forall a, b | a in down && b in down && Compare(desc, a, b) == 0
      ensures a == b
    {
      assert a in multiset(s) && b in multiset(s);
      var i :| 0 <= i < |s| && s[i] == a;
      var j :| 0 <= j < |s| && s[j] == b;
      if i != j {
        LessTotal(Key(desc, a), Key(desc, b));
      }
    }
    SortedUnique(desc, down, mirrored);
  }

  // ---------------------------------------------------------------------------
  // The prefix misreading in `sort` (see README, Findings)
  // ---------------------------------------------------------------------------

  /** An ascending sort on a column named "-x" builds a comparator that reads
      field "x" in descending order. */
  lemma SourceComparatorMisreadsDashColumn()
    ensures SourceComparator("-x", false) == Comparator("x", true)
    ensures SourceComparator("-x", false) != SortComparator("-x", false)
  {
    assert "-x"[1..] == "x";
  }

  /** On concrete rows: ordering by column "-x" ascending with the source's
      comparator puts 2 before 1 in that column. */
  lemma SourceSortMisordersDashColumn()
    ensures var one := Entry(1, map["-x" := Num(1), "x" := Num(1)]);
            var two := Entry(2, map["-x" := Num(2), "x" := Num(2)]);
            InsertionSort(SourceComparator("-x", false), [one, two]) == [two, one]
            && !Sorted(SortComparator("-x", false), [two, one])
  {
    var one := Entry(1, map["-x" := Num(1), "x" := Num(1)]);
    var two := Entry(2, map["-x" := Num(2), "x" := Num(2)]);
    SourceComparatorMisreadsDashColumn();
    var src := Comparator("x", true);
    assert Get(one.record, "x") == Num(1) && Get(two.record, "x") == Num(2);
    assert Compare(src, one, two) == 1;
    assert InsertionSort(src, [two]) == [two];
    assert InsertionSort(src, [one, two]) == Insert(src, one, [two]);
    assert Get(one.record, "-x") == Num(1) && Get(two.record, "-x") == Num(2);
    assert Compare(SortComparator("-x", false), two, one) == 1;
  }
}
