/**
 The free-text filter: `filter(query)` rebuilds the working set from the
 master set, keeping the records in which some field matches the query.
 */
module Search {
  import opened Records
  import Decimal

  /** ASCII lower-casing, the case folding of a `RegExp` with the `i` flag
      on the ASCII range. */
  function LowerChar(c: char): char {
    if 'A' <= c <= 'Z' then ((c as int) + 32) as char else c
  }

  function Lower(s: string): (r: string)
    ensures |r| == |s|
    ensures forall i :: 0 <= i < |s| ==> r[i] == LowerChar(s[i])
  {
    if s == [] then [] else [LowerChar(s[0])] + Lower(s[1..])
  }

  /** `text.match(new RegExp(query, "gi"))` finds something: the query occurs
      in the text, ignoring ASCII case. */
  predicate TextMatches(query: string, text: string) {
    exists i :: 0 <= i <= |text| && OccursAt(query, text, i)
  }

  /** The query occurs in the text at offset `i`, ignoring ASCII case. */
  predicate OccursAt(query: string, text: string, i: int) {
    0 <= i && i + |query| <= |text| && Lower(text[i..i + |query|]) == Lower(query)
  }

  /** One field against the query: strings by pattern, numbers by their
      decimal form, every other kind never. */
  predicate FieldMatches(v: Value, query: string) {
    match v
    case Str(s) => TextMatches(query, s)
    case Num(n) => Decimal.IntToString(n) == query
    case _ => false
  }

  /** Some key of the record, configured column or not, matches. */
  predicate RecordMatches(rec: Record, query: string) {
    exists k :: k in rec && FieldMatches(rec[k], query)
  }

  /** The predicate `filter` applies to a normalised record; a falsy (empty)
      query keeps everything. */
  predicate Keeps(query: string, e: Entry) {
    query == "" || RecordMatches(e.record, query)
  }

  /** `a` is `b` with some elements removed, order preserved. */
  predicate IsSubsequence<T(==)>(a: seq<T>, b: seq<T>)
    decreases |b|
  {
    if a == [] then true
    else if b == [] then false
    else if a[0] == b[0] then IsSubsequence(a[1..], b[1..])
    else IsSubsequence(a, b[1..])
  }

  lemma {:induction false} SubsequenceMultiset<T>(a: seq<T>, b: seq<T>)
    requires IsSubsequence(a, b)
    ensures multiset(a) <= multiset(b)
    decreases |b|
  {
    if a != [] {
      if a[0] == b[0] {
        SubsequenceMultiset(a[1..], b[1..]);
        assert a == [a[0]] + a[1..];
        assert b == [b[0]] + b[1..];
      } else {
        SubsequenceMultiset(a, b[1..]);
        assert b == [b[0]] + b[1..];
      }
    }
  }

  lemma {:induction false} SubsequenceReflexive<T>(a: seq<T>)
    ensures IsSubsequence(a, a)
    decreases |a|
  {
    if a != [] {
      SubsequenceReflexive(a[1..]);
    }
  }

  /** `$.grep` over the entries with the record predicate. */
  function KeepMatching(es: seq<Entry>, query: string): (r: seq<Entry>)
    ensures IsSubsequence(r, es)
    ensures forall e :: e in r <==> e in es && Keeps(query, e)
    ensures forall e :: multiset(r)[e] == if Keeps(query, e) then multiset(es)[e] else 0
    decreases |es|
  {
    if es == [] then []
    else
      assert es == [es[0]] + es[1..];
      if Keeps(query, es[0]) then [es[0]] + KeepMatching(es[1..], query)
      else
        var rest := KeepMatching(es[1..], query);
        assert rest == [] || rest[0] != es[0] by {
          if rest != [] { assert rest[0] in rest; }
        }
        rest
  }

  /** `filter(query)` as the table performs it when searching is enabled:
      a fresh copy of the master set, narrowed when the query is non-empty. */
  function Filter(master: seq<Entry>, query: string): (r: seq<Entry>)
    ensures query == "" ==> r == master
    ensures IsSubsequence(r, master)
    ensures multiset(r) <= multiset(master)
    ensures forall e :: e in r <==> e in master && Keeps(query, e)
    ensures forall e :: multiset(r)[e] == if Keeps(query, e) then multiset(master)[e] else 0
  {
    var r := if query == "" then SubsequenceReflexive(master); master
             else KeepMatching(master, query);
    SubsequenceMultiset(r, master);
    r
  }
}
