/**
 Records as the table holds them, and the normaliser `scrubData` that wraps
 every raw record as `{id, record}` and blanks its null or undefined values.
 */
module Records {

  /** A field value: a JavaScript string, an integral number, `null`, or
      `undefined` (which is also what reading a missing key yields). Numbers
      are unbounded integers, not IEEE doubles. */
  datatype Value = Str(s: string) | Num(n: int) | Null | Undefined

  /** A raw record: the object the caller supplies, keyed by field name. */
  type Record = map<string, Value>

  /** A normalised record: the id the table assigned and the raw record. */
  datatype Entry = Entry(id: nat, record: Record)

  /** Property read `record[key]`: a missing key reads as `undefined`. */
  function Get(rec: Record, key: string): (v: Value)
    ensures key !in rec ==> v == Undefined
    ensures key in rec ==> v == rec[key]
  {
    if key in rec then rec[key] else Undefined
  }

  /** The values the normaliser replaces: `=== null` or `=== undefined`. */
  predicate Blank(v: Value) {
    v.Null? || v.Undefined?
  }

  /** Blanks every configured column that is null or undefined in `rec`,
      one column after the other. */
  function ScrubRecord(rec: Record, columns: seq<string>): (r: Record)
    ensures r.Keys == rec.Keys + set c | c in columns
    ensures forall k :: k in columns && Blank(Get(rec, k)) ==> Get(r, k) == Str("")
    ensures forall k :: !(k in columns && Blank(Get(rec, k))) ==> Get(r, k) == Get(rec, k)
    decreases |columns|
  {
    if columns == [] then rec
    else
      var c := columns[0];
      var rec' := if Blank(Get(rec, c)) then rec[c := Str("")] else rec;
      ScrubRecord(rec', columns[1..])
  }

  /** What `scrubData` returns, together with the advanced id counter. */
  datatype Scrubbed = Scrubbed(entries: seq<Entry>, next: nat)

  /** Normalises `raws` in order, numbering them from `counter`. */
  function ScrubData(counter: nat, columns: seq<string>, raws: seq<Record>): (r: Scrubbed)
    ensures |r.entries| == |raws|
    ensures r.next == counter + |raws|
    ensures forall i :: 0 <= i < |raws| ==>
              r.entries[i].id == counter + i && r.entries[i].record == ScrubRecord(raws[i], columns)
    decreases |raws|
  {
    if raws == [] then Scrubbed([], counter)
    else
      var rest := ScrubData(counter + 1, columns, raws[1..]);
      Scrubbed([Entry(counter, ScrubRecord(raws[0], columns))] + rest.entries, rest.next)
  }

  /** No two entries share an id. */
  predicate UniqueIds(es: seq<Entry>) {
    forall i, j :: 0 <= i < |es| && 0 <= j < |es| && i != j ==> es[i].id != es[j].id
  }

  /** Every id in `es` was issued before the counter reached `bound`. */
  predicate IdsBelow(es: seq<Entry>, bound: nat) {
    forall e :: e in es ==> e.id < bound
  }

  /** Appending freshly normalised records to a set whose ids were all issued
      before `counter` keeps ids unique and below the advanced counter. */
  lemma AppendScrubbedFresh(es: seq<Entry>, counter: nat, columns: seq<string>, raws: seq<Record>)
    requires UniqueIds(es) && IdsBelow(es, counter)
    ensures var s := ScrubData(counter, columns, raws);
      UniqueIds(es + s.entries) && IdsBelow(es + s.entries, s.next)
  {
    var s := ScrubData(counter, columns, raws);
    var all := es + s.entries;
    forall i, j | 0 <= i < |all| && 0 <= j < |all| && i != j
      ensures all[i].id != all[j].id
    {
      if i < |es| && j >= |es| {
        assert all[i] in es;
        assert all[j] == s.entries[j - |es|];
      } else if i >= |es| && j < |es| {
        assert all[j] in es;
        assert all[i] == s.entries[i - |es|];
      } else if i >= |es| && j >= |es| {
        assert all[i] == s.entries[i - |es|];
        assert all[j] == s.entries[j - |es|];
      }
    }
    forall e | e in all
      ensures e.id < s.next
    {
      if e !in es {
        var k :| 0 <= k < |s.entries| && s.entries[k] == e;
      }
    }
  }

  /** Ids issued by one call of the normaliser are never below its starting counter. */
  lemma ScrubbedIdsAtLeast(counter: nat, columns: seq<string>, raws: seq<Record>)
    ensures forall e :: e in ScrubData(counter, columns, raws).entries ==> counter <= e.id
  {
    var s := ScrubData(counter, columns, raws);
    forall e | e in s.entries
      ensures counter <= e.id
    {
      var k :| 0 <= k < |s.entries| && s.entries[k] == e;
    }
  }
}
