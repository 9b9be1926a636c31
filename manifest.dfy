/**
 * The manifest document, abstracted to the parts the engine reads and
 * writes: the `package` table, the `dependencies` table in document order,
 * and everything else as opaque text. Keys are ordered as Rust orders
 * strings, character by character.
 */
module Manifest {
  import opened Wrappers

  /** A value in a table: a string, or any other value the engine never inspects. */
  datatype Value = Str(s: string) | OtherValue(text: string)

  /** A dependency's item: an inline table, or any other item (a version string, a full table, ...). */
  datatype DepItem = Inline(fields: map<string, Value>) | OtherItem(text: string)

  /** One entry of the dependency table. */
  datatype Dep = Dep(key: string, item: DepItem)

  /**
   * A parsed manifest. `package` is present when the document has a
   * `package` table; `dependencies` is present when it has a table-like
   * `dependencies` item; `rest` stands for everything else in the document.
   */
  datatype Document = Document(package: Option<map<string, Value>>, dependencies: Option<seq<Dep>>, rest: string)

  /** A manifest file: the text as read and the document parsed from it. */
  datatype TomlFile = TomlFile(text: string, doc: Document)

  /** Lexicographic order on keys, as Rust compares strings. */
  predicate KeyLe(a: string, b: string)
  {
    if |a| == 0 then true
    else if |b| == 0 then false
    else if a[0] != b[0] then a[0] < b[0]
    else KeyLe(a[1..], b[1..])
  }

  lemma {:induction false} KeyLeTotal(a: string, b: string)
    ensures KeyLe(a, b) || KeyLe(b, a)
  {
    if |a| > 0 && |b| > 0 && a[0] == b[0] {
      KeyLeTotal(a[1..], b[1..]);
    }
  }

  /** Adjacent entries are in key order. */
  predicate SortedByKey(ds: seq<Dep>)
  {
    forall i :: 0 < i < |ds| ==> KeyLe(ds[i - 1].key, ds[i].key)
  }

  /** Inserts `d` before the first entry whose key is not smaller. */
  function Insert(d: Dep, ds: seq<Dep>): (r: seq<Dep>)
    requires SortedByKey(ds)
    ensures SortedByKey(r)
    ensures multiset(r) == multiset(ds) + multiset{d}
    ensures |r| > 0 && (r[0] == d || (|ds| > 0 && r[0] == ds[0]))
  {
    if |ds| == 0 || KeyLe(d.key, ds[0].key) then [d] + ds
    else
      KeyLeTotal(d.key, ds[0].key);
      assert ds == [ds[0]] + ds[1..];
      [ds[0]] + Insert(d, ds[1..])
  }

  /**
   * The dependency table after `sort_values`: a stable sort by key, done as
   * an insertion sort.
   */
  function SortByKey(ds: seq<Dep>): (r: seq<Dep>)
    ensures SortedByKey(r)
    ensures multiset(r) == multiset(ds)
  {
    if |ds| == 0 then []
    else
      assert ds == [ds[0]] + ds[1..];
      Insert(ds[0], SortByKey(ds[1..]))
  }

  /** A table already in key order is left as it is. */
  lemma {:induction false} SortKeepsSorted(ds: seq<Dep>)
    requires SortedByKey(ds)
    ensures SortByKey(ds) == ds
  {
    if |ds| > 0 {
      SortKeepsSorted(ds[1..]);
      if |ds| > 1 {
        assert KeyLe(ds[0].key, ds[1].key);
      }
      assert ds == [ds[0]] + ds[1..];
    }
  }

  /** Sorting twice is sorting once. */
  lemma SortIdempotent(ds: seq<Dep>)
    ensures SortByKey(SortByKey(ds)) == SortByKey(ds)
  {
    SortKeepsSorted(SortByKey(ds));
  }

  /** The sorted table holds exactly the entries of the original. */
  lemma SortSameEntries(ds: seq<Dep>, d: Dep)
    ensures d in SortByKey(ds) <==> d in ds
  {
    var r := SortByKey(ds);
    assert d in r <==> d in multiset(r);
    assert d in ds <==> d in multiset(ds);
  }
}
