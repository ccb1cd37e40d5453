/**
 * The value tree a YAML parser hands the tool, and the JavaScript property
 * access and `typeof` tests the tool performs on it.
 */
module YamlTree {
  import opened Wrappers

  datatype Yaml =
    | YNull                               // `null`, `~`, or an empty document
    | YMap(entries: seq<(string, Yaml)>)  // a mapping: a plain object, entries in document order
    | YSeq(items: seq<Yaml>)              // a sequence: an array
    | YStr(s: string)                     // a string scalar
    | YScalar                             // any other scalar: number, boolean, timestamp

  /** The value of an entry with key `key`; `LookupFirst` shows it is the first such entry. */
  function Lookup(entries: seq<(string, Yaml)>, key: string): (r: Option<Yaml>)
    ensures r.None? <==> forall i | 0 <= i < |entries| :: entries[i].0 != key
    ensures r.Some? ==> exists i | 0 <= i < |entries| :: entries[i] == (key, r.value)
  {
    if |entries| == 0 then None
    else if entries[0].0 == key then Some(entries[0].1)
    else
      var r := Lookup(entries[1..], key);
      assert forall i | 1 <= i < |entries| :: entries[i] == entries[1..][i - 1];
      r
  }

  /** Property access reads the first entry with the key: no earlier entry has it. */
  lemma {:induction false} LookupFirst(entries: seq<(string, Yaml)>, key: string)
    requires Lookup(entries, key).Some?
    ensures exists i | 0 <= i < |entries| ::
              && entries[i] == (key, Lookup(entries, key).value)
              && forall j | 0 <= j < i :: entries[j].0 != key
  {
    if entries[0].0 != key {
      var tail := entries[1..];
      LookupFirst(tail, key);
      var i :| 0 <= i < |tail| && tail[i] == (key, Lookup(tail, key).value)
               && forall j | 0 <= j < i :: tail[j].0 != key;
      assert entries[i + 1] == tail[i];
      assert forall j | 1 <= j < i + 1 :: entries[j] == tail[j - 1];
    }
  }

  /** Property access on a non-null value: a mapping's entry, `undefined` (None) for anything
      else, since arrays, strings and other scalars have no property by these names. */
  function Property(v: Yaml, key: string): (r: Option<Yaml>)
    ensures r.Some? ==> v.YMap? && exists i | 0 <= i < |v.entries| :: v.entries[i] == (key, r.value)
    ensures v.YMap? && (exists i | 0 <= i < |v.entries| :: v.entries[i].0 == key) ==> r.Some?
  {
    if v.YMap? then Lookup(v.entries, key) else None
  }

  /** The `typeof ... === 'object'` test on a parser value (true of `null` as well). A timestamp,
      which js-yaml loads as a `Date` object, is a `YScalar` here and is not an object; such a
      value has no properties and no values, so the walk adds nothing from it either way. */
  predicate IsObject(v: Yaml)
  {
    v.YNull? || v.YMap? || v.YSeq?
  }

  /** `Object.values(v)` on a non-null object: a mapping's values, an array's items. */
  function ObjectValues(v: Yaml): (r: seq<Yaml>)
    requires v.YMap? || v.YSeq?
    ensures v.YMap? ==> |r| == |v.entries| && forall i | 0 <= i < |r| :: r[i] == v.entries[i].1
    ensures v.YSeq? ==> r == v.items
  {
    if v.YMap? then seq(|v.entries|, i requires 0 <= i < |v.entries| => v.entries[i].1) else v.items
  }
}
