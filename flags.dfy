/**
 * `load_flags`, after `flags.yml` has been read and parsed: the document maps
 * a flag name to a table from flag value to the list of paths that take that
 * value; it is inverted into a table from path to the flags set for it, and
 * the value texts "true" and "false" become booleans.
 */
module Flags {
  import opened Wrappers
  import opened Seqs
  import opened JsonValues

  // ---------------------------------------------------------------------------
  // The BTreeMap<String, String> of one path: an association list sorted by key

  /** The order of `String`: lexicographic, character by character. */
  predicate StrLt(a: string, b: string)
    decreases |a|
  {
    if a == [] then b != []
    else if b == [] then false
    else if a[0] != b[0] then a[0] < b[0]
    else StrLt(a[1..], b[1..])
  }

  lemma {:induction false} StrLtTransitive(a: string, b: string, c: string)
    requires StrLt(a, b) && StrLt(b, c)
    ensures StrLt(a, c)
    decreases |a|
  {
    if a != [] && b != [] && c != [] && a[0] == b[0] && b[0] == c[0] {
      StrLtTransitive(a[1..], b[1..], c[1..]);
    }
  }

  lemma {:induction false} StrLtTotal(a: string, b: string)
    requires a != b
    ensures StrLt(a, b) || StrLt(b, a)
    decreases |a|
  {
    if a != [] && b != [] && a[0] == b[0] {
      assert a == [a[0]] + a[1..] && b == [b[0]] + b[1..];
      StrLtTotal(a[1..], b[1..]);
    }
  }

  type Pairs = seq<(string, string)>

  /** Keys strictly increasing: the iteration order of a BTreeMap. */
  predicate Sorted(ps: Pairs)
  {
    forall i, j :: 0 <= i < j < |ps| ==> StrLt(ps[i].0, ps[j].0)
  }

  function Keys(ps: Pairs): set<string>
  {
    set i | 0 <= i < |ps| :: ps[i].0
  }

  /** `BTreeMap::get`. */
  function Lookup(ps: Pairs, k: string): Option<string>
  {
    if ps == [] then None
    else if ps[0].0 == k then Some(ps[0].1)
    else Lookup(ps[1..], k)
  }

  /**
   * `BTreeMap::insert`: `k` now maps to `v` (an earlier value is overwritten),
   * every other key keeps its value, and the keys stay sorted.
   */
  lemma KeysCons(p: (string, string), ps: Pairs)
    ensures Keys([p] + ps) == {p.0} + Keys(ps)
  {
    var qs := [p] + ps;
    forall x | x in Keys(qs) ensures x in {p.0} + Keys(ps) {
      var j :| 0 <= j < |qs| && qs[j].0 == x;
      if j > 0 { assert qs[j] == ps[j - 1]; }
    }
    forall x | x in Keys(ps) ensures x in Keys(qs) {
      var j :| 0 <= j < |ps| && ps[j].0 == x;
      assert qs[j + 1] == ps[j];
    }
    assert qs[0].0 == p.0;
  }

  function Insert(ps: Pairs, k: string, v: string): (r: Pairs)
    ensures Keys(r) == Keys(ps) + {k}
    ensures Lookup(r, k) == Some(v)
    ensures forall k' :: k' != k ==> Lookup(r, k') == Lookup(ps, k')
  {
    if ps == [] then
      assert [(k, v)][0].0 == k;
      [(k, v)]
    else
      assert ps == [ps[0]] + ps[1..];
      KeysCons(ps[0], ps[1..]);
      if ps[0].0 == k then
        KeysCons((k, v), ps[1..]);
        [(k, v)] + ps[1..]
      else if StrLt(k, ps[0].0) then
        KeysCons((k, v), ps);
        [(k, v)] + ps
      else
        var rest := Insert(ps[1..], k, v);
        KeysCons(ps[0], rest);
        [ps[0]] + rest
  }

  /** Inserting into a sorted map keeps it sorted. */
  lemma {:induction false} InsertSorted(ps: Pairs, k: string, v: string)
    requires Sorted(ps)
    ensures Sorted(Insert(ps, k, v))
  {
    if ps != [] && ps[0].0 != k {
      if StrLt(k, ps[0].0) {
        forall j | 0 < j < |ps| ensures StrLt(k, ps[j].0) {
          StrLtTransitive(k, ps[0].0, ps[j].0);
        }
      } else {
        var rest := Insert(ps[1..], k, v);
        InsertSorted(ps[1..], k, v);
        StrLtTotal(k, ps[0].0);
        forall j | 0 <= j < |rest| ensures StrLt(ps[0].0, rest[j].0) {
          assert rest[j].0 in Keys(rest);
          if rest[j].0 != k {
            var m :| 0 <= m < |ps[1..]| && ps[1..][m].0 == rest[j].0;
            assert ps[m + 1].0 == rest[j].0;
          }
        }
        assert Insert(ps, k, v) == [ps[0]] + rest;
      }
    }
  }

  // ---------------------------------------------------------------------------
  // The shape load_flags unwraps, and the order in which it visits the paths

  /** `as_array().unwrap()` and `as_str().unwrap()` succeed: an array of strings. */
  predicate IsPathList(j: Json)
  {
    j.Arr? && forall i :: 0 <= i < |j.items| ==> j.items[i].Str?
  }

  /** `as_object().unwrap()` succeeds and every member is a path list. */
  predicate IsValueTable(j: Json)
  {
    j.Obj? && forall i :: 0 <= i < |j.fields| ==> IsPathList(j.fields[i].1)
  }

  /** The whole flags document: an object of objects of arrays of strings. */
  predicate IsFlagsDocument(j: Json)
  {
    j.Obj? && forall i :: 0 <= i < |j.fields| ==> IsValueTable(j.fields[i].1)
  }

  /** One step of the innermost loop: `path` takes `value` for the flag `key`. */
  datatype Visit = Visit(path: string, key: string, value: string)

  function PathVisits(key: string, value: string, paths: seq<Json>): (r: seq<Visit>)
    requires forall i :: 0 <= i < |paths| ==> paths[i].Str?
  {
    if paths == [] then []
    else PathVisits(key, value, paths[..|paths| - 1]) + [Visit(paths[|paths| - 1].s, key, value)]
  }

  function ValueVisits(key: string, values: seq<(string, Json)>): seq<Visit>
    requires forall i :: 0 <= i < |values| ==> IsPathList(values[i].1)
  {
    if values == [] then []
    else
      var last := values[|values| - 1];
      assert IsPathList(last.1);
      ValueVisits(key, values[..|values| - 1]) + PathVisits(key, last.0, last.1.items)
  }

  /** Every (path, key, value) in the order of the three nested loops. */
  function Visits(doc: seq<(string, Json)>): seq<Visit>
    requires forall i :: 0 <= i < |doc| ==> IsValueTable(doc[i].1)
  {
    if doc == [] then []
    else
      var last := doc[|doc| - 1];
      assert IsValueTable(last.1);
      Visits(doc[..|doc| - 1]) + ValueVisits(last.0, last.1.fields)
  }

  // ---------------------------------------------------------------------------
  // The inverted table

  predicate AllSorted(t: map<string, Pairs>)
  {
    forall p :: p in t ==> Sorted(t[p])
  }

  /** The body of the innermost loop: insert into the path's map, creating it on first use. */
  function Record(t: map<string, Pairs>, v: Visit): map<string, Pairs>
  {
    t[v.path := Insert(if v.path in t then t[v.path] else [], v.key, v.value)]
  }

  /** The table after the given visits. */
  function Table(vs: seq<Visit>): map<string, Pairs>
  {
    if vs == [] then map[] else Record(Table(vs[..|vs| - 1]), vs[|vs| - 1])
  }

  /** Every map of the table iterates its keys in increasing order. */
  lemma {:induction false} TableSorted(vs: seq<Visit>)
    ensures AllSorted(Table(vs))
  {
    if vs != [] {
      var t, v := Table(vs[..|vs| - 1]), vs[|vs| - 1];
      TableSorted(vs[..|vs| - 1]);
      InsertSorted(if v.path in t then t[v.path] else [], v.key, v.value);
    }
  }

  /** Reference meaning of "last write wins": the value of the last visit of `path` for `key`. */
  function LastValue(vs: seq<Visit>, path: string, key: string): Option<string>
  {
    if vs == [] then None
    else if vs[|vs| - 1].path == path && vs[|vs| - 1].key == key then Some(vs[|vs| - 1].value)
    else LastValue(vs[..|vs| - 1], path, key)
  }

  lemma {:induction false} TableSnoc(vs: seq<Visit>, v: Visit)
    ensures Table(vs + [v]) == Record(Table(vs), v)
  {
    assert (vs + [v])[..|vs|] == vs;
  }

  /**
   * The inverted table has a path exactly when some visit names it, and under
   * that path each key holds the value of the last visit of that path for
   * that key.
   */
  lemma {:induction false} TableMeaning(vs: seq<Visit>, path: string, key: string)
    ensures path in Table(vs) <==> exists i :: 0 <= i < |vs| && vs[i].path == path
    ensures path in Table(vs) ==> Lookup(Table(vs)[path], key) == LastValue(vs, path, key)
  {
    if vs != [] {
      var init, last := vs[..|vs| - 1], vs[|vs| - 1];
      TableMeaning(init, path, key);
      if path in Table(vs) && last.path != path {
        var i :| 0 <= i < |init| && init[i].path == path;
        assert vs[i] == init[i];
      }
      if (exists i :: 0 <= i < |vs| && vs[i].path == path) && last.path != path {
        var i :| 0 <= i < |vs| && vs[i].path == path;
        assert init[i] == vs[i];
      }
      if path in Table(vs) && last.path == path && path !in Table(init) {
        assert LastValue(init, path, key) == None by {
          LastValueNone(init, path, key);
        }
      }
    }
  }

  /** Without a visit of the path the last value is absent. */
  lemma {:induction false} LastValueNone(vs: seq<Visit>, path: string, key: string)
    requires forall i :: 0 <= i < |vs| ==> vs[i].path != path
    ensures LastValue(vs, path, key) == None
  {
    if vs != [] {
      LastValueNone(vs[..|vs| - 1], path, key);
    }
  }

  /**
   * `LastValue` is `Some(v)` exactly when some visit sets `key` of `path` to
   * `v` and no later visit sets `key` of `path` again.
   */
  lemma {:induction false} LastValueIsLastVisit(vs: seq<Visit>, path: string, key: string, v: string)
    ensures LastValue(vs, path, key) == Some(v) <==>
      exists i :: 0 <= i < |vs| && vs[i] == Visit(path, key, v) &&
        forall j :: i < j < |vs| ==> !(vs[j].path == path && vs[j].key == key)
  {
    if vs != [] {
      var init, last := vs[..|vs| - 1], vs[|vs| - 1];
      LastValueIsLastVisit(init, path, key, v);
      if last.path == path && last.key == key {
        if last.value == v {
          assert vs[|vs| - 1] == Visit(path, key, v);
        }
      } else {
        if LastValue(vs, path, key) == Some(v) {
          var i :| 0 <= i < |init| && init[i] == Visit(path, key, v) &&
            forall j :: i < j < |init| ==> !(init[j].path == path && init[j].key == key);
          assert vs[i] == init[i];
          forall j | i < j < |vs| ensures !(vs[j].path == path && vs[j].key == key) {
            if j < |init| { assert vs[j] == init[j]; }
          }
        }
        if exists i :: 0 <= i < |vs| && vs[i] == Visit(path, key, v) &&
            forall j :: i < j < |vs| ==> !(vs[j].path == path && vs[j].key == key) {
          var i :| 0 <= i < |vs| && vs[i] == Visit(path, key, v) &&
            forall j :: i < j < |vs| ==> !(vs[j].path == path && vs[j].key == key);
          assert i < |init|;
          assert init[i] == vs[i];
          forall j | i < j < |init| ensures !(init[j].path == path && init[j].key == key) {
            assert init[j] == vs[j];
          }
        }
      }
    }
  }

  /** Each visit is a path listed in some array, under the value that names the array, under the flag that names that table. */
  lemma {:induction false} PathVisitsMembers(key: string, value: string, paths: seq<Json>, v: Visit)
    requires forall i :: 0 <= i < |paths| ==> paths[i].Str?
    ensures v in PathVisits(key, value, paths) <==>
      v.key == key && v.value == value && exists l :: 0 <= l < |paths| && paths[l] == Str(v.path)
  {
    if paths != [] {
      var init := paths[..|paths| - 1];
      PathVisitsMembers(key, value, init, v);
      if exists l :: 0 <= l < |paths| && paths[l] == Str(v.path) {
        var l :| 0 <= l < |paths| && paths[l] == Str(v.path);
        if l < |init| { assert init[l] == paths[l]; }
      }
      if exists l :: 0 <= l < |init| && init[l] == Str(v.path) {
        var l :| 0 <= l < |init| && init[l] == Str(v.path);
        assert paths[l] == init[l];
      }
    }
  }

  /** One flag's table lists `path` in the array under `value`. */
  predicate Lists(values: seq<(string, Json)>, value: string, path: string)
  {
    exists j, l :: 0 <= j < |values| && values[j].0 == value && values[j].1.Arr? &&
      0 <= l < |values[j].1.items| && values[j].1.items[l] == Str(path)
  }

  lemma {:induction false} ValueVisitsMembers(key: string, values: seq<(string, Json)>, v: Visit)
    requires forall i :: 0 <= i < |values| ==> IsPathList(values[i].1)
    ensures v in ValueVisits(key, values) <==> v.key == key && Lists(values, v.value, v.path)
  {
    if values != [] {
      var init, last := values[..|values| - 1], values[|values| - 1];
      assert IsPathList(last.1);
      assert ValueVisits(key, values) == ValueVisits(key, init) + PathVisits(key, last.0, last.1.items);
      ValueVisitsMembers(key, init, v);
      PathVisitsMembers(key, last.0, last.1.items, v);
      if v in ValueVisits(key, init) {
        var j, l :| 0 <= j < |init| && init[j].0 == v.value && init[j].1.Arr? &&
          0 <= l < |init[j].1.items| && init[j].1.items[l] == Str(v.path);
        assert values[j] == init[j];
      } else if v in ValueVisits(key, values) {
        var l :| 0 <= l < |last.1.items| && last.1.items[l] == Str(v.path);
        assert values[|init|] == last;
      }
      if Lists(values, v.value, v.path) {
        var j, l :| 0 <= j < |values| && values[j].0 == v.value && values[j].1.Arr? &&
          0 <= l < |values[j].1.items| && values[j].1.items[l] == Str(v.path);
        if j < |init| { assert init[j] == values[j]; }
      }
    }
  }

  /**
   * A (path, key, value) is visited exactly when the document lists `path`
   * in the array under `value` in the table under `key`.
   */
  lemma {:induction false} VisitsMembers(doc: seq<(string, Json)>, v: Visit)
    requires forall i :: 0 <= i < |doc| ==> IsValueTable(doc[i].1)
    ensures v in Visits(doc) <==>
      exists i :: 0 <= i < |doc| && doc[i].0 == v.key && Lists(doc[i].1.fields, v.value, v.path)
  {
    if doc != [] {
      var init, last := doc[..|doc| - 1], doc[|doc| - 1];
      assert IsValueTable(last.1);
      assert Visits(doc) == Visits(init) + ValueVisits(last.0, last.1.fields);
      VisitsMembers(init, v);
      ValueVisitsMembers(last.0, last.1.fields, v);
      if v in Visits(init) {
        var i :| 0 <= i < |init| && init[i].0 == v.key && Lists(init[i].1.fields, v.value, v.path);
        assert doc[i] == init[i];
      } else if v in Visits(doc) {
        assert doc[|init|] == last;
      }
      if exists i :: 0 <= i < |doc| && doc[i].0 == v.key && Lists(doc[i].1.fields, v.value, v.path) {
        var i :| 0 <= i < |doc| && doc[i].0 == v.key && Lists(doc[i].1.fields, v.value, v.path);
        if i < |init| { assert init[i] == doc[i]; }
      }
    }
  }

  // ---------------------------------------------------------------------------
  // Conversion of the values to JSON

  /** `"true"` becomes `true`, `"false"` becomes `false`, any other text stays that string. */
  function Coerce(text: string): (j: Json)
    ensures j == Bool(true) <==> text == "true"
    ensures j == Bool(false) <==> text == "false"
    ensures !j.Bool? <==> j == Str(text)
  {
    match text
    case "true" => Bool(true)
    case "false" => Bool(false)
    case _ => Str(text)
  }

  function CoerceOpt(o: Option<string>): Option<Json>
  {
    match o
    case None => None
    case Some(text) => Some(Coerce(text))
  }

  /**
   * One path's map as a JSON object: the same keys in the same (sorted)
   * order, each looked-up value converted by `Coerce`.
   */
  function CoercePairs(ps: Pairs): (fields: seq<(string, Json)>)
    ensures |fields| == |ps|
    ensures forall i :: 0 <= i < |ps| ==> fields[i].0 == ps[i].0
    ensures forall k :: Member(fields, k) == CoerceOpt(Lookup(ps, k))
  {
    if ps == [] then [] else [(ps[0].0, Coerce(ps[0].1))] + CoercePairs(ps[1..])
  }

  /** The final `map` of `load_flags`: every path keeps its entry, now a JSON object. */
  function Convert(t: map<string, Pairs>): (r: map<string, Json>)
    ensures r.Keys == t.Keys
    ensures forall p :: p in r ==> r[p].Obj? && |r[p].fields| == |t[p]|
    ensures forall p, k :: p in r ==> Member(r[p].fields, k) == CoerceOpt(Lookup(t[p], k))
  {
    map p | p in t :: Obj(CoercePairs(t[p]))
  }

  // ---------------------------------------------------------------------------
  // load_flags

  lemma PathVisitsStep(done: seq<Visit>, key: string, value: string, paths: seq<Json>, k: nat)
    requires forall i :: 0 <= i < |paths| ==> paths[i].Str?
    requires k < |paths|
    ensures done + PathVisits(key, value, paths[..k + 1])
         == (done + PathVisits(key, value, paths[..k])) + [Visit(paths[k].s, key, value)]
  {
    assert paths[..k + 1][..k] == paths[..k];
  }

  lemma RecordValuesStep(done: seq<Visit>, key: string, values: seq<(string, Json)>, j: nat)
    requires forall i :: 0 <= i < |values| ==> IsPathList(values[i].1)
    requires j < |values|
    ensures done + ValueVisits(key, values[..j + 1])
         == (done + ValueVisits(key, values[..j])) + PathVisits(key, values[j].0, values[j].1.items)
  {
    assert values[..j + 1][..j] == values[..j];
  }

  /** One more visit, with the path's map either found or created. */
  lemma RecordStep(table: map<string, Pairs>, visited: seq<Visit>, v: Visit)
    requires table == Table(visited)
    ensures v.path in table ==> Table(visited + [v]) == table[v.path := Insert(table[v.path], v.key, v.value)]
    ensures v.path !in table ==> Table(visited + [v]) == table[v.path := Insert([], v.key, v.value)]
  {
    TableSnoc(visited, v);
  }

  lemma VisitsStep(doc: seq<(string, Json)>, i: nat)
    requires forall i :: 0 <= i < |doc| ==> IsValueTable(doc[i].1)
    requires i < |doc|
    ensures IsValueTable(doc[i].1)
    ensures Visits(doc[..i + 1]) == Visits(doc[..i]) + ValueVisits(doc[i].0, doc[i].1.fields)
  {
    assert doc[..i + 1][..i] == doc[..i];
  }

  /**
   * The innermost loop of `load_flags`: each listed path gets `key` set to
   * `value` in its map, which is created on the path's first listing.
   */
  method RecordPaths(table0: map<string, Pairs>, ghost done: seq<Visit>, key: string, value: string, paths: seq<Json>)
    returns (table: map<string, Pairs>)
    requires forall i :: 0 <= i < |paths| ==> paths[i].Str?
    requires table0 == Table(done)
    ensures table == Table(done + PathVisits(key, value, paths))
  {
    table := table0;
    var k := 0;
    ghost var visited := done;
    assert paths[..0] == [];
    while k < |paths|
      invariant 0 <= k <= |paths|
      invariant visited == done + PathVisits(key, value, paths[..k])
      invariant table == Table(visited)
    {
      var path := paths[k].s;
      RecordStep(table, visited, Visit(path, key, value));
      if path in table {
        table := table[path := Insert(table[path], key, value)];
      } else {
        table := table[path := Insert([], key, value)];
      }
      PathVisitsStep(done, key, value, paths, k);
      visited := visited + [Visit(path, key, value)];
      k := k + 1;
    }
    assert paths[..k] == paths;
  }

  /** The middle loop of `load_flags`: the values of one flag, each with its path list, in order. */
  method RecordValues(table0: map<string, Pairs>, ghost done: seq<Visit>, key: string, values: seq<(string, Json)>)
    returns (table: map<string, Pairs>)
    requires forall i :: 0 <= i < |values| ==> IsPathList(values[i].1)
    requires table0 == Table(done)
    ensures table == Table(done + ValueVisits(key, values))
  {
    table := table0;
    var j := 0;
    ghost var visited := done;
    assert done + ValueVisits(key, values[..0]) == done;
    while j < |values|
      invariant 0 <= j <= |values|
      invariant visited == done + ValueVisits(key, values[..j])
      invariant table == Table(visited)
    {
      assert IsPathList(values[j].1);
      RecordValuesStep(done, key, values, j);
      table := RecordPaths(table, visited, key, values[j].0, values[j].1.items);
      visited := visited + PathVisits(key, values[j].0, values[j].1.items);
      j := j + 1;
    }
    assert values[..j] == values;
  }

  /**
   * `load_flags` after the parse: the three nested loops fill a table from
   * path to its flag map, visiting flags, then values, then paths in document
   * order; the table is then converted to JSON.
   */
  method LoadFlags(doc: Json) returns (flags: map<string, Json>)
    requires IsFlagsDocument(doc)
    ensures flags == Convert(Table(Visits(doc.fields)))
  {
    var entries := doc.fields;
    var table: map<string, Pairs> := map[];
    var i := 0;
    ghost var visited: seq<Visit> := [];
    while i < |entries|
      invariant 0 <= i <= |entries|
      invariant visited == Visits(entries[..i])
      invariant table == Table(visited)
    {
      assert IsValueTable(entries[i].1);
      VisitsStep(entries, i);
      table := RecordValues(table, visited, entries[i].0, entries[i].1.fields);
      visited := visited + ValueVisits(entries[i].0, entries[i].1.fields);
      i := i + 1;
    }
    assert entries[..i] == entries;
    flags := Convert(table);
  }

  /**
   * What `load_flags` returns: a path is a key exactly when some flag value
   * lists it; its entry is an object whose member `key` is the converted value
   * of the last listing of that path under `key`, and absent when no value of
   * `key` lists the path.
   */
  lemma LoadFlagsMeaning(doc: Json, path: string, key: string)
    requires IsFlagsDocument(doc)
    ensures var vs := Visits(doc.fields);
      var flags := Convert(Table(vs));
      && (path in flags <==> exists i :: 0 <= i < |vs| && vs[i].path == path)
      && (path in flags ==> flags[path].Obj? && Member(flags[path].fields, key) == CoerceOpt(LastValue(vs, path, key)))
  {
    TableMeaning(Visits(doc.fields), path, key);
  }

  /** A path is a key of the result exactly when it is listed in some array under some flag and value. */
  lemma LoadFlagsKeys(doc: Json, path: string)
    requires IsFlagsDocument(doc)
    ensures path in Convert(Table(Visits(doc.fields))) <==>
      exists i, value :: 0 <= i < |doc.fields| && Lists(doc.fields[i].1.fields, value, path)
  {
    var vs := Visits(doc.fields);
    TableMeaning(vs, path, "");
    if path in Table(vs) {
      var m :| 0 <= m < |vs| && vs[m].path == path;
      VisitsMembers(doc.fields, vs[m]);
    }
    if exists i, value :: 0 <= i < |doc.fields| && Lists(doc.fields[i].1.fields, value, path) {
      var i, value :| 0 <= i < |doc.fields| && Lists(doc.fields[i].1.fields, value, path);
      var v := Visit(path, doc.fields[i].0, value);
      VisitsMembers(doc.fields, v);
      var m :| 0 <= m < |vs| && vs[m] == v;
    }
  }

  /**
   * Each path's object lists its flags in increasing key order, the order in
   * which the BTreeMap behind it iterates.
   */
  lemma LoadFlagsSorted(doc: Json, path: string)
    requires IsFlagsDocument(doc)
    ensures var flags := Convert(Table(Visits(doc.fields)));
      path in flags ==> forall i, j :: 0 <= i < j < |flags[path].fields| ==>
        StrLt(flags[path].fields[i].0, flags[path].fields[j].0)
  {
    TableSorted(Visits(doc.fields));
  }
}
