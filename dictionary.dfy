/**
  The name/synonym dictionaries of `GeoHelper::loadCities` and
  `GeoHelper::loadRegions` (script.php:79-116): a PHP associative array from
  matchable text to entity id, kept in insertion order.
*/
module Dictionary {
  import opened Wrappers

  /** The array as its (key, id) pairs in iteration order. */
  type Table = seq<(string, int)>

  /** An entity as the loaders see it: its id, its name and its synonyms. */
  datatype Entry = Entry(id: int, name: string, synonyms: seq<string>)

  /** The position of the first pair whose key is `k`. */
  function IndexOf(t: seq<(string, int)>, k: string): (r: Option<nat>)
    ensures r.Some? ==> r.value < |t| && t[r.value].0 == k
    ensures r.Some? ==> forall j :: 0 <= j < r.value ==> t[j].0 != k
    ensures r.None? ==> forall j :: 0 <= j < |t| ==> t[j].0 != k
  {
    if t == [] then None
    else if t[0].0 == k then Some(0)
    else match IndexOf(t[1..], k)
      case Some(i) => Some(i + 1)
      case None => None
  }

  /** `array_key_exists($k, $t)` */
  predicate HasKey(t: seq<(string, int)>, k: string) {
    IndexOf(t, k).Some?
  }

  /** A PHP array never holds one key twice. */
  predicate UniqueKeys(t: Table) {
    forall i, j :: 0 <= i < j < |t| ==> t[i].0 != t[j].0
  }

  /** `$t[$k]`, or `None` when `$k` is not a key. */
  function Lookup(t: Table, k: string): (r: Option<int>)
    ensures r.Some? <==> HasKey(t, k)
    ensures r.Some? ==> (k, r.value) in t
  {
    match IndexOf(t, k)
    case Some(i) => Some(t[i].1)
    case None => None
  }

  /** `$t[$k] = $v`. What it means is stated by `AssignSpec`. */
  function Assign(t: Table, k: string, v: int): (r: Table)
    requires UniqueKeys(t)
    ensures UniqueKeys(r)
  {
    match IndexOf(t, k)
    case Some(i) => t[i := (k, v)]
    case None => t + [(k, v)]
  }

  /** `$t[$k] = $v`: a key already present keeps its position and takes the new
      id; a new key is appended; no other key changes. */
  lemma AssignSpec(t: Table, k: string, v: int)
    requires UniqueKeys(t)
    ensures var r := Assign(t, k, v);
      && |r| == (if HasKey(t, k) then |t| else |t| + 1)
      && (forall i :: 0 <= i < |t| ==> r[i].0 == t[i].0)
      && (!HasKey(t, k) ==> r[|t|].0 == k)
      && Lookup(r, k) == Some(v)
      && (forall k' :: k' != k ==> Lookup(r, k') == Lookup(t, k'))
  {
    var r := Assign(t, k, v);
    match IndexOf(t, k)
    case Some(i) =>
      forall k' | k' != k ensures IndexOf(r, k') == IndexOf(t, k') {
        SameKeysSameIndex(t, r, k');
      }
      SameKeysSameIndex(t, r, k);
    case None =>
      forall k' | k' != k ensures IndexOf(r, k') == IndexOf(t, k') {
        IndexOfSnoc(t, (k, v), k');
      }
      IndexOfSnoc(t, (k, v), k);
  }

  lemma SameKeysSameIndex(t: seq<(string, int)>, r: seq<(string, int)>, k: string)
    requires |t| == |r| && forall i :: 0 <= i < |t| ==> r[i].0 == t[i].0
    ensures IndexOf(r, k) == IndexOf(t, k)
  {
  }

  lemma IndexOfSnoc(t: seq<(string, int)>, p: (string, int), k: string)
    ensures IndexOf(t + [p], k) == if HasKey(t, k) then IndexOf(t, k) else if p.0 == k then Some(|t|) else None
  {
    var b := IndexOf(t, k);
    if b.Some? {
      assert (t + [p])[b.value].0 == k;
    } else if p.0 == k {
      assert (t + [p])[|t|].0 == k;
    }
  }

  /** Assigning the pairs `ps` one after the other, starting from `t`. */
  function AssignAll(t: Table, ps: seq<(string, int)>): (r: Table)
    requires UniqueKeys(t)
    ensures UniqueKeys(r)
    decreases |ps|
  {
    if ps == [] then t
    else
      var last := ps[|ps| - 1];
      Assign(AssignAll(t, ps[..|ps| - 1]), last.0, last.1)
  }

  /** The position of the last pair whose key is `k`. */
  function LastIndex(ps: seq<(string, int)>, k: string): (r: nat)
    requires HasKey(ps, k)
    ensures r < |ps| && ps[r].0 == k
    ensures forall j :: r < j < |ps| ==> ps[j].0 != k
    decreases |ps|
  {
    if ps[|ps| - 1].0 == k then |ps| - 1
    else
      IndexOfSnoc(ps[..|ps| - 1], ps[|ps| - 1], k);
      assert ps[..|ps| - 1] + [ps[|ps| - 1]] == ps;
      LastIndex(ps[..|ps| - 1], k)
  }

  /** `t` has exactly the keys assigned in `ps`. */
  ghost predicate SameKeys(t: Table, ps: seq<(string, int)>) {
    forall k :: HasKey(t, k) <==> HasKey(ps, k)
  }

  /** Both keys are assigned in `ps`, `a` for the first time before `b`. */
  predicate AssignedBefore(ps: seq<(string, int)>, a: string, b: string) {
    HasKey(ps, a) && HasKey(ps, b) && IndexOf(ps, a).value < IndexOf(ps, b).value
  }

  /** The keys of `t` come in the order of their first assignment in `ps`. */
  ghost predicate FirstOrder(t: Table, ps: seq<(string, int)>) {
    forall i, j :: 0 <= i < j < |t| ==> AssignedBefore(ps, t[i].0, t[j].0)
  }

  /** Each key assigned in `ps` maps to the id of its last assignment. */
  ghost predicate LastIds(t: Table, ps: seq<(string, int)>) {
    forall k :: HasKey(ps, k) ==> Lookup(t, k) == Some(ps[LastIndex(ps, k)].1)
  }

  /** `t` is what assigning the pairs `ps` in order to an empty array yields:
      its keys are those of `ps`, each once, in the order of their first
      assignment, and each key maps to the id of its last assignment. */
  ghost predicate Records(t: Table, ps: seq<(string, int)>) {
    UniqueKeys(t) && SameKeys(t, ps) && FirstOrder(t, ps) && LastIds(t, ps)
  }

  /** One more assignment keeps the table recording the pairs assigned so far. */
  lemma AssignRecords(t: Table, q: seq<(string, int)>, k: string, v: int)
    requires Records(t, q)
    ensures Records(Assign(t, k, v), q + [(k, v)])
  {
    AssignRecordsKeys(t, q, k, v);
    AssignRecordsOrder(t, q, k, v);
    AssignRecordsIds(t, q, k, v);
  }

  lemma AssignRecordsKeys(t: Table, q: seq<(string, int)>, k: string, v: int)
    requires Records(t, q)
    ensures SameKeys(Assign(t, k, v), q + [(k, v)])
  {
    forall x ensures HasKey(Assign(t, k, v), x) <==> HasKey(q + [(k, v)], x) {
      AssignKey(t, q, k, v, x);
    }
  }

  lemma AssignKey(t: Table, q: seq<(string, int)>, k: string, v: int, x: string)
    requires UniqueKeys(t)
    requires HasKey(t, x) <==> HasKey(q, x)
    ensures HasKey(Assign(t, k, v), x) <==> HasKey(q + [(k, v)], x)
  {
    AssignSpec(t, k, v);
    IndexOfSnoc(q, (k, v), x);
    assert HasKey(Assign(t, k, v), x) <==> Lookup(Assign(t, k, v), x).Some?;
    assert HasKey(t, x) <==> Lookup(t, x).Some?;
  }

  lemma AssignRecordsOrder(t: Table, q: seq<(string, int)>, k: string, v: int)
    requires Records(t, q)
    ensures FirstOrder(Assign(t, k, v), q + [(k, v)])
  {
    var r, ps := Assign(t, k, v), q + [(k, v)];
    forall i, j | 0 <= i < j < |r| ensures AssignedBefore(ps, r[i].0, r[j].0) {
      AssignOrderAt(t, q, k, v, r, ps, i, j);
    }
  }

  lemma AssignOrderAt(t: Table, q: seq<(string, int)>, k: string, v: int, r: Table, ps: seq<(string, int)>, i: nat, j: nat)
    requires Records(t, q)
    requires r == Assign(t, k, v) && ps == q + [(k, v)]
    requires i < j < |r|
    ensures AssignedBefore(ps, r[i].0, r[j].0)
  {
    AssignSpec(t, k, v);
    var x, y := t[i].0, r[j].0;
    assert r[i].0 == x;
    IndexOfSnoc(q, (k, v), x);
    IndexOfSnoc(q, (k, v), y);
    assert HasKey(q, x);
    if j < |t| {
      assert y == t[j].0;
      assert HasKey(q, y);
    } else {
      assert !HasKey(q, k) && y == k;
    }
  }

  lemma AssignRecordsIds(t: Table, q: seq<(string, int)>, k: string, v: int)
    requires Records(t, q)
    ensures LastIds(Assign(t, k, v), q + [(k, v)])
  {
    AssignSpec(t, k, v);
    var r, ps := Assign(t, k, v), q + [(k, v)];
    assert ps[..|ps| - 1] == q;
    forall x | HasKey(ps, x) ensures Lookup(r, x) == Some(ps[LastIndex(ps, x)].1) {
      IndexOfSnoc(q, (k, v), x);
      if x != k {
        assert LastIndex(ps, x) == LastIndex(q, x);
      }
    }
  }

  /** Assigning any sequence of pairs to an empty array records them as PHP
      does. */
  lemma {:induction false} AssignAllRecords(ps: seq<(string, int)>)
    ensures Records(AssignAll([], ps), ps)
    decreases |ps|
  {
    if ps != [] {
      var q := ps[..|ps| - 1];
      AssignAllRecords(q);
      assert ps == q + [ps[|ps| - 1]];
      AssignRecords(AssignAll([], q), q, ps[|ps| - 1].0, ps[|ps| - 1].1);
    }
  }

  /** The pairs one entity assigns: its name, then each synonym, all with its id. */
  function EntryPairs(e: Entry): (ps: seq<(string, int)>)
    ensures |ps| == 1 + |e.synonyms| && ps[0] == (e.name, e.id)
    ensures forall i :: 0 <= i < |e.synonyms| ==> ps[i + 1] == (e.synonyms[i], e.id)
  {
    [(e.name, e.id)] + seq(|e.synonyms|, i requires 0 <= i < |e.synonyms| => (e.synonyms[i], e.id))
  }

  /** The pairs the loaders assign, entity after entity. */
  function Pairs(es: seq<Entry>): seq<(string, int)> {
    if es == [] then [] else Pairs(es[..|es| - 1]) + EntryPairs(es[|es| - 1])
  }

  /** Every entity assigns at least its name, and the very first assignment of
      a load is the first entity's name with its id. */
  lemma {:induction false} PairsStart(es: seq<Entry>)
    ensures |Pairs(es)| >= |es|
    ensures es != [] ==> Pairs(es)[0] == (es[0].name, es[0].id)
    decreases |es|
  {
    if es != [] {
      var q := es[..|es| - 1];
      PairsStart(q);
      if q != [] {
        assert q[0] == es[0];
      }
    }
  }

  /** The table the loaders build from the entities `es`, starting from empty. */
  function Build(es: seq<Entry>): (r: Table)
    ensures Records(r, Pairs(es))
  {
    AssignAllRecords(Pairs(es));
    AssignAll([], Pairs(es))
  }

  /** The lazy loader: the table is built only while it is empty. */
  function LoadOnce(t: Table, es: seq<Entry>): (r: Table)
    ensures t != [] ==> r == t
    ensures t == [] ==> Records(r, Pairs(es))
  {
    if t == [] then Build(es) else t
  }

  lemma AssignAllSnoc(t: Table, ps: seq<(string, int)>, p: (string, int))
    requires UniqueKeys(t)
    ensures AssignAll(t, ps + [p]) == Assign(AssignAll(t, ps), p.0, p.1)
  {
    assert (ps + [p])[..|ps|] == ps;
  }

  /** The name of `e` is the first of its assignments, after those of `done`. */
  lemma NameStep(done: seq<(string, int)>, e: Entry)
    ensures AssignAll([], done + EntryPairs(e)[..1]) == Assign(AssignAll([], done), e.name, e.id)
  {
    AssignAllSnoc([], done, (e.name, e.id));
    assert EntryPairs(e)[..1] == [(e.name, e.id)];
  }

  /** Synonym `j` of `e` is the assignment after its name and its first `j` synonyms. */
  lemma SynonymStep(done: seq<(string, int)>, e: Entry, j: nat)
    requires j < |e.synonyms|
    ensures AssignAll([], done + EntryPairs(e)[..j + 2])
         == Assign(AssignAll([], done + EntryPairs(e)[..j + 1]), e.synonyms[j], e.id)
  {
    assert EntryPairs(e)[..j + 2] == EntryPairs(e)[..j + 1] + [(e.synonyms[j], e.id)];
    assert done + EntryPairs(e)[..j + 2] == (done + EntryPairs(e)[..j + 1]) + [(e.synonyms[j], e.id)];
    AssignAllSnoc([], done + EntryPairs(e)[..j + 1], (e.synonyms[j], e.id));
  }

  /** After the name and all synonyms of `e`, the table is the one built from
      the entities before it and `e`. */
  lemma EntryStep(es: seq<Entry>, e: Entry)
    ensures AssignAll([], Pairs(es) + EntryPairs(e)[..|e.synonyms| + 1]) == Build(es + [e])
  {
    assert (es + [e])[..|es|] == es;
    assert EntryPairs(e)[..|e.synonyms| + 1] == EntryPairs(e);
  }

  /** `k` is the name or a synonym of some entity of `es`. */
  ghost predicate Registers(es: seq<Entry>, k: string) {
    exists e :: e in es && (k == e.name || k in e.synonyms)
  }

  lemma HasKeyAt(t: seq<(string, int)>, k: string)
    ensures HasKey(t, k) <==> exists i :: 0 <= i < |t| && t[i].0 == k
  {
  }

  lemma HasKeyAppend(a: seq<(string, int)>, b: seq<(string, int)>, k: string)
    ensures HasKey(a + b, k) <==> HasKey(a, k) || HasKey(b, k)
  {
    HasKeyAt(a + b, k);
    HasKeyAt(a, k);
    HasKeyAt(b, k);
    if HasKey(a + b, k) {
      var i :| 0 <= i < |a + b| && (a + b)[i].0 == k;
      if i < |a| {
        assert a[i].0 == k;
      } else {
        assert b[i - |a|].0 == k;
      }
    }
    if HasKey(a, k) {
      var i :| 0 <= i < |a| && a[i].0 == k;
      assert (a + b)[i].0 == k;
    }
    if HasKey(b, k) {
      var i :| 0 <= i < |b| && b[i].0 == k;
      assert (a + b)[|a| + i].0 == k;
    }
  }

  /** An entity assigns exactly its name and its synonyms. */
  lemma EntryPairsKeys(e: Entry, k: string)
    ensures HasKey(EntryPairs(e), k) <==> k == e.name || k in e.synonyms
  {
    if HasKey(EntryPairs(e), k) {
      EntryKeyIsNamed(e, k);
    }
    if k == e.name || k in e.synonyms {
      NamedIsEntryKey(e, k);
    }
  }

  lemma EntryKeyIsNamed(e: Entry, k: string)
    requires HasKey(EntryPairs(e), k)
    ensures k == e.name || k in e.synonyms
  {
    var ps := EntryPairs(e);
    var i := IndexOf(ps, k).value;
    if i > 0 {
      assert ps[(i - 1) + 1] == (e.synonyms[i - 1], e.id);
      assert e.synonyms[i - 1] in e.synonyms;
    }
  }

  lemma NamedIsEntryKey(e: Entry, k: string)
    requires k == e.name || k in e.synonyms
    ensures HasKey(EntryPairs(e), k)
  {
    var ps := EntryPairs(e);
    HasKeyAt(ps, k);
    if k == e.name {
      assert ps[0].0 == k;
    } else {
      var j :| 0 <= j < |e.synonyms| && e.synonyms[j] == k;
      assert ps[j + 1].0 == k;
    }
  }

  lemma RegistersSnoc(q: seq<Entry>, e: Entry, k: string)
    ensures Registers(q + [e], k) <==> Registers(q, k) || k == e.name || k in e.synonyms
  {
    if Registers(q + [e], k) {
      var e' :| e' in q + [e] && (k == e'.name || k in e'.synonyms);
      if e' != e {
        assert e' in q;
      }
    }
    if Registers(q, k) {
      var e' :| e' in q && (k == e'.name || k in e'.synonyms);
      assert e' in q + [e];
    }
    if k == e.name || k in e.synonyms {
      assert e in q + [e];
    }
  }

  lemma {:induction false} PairsKeys(es: seq<Entry>)
    ensures forall k :: HasKey(Pairs(es), k) <==> Registers(es, k)
    decreases |es|
  {
    if es != [] {
      var q, e := es[..|es| - 1], es[|es| - 1];
      PairsKeys(q);
      assert es == q + [e];
      assert Pairs(es) == Pairs(q) + EntryPairs(e);
      forall k ensures HasKey(Pairs(es), k) <==> Registers(es, k) {
        HasKeyAppend(Pairs(q), EntryPairs(e), k);
        EntryPairsKeys(e, k);
        RegistersSnoc(q, e, k);
      }
    }
  }

  /** After loading, every entity's name and every synonym is a key, nothing
      else is, and the table records the entities' assignments in order: the
      name first, then each synonym; first position and last id for a key
      assigned more than once. */
  lemma BuildRecords(es: seq<Entry>)
    ensures Records(Build(es), Pairs(es))
    ensures forall k :: HasKey(Build(es), k) <==> Registers(es, k)
  {
    PairsKeys(es);
  }

  /** Once a load found at least one entity, later loads keep the table as it
      is, whatever entities they are offered. */
  lemma LoadOnceIsStable(t: Table, es1: seq<Entry>, es2: seq<Entry>)
    requires es1 != []
    ensures LoadOnce(LoadOnce(t, es1), es2) == LoadOnce(t, es1)
  {
    BuildRecords(es1);
    assert Registers(es1, es1[0].name);
  }
}
