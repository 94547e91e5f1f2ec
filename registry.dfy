/** The type registry of DataTypeFactory as a value: a map from a
    lower-cased type name or alias to a bucket of implementation descriptors
    ordered by descending priority, where an implementation whose priority
    equals that of one already in the bucket is not added. */
module Registry {
  import opened Text

  /** What `register` reads from a freshly made instance of an implementation
      class: its class name `id`, its type name, its aliases and its priority;
      `settable` is the set of property names the class accepts. */
  datatype Descriptor = Descriptor(
    id: string,
    name: string,
    aliases: seq<string>,
    priority: int,
    settable: set<string>)

  type Table = map<string, seq<Descriptor>>

  /** The name followed by the aliases, in the order `register` visits them. */
  function Names(d: Descriptor): seq<string> {
    [d.name] + d.aliases
  }

  /** The lower-cased forms of `names`. */
  function LowerAll(names: seq<string>): (r: set<string>)
    ensures forall k :: k in r <==> exists i :: 0 <= i < |names| && Lower(names[i]) == k
  {
    if names == [] then {} else {Lower(names[0])} + LowerAll(names[1..])
  }

  /** The registry keys under which `d` is registered. */
  function Keys(d: Descriptor): set<string> {
    LowerAll(Names(d))
  }

  predicate Descending(b: seq<Descriptor>) {
    forall i, j :: 0 <= i < j < |b| ==> b[i].priority > b[j].priority
  }

  predicate HasPriority(b: seq<Descriptor>, p: int) {
    exists i :: 0 <= i < |b| && b[i].priority == p
  }

  /** The invariant the registry keeps: keys are lower case, buckets are
      non-empty and strictly descending by priority. */
  predicate WellFormed(m: Table) {
    forall k :: k in m ==> IsLowerCase(k) && m[k] != [] && Descending(m[k])
  }

  function BucketOf(m: Table, k: string): seq<Descriptor> {
    if k in m then m[k] else []
  }

  /** `TreeSet.add` with the comparator "descending priority": `d` goes
      before the first entry of lower priority, unless an entry of the same
      priority is already there, in which case the bucket is unchanged. */
  function Insert(b: seq<Descriptor>, d: Descriptor): (r: seq<Descriptor>)
    ensures r != [] && HasPriority(r, d.priority)
    ensures forall i :: 0 <= i < |r| ==> r[i] == d || r[i] in b
  {
    if b == [] then
      assert [d][0] == d;
      [d]
    else if d.priority > b[0].priority then
      assert ([d] + b)[0] == d;
      [d] + b
    else if d.priority == b[0].priority then b
    else
      var rest := Insert(b[1..], d);
      HasPriorityCons(b[0], rest, d.priority);
      [b[0]] + rest
  }

  /** Insertion keeps a bucket strictly descending. */
  lemma {:induction false} InsertDescending(b: seq<Descriptor>, d: Descriptor)
    requires Descending(b)
    ensures Descending(Insert(b, d))
  {
    if b != [] && d.priority < b[0].priority {
      InsertDescending(b[1..], d);
      var r := Insert(b, d);
      var rest := Insert(b[1..], d);
      assert r == [b[0]] + rest;
      forall j | 0 <= j < |rest| ensures rest[j].priority < b[0].priority {
        if rest[j] != d {
          var i :| 0 <= i < |b[1..]| && b[1..][i] == rest[j];
          assert b[i + 1] == rest[j];
        }
      }
    }
  }

  /** In a strictly descending bucket, an entry of equal priority makes the
      insertion a no-op. */
  lemma {:induction false} InsertTie(b: seq<Descriptor>, d: Descriptor)
    requires Descending(b) && HasPriority(b, d.priority)
    ensures Insert(b, d) == b
  {
    if d.priority < b[0].priority {
      var i :| 0 <= i < |b| && b[i].priority == d.priority;
      var tail := b[1..];
      assert i > 0;
      assert tail[i - 1].priority == d.priority;
      assert Descending(tail) by {
        forall k, l | 0 <= k < l < |tail| ensures tail[k].priority > tail[l].priority {
          assert tail[k] == b[k + 1] && tail[l] == b[l + 1];
        }
      }
      InsertTie(tail, d);
      assert Insert(b, d) == [b[0]] + Insert(tail, d);
      assert b == [b[0]] + tail;
    }
  }

  /** Without an entry of equal priority, insertion adds `d` once and keeps
      every old entry. */
  lemma {:induction false} InsertNew(b: seq<Descriptor>, d: Descriptor)
    requires !HasPriority(b, d.priority)
    ensures multiset(Insert(b, d)) == multiset(b) + multiset{d}
  {
    if b != [] {
      assert b[0].priority != d.priority by { assert b[0] == b[0]; }
      if d.priority < b[0].priority {
        InsertNew(b[1..], d);
        assert b == [b[0]] + b[1..];
      }
    }
  }

  lemma HasPriorityCons(x: Descriptor, b: seq<Descriptor>, p: int)
    requires HasPriority(b, p)
    ensures HasPriority([x] + b, p)
  {
    var i :| 0 <= i < |b| && b[i].priority == p;
    assert ([x] + b)[i + 1] == b[i];
  }

  lemma {:induction false} InsertIdempotent(b: seq<Descriptor>, d: Descriptor)
    ensures Insert(Insert(b, d), d) == Insert(b, d)
  {
    if b != [] && d.priority < b[0].priority {
      InsertIdempotent(b[1..], d);
    }
  }

  /** The loop of `register` over the names, from the left. */
  function RegisterNames(m: Table, names: seq<string>, d: Descriptor): Table
    decreases |names|
  {
    if names == [] then m
    else
      var k := Lower(names[0]);
      RegisterNames(m[k := Insert(BucketOf(m, k), d)], names[1..], d)
  }

  /** The registry after `register(d)`. */
  function Registered(m: Table, d: Descriptor): Table {
    RegisterNames(m, Names(d), d)
  }

  lemma {:induction false} RegisterNamesAt(m: Table, names: seq<string>, d: Descriptor, k: string)
    ensures var r := RegisterNames(m, names, d);
      && (k in r <==> k in m || k in LowerAll(names))
      && (k in LowerAll(names) ==> r[k] == Insert(BucketOf(m, k), d))
      && (k !in LowerAll(names) && k in m ==> r[k] == m[k])
    decreases |names|
  {
    if names != [] {
      var k0 := Lower(names[0]);
      var m' := m[k0 := Insert(BucketOf(m, k0), d)];
      RegisterNamesAt(m', names[1..], d, k);
      assert LowerAll(names) == {k0} + LowerAll(names[1..]);
      if k == k0 && k in LowerAll(names[1..]) {
        InsertIdempotent(BucketOf(m, k), d);
      }
    }
  }

  /** What `register(d)` does to each key: the keys of `d` get `d` inserted
      into their bucket (a new bucket when absent), every other key is left
      as it was. */
  lemma RegisteredAt(m: Table, d: Descriptor, k: string)
    ensures var r := Registered(m, d);
      && (k in r <==> k in m || k in Keys(d))
      && (k in Keys(d) ==> r[k] == Insert(BucketOf(m, k), d))
      && (k !in Keys(d) && k in m ==> r[k] == m[k])
  {
    RegisterNamesAt(m, Names(d), d, k);
  }

  /** Registration keeps keys lower case and buckets non-empty and strictly
      descending. */
  lemma RegisterKeepsWellFormed(m: Table, d: Descriptor)
    requires WellFormed(m)
    ensures WellFormed(Registered(m, d))
  {
    var r := Registered(m, d);
    forall k | k in r
      ensures IsLowerCase(k) && r[k] != [] && Descending(r[k])
    {
      RegisteredAt(m, d, k);
      if k in Keys(d) {
        var i :| 0 <= i < |Names(d)| && Lower(Names(d)[i]) == k;
        InsertDescending(BucketOf(m, k), d);
      }
    }
  }

  /** After `register(d)`, the name and every alias of `d`, lower-cased, is a
      key whose bucket holds an entry of `d`'s priority; the keys are exactly
      the old ones and those of `d`. */
  lemma RegisterAddsNames(m: Table, d: Descriptor)
    ensures var r := Registered(m, d);
      && r.Keys == m.Keys + Keys(d)
      && forall k :: k in Keys(d) ==> HasPriority(r[k], d.priority)
  {
    var r := Registered(m, d);
    forall k | k in r.Keys + m.Keys + Keys(d)
      ensures (k in r.Keys <==> k in m.Keys + Keys(d))
      ensures k in Keys(d) ==> HasPriority(r[k], d.priority)
    {
      RegisteredAt(m, d, k);
    }
  }

  /** `register(d)` leaves every key that is not a name or alias of `d`
      exactly as it was, present or absent. */
  lemma RegisterFrame(m: Table, d: Descriptor, k: string)
    requires k !in Keys(d)
    ensures k in Registered(m, d) <==> k in m
    ensures k in m ==> Registered(m, d)[k] == m[k]
  {
    RegisteredAt(m, d, k);
  }

  /** An entry whose priority is already present does not enter the bucket:
      the implementation registered first wins the tie. */
  lemma RegisterTieKeepsBucket(m: Table, d: Descriptor, k: string)
    requires WellFormed(m) && k in m && HasPriority(m[k], d.priority)
    ensures k in Registered(m, d) && Registered(m, d)[k] == m[k]
  {
    RegisteredAt(m, d, k);
    InsertTie(m[k], d);
  }

  /** An entry with a new priority enters the bucket of each of its keys,
      and nothing else does. */
  lemma RegisterNewPriority(m: Table, d: Descriptor, k: string)
    requires k in Keys(d) && !HasPriority(BucketOf(m, k), d.priority)
    ensures k in Registered(m, d)
    ensures multiset(Registered(m, d)[k]) == multiset(BucketOf(m, k)) + multiset{d}
  {
    RegisteredAt(m, d, k);
    InsertNew(BucketOf(m, k), d);
  }

  /** Registering the same descriptor twice is the same as once. */
  lemma RegisterIdempotent(m: Table, d: Descriptor)
    ensures Registered(Registered(m, d), d) == Registered(m, d)
  {
    var r := Registered(m, d);
    var rr := Registered(r, d);
    forall k | k in rr.Keys + r.Keys
      ensures k in rr <==> k in r
      ensures k in r ==> rr[k] == r[k]
    {
      RegisteredAt(m, d, k);
      RegisteredAt(r, d, k);
      if k in Keys(d) {
        InsertIdempotent(BucketOf(m, k), d);
      }
    }
  }

  /** The registry after registering `ds` in order, as the constructor does
      with the implementations it is given. */
  function RegisterAll(m: Table, ds: seq<Descriptor>): Table
    decreases |ds|
  {
    if ds == [] then m else RegisterAll(Registered(m, ds[0]), ds[1..])
  }

  /** After registering `ds`, each bucket holds only its old entries and
      descriptors of `ds` that carry its key, and holds an entry of the
      priority of every descriptor of `ds` that carries its key. */
  lemma {:induction false} RegisterAllBucket(m: Table, ds: seq<Descriptor>, k: string)
    requires WellFormed(m)
    ensures WellFormed(RegisterAll(m, ds))
    ensures forall e :: e in BucketOf(RegisterAll(m, ds), k) ==>
      e in BucketOf(m, k) || (e in ds && k in Keys(e))
    ensures forall d :: d in ds && k in Keys(d) ==> HasPriority(BucketOf(RegisterAll(m, ds), k), d.priority)
    decreases |ds|
  {
    if ds != [] {
      var d := ds[0];
      var m' := Registered(m, d);
      RegisterKeepsWellFormed(m, d);
      RegisterAllBucket(m', ds[1..], k);
      RegisteredAt(m, d, k);
      var r := RegisterAll(m', ds[1..]);
      assert r == RegisterAll(m, ds);
      forall e | e in BucketOf(r, k)
        ensures e in BucketOf(m, k) || (e in ds && k in Keys(e))
      {
        if e in BucketOf(m', k) && k in Keys(d) {
          var i :| 0 <= i < |BucketOf(m', k)| && BucketOf(m', k)[i] == e;
        }
      }
      if k in Keys(d) {
        HasPriorityKept(m', ds[1..], k, d.priority);
      }
    }
  }

  /** A priority present in a bucket stays present as more descriptors are
      registered. */
  lemma {:induction false} HasPriorityKept(m: Table, ds: seq<Descriptor>, k: string, p: int)
    requires WellFormed(m) && HasPriority(BucketOf(m, k), p)
    ensures HasPriority(BucketOf(RegisterAll(m, ds), k), p)
    decreases |ds|
  {
    if ds != [] {
      var d := ds[0];
      RegisteredAt(m, d, k);
      RegisterKeepsWellFormed(m, d);
      if k in Keys(d) {
        InsertKeepsPriority(BucketOf(m, k), d, p);
      }
      HasPriorityKept(Registered(m, d), ds[1..], k, p);
    }
  }

  lemma {:induction false} InsertKeepsPriority(b: seq<Descriptor>, d: Descriptor, p: int)
    requires HasPriority(b, p)
    ensures HasPriority(Insert(b, d), p)
  {
    var i :| 0 <= i < |b| && b[i].priority == p;
    if d.priority > b[0].priority {
      assert Insert(b, d)[i + 1] == b[i];
    } else if d.priority < b[0].priority {
      if i == 0 {
        assert Insert(b, d)[0] == b[0];
      } else {
        assert b[1..][i - 1].priority == p;
        InsertKeepsPriority(b[1..], d, p);
        HasPriorityCons(b[0], Insert(b[1..], d), p);
      }
    }
  }

  /** Among implementations registered under the same key, the one of
      strictly highest priority heads the bucket, whatever the order of
      registration. */
  lemma HighestPriorityHeads(ds: seq<Descriptor>, k: string, d: Descriptor)
    requires d in ds && k in Keys(d)
    requires forall e :: e in ds && k in Keys(e) && e != d ==> e.priority < d.priority
    ensures var r := RegisterAll(map[], ds); k in r && r[k] != [] && r[k][0] == d
  {
    var r := RegisterAll(map[], ds);
    RegisterAllBucket(map[], ds, k);
    var b := BucketOf(r, k);
    var i :| 0 <= i < |b| && b[i].priority == d.priority;
    assert b[i] in b;
    assert b[i] == d;
    assert b[0] in b;
  }
}
