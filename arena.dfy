/** The deduplicating `Arena`: an append-only vector of canonical references
    (`values`) and a map from content to position in that vector (`indices`).
    The two mutexes of `Arena` are not modelled: `insert` is one sequential step. */
module Arenas {
  // Lemmas marked `{:induction false}` are proved by their bodies alone: Dafny
  // would otherwise try automatic induction on their sequence and datatype
  // parameters, which the proofs do not need and which only slows them down.

  /** A `&'static T`: the whole pointer (the address, and for an unsized `T`
      such as `str` also its length) and the content it points at. Equal `addr`
      implies equal `as_ptr()`; a `str` and a prefix of it share `as_ptr()` but
      not `addr`. */
  datatype Ref<T> = Ref(addr: nat, val: T)

  /** The abstract state of an arena: its `values` vector and its `indices` map. */
  datatype Store<T(==)> = Store(values: seq<Ref<T>>, indices: map<T, nat>)
  {
    /** The arena invariant: every index is in bounds and points back at an entry
        holding its key, every entry is indexed by its own content, and no two
        entries share an address. */
    predicate Valid() {
      && (forall k | k in indices :: indices[k] < |values| && values[indices[k]].val == k)
      && (forall i | 0 <= i < |values| :: values[i].val in indices && indices[values[i].val] == i)
      && (forall i, j | 0 <= i < |values| && 0 <= j < |values| && values[i].addr == values[j].addr :: i == j)
    }

    /** `r` can live beside the references held here: two live references at the
        same address point at the same content. */
    predicate Coherent(r: Ref<T>) {
      forall x | x in values && x.addr == r.addr :: x.val == r.val
    }

    /** Every reference held here agrees with the memory `mem`. */
    predicate InMemory(mem: map<nat, T>) {
      forall i | 0 <= i < |values| :: Agrees(mem, values[i])
    }

    /** Every address held here was handed out before the allocator reached `bound`. */
    predicate AddressesBelow(bound: nat) {
      forall i | 0 <= i < |values| :: values[i].addr < bound
    }

    /** `get`: the entry at a position recorded in `indices`. */
    function Get(index: nat): (r: Ref<T>)
      requires Valid() && index < |values|
      ensures r.val in indices && indices[r.val] == index
    {
      values[index]
    }

    /** `insert`: on a hit the stored reference, on a miss the argument, appended. */
    function Insert(v: Ref<T>): (res: (Store<T>, Ref<T>))
      requires Valid()
      ensures res.1.val == v.val
      ensures res.1 in res.0.values
      ensures |values| <= |res.0.values| && res.0.values[..|values|] == values
      ensures forall x | x in res.0.values :: x in values || x == v
    {
      if v.val in indices then
        (this, Get(indices[v.val]))
      else
        (Store(values + [v], indices[v.val := |values|]), v)
    }

    /** A run of `insert` calls, one per reference of `vs`, and what each returned. */
    function InsertAll(vs: seq<Ref<T>>, ghost mem: map<nat, T>): (res: (Store<T>, seq<Ref<T>>))
      requires Valid() && InMemory(mem) && AllAgree(mem, vs)
      ensures res.0.Valid() && res.0.InMemory(mem)
      ensures |res.1| == |vs|
      ensures |values| <= |res.0.values| && res.0.values[..|values|] == values
      decreases |vs|
    {
      if vs == [] then
        (this, [])
      else
        InsertInMemory(this, vs[0], mem);
        var step := Insert(vs[0]);
        var rest := step.0.InsertAll(vs[1..], mem);
        PrefixOfPrefix(values, step.0.values, rest.0.values);
        (rest.0, [step.1] + rest.1)
    }
  }

  /** The memory model: a live reference reads, at its address, the content the
      memory holds there. */
  predicate Agrees<T(==)>(mem: map<nat, T>, r: Ref<T>) {
    r.addr in mem && mem[r.addr] == r.val
  }

  predicate AllAgree<T(==)>(mem: map<nat, T>, rs: seq<Ref<T>>) {
    forall i | 0 <= i < |rs| :: Agrees(mem, rs[i])
  }

  /** A reference that agrees with the memory the arena's references agree with
      can live beside them. */
  lemma InMemoryCoherent<T>(s: Store<T>, r: Ref<T>, mem: map<nat, T>)
    requires s.InMemory(mem) && Agrees(mem, r)
    ensures s.Coherent(r)
  {
    forall x | x in s.values && x.addr == r.addr ensures x.val == r.val {
      var i :| 0 <= i < |s.values| && s.values[i] == x;
    }
  }

  /** Inserting a reference that agrees with the memory keeps the invariant and
      keeps the arena in agreement with the memory. */
  lemma InsertInMemory<T>(s: Store<T>, r: Ref<T>, mem: map<nat, T>)
    requires s.Valid() && s.InMemory(mem) && Agrees(mem, r)
    ensures s.Insert(r).0.Valid() && s.Insert(r).0.InMemory(mem)
  {
    InMemoryCoherent(s, r, mem);
    InsertPreservesValid(s, r);
  }

  lemma PrefixOfPrefix<X>(a: seq<X>, b: seq<X>, c: seq<X>)
    requires |a| <= |b| <= |c| && b[..|a|] == a && c[..|b|] == b
    ensures c[..|a|] == a
  {
    assert c[..|a|] == c[..|b|][..|a|];
  }

  /** A new arena: both `values` and `indices` empty, and the invariant holds. */
  function EmptyStore<T(==)>(): (s: Store<T>)
    ensures s.Valid() && |s.values| == 0 && |s.indices| == 0
  {
    Store([], map[])
  }

  /** `insert` keeps the arena invariant. */
  lemma InsertPreservesValid<T>(s: Store<T>, v: Ref<T>)
    requires s.Valid() && s.Coherent(v)
    ensures s.Insert(v).0.Valid()
  {
    if v.val !in s.indices {
      var s' := s.Insert(v).0;
      forall i, j | 0 <= i < |s'.values| && 0 <= j < |s'.values| && s'.values[i].addr == s'.values[j].addr
        ensures i == j
      {
      }
    }
  }

  /** No two entries of `values` have equal content. */
  lemma ContentsDistinct<T>(s: Store<T>, i: nat, j: nat)
    requires s.Valid() && i < |s.values| && j < |s.values|
    requires s.values[i].val == s.values[j].val
    ensures i == j
  {
    assert s.indices[s.values[i].val] == i;
  }

  /** Within one arena, equal content, equal address and equal reference coincide. */
  lemma {:induction false} CanonicalIdentity<T>(s: Store<T>, a: Ref<T>, b: Ref<T>)
    requires s.Valid() && a in s.values && b in s.values
    ensures a.val == b.val <==> a.addr == b.addr
    ensures a.val == b.val <==> a == b
  {
    var i :| 0 <= i < |s.values| && s.values[i] == a;
    var j :| 0 <= j < |s.values| && s.values[j] == b;
    if a.val == b.val {
      ContentsDistinct(s, i, j);
    }
  }

  /** On a hit (some entry has the argument's content) `insert` returns that
      stored entry and changes nothing. */
  lemma InsertHit<T>(s: Store<T>, v: Ref<T>, i: nat)
    requires s.Valid() && i < |s.values| && s.values[i].val == v.val
    ensures s.Insert(v) == (s, s.values[i])
  {
    assert s.indices[s.values[i].val] == i;
  }

  /** On a miss `insert` appends exactly the argument at the old length, maps its
      content to that position and returns the argument itself. */
  lemma InsertMiss<T>(s: Store<T>, v: Ref<T>)
    requires s.Valid() && forall i | 0 <= i < |s.values| :: s.values[i].val != v.val
    ensures s.Insert(v).0.values == s.values + [v]
    ensures s.Insert(v).0.indices == s.indices[v.val := |s.values|]
    ensures s.Insert(v).1 == v
  {
  }

  /** The arena grows by one entry exactly on a miss, and otherwise not at all. */
  lemma InsertGrowth<T>(s: Store<T>, v: Ref<T>)
    requires s.Valid()
    ensures |s.Insert(v).0.values| == |s.values| + 1 <==> v.val !in (set x | x in s.values :: x.val)
    ensures |s.Insert(v).0.values| == |s.values| || |s.Insert(v).0.values| == |s.values| + 1
  {
    if v.val in s.indices {
      var i := s.indices[v.val];
      assert s.values[i] in s.values;
    } else {
      forall x | x in s.values ensures x.val != v.val {
        var i :| 0 <= i < |s.values| && s.values[i] == x;
      }
    }
  }

  /** Two inserts of equal content return the same reference, and the second
      changes nothing. */
  lemma InsertTwiceEqual<T>(s: Store<T>, a: Ref<T>, b: Ref<T>)
    requires s.Valid() && s.Coherent(a) && a.val == b.val
    ensures s.Insert(a).0.Valid()
    ensures s.Insert(a).0.Insert(b) == (s.Insert(a).0, s.Insert(a).1)
  {
    InsertPreservesValid(s, a);
    var (s1, r) := s.Insert(a);
    var i :| 0 <= i < |s1.values| && s1.values[i] == r;
    InsertHit(s1, b, i);
  }

  /** Two inserts of unequal content return references at different addresses. */
  lemma InsertTwiceDistinct<T>(s: Store<T>, a: Ref<T>, b: Ref<T>, mem: map<nat, T>)
    requires s.Valid() && s.InMemory(mem) && Agrees(mem, a) && Agrees(mem, b) && a.val != b.val
    ensures s.Insert(a).0.Valid()
    ensures s.Insert(a).1.addr != s.Insert(a).0.Insert(b).1.addr
  {
    InsertInMemory(s, a, mem);
    var (s1, r1) := s.Insert(a);
    InsertInMemory(s1, b, mem);
    var (s2, r2) := s1.Insert(b);
    assert r1 in s1.values[..|s1.values|];
    assert r1 in s2.values;
    CanonicalIdentity(s2, r1, r2);
  }

  /** Stability: once `insert` has returned `r` for some content, every later
      insert of that content, after any further inserts, returns `r` again. */
  lemma Stability<T>(s: Store<T>, r: Ref<T>, vs: seq<Ref<T>>, w: Ref<T>, mem: map<nat, T>)
    requires s.Valid() && s.InMemory(mem) && AllAgree(mem, vs) && r in s.values && w.val == r.val
    ensures s.InsertAll(vs, mem).0.Insert(w).1 == r
  {
    var s2 := s.InsertAll(vs, mem).0;
    var i :| 0 <= i < |s.values| && s.values[i] == r;
    assert s2.values[..|s.values|][i] == r;
    InsertHit(s2, w, i);
  }

  /** The leak allocator behind `Box::leak`: it hands out fresh addresses from a
      counter and never takes one back. */
  class Heap {
    var next: nat

    constructor ()
      ensures next == 0
    {
      next := 0;
    }

    /** `Box::leak(Box::new(v))`: a never-freed reference at a fresh address. */
    method Leak<U>(v: U) returns (r: Ref<U>)
      modifies this
      ensures r == Ref(old(next), v) && next == old(next) + 1
    {
      r := Ref(next, v);
      next := next + 1;
    }
  }

  /** `Arena`: the mutable store whose `values` and `indices` the methods update. */
  class Arena<T(==)> {
    var values: seq<Ref<T>>
    var indices: map<T, nat>

    function State(): Store<T>
      reads this
    {
      Store(values, indices)
    }

    ghost predicate Valid()
      reads this
    {
      State().Valid()
    }

    /** `Arena::new` / `Default`: empty `values`, empty `indices`. */
    constructor ()
      ensures Valid() && values == [] && indices == map[]
    {
      values := [];
      indices := map[];
    }

    /** `get`: read the entry at a recorded position. */
    method Get(index: nat) returns (r: Ref<T>)
      requires Valid() && index < |values|
      ensures r == values[index] && r.val in indices && indices[r.val] == index
    {
      r := values[index];
    }

    /** `insert`: look the content up; on a hit return the stored reference, on a
        miss push the argument, record its position, and return it. */
    method Insert(value: Ref<T>) returns (r: Ref<T>)
      requires Valid() && State().Coherent(value)
      modifies this
      ensures Valid()
      ensures (State(), r) == old(State()).Insert(value)
    {
      InsertPreservesValid(State(), value);
      if value.val in indices {
        r := Get(indices[value.val]);
        return;
      }
      var index := |values|;
      values := values + [value];
      indices := indices[value.val := index];
      r := value;
    }

    /** `insert_owned`: `insert` of a freshly leaked reference to `value`. */
    method InsertOwned(heap: Heap, value: T) returns (r: Ref<T>)
      requires Valid() && State().AddressesBelow(heap.next)
      modifies this, heap
      ensures Valid() && State().AddressesBelow(heap.next)
      ensures heap.next == old(heap.next) + 1
      ensures (State(), r) == old(State()).Insert(Ref(old(heap.next), value))
    {
      var leaked := heap.Leak(value);
      r := Insert(leaked);
    }
  }

  /** The test `insert_arena`: two owned "Hello, World" strings and one "Bonjour". */
  method InsertArenaScenario() returns (a: Ref<string>, b: Ref<string>, c: Ref<string>)
    ensures a.val == "Hello, World" && b.val == "Bonjour"
    ensures a.val != b.val && a.val == c.val && a.addr == c.addr
  {
    var heap := new Heap();
    var arena := new Arena<string>();
    a := arena.InsertOwned(heap, "Hello, World");
    b := arena.InsertOwned(heap, "Bonjour");
    c := arena.InsertOwned(heap, "Hello, World");
  }

  /** The test `unsized_type`: three string literals, whose addresses are whatever
      the compiler chose; the third insert returns the first literal. */
  method UnsizedTypeScenario(l1: Ref<string>, l2: Ref<string>, l3: Ref<string>)
    returns (a: Ref<string>, b: Ref<string>, c: Ref<string>)
    requires l1.val == "Hello, World" && l2.val == "Bonjour" && l3.val == "Hello, World"
    requires l1.addr != l2.addr && l2.addr != l3.addr
    ensures a.val != b.val && a.val == c.val && a.addr == c.addr
    ensures a == l1 && c == l1
  {
    var arena := new Arena<string>();
    a := arena.Insert(l1);
    b := arena.Insert(l2);
    c := arena.Insert(l3);
  }
}
