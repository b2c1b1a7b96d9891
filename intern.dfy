/** The intern protocol: the `Interned` handle, the per-type arena behind each
    basic type's `intern`, `intern_owned`, and the `&'static T` delegation. */
module Interning {
  // Lemmas marked `{:induction false}` are proved by their bodies alone: Dafny
  // would otherwise try automatic induction on their sequence and datatype
  // parameters, which the proofs do not need and which only slows them down.
  import opened Arenas

  /** `Interned<T>`: a handle around a `&'static T` that the type's arena gave out. */
  datatype Interned<T> = Interned(ptr: Ref<T>)

  /** The derived `PartialEq` of `Interned`: it compares the contents the two
      references point at, not their addresses; a handle equals itself. */
  predicate Same<T(==)>(a: Interned<T>, b: Interned<T>)
    ensures a == b ==> Same(a, b)
  {
    a.ptr.val == b.ptr.val
  }

  /** For two handles whose references sit in one arena, the derived content
      equality, address equality (`as_ptr`) and identity of the handles agree. */
  lemma {:induction false} SameIsIdentity<T>(s: Store<T>, a: Interned<T>, b: Interned<T>)
    requires s.Valid() && a.ptr in s.values && b.ptr in s.values
    ensures Same(a, b) <==> a.ptr.addr == b.ptr.addr
    ensures Same(a, b) <==> a == b
  {
    CanonicalIdentity(s, a.ptr, b.ptr);
  }

  /** Interning `x` twice into one arena gives handles that are equal, at one
      address; interning unequal contents gives unequal handles at distinct addresses. */
  lemma InternTwice<T>(s: Store<T>, x: Ref<T>, y: Ref<T>, mem: map<nat, T>)
    requires s.Valid() && s.InMemory(mem) && Agrees(mem, x) && Agrees(mem, y)
    ensures s.Insert(x).0.Valid()
    ensures var h1 := Interned(s.Insert(x).1);
            var h2 := Interned(s.Insert(x).0.Insert(y).1);
            (Same(h1, h2) <==> x.val == y.val) && (Same(h1, h2) <==> h1.ptr.addr == h2.ptr.addr)
  {
    InMemoryCoherent(s, x, mem);
    if x.val == y.val {
      InsertTwiceEqual(s, x, y);
    } else {
      InsertTwiceDistinct(s, x, y, mem);
    }
  }

  /** The module that `basic_impl!` generates for one basic type: that type's own
      arena and its `Intern` impl, whose `InternedType` is the type itself. */
  class BasicImpl<T(==)> {
    const arena: Arena<T>

    /** The lazily created `ARENA` of the type, empty on first use. */
    constructor ()
      ensures fresh(arena) && arena.Valid() && arena.values == [] && arena.indices == map[]
    {
      arena := new Arena<T>();
    }

    /** `intern`: `Interned(ARENA.insert(self))`. */
    method Intern(value: Ref<T>) returns (h: Interned<T>)
      requires arena.Valid() && arena.State().Coherent(value)
      modifies arena
      ensures arena.Valid()
      ensures (arena.State(), h.ptr) == old(arena.State()).Insert(value)
    {
      var r := arena.Insert(value);
      h := Interned(r);
    }

    /** `intern_owned`: leak `value` to a fresh reference, then `intern` it. */
    method InternOwned(heap: Heap, value: T) returns (h: Interned<T>)
      requires arena.Valid() && arena.State().AddressesBelow(heap.next)
      modifies arena, heap
      ensures arena.Valid() && arena.State().AddressesBelow(heap.next)
      ensures heap.next == old(heap.next) + 1
      ensures (arena.State(), h.ptr) == old(arena.State()).Insert(Ref(old(heap.next), value))
    {
      var leaked := heap.Leak(value);
      ghost var before := arena.State();
      h := Intern(leaked);
      InsertKeepsBelow(before, leaked, heap.next);
    }

    /** `intern` for `&'static T`: the reference to a reference is read through,
        and the inner reference is interned exactly as `T::intern` would. */
    method InternRef(value: Ref<Ref<T>>) returns (h: Interned<T>)
      requires arena.Valid() && arena.State().Coherent(value.val)
      modifies arena
      ensures arena.Valid()
      ensures (arena.State(), h.ptr) == old(arena.State()).Insert(value.val)
    {
      h := Intern(value.val);
    }

    /** `intern_owned` for `&'static T`: the leaked box holds the reference, so the
        arena sees the inner reference, as when interning it directly. */
    method InternRefOwned(heap: Heap, value: Ref<T>) returns (h: Interned<T>)
      requires arena.Valid() && arena.State().Coherent(value)
      modifies arena, heap
      ensures arena.Valid() && heap.next == old(heap.next) + 1
      ensures (arena.State(), h.ptr) == old(arena.State()).Insert(value)
    {
      var leaked := heap.Leak(value);
      h := InternRef(leaked);
    }
  }

  /** An insert of a reference handed out below `bound` keeps every address of
      the arena below `bound`. */
  lemma InsertKeepsBelow<T>(s: Store<T>, v: Ref<T>, bound: nat)
    requires s.Valid() && s.AddressesBelow(bound) && v.addr < bound
    ensures s.Insert(v).0.AddressesBelow(bound)
  {
    var s' := s.Insert(v).0;
    forall i | 0 <= i < |s'.values| ensures s'.values[i].addr < bound {
      assert s'.values[i] in s'.values;
      if s'.values[i] != v {
        var j :| 0 <= j < |s.values| && s.values[j] == s'.values[i];
      }
    }
  }

  /** Each type has its own arena: interning a `String` updates the `String`
      arena as `insert` does and leaves another type's arena exactly as it was. */
  method InternIsPerType(strings: BasicImpl<string>, strs: BasicImpl<string>, heap: Heap, value: string)
    returns (h: Interned<string>)
    requires strings.arena != strs.arena
    requires strings.arena.Valid() && strings.arena.State().AddressesBelow(heap.next)
    modifies strings.arena, heap
    ensures strs.arena.State() == old(strs.arena.State())
    ensures (strings.arena.State(), h.ptr) == old(strings.arena.State()).Insert(Ref(old(heap.next), value))
    ensures h.ptr.val == value
  {
    h := strings.InternOwned(heap, value);
  }

  /** The test `intern_string`: owned strings interned through `intern_owned`. */
  method InternStringScenario() returns (a: Interned<string>, b: Interned<string>, c: Interned<string>)
    ensures !Same(a, b) && Same(a, c) && a.ptr.addr == c.ptr.addr
  {
    var heap := new Heap();
    var impl := new BasicImpl<string>();
    a := impl.InternOwned(heap, "Hello, World");
    b := impl.InternOwned(heap, "Bonjour");
    c := impl.InternOwned(heap, "Hello, World");
  }

  /** The test `intern_str`: literals interned through `intern`; two distinct
      literals sit at distinct addresses. */
  method InternStrScenario(l1: Ref<string>, l2: Ref<string>, l3: Ref<string>)
    returns (a: Interned<string>, b: Interned<string>, c: Interned<string>)
    requires l1.val == "Hello, World" && l2.val == "Bonjour" && l3.val == "Hello, World"
    requires l1.addr != l2.addr && l2.addr != l3.addr
    ensures !Same(a, b) && Same(a, c) && a.ptr.addr == c.ptr.addr
  {
    var impl := new BasicImpl<string>();
    a := impl.Intern(l1);
    b := impl.Intern(l2);
    c := impl.Intern(l3);
  }
}
