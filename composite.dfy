/** What the code generated by `#[derive(Intern)]` does at run time for a struct
    with at least one `#[intern]` field: bind every field by reference, intern each
    `#[intern]` field through its type's arena in field order, pack the results
    into the shadow `Interned<Name>` value, and `insert_owned` that into the
    shadow type's own arena. All fields here share one content type `V`, so every
    `#[intern]` field goes through the one arena of `V`. */
module Composites {
  // Lemmas marked `{:induction false}` are proved by their bodies alone: Dafny
  // would otherwise try automatic induction on their sequence and datatype
  // parameters, which the proofs do not need and which only slows them down.
  import opened Arenas
  import opened Interning

  /** A field of the shadow type: a handle for an `#[intern]` field; for any other
      field the content its `&'static` reference points at, which is what the
      derived equality of the shadow type compares. */
  datatype Slot<V> = Handle(handle: Interned<V>) | Opaque(content: V)

  /** A value of the shadow type, one slot per field. */
  type Shadow<V> = seq<Slot<V>>

  /** The field content a slot stands for. */
  function SlotContent<V>(slot: Slot<V>): V {
    match slot
    case Handle(h) => h.ptr.val
    case Opaque(v) => v
  }

  /** The field contents of a shadow value, in field order. */
  function Contents<V>(shadow: Shadow<V>): seq<V> {
    seq(|shadow|, i requires 0 <= i < |shadow| => SlotContent(shadow[i]))
  }

  /** The contents the field references of a composite point at. */
  function Values<V>(fields: seq<Ref<V>>): seq<V> {
    seq(|fields|, i requires 0 <= i < |fields| => fields[i].val)
  }

  /** The state the generated code touches: the field type's arena, the shadow
      type's arena, and the leak allocator's next address. */
  datatype World<V(==)> = World(fields: Store<V>, shadows: Store<Shadow<V>>, next: nat)

  /** Every handle in `shadow` is a reference the field arena `s` holds. */
  ghost predicate HandlesIn<V>(shadow: Shadow<V>, s: Store<V>) {
    forall k | 0 <= k < |shadow| && shadow[k].Handle? :: shadow[k].handle.ptr in s.values
  }

  /** Both arenas are valid, the field arena agrees with the memory `mem` the
      field references are read in, every shadow value was leaked before `next`,
      and every handle of a stored shadow value came from the field arena. */
  ghost predicate WorldValid<V>(w: World<V>, mem: map<nat, V>) {
    && w.fields.Valid() && w.fields.InMemory(mem)
    && w.shadows.Valid() && w.shadows.AddressesBelow(w.next)
    && (forall i | 0 <= i < |w.shadows.values| :: HandlesIn(w.shadows.values[i].val, w.fields))
  }

  /** The derived `PartialEq` of the shadow type, field by field: a handle field
      compares the contents its reference points at, as the derived equality of
      `Interned` does, and a `&'static` field compares the content it points at. */
  predicate ShadowEq<V(==)>(a: Shadow<V>, b: Shadow<V>)
    ensures a == b ==> ShadowEq(a, b)
  {
    && |a| == |b|
    && forall k | 0 <= k < |a| :: a[k].Handle? == b[k].Handle? && SlotContent(a[k]) == SlotContent(b[k])
  }

  /** The derived `PartialEq` of `Interned<InternedName>`, the handle the generated
      `intern` returns: it compares the shadow values it points at with `ShadowEq`. */
  predicate SameShadow<V(==)>(a: Interned<Shadow<V>>, b: Interned<Shadow<V>>)
    ensures Same(a, b) ==> SameShadow(a, b)
  {
    ShadowEq(a.ptr.val, b.ptr.val)
  }

  /** Shadow values equal under the derived `PartialEq` stand for equal field contents. */
  lemma ShadowEqContents<V>(a: Shadow<V>, b: Shadow<V>)
    requires ShadowEq(a, b)
    ensures Contents(a) == Contents(b)
  {
    assert |Contents(a)| == |Contents(b)|;
    forall k | 0 <= k < |a| ensures Contents(a)[k] == Contents(b)[k] {
      assert SlotContent(a[k]) == SlotContent(b[k]);
    }
  }

  /** For shadow values whose handles all come from one valid field arena, the
      derived equality is plain equality, so the shadow arena's lookup by value
      finds exactly the entries the derived `PartialEq` calls equal. */
  lemma ShadowEqIsEquality<V>(s: Store<V>, a: Shadow<V>, b: Shadow<V>)
    requires s.Valid() && HandlesIn(a, s) && HandlesIn(b, s)
    ensures ShadowEq(a, b) <==> a == b
  {
    if ShadowEq(a, b) {
      forall k | 0 <= k < |a| ensures a[k] == b[k] {
        if a[k].Handle? {
          CanonicalIdentity(s, a[k].handle.ptr, b[k].handle.ptr);
        }
      }
    }
  }

  /** Handles held in a field arena are still held once the arena has grown. */
  lemma HandlesInGrow<V>(shadow: Shadow<V>, s: Store<V>, t: Store<V>)
    requires HandlesIn(shadow, s) && |s.values| <= |t.values| && t.values[..|s.values|] == s.values
    ensures HandlesIn(shadow, t)
  {
    PrefixKeeps(s.values, t.values);
  }

  /** A stored shadow value holds only handles from the field arena. */
  lemma StoredHandlesIn<V>(w: World<V>, mem: map<nat, V>, x: Ref<Shadow<V>>)
    requires WorldValid(w, mem) && x in w.shadows.values
    ensures HandlesIn(x.val, w.fields)
  {
    var i :| 0 <= i < |w.shadows.values| && w.shadows.values[i] == x;
  }

  /** No two entries of the shadow arena are equal under the derived `PartialEq`. */
  lemma {:induction false} ShadowArenaCanonical<V>(w: World<V>, mem: map<nat, V>, x: Ref<Shadow<V>>, y: Ref<Shadow<V>>)
    requires WorldValid(w, mem) && x in w.shadows.values && y in w.shadows.values
    ensures ShadowEq(x.val, y.val) <==> x == y
  {
    StoredHandlesIn(w, mem, x);
    StoredHandlesIn(w, mem, y);
    ShadowEqIsEquality(w.fields, x.val, y.val);
    CanonicalIdentity(w.shadows, x, y);
  }

  /** One field of the generated body: an `#[intern]` field becomes the handle
      `<ty as Intern>::intern(name)` returns; any other field is kept as it is. */
  function MapField<V(==)>(s: Store<V>, field: Ref<V>, interned: bool, ghost mem: map<nat, V>): (res: (Store<V>, Slot<V>))
    requires s.Valid() && s.InMemory(mem) && Agrees(mem, field)
    ensures res.0.Valid() && res.0.InMemory(mem)
    ensures SlotContent(res.1) == field.val
    ensures res.1.Handle? <==> interned
    ensures res.1.Handle? ==> res.1.handle.ptr in res.0.values
    ensures !interned ==> res.0 == s
  {
    if interned then
      InsertInMemory(s, field, mem);
      var step := s.Insert(field);
      (step.0, Handle(Interned(step.1)))
    else
      (s, Opaque(field.val))
  }

  /** The emitted mappings, run in field order, and the shadow value they pack. */
  function MapFields<V(==)>(s: Store<V>, fields: seq<Ref<V>>, mask: seq<bool>, ghost mem: map<nat, V>): (res: (Store<V>, Shadow<V>))
    requires s.Valid() && s.InMemory(mem) && |fields| == |mask| && AllAgree(mem, fields)
    ensures res.0.Valid() && res.0.InMemory(mem)
    ensures |res.1| == |fields|
    ensures |s.values| <= |res.0.values| && res.0.values[..|s.values|] == s.values
    decreases |fields|
  {
    if fields == [] then
      (s, [])
    else
      var n := |fields| - 1;
      var front := MapFields(s, fields[..n], mask[..n], mem);
      var last := MapField(front.0, fields[n], mask[n], mem);
      PrefixOfPrefix(s.values, front.0.values, last.0.values);
      (last.0, front.1 + [last.1])
  }

  /** Slot `i` of the packed value stands for field `i`'s content; it is a handle
      exactly when field `i` is marked `#[intern]`, and then a handle into the
      field arena as the mappings left it. */
  lemma {:induction false} MapFieldsSlots<V>(s: Store<V>, fields: seq<Ref<V>>, mask: seq<bool>, mem: map<nat, V>)
    requires s.Valid() && s.InMemory(mem) && |fields| == |mask| && AllAgree(mem, fields)
    ensures var res := MapFields(s, fields, mask, mem);
            forall i | 0 <= i < |fields| ::
              && SlotContent(res.1[i]) == fields[i].val
              && (res.1[i].Handle? <==> mask[i])
              && (res.1[i].Handle? ==> res.1[i].handle.ptr in res.0.values)
    decreases |fields|
  {
    if fields != [] {
      var n := |fields| - 1;
      MapFieldsSlots(s, fields[..n], mask[..n], mem);
      var front := MapFields(s, fields[..n], mask[..n], mem);
      var last := MapField(front.0, fields[n], mask[n], mem);
      PrefixKeeps(front.0.values, last.0.values);
      var res := MapFields(s, fields, mask, mem);
      assert res == (last.0, front.1 + [last.1]);
      forall i | 0 <= i < |fields|
        ensures SlotContent(res.1[i]) == fields[i].val
        ensures res.1[i].Handle? <==> mask[i]
        ensures res.1[i].Handle? ==> res.1[i].handle.ptr in res.0.values
      {
        if i < n {
          assert res.1[i] == front.1[i] && fields[i] == fields[..n][i] && mask[i] == mask[..n][i];
        }
      }
    }
  }

  /** What a prefix holds, the whole sequence holds. */
  lemma PrefixKeeps<X>(a: seq<X>, b: seq<X>)
    requires |a| <= |b| && b[..|a|] == a
    ensures forall x | x in a :: x in b
  {
    forall x | x in a ensures x in b {
      var k :| 0 <= k < |a| && a[k] == x;
      assert b[k] == x;
    }
  }

  /** The generated `intern` of a struct with `#[intern]` fields: the mappings,
      then `ARENA.insert_owned` of the packed shadow value, wrapped as a handle. */
  function InternShadow<V(==)>(w: World<V>, fields: seq<Ref<V>>, mask: seq<bool>, ghost mem: map<nat, V>): (res: (World<V>, Interned<Shadow<V>>))
    requires WorldValid(w, mem) && |fields| == |mask| && AllAgree(mem, fields)
    ensures WorldValid(res.0, mem) && res.0.next == w.next + 1
    ensures Contents(res.1.ptr.val) == Values(fields)
    ensures forall i | 0 <= i < |fields| :: res.1.ptr.val[i].Handle? <==> mask[i]
    ensures HandlesIn(res.1.ptr.val, res.0.fields)
    ensures res.1.ptr in res.0.shadows.values
    ensures |w.fields.values| <= |res.0.fields.values| && res.0.fields.values[..|w.fields.values|] == w.fields.values
    ensures |w.shadows.values| <= |res.0.shadows.values| && res.0.shadows.values[..|w.shadows.values|] == w.shadows.values
  {
    var mapped := MapFields(w.fields, fields, mask, mem);
    MapFieldsSlots(w.fields, fields, mask, mem);
    var packed := Ref(w.next, mapped.1);
    InsertPreservesValid(w.shadows, packed);
    InsertKeepsBelow(w.shadows, packed, w.next + 1);
    var stored := w.shadows.Insert(packed);
    assert Contents(stored.1.val) == Values(fields);
    forall i | 0 <= i < |stored.0.values| ensures HandlesIn(stored.0.values[i].val, mapped.0) {
      var x := stored.0.values[i];
      assert x in stored.0.values;
      if x != packed {
        StoredHandlesIn(w, mem, x);
        HandlesInGrow(x.val, w.fields, mapped.0);
      }
    }
    (World(mapped.0, stored.0, w.next + 1), Interned(stored.1))
  }

  lemma InternShadowUnfold<V>(w: World<V>, fields: seq<Ref<V>>, mask: seq<bool>, mem: map<nat, V>)
    requires WorldValid(w, mem) && |fields| == |mask| && AllAgree(mem, fields)
    ensures var mapped := MapFields(w.fields, fields, mask, mem);
            var stored := w.shadows.Insert(Ref(w.next, mapped.1));
            InternShadow(w, fields, mask, mem) == (World(mapped.0, stored.0, w.next + 1), Interned(stored.1))
  {
  }

  /** Every composite of `cs` has one reference per field, agreeing with `mem`. */
  ghost predicate WellFormed<V>(cs: seq<seq<Ref<V>>>, mask: seq<bool>, mem: map<nat, V>) {
    forall n | 0 <= n < |cs| :: |cs[n]| == |mask| && AllAgree(mem, cs[n])
  }

  /** `intern_owned` of each composite of `cs`, in order; both arenas only grow. */
  function InternAll<V(==)>(w: World<V>, cs: seq<seq<Ref<V>>>, mask: seq<bool>, ghost mem: map<nat, V>): (res: World<V>)
    requires WorldValid(w, mem) && WellFormed(cs, mask, mem)
    ensures WorldValid(res, mem) && res.next == w.next + |cs|
    ensures |w.fields.values| <= |res.fields.values| && res.fields.values[..|w.fields.values|] == w.fields.values
    ensures |w.shadows.values| <= |res.shadows.values| && res.shadows.values[..|w.shadows.values|] == w.shadows.values
    decreases |cs|
  {
    if cs == [] then
      w
    else
      assert |cs[0]| == |mask| && AllAgree(mem, cs[0]);
      var step := InternShadow(w, cs[0], mask, mem);
      assert WellFormed(cs[1..], mask, mem) by {
        forall n | 0 <= n < |cs[1..]| ensures |cs[1..][n]| == |mask| && AllAgree(mem, cs[1..][n]) {
          assert cs[1..][n] == cs[n + 1];
        }
      }
      var rest := InternAll(step.0, cs[1..], mask, mem);
      PrefixOfPrefix(w.fields.values, step.0.fields.values, rest.fields.values);
      PrefixOfPrefix(w.shadows.values, step.0.shadows.values, rest.shadows.values);
      rest
  }

  /** Composites sharing a value in an `#[intern]` field hold one handle, at one
      address, for that field, whatever their other fields hold and whatever was
      interned between them. */
  lemma {:induction false} FieldSharing<V>(w: World<V>, c1: seq<Ref<V>>, cs: seq<seq<Ref<V>>>, c2: seq<Ref<V>>,
                                           mask: seq<bool>, mem: map<nat, V>, i: nat, j: nat)
    requires WorldValid(w, mem) && |c1| == |mask| && |c2| == |mask| && AllAgree(mem, c1) && AllAgree(mem, c2)
    requires WellFormed(cs, mask, mem)
    requires i < |mask| && j < |mask| && mask[i] && mask[j] && c1[i].val == c2[j].val
    ensures var first := InternShadow(w, c1, mask, mem);
            var second := InternShadow(InternAll(first.0, cs, mask, mem), c2, mask, mem);
            first.1.ptr.val[i].Handle? && first.1.ptr.val[i] == second.1.ptr.val[j]
  {
    var first := InternShadow(w, c1, mask, mem);
    var mid := InternAll(first.0, cs, mask, mem);
    var second := InternShadow(mid, c2, mask, mem);
    var r1 := first.1.ptr.val[i].handle.ptr;
    var r2 := second.1.ptr.val[j].handle.ptr;
    assert r1.val == Contents(first.1.ptr.val)[i] == Values(c1)[i];
    assert r2.val == Contents(second.1.ptr.val)[j] == Values(c2)[j];
    PrefixOfPrefix(first.0.fields.values, mid.fields.values, second.0.fields.values);
    PrefixKeeps(first.0.fields.values, second.0.fields.values);
    CanonicalIdentity(second.0.fields, r1, r2);
  }

  /** Interning two composites with equal contents gives the same handle, at the
      same address, however many other composites were interned between them;
      composites whose contents differ give unequal handles at distinct addresses. */
  lemma {:induction false} EqualComposites<V>(w: World<V>, c1: seq<Ref<V>>, cs: seq<seq<Ref<V>>>, c2: seq<Ref<V>>,
                                              mask: seq<bool>, mem: map<nat, V>)
    requires WorldValid(w, mem) && |c1| == |mask| && |c2| == |mask| && AllAgree(mem, c1) && AllAgree(mem, c2)
    requires WellFormed(cs, mask, mem)
    ensures var first := InternShadow(w, c1, mask, mem);
            var second := InternShadow(InternAll(first.0, cs, mask, mem), c2, mask, mem);
            && (first.1 == second.1 <==> Values(c1) == Values(c2))
            && (Same(first.1, second.1) <==> Values(c1) == Values(c2))
            && (SameShadow(first.1, second.1) <==> Values(c1) == Values(c2))
            && (first.1.ptr.addr == second.1.ptr.addr <==> Values(c1) == Values(c2))
  {
    var first := InternShadow(w, c1, mask, mem);
    var mid := InternAll(first.0, cs, mask, mem);
    var second := InternShadow(mid, c2, mask, mem);
    PrefixOfPrefix(first.0.shadows.values, mid.shadows.values, second.0.shadows.values);
    PrefixKeeps(first.0.shadows.values, second.0.shadows.values);
    var s1 := first.1.ptr.val;
    var s2 := second.1.ptr.val;
    if Values(c1) == Values(c2) {
      forall k | 0 <= k < |s1| ensures s1[k].Handle? == s2[k].Handle? && SlotContent(s1[k]) == SlotContent(s2[k]) {
        assert SlotContent(s1[k]) == Contents(s1)[k] == Values(c1)[k];
        assert SlotContent(s2[k]) == Contents(s2)[k] == Values(c2)[k];
      }
      assert ShadowEq(s1, s2);
      ShadowArenaCanonical(second.0, mem, first.1.ptr, second.1.ptr);
    } else {
      assert Contents(s1) != Contents(s2);
      if ShadowEq(s1, s2) {
        ShadowEqContents(s1, s2);
      }
    }
    CanonicalIdentity(second.0.shadows, first.1.ptr, second.1.ptr);
  }

  /** A run of one intern, unfolded. */
  lemma InternAllOne<V>(w: World<V>, c: seq<Ref<V>>, mask: seq<bool>, mem: map<nat, V>)
    requires WorldValid(w, mem) && |c| == |mask| && AllAgree(mem, c)
    ensures WellFormed([c], mask, mem)
    ensures InternAll(w, [c], mask, mem) == InternShadow(w, c, mask, mem).0
  {
    assert [c][1..] == [];
  }

  /** A run of two interns, unfolded. */
  lemma InternAllTwo<V>(w: World<V>, c1: seq<Ref<V>>, c2: seq<Ref<V>>, mask: seq<bool>, mem: map<nat, V>)
    requires WorldValid(w, mem) && |c1| == |mask| && |c2| == |mask| && AllAgree(mem, c1) && AllAgree(mem, c2)
    ensures WellFormed([c1, c2], mask, mem)
    ensures InternAll(w, [c1, c2], mask, mem) == InternShadow(InternShadow(w, c1, mask, mem).0, c2, mask, mem).0
  {
    assert [c1, c2][1..] == [c2];
    InternAllOne(InternShadow(w, c1, mask, mem).0, c2, mask, mem);
  }

  /** The run of the derive test with two `#[intern]` `String` fields: four users
      interned in order, the first and the last with equal names. */
  lemma {:induction false} DeriveFieldsRun(w: World<string>, ca: seq<Ref<string>>, cb: seq<Ref<string>>,
                                           cc: seq<Ref<string>>, cd: seq<Ref<string>>, mem: map<nat, string>)
    requires WorldValid(w, mem)
    requires AllAgree(mem, ca) && AllAgree(mem, cb) && AllAgree(mem, cc) && AllAgree(mem, cd)
    requires Values(ca) == ["Charlie", "Cayne"] && Values(cb) == ["Charlie", "Dwayne"]
    requires Values(cc) == ["Dwayne", "Johnson"] && Values(cd) == ["Charlie", "Cayne"]
    ensures var mask := [true, true];
            var a := InternShadow(w, ca, mask, mem);
            var b := InternShadow(a.0, cb, mask, mem);
            var c := InternShadow(b.0, cc, mask, mem);
            var d := InternShadow(c.0, cd, mask, mem);
            && Same(a.1, d.1) && !Same(a.1, b.1) && !Same(b.1, c.1) && !Same(a.1, c.1)
            && SameShadow(a.1, d.1) && !SameShadow(a.1, b.1) && !SameShadow(b.1, c.1) && !SameShadow(a.1, c.1)
            && a.1.ptr.val[0].handle.ptr.addr == b.1.ptr.val[0].handle.ptr.addr
            && b.1.ptr.val[1].handle.ptr.addr == c.1.ptr.val[0].handle.ptr.addr
  {
    var mask := [true, true];
    assert |ca| == |Values(ca)| && |cb| == |Values(cb)| && |cc| == |Values(cc)| && |cd| == |Values(cd)|;

    var a := InternShadow(w, ca, mask, mem);
    var b := InternShadow(a.0, cb, mask, mem);
    var c := InternShadow(b.0, cc, mask, mem);
    assert WellFormed([], mask, mem);
    assert InternAll(a.0, [], mask, mem) == a.0;
    InternAllOne(a.0, cb, mask, mem);
    InternAllTwo(a.0, cb, cc, mask, mem);
    assert Values(ca) != Values(cb) && Values(cb) != Values(cc) && Values(ca) != Values(cc);
    EqualComposites(w, ca, [cb, cc], cd, mask, mem);
    EqualComposites(w, ca, [], cb, mask, mem);
    EqualComposites(a.0, cb, [], cc, mask, mem);
    EqualComposites(w, ca, [cb], cc, mask, mem);
    assert ca[0].val == Values(ca)[0] == Values(cb)[0] == cb[0].val;
    assert cb[1].val == Values(cb)[1] == Values(cc)[0] == cc[0].val;
    FieldSharing(w, ca, [], cb, mask, mem, 0, 0);
    FieldSharing(a.0, cb, [], cc, mask, mem, 1, 0);
  }

  /** A prefix of references that agree with the memory agrees with it. */
  lemma AllAgreePrefix<V>(mem: map<nat, V>, fields: seq<Ref<V>>, n: nat)
    requires AllAgree(mem, fields) && n <= |fields|
    ensures AllAgree(mem, fields[..n])
  {
    forall i | 0 <= i < n ensures Agrees(mem, fields[..n][i]) {
      assert fields[..n][i] == fields[i];
    }
  }

  /** The mappings of the first `n` fields. */
  ghost function MapFieldsPrefix<V>(s: Store<V>, fields: seq<Ref<V>>, mask: seq<bool>, mem: map<nat, V>, n: nat): (Store<V>, Shadow<V>)
    requires s.Valid() && s.InMemory(mem) && |fields| == |mask| && AllAgree(mem, fields) && n <= |fields|
  {
    AllAgreePrefix(mem, fields, n);
    MapFields(s, fields[..n], mask[..n], mem)
  }

  /** The mappings of all the fields. */
  lemma MapFieldsPrefixAll<V>(s: Store<V>, fields: seq<Ref<V>>, mask: seq<bool>, mem: map<nat, V>)
    requires s.Valid() && s.InMemory(mem) && |fields| == |mask| && AllAgree(mem, fields)
    ensures MapFieldsPrefix(s, fields, mask, mem, |fields|) == MapFields(s, fields, mask, mem)
  {
    assert fields[..|fields|] == fields && mask[..|mask|] == mask;
  }

  /** One more field: the next mapping runs on the arena the earlier ones left. */
  lemma MapFieldsStep<V>(s: Store<V>, fields: seq<Ref<V>>, mask: seq<bool>, mem: map<nat, V>, i: nat)
    requires s.Valid() && s.InMemory(mem) && |fields| == |mask| && AllAgree(mem, fields) && i < |fields|
    ensures var before := MapFieldsPrefix(s, fields, mask, mem, i);
            var step := MapField(before.0, fields[i], mask[i], mem);
            MapFieldsPrefix(s, fields, mask, mem, i + 1) == (step.0, before.1 + [step.1])
  {
    AllAgreePrefix(mem, fields, i + 1);
    assert fields[..i + 1][..i] == fields[..i] && mask[..i + 1][..i] == mask[..i];
    assert fields[..i + 1][i] == fields[i] && mask[..i + 1][i] == mask[i];
  }

  /** One emitted statement: `let name = <ty as Intern>::intern(name);` for an
      `#[intern]` field; any other field is packed as it was bound. */
  method RunMapping<V(==)>(fieldImpl: BasicImpl<V>, field: Ref<V>, interned: bool, ghost mem: map<nat, V>)
    returns (slot: Slot<V>)
    requires fieldImpl.arena.Valid() && fieldImpl.arena.State().InMemory(mem) && Agrees(mem, field)
    modifies fieldImpl.arena
    ensures fieldImpl.arena.Valid()
    ensures (fieldImpl.arena.State(), slot) == MapField(old(fieldImpl.arena.State()), field, interned, mem)
  {
    if interned {
      InMemoryCoherent(fieldImpl.arena.State(), field, mem);
      var handle := fieldImpl.Intern(field);
      slot := Handle(handle);
    } else {
      slot := Opaque(field.val);
    }
  }

  /** The emitted `let name = <ty as Intern>::intern(name);` statements, run in
      field order, followed by packing the results into a shadow value. */
  method RunMappings<V(==)>(fieldImpl: BasicImpl<V>, fields: seq<Ref<V>>, mask: seq<bool>, ghost mem: map<nat, V>)
    returns (slots: Shadow<V>)
    requires fieldImpl.arena.Valid() && fieldImpl.arena.State().InMemory(mem)
    requires |fields| == |mask| && AllAgree(mem, fields)
    modifies fieldImpl.arena
    ensures (fieldImpl.arena.State(), slots) == MapFields(old(fieldImpl.arena.State()), fields, mask, mem)
  {
    ghost var s0 := fieldImpl.arena.State();
    slots := [];
    var i := 0;
    while i < |fields|
      invariant 0 <= i <= |fields|
      invariant fieldImpl.arena.Valid()
      invariant MapFieldsPrefix(s0, fields, mask, mem, i) == (fieldImpl.arena.State(), slots)
    {
      MapFieldsStep(s0, fields, mask, mem, i);
      var slot := RunMapping(fieldImpl, fields[i], mask[i], mem);
      slots := slots + [slot];
      i := i + 1;
    }
    MapFieldsPrefixAll(s0, fields, mask, mem);
  }

  /** The generated `intern(&'static self)`: `fields` are the references the
      `let Name { .. } = self;` pattern binds, `mask` marks the `#[intern]` fields;
      the mappings run, then `ARENA.insert_owned` stores the packed shadow value. */
  method GeneratedIntern<V(==)>(fieldImpl: BasicImpl<V>, shadowArena: Arena<Shadow<V>>, heap: Heap,
                                fields: seq<Ref<V>>, mask: seq<bool>, ghost mem: map<nat, V>)
    returns (h: Interned<Shadow<V>>)
    requires WorldValid(World(fieldImpl.arena.State(), shadowArena.State(), heap.next), mem)
    requires fieldImpl.arena as object != shadowArena
    requires |fields| == |mask| && AllAgree(mem, fields)
    modifies fieldImpl.arena, shadowArena, heap
    ensures (World(fieldImpl.arena.State(), shadowArena.State(), heap.next), h)
            == InternShadow(old(World(fieldImpl.arena.State(), shadowArena.State(), heap.next)), fields, mask, mem)
  {
    ghost var w := World(fieldImpl.arena.State(), shadowArena.State(), heap.next);
    var slots := RunMappings(fieldImpl, fields, mask, mem);
    var r := shadowArena.InsertOwned(heap, slots);
    h := Interned(r);
    InternShadowUnfold(w, fields, mask, mem);
  }
}
