# treentern in Dafny

A model of the `treentern` interning crate and of its `#[derive(Intern)]` macro,
with proofs of what they promise.

- `arena.dfy` (module `Arenas`) models the deduplicating `Arena`. It holds an
  append-only `values` vector of `&'static T` and an `indices` map from content to
  position. `insert` returns the stored reference for equal content, or appends
  the argument. `insert_owned` leaks its argument first. A `&'static T` is a
  `Ref(addr, val)`. `Box::leak` is the `Heap` allocator, which hands out fresh
  addresses from a counter. The abstract state is the value `Store`. The class
  `Arena` holds the same fields and updates them in place, and its methods are
  proved equal to the `Store` functions.
- `intern.dfy` (module `Interning`) models the `Interned` handle and its derived
  equality, which compares the pointees' contents. It also models the per-type
  arena that `basic_impl!` generates, with `intern` and `intern_owned`, and the
  `&'static T` impl that delegates to `T`.
- `composite.dfy` (module `Composites`) models what the derived `intern` of a
  struct with `#[intern]` fields does at run time:
  - bind the fields by reference;
  - intern each marked field, in field order;
  - pack the results into the shadow value;
  - `insert_owned` that value into the shadow type's arena.

  The world invariant also says that every handle inside a stored shadow value
  came from the field arena. Under that invariant the shadow arena's lookup by
  value agrees with the shadow type's derived `PartialEq`, which compares handles
  by content.
- `derive.dfy` (module `Derive`) models the macro itself, over an abstract
  syntax. `FieldVisitor` and `StructVisitor` are classes that rewrite an array
  of fields in place. `DeriveIntern` follows `derive_intern` statement by
  statement. `ExpandAsWritten` and `Expand` are its pure specifications.

Memory model. In `Ref(addr, val)`, `addr` stands for the whole pointer. For an
unsized type such as `str` that is the address together with the length. So
equal `addr` implies equal `as_ptr()`, but not the converse: a `str` and a prefix
of it share `as_ptr()` and have different `addr`s. Two live shared references
with the same whole pointer read the same content. Here that is a precondition
wherever references enter the model:
- `Store.Coherent(r)`: `r` agrees with every reference the arena holds at its
  address.
- For runs of references, a ghost memory `mem: map<nat, T>`: every reference
  reads `mem` at its address.

Handle equality. `&'static T` compares by content, through the standard
library's blanket `PartialEq` impl for references. `Interned<T>` derives
`PartialEq` over its `&'static T`, so handles also compare by content. The model
defines equality the same way: `Interning.Same` for the handle of a basic type,
and `Composites.SameShadow` for the handle of a shadow type. The latter compares
the shadow values field by field with `Composites.ShadowEq`, handles by content.
It then proves that for references from one arena, content equality, address
equality and identity coincide. One might expect handle equality to be based on identity and hashed by
address. The code compares contents, and the model follows the code.

## Model

| member | source | states |
|---|---|---|
| Arenas.EmptyStore | src/arena.rs:15-28 | a new arena has empty `values` and `indices` and satisfies the arena invariant |
| Arenas.Arena.constructor | src/arena.rs:15-28 | `Arena::new`/`Default`: both fields empty, invariant established |
| Arenas.Store.Get | src/arena.rs:32-34 | the entry at a valid position is the one `indices` maps its content to, so `get` on a recorded index is in bounds |
| Arenas.Arena.Get | src/arena.rs:32-34 | reads `values[index]`, whose content is indexed at `index` |
| Arenas.Store.Insert | src/arena.rs:41-70 | the returned reference has the argument's content and is stored in the arena; old entries stay in place as a prefix; the only possible new entry is the argument |
| Arenas.Arena.Insert | src/arena.rs:41-70 | the in-place update (early return on a hit; otherwise push, record the index, return the argument) keeps the invariant and equals `Store.Insert` |
| Arenas.Heap.Leak | src/arena.rs:77 | `Box::leak` returns a reference at a never-used address and advances the allocator |
| Arenas.Arena.InsertOwned | src/arena.rs:72-78 | `insert_owned` is `insert` of a freshly leaked reference, and every arena address stays below the allocator |
| Arenas.InsertPreservesValid | src/arena.rs:46-69 | `insert` of a coherent reference keeps the invariant: indices in bounds and pointing back at their key, every entry indexed by its content, and addresses distinct |
| Arenas.InsertInMemory | src/arena.rs:46-69 | an insert of a reference that agrees with the memory keeps the invariant and the agreement |
| Arenas.ContentsDistinct | src/arena.rs:46-53 | no two entries have equal content |
| Arenas.CanonicalIdentity | src/arena.rs:93-96 | within one arena, equal content, equal address and equal reference are the same thing |
| Arenas.InsertHit | src/arena.rs:46-53 | on a hit, `insert` returns the stored reference, not the argument, and changes neither field |
| Arenas.InsertMiss | src/arena.rs:55-69 | on a miss, `insert` appends the argument at the old length, maps its content there and returns the argument itself |
| Arenas.InsertGrowth | src/arena.rs:46-69 | the arena grows by exactly one entry when the content is new, and otherwise not at all |
| Arenas.InsertTwiceEqual | src/arena.rs:85-97 | two inserts of equal content return the same reference, and the second changes nothing |
| Arenas.InsertTwiceDistinct | src/arena.rs:85-111 | two inserts of unequal content return references at different addresses |
| Arenas.Store.InsertAll | src/arena.rs:41-70 | a run of inserts keeps the invariant and the memory agreement, and only extends `values` |
| Arenas.Stability | src/arena.rs:41-70 | once a reference is stored, every later insert of its content returns that same reference, after any number of other inserts |
| Arenas.InsertArenaScenario | src/arena.rs:85-97 | test `insert_arena`: the owned "Hello, World" twice share one address; "Bonjour" differs |
| Arenas.UnsizedTypeScenario | src/arena.rs:99-111 | test `unsized_type`: the third insert returns the first literal's reference |
| Interning.Same | src/lib.rs:28-29 | the derived `PartialEq` of `Interned`: handles are equal when their pointees' contents are, and a handle equals itself |
| Interning.SameIsIdentity | src/lib.rs:28-29 | for handles from one arena, the derived content equality coincides with address equality and with handle identity |
| Interning.InternTwice | src/lib.rs:74-96 | interning equal contents gives equal handles at one address; unequal contents give unequal handles at distinct addresses |
| Interning.BasicImpl.constructor | src/lib.rs:41 | each basic type's `ARENA` starts empty and valid |
| Interning.BasicImpl.Intern | src/lib.rs:43-48 | `intern` wraps exactly what `ARENA.insert(self)` returns, with the arena updated as `insert` does |
| Interning.BasicImpl.InternOwned | src/lib.rs:12-17 | `intern_owned` is `intern` of a freshly leaked reference to the value |
| Interning.BasicImpl.InternRef | src/lib.rs:20-26 | interning a `&'static T` interns the inner reference into `T`'s arena exactly as `T::intern` would |
| Interning.BasicImpl.InternRefOwned | src/lib.rs:12-26 | `intern_owned` on a `&'static T` leaks the reference and has the arena effect of interning the inner reference |
| Interning.InternIsPerType | src/lib.rs:41-48 | interning a `String` updates the `String` arena exactly as `insert` of the freshly leaked value does, and leaves another type's arena exactly as it was |
| Interning.InternStringScenario | src/lib.rs:74-84 | test `intern_string`: equal owned strings give equal handles at one address; unequal ones differ |
| Interning.InternStrScenario | src/lib.rs:86-96 | test `intern_str`: the same for string literals interned by reference |
| Composites.MapField | treentern-derive/src/lib.rs:42-51 | one field of the generated body: a marked field becomes a handle into the field arena, an unmarked one is kept; the slot stands for the field's content |
| Composites.MapFields | treentern-derive/src/lib.rs:84-88 | the emitted steps, run in field order, keep the field arena valid and in agreement with memory, give one slot per field, and only extend the arena |
| Composites.MapFieldsSlots | treentern-derive/src/lib.rs:42-51 | slot `i` stands for field `i`'s content, and is a handle into the final field arena exactly when field `i` is `#[intern]` |
| Composites.InternShadow | treentern-derive/src/lib.rs:84-90 | the generated `intern`: the shadow value's contents are the composite's field contents, with a handle from the field arena exactly at each marked field; it is stored in the shadow arena, and the world invariant is kept |
| Composites.ShadowEq | tests/ui/pass/derive_fields.rs:4 | the `PartialEq` that `#[intern_derive(PartialEq)]` derives for the shadow type: field by field, a handle field by its pointee's content as `Interned`'s derived equality does (src/lib.rs:28-29), any other field by its content; equal slot kinds are required, and every shadow value equals itself |
| Composites.SameShadow | src/lib.rs:28-29 | the derived `PartialEq` of the handle to a shadow value: `ShadowEq` of the pointees; it holds whenever the handles' pointees are equal values |
| Composites.ShadowEqContents | tests/ui/pass/derive_fields.rs:4 | shadow values equal under the derived `PartialEq` stand for equal field contents |
| Composites.ShadowEqIsEquality | tests/ui/pass/derive_fields.rs:4 | for shadow values whose handles come from one valid field arena, the derived `PartialEq` of the shadow type (handles compared by content) is exactly value equality |
| Composites.ShadowArenaCanonical | src/arena.rs:46-53 | in a valid world, no two entries of the shadow arena are equal under the shadow type's derived `PartialEq` |
| Composites.InternAll | tests/ui/pass/derive_fields.rs:14-36 | a run of `intern_owned` calls on composites keeps the world invariant and only grows both arenas |
| Composites.FieldSharing | tests/ui/pass/derive_fields.rs:43-44 | two composites with equal content in marked fields hold the identical handle for those fields, whatever their other fields hold and whatever was interned between them |
| Composites.EqualComposites | tests/ui/pass/derive_fields.rs:38-41 | two composites intern to the same handle, at the same address, and to handles equal under the derived `PartialEq` (`SameShadow`), each exactly when their field contents are equal, after any run of other interns between them |
| Composites.DeriveFieldsRun | tests/ui/pass/derive_fields.rs:14-44 | the test's four users: `a == d`, `a != b`, `b != c`, `a != c` under the derived `PartialEq` of the shadow handle (`SameShadow`), and the two shared `as_ptr` pairs |
| Composites.RunMapping | treentern-derive/src/lib.rs:46-48 | one emitted `let name = <ty as Intern>::intern(name);` on the field type's arena equals `MapField` |
| Composites.RunMappings | treentern-derive/src/lib.rs:84-88 | the emitted statements, run in order on the field arena, equal `MapFields` |
| Composites.GeneratedIntern | treentern-derive/src/lib.rs:84-90 | the generated `intern(&'static self)` on the two arenas and the allocator equals `InternShadow` |
| Derive.StripIntern | treentern-derive/src/lib.rs:26-30 | `retain` never lengthens the attribute list |
| Derive.StripInternMembers | treentern-derive/src/lib.rs:26-30 | exactly the attributes whose path is the single identifier `intern` are removed; multi-segment paths are kept |
| Derive.StripInternAppend | treentern-derive/src/lib.rs:26-30 | stripping distributes over concatenation, so the kept attributes stay in order |
| Derive.StripInternShorter | treentern-derive/src/lib.rs:25-30 | the list got shorter exactly when it held an `#[intern]`; otherwise it is unchanged |
| Derive.FirstInternDerive | treentern-derive/src/lib.rs:126-133 | `find` returns the first attribute named `intern_derive`, or none |
| Derive.RenameOnlyFirst | treentern-derive/src/lib.rs:126-142 | the rename changes at most one attribute, the first `intern_derive` in list form: its path becomes `derive` and its tokens are kept |
| Derive.RenameFirstList | treentern-derive/src/lib.rs:134-141 | the first `intern_derive`, when it is a list, is renamed to `derive` |
| Derive.RenameInternDeriveMut | treentern-derive/src/lib.rs:126-142 | the in-place find-and-rename equals `RenameInternDerive` |
| Derive.RenameInternDerive | treentern-derive/src/lib.rs:126-142 | the rename keeps the list's length and every attribute's meta, and leaves every attribute not named `intern_derive` as it was |
| Derive.TargetName | treentern-derive/src/lib.rs:150 | the shadow type's name never equals the input type's name, and ends with it |
| Derive.ConstName | treentern-derive/src/lib.rs:145-148 | the const name is 13 characters longer than the type name and holds no lower-case ASCII letter |
| Derive.ConstNameShape | treentern-derive/src/lib.rs:145-148 | the const name is `_INTERN_IMPL_` followed by the type name, character by character in upper case |
| Derive.Decimal | treentern-derive/src/lib.rs:102 | the index in `value{index}` is written with decimal digits only. The macro panics at the first unnamed field before it stores its unpack and pack (lib.rs:36-39, 112-118), so these names never reach emitted code |
| Derive.DecimalNoLeadingZero | treentern-derive/src/lib.rs:102 | the decimal rendering starts with `0` only for zero (a property of the unemitted `value{index}` names, as for `Derive.Decimal`) |
| Derive.DecimalRoundTrip | treentern-derive/src/lib.rs:102 | reading the decimal rendering back gives the index, so unnamed positions get distinct names (unemitted, as for `Derive.Decimal`) |
| Derive.UnnamedNamesDistinct | treentern-derive/src/lib.rs:96-104 | two unnamed fields at different positions get different `value{index}` names (unemitted, as for `Derive.Decimal`) |
| Derive.NamedNamesDistinct | treentern-derive/src/lib.rs:96-104 | for named fields, one name per field, and the names are pairwise distinct exactly when the field names are |
| Derive.VisitField | treentern-derive/src/lib.rs:24-52 | a visited field keeps its name, never gains attributes, and a named field's type is always rewritten |
| Derive.VisitFieldSpec | treentern-derive/src/lib.rs:24-52 | a visited field keeps its name and its non-`intern` attributes; a named field gets the handle type exactly when it was marked, and `&'static` of its type otherwise |
| Derive.MappingsOf | treentern-derive/src/lib.rs:46-48 | the steps of the fields, at most one per field |
| Derive.MappingsEmpty | treentern-derive/src/lib.rs:46-48 | no step is emitted exactly when no named field is marked `#[intern]` |
| Derive.FirstUnnamed | treentern-derive/src/lib.rs:36-39 | the first field without a name, where the visitor panics |
| Derive.MappingsAppend | treentern-derive/src/lib.rs:46-48 | the steps of a concatenation are the concatenated steps, so they appear in field order |
| Derive.MappingsOfFields | treentern-derive/src/lib.rs:42-48 | a step is recorded exactly when some marked field produced it |
| Derive.FieldVisitor.constructor | treentern-derive/src/lib.rs:15-20 | `updated` false, `mappings` empty |
| Derive.FieldVisitor.VisitFieldMut | treentern-derive/src/lib.rs:24-52 | the in-place rewrite of one field; it panics on an unnamed field, after the attributes were stripped; it sets `updated` and pushes a step exactly for a marked field |
| Derive.FieldVisitor.VisitFieldsMut | treentern-derive/src/lib.rs:24-52 | visits every field in order up to the first unnamed one; `mappings` gains the steps and `updated` records whether any field was marked |
| Derive.StructVisitor.constructor | treentern-derive/src/lib.rs:64-72 | empty `unpack` and `pack`, the given names and field visitor |
| Derive.StructVisitor.VisitFieldsMut | treentern-derive/src/lib.rs:95-119 | names are taken before the rewrite; unpack is `let name { names } = self;` and pack is `Interned{name} { names }` |
| Derive.StructVisitor.GetImplementation | treentern-derive/src/lib.rs:74-91 | the body is the unpack, then the drained steps, then `ARENA.insert_owned(pack)`; the visitor's steps are left empty |
| Derive.ExpandAsWritten | treentern-derive/src/lib.rs:122-193 | (as written) the macro panics exactly on a struct with an unnamed field, names the const block after the type, emits a shadow type exactly for a struct with a marked field, and gives enums and unions `ARENA.insert(self)` |
| Derive.Expand | treentern-derive/src/lib.rs:122-193 | (corrected) the same panic, const name and shadow-type conditions; the body is a `compile_error!` exactly for enums and unions |
| Derive.RejectsNonStructs | treentern-derive/src/lib.rs:161-162 | (corrected) enums and unions get their `compile_error!` and no shadow type |
| Derive.EnumIsNotRejected | treentern-derive/src/lib.rs:161-168 | (as written) `enum Color {}` is expanded to `ARENA.insert(self)` instead of its diagnostic |
| Derive.StructsAgree | treentern-derive/src/lib.rs:154-168 | for structs, the as-written and the corrected expansion are equal |
| Derive.PanicsExactlyOnUnnamed | treentern-derive/src/lib.rs:36-39 | the macro panics, with the tuple-struct message, exactly on a struct with an unnamed field |
| Derive.StructExpansion | treentern-derive/src/lib.rs:144-191 | a shadow type exists exactly when some field is marked. If none is, the target is the type itself and the body `ARENA.insert(self)`. If one is, the target is `Interned{name}`, with rewritten fields, renamed attributes, the field-order steps, and matching unpack and pack |
| Derive.ShadowFields | treentern-derive/src/lib.rs:170-174 | each field of the emitted shadow type keeps its name, loses `#[intern]`, and has the handle type exactly when it was marked |
| Derive.ImplementStruct | treentern-derive/src/lib.rs:155-160 | the struct arm fails exactly on an unnamed field; otherwise it gives the rewritten fields, the implementation body and `updated` |
| Derive.DeriveIntern | treentern-derive/src/lib.rs:122-193 | the step-by-step macro equals `ExpandAsWritten` |
| Derive.DeriveFieldsExpansion | tests/ui/pass/derive_fields.rs:3-11 | the test's `User` with two `#[intern]` fields expands to target `InternedUser` and const `_INTERN_IMPL_USER`, with both steps in order. The macro sees only `#[intern_derive(..)]`, never the invoking `#[derive(..)]`, so the shadow type's attributes are exactly `#[derive(Debug, PartialEq, Eq, Hash)]` |
| Derive.DerivePlainExpansion | tests/ui/pass/derive_intern.rs:4-8 | the test's `User` without `#[intern]` (the invoking `#[derive(..)]` is not part of the input) gets no shadow type and the body `ARENA.insert(self)` on its own arena |

## Findings

| source | as written | input that shows it | evidently intended | confidence | as-written member | corrected member |
|---|---|---|---|---|---|---|
| treentern-derive/src/lib.rs:161-168 | The fallback `if !field_visitor.updated` runs for every kind of input. Only the struct arm can set `updated`, so the `compile_error!` bodies of the enum and union arms are always replaced by `ARENA.insert(self)`. | `#[derive(Intern)] enum Color {}` | enums and unions rejected with their diagnostics, the fallback only for structs without `#[intern]` fields | high; not executed | Derive.EnumIsNotRejected | Derive.RejectsNonStructs |

`Derive.ExpandAsWritten` is the as-written macro, and `Derive.DeriveIntern` is
proved equal to it. `Derive.Expand` is the corrected macro. The lemmas about
rejection are stated on `Expand`, and `Derive.StructsAgree` shows that the two
differ only on enums and unions.

## Left out

- Locking: the two `Mutex`es, lock poisoning and the `unwrap` panics are not modelled. `insert` is one sequential step, so the window between the two locks is not modelled either. `len()` and `push` also take separate locks (src/arena.rs:55-64). So two racing inserts could store equal content twice. Two racing misses on different contents could also record the same index, after which a hit on one content `get`s the other content's reference.
- `LazyLock` initialisation is not modelled; each arena is a fresh, empty object.
- Hashing (`BuildHasher`, `RandomState`) is not modelled. The index map is a Dafny `map` keyed by content, which assumes `Hash` and `Eq` agree.
- Real memory behind `Box::leak` is not modelled: it is a counter of fresh addresses, and leaked memory is never freed.
- `proc_macro`, `syn` parsing, `quote!` token emission and spans are not modelled. The macro works on an abstract syntax of attributes, fields and types.
- The `paste!` expansion of `basic_impl!` for its fourteen types is not modelled. `BasicImpl<T>` stands for any one of them.
- The derived `Ord`, `PartialOrd`, `Hash` and `Debug` of `Interned` are not modelled. Neither an ordering by address nor the content ordering the code derives is modelled.
- The generated code returns the arena's `&'static` reference where `Interned<...>` is declared, and this `Interned` has no `Deref`. The model wraps the arena's result in a handle and does not model the type mismatch.
- Composites.GeneratedIntern: every field of the composite has one content type `V`, so all `#[intern]` fields share one field arena. A struct whose fields have different types would use one arena per type.
- Composites.GeneratedIntern: an unmarked field is represented by its content only. Its address inside the leaked composite is not modelled, and neither is the leak of the original composite by `intern_owned`.
- Composites.MapField: a marked field whose type is itself a derived type with its own shadow type (a nested composite) is not covered. There the handle's content is the nested shadow value, not the field's content, and the model's `Slot.Handle` always stands for the field's content.
- Derive.ConstName: `to_uppercase` is modelled for ASCII letters only. Identifiers with other letters are not upper-cased.
- Derive.FieldVisitor.VisitFieldsMut: after a panic the model gives the partial state the visitor leaves. That state is never observed, because the macro aborts.
- Enum variants and union fields are not modelled: the macro never looks inside them.
- Records without marked fields, and records without any fields, are not rejected. They fall back to `ARENA.insert(self)`, and the model follows the code.
