/** The `#[derive(Intern)]` macro over an abstract syntax: which attributes it
    strips, how it rewrites field types, which interning steps it emits, the names
    it chooses, and what it emits for each kind of input. */
module Derive {

  datatype Option<T> = None | Some(value: T)

  /** The shape of an attribute's meta: a bare path, a list `path(tokens)`, or a
      name-value `path = value`. */
  datatype MetaKind = PathOnly | List(tokens: seq<string>) | NameValue(value: string)

  /** An attribute: the identifier of its path when the path is one plain
      identifier (`None` for a multi-segment or leading-`::` path), and its meta. */
  datatype Attribute = Attribute(ident: Option<string>, kind: MetaKind)

  /** Field types, as far as the rewrite sees them: the written type, the handle
      `Interned<<ty as Intern>::InternedType>` and the reference `&'static ty`. */
  datatype Type = Named(name: string) | InternedOf(inner: Type) | StaticRef(referent: Type)

  /** A field: its attributes, its name (`None` in a tuple struct) and its type. */
  datatype Field = Field(attrs: seq<Attribute>, ident: Option<string>, ty: Type)

  datatype Data = Struct(fields: seq<Field>) | Enum | Union

  datatype DeriveInput = DeriveInput(attrs: seq<Attribute>, ident: string, data: Data)

  /** One emitted interning step: `let name = <ty as Intern>::intern(name);`. */
  datatype Mapping = Mapping(name: string, ty: Type)

  /** A braced struct pattern or expression `ty { names, .. }`. */
  datatype Pattern = Pattern(ty: string, names: seq<string>)

  /** The body of the generated `intern`. */
  datatype Body =
    | CompileError(message: string)
    | InsertSelf
    | InsertOwned(unpack: Option<Pattern>, mappings: seq<Mapping>, pack: Option<Pattern>)

  /** What the macro emits: the rewritten shadow type when there is one, the name
      of the `const` block, the type the impl is for, its `InternedType`, and the
      body of `intern`. */
  datatype Output = Output(targetType: Option<DeriveInput>, constName: string, selfName: string,
                           targetName: string, body: Body)

  /** The macro either panics with a message or emits its output. */
  datatype Outcome = Panicked(message: string) | Emitted(output: Output)

  const TupleStructMessage := "The derive macro for Intern can not deal with tuple structs yet."
  const EnumMessage := "Cannot derive Intern for Enum yet."
  const UnionMessage := "Cannot derive Intern for Union."

  // ---------------------------------------------------------------------------
  // Attributes

  /** An `#[intern]` attribute: its path is the single identifier `intern`. */
  predicate IsIntern(a: Attribute) {
    a.ident == Some("intern")
  }

  predicate HasIntern(attrs: seq<Attribute>) {
    exists i | 0 <= i < |attrs| :: IsIntern(attrs[i])
  }

  /** `attrs.retain(..)`: keep, in order, every attribute that is not `#[intern]`. */
  function StripIntern(attrs: seq<Attribute>): (r: seq<Attribute>)
    ensures |r| <= |attrs|
    decreases |attrs|
  {
    if attrs == [] then
      []
    else
      var rest := StripIntern(attrs[1..]);
      if IsIntern(attrs[0]) then rest else [attrs[0]] + rest
  }

  /** Stripping keeps exactly the attributes that are not `#[intern]`. */
  lemma {:induction false} StripInternMembers(attrs: seq<Attribute>)
    ensures forall a :: a in StripIntern(attrs) <==> a in attrs && !IsIntern(a)
    decreases |attrs|
  {
    if attrs != [] {
      StripInternMembers(attrs[1..]);
      assert forall a :: a in attrs <==> a == attrs[0] || a in attrs[1..];
    }
  }

  /** Stripping keeps the relative order: it distributes over concatenation. */
  lemma {:induction false} StripInternAppend(a: seq<Attribute>, b: seq<Attribute>)
    ensures StripIntern(a + b) == StripIntern(a) + StripIntern(b)
    decreases |a|
  {
    if a != [] {
      assert (a + b)[1..] == a[1..] + b;
      StripInternAppend(a[1..], b);
    } else {
      assert a + b == b;
    }
  }

  /** The attribute list got shorter exactly when it held an `#[intern]`; otherwise
      it is left exactly as it was. */
  lemma {:induction false} StripInternShorter(attrs: seq<Attribute>)
    ensures |StripIntern(attrs)| < |attrs| <==> HasIntern(attrs)
    ensures !HasIntern(attrs) ==> StripIntern(attrs) == attrs
    decreases |attrs|
  {
    if attrs != [] {
      StripInternShorter(attrs[1..]);
      if HasIntern(attrs[1..]) {
        var i :| 0 <= i < |attrs[1..]| && IsIntern(attrs[1..][i]);
        assert IsIntern(attrs[i + 1]);
      }
      if HasIntern(attrs) && !IsIntern(attrs[0]) {
        var i :| 0 <= i < |attrs| && IsIntern(attrs[i]);
        assert IsIntern(attrs[1..][i - 1]);
      }
      if !HasIntern(attrs) {
        assert !IsIntern(attrs[0]);
        assert attrs == [attrs[0]] + attrs[1..];
      }
    }
  }

  /** The position of the first attribute whose path is the identifier
      `intern_derive` (`iter_mut().find(..)`), or the length when there is none. */
  function FirstInternDerive(attrs: seq<Attribute>): (k: nat)
    ensures k <= |attrs|
    ensures forall j | 0 <= j < k :: attrs[j].ident != Some("intern_derive")
    ensures k < |attrs| ==> attrs[k].ident == Some("intern_derive")
    decreases |attrs|
  {
    if attrs == [] then 0
    else if attrs[0].ident == Some("intern_derive") then 0
    else 1 + FirstInternDerive(attrs[1..])
  }

  /** `#[intern_derive(..)]` becomes `#[derive(..)]`: only the first such attribute,
      and only when it is in list form; the list's tokens are kept. */
  function RenameInternDerive(attrs: seq<Attribute>): (r: seq<Attribute>)
    ensures |r| == |attrs|
    ensures forall j | 0 <= j < |attrs| :: r[j].kind == attrs[j].kind
    ensures forall j | 0 <= j < |attrs| && attrs[j].ident != Some("intern_derive") :: r[j] == attrs[j]
  {
    var k := FirstInternDerive(attrs);
    if k < |attrs| && attrs[k].kind.List? then attrs[k := Attribute(Some("derive"), attrs[k].kind)] else attrs
  }

  /** The rename touches one attribute at most: the first `intern_derive`, when it
      is a list, whose path becomes `derive` and whose tokens are unchanged. Every
      other attribute, any later `intern_derive` included, stays as it was. */
  lemma RenameOnlyFirst(attrs: seq<Attribute>)
    ensures var r := RenameInternDerive(attrs);
            && |r| == |attrs|
            && (forall j | 0 <= j < |attrs| && r[j] != attrs[j] ::
                  && attrs[j].ident == Some("intern_derive") && attrs[j].kind.List?
                  && (forall i | 0 <= i < j :: attrs[i].ident != Some("intern_derive"))
                  && r[j] == Attribute(Some("derive"), attrs[j].kind))
  {
  }

  /** An `intern_derive` list that comes first among the `intern_derive`s is renamed. */
  lemma RenameFirstList(attrs: seq<Attribute>, j: nat)
    requires j < |attrs| && attrs[j].ident == Some("intern_derive") && attrs[j].kind.List?
    requires forall i | 0 <= i < j :: attrs[i].ident != Some("intern_derive")
    ensures RenameInternDerive(attrs)[j] == Attribute(Some("derive"), attrs[j].kind)
  {
    var k := FirstInternDerive(attrs);
    if k < j {
    } else if j < k {
    }
  }

  /** `iter_mut().find(..)` and the in-place rename of the attribute it found. */
  method RenameInternDeriveMut(attrs: array<Attribute>)
    modifies attrs
    ensures attrs[..] == RenameInternDerive(old(attrs[..]))
  {
    var k := 0;
    while k < attrs.Length && attrs[k].ident != Some("intern_derive")
      invariant 0 <= k <= attrs.Length
      invariant forall j | 0 <= j < k :: attrs[j].ident != Some("intern_derive")
    {
      k := k + 1;
    }
    FirstIsFound(attrs[..], k);
    if k < attrs.Length && attrs[k].kind.List? {
      attrs[k] := Attribute(Some("derive"), attrs[k].kind);
    }
  }

  lemma FirstIsFound(attrs: seq<Attribute>, k: nat)
    requires k <= |attrs| && forall j | 0 <= j < k :: attrs[j].ident != Some("intern_derive")
    requires k < |attrs| ==> attrs[k].ident == Some("intern_derive")
    ensures FirstInternDerive(attrs) == k
  {
    var f := FirstInternDerive(attrs);
    if f < k {
    } else if k < f {
    }
  }

  // ---------------------------------------------------------------------------
  // Names

  /** ASCII upper case of one character. */
  function UpperChar(c: char): char {
    if 'a' <= c <= 'z' then (c as int - 'a' as int + 'A' as int) as char else c
  }

  function Upper(s: string): (r: string) {
    seq(|s|, i requires 0 <= i < |s| => UpperChar(s[i]))
  }

  /** `Interned{name}`: the name of the shadow type, which never clashes with the
      name of the type it is derived for and ends with that name. */
  function TargetName(name: string): (r: string)
    ensures r != name
    ensures |name| <= |r| && r[|r| - |name|..] == name
  {
    "Interned" + name
  }

  /** `_INTERN_IMPL_{name}`, upper-cased: the name of the `const` block. It holds
      no lower-case ASCII letter. */
  function ConstName(name: string): (r: string)
    ensures |r| == 13 + |name|
    ensures forall i | 0 <= i < |r| :: !('a' <= r[i] <= 'z')
  {
    Upper("_INTERN_IMPL_" + name)
  }

  /** The const name is the prefix followed by the type name, character for
      character in upper case, and holds no lower-case ASCII letter. */
  lemma ConstNameShape(name: string)
    ensures var c := ConstName(name);
            && |c| == 13 + |name|
            && c[..13] == "_INTERN_IMPL_"
            && (forall i | 0 <= i < |name| :: c[13 + i] == UpperChar(name[i]))
  {
    var c := ConstName(name);
    var p := "_INTERN_IMPL_" + name;
    forall i | 0 <= i < 13 ensures c[i] == "_INTERN_IMPL_"[i] {
      assert p[i] == "_INTERN_IMPL_"[i];
    }
    forall i | 0 <= i < |name| ensures c[13 + i] == UpperChar(name[i]) {
      assert p[13 + i] == name[i];
    }
  }

  /** The const name of a type whose name upper-cases to `upper`. */
  lemma ConstNameOf(name: string, upper: string)
    requires |upper| == |name| && forall i | 0 <= i < |name| :: UpperChar(name[i]) == upper[i]
    ensures ConstName(name) == "_INTERN_IMPL_" + upper
  {
    ConstNameShape(name);
    var c := ConstName(name);
    assert c[13..] == upper;
    assert c == c[..13] + c[13..];
  }

  /** The decimal digit for `d`. */
  function Digit(d: nat): char
    requires d < 10
  {
    ('0' as int + d) as char
  }

  predicate IsDigit(c: char) {
    '0' <= c <= '9'
  }

  /** `format!("{}", n)`: the decimal rendering, without leading zeros. */
  function Decimal(n: nat): (r: string)
    ensures |r| > 0 && forall i | 0 <= i < |r| :: IsDigit(r[i])
    decreases n
  {
    if n < 10 then [Digit(n)] else Decimal(n / 10) + [Digit(n % 10)]
  }

  /** The number a string of decimal digits denotes. */
  function DecimalValue(s: string): nat
    requires forall i | 0 <= i < |s| :: IsDigit(s[i])
    decreases |s|
  {
    if s == [] then 0
    else
      assert IsDigit(s[|s| - 1]);
      10 * DecimalValue(s[..|s| - 1]) + (s[|s| - 1] as int - '0' as int)
  }

  /** The rendering starts with `0` only for zero: there are no leading zeros. */
  lemma {:induction false} DecimalNoLeadingZero(n: nat)
    ensures Decimal(n)[0] == '0' <==> n == 0
    decreases n
  {
    if n >= 10 {
      DecimalNoLeadingZero(n / 10);
      assert Decimal(n)[0] == Decimal(n / 10)[0];
    }
  }

  /** Reading back the decimal rendering gives the number, so distinct positions
      give distinct names. */
  lemma {:induction false} DecimalRoundTrip(n: nat)
    ensures DecimalValue(Decimal(n)) == n
    decreases n
  {
    if n >= 10 {
      DecimalRoundTrip(n / 10);
      var d := Decimal(n);
      assert d[..|d| - 1] == Decimal(n / 10);
    }
  }

  /** The names bound by the unpack pattern: each field's own name, or
      `value{index}` for a field without one. */
  function FieldNames(fields: seq<Field>): (names: seq<string>)
  {
    seq(|fields|, i requires 0 <= i < |fields| =>
      if fields[i].ident.Some? then fields[i].ident.value else "value" + Decimal(i))
  }

  /** Two unnamed fields at different positions are bound to different names.
      These names are computed but never emitted: the field visitor panics at
      the first unnamed field, before the unpack and pack are stored. */
  lemma UnnamedNamesDistinct(fields: seq<Field>, i: nat, j: nat)
    requires i < |fields| && j < |fields| && i != j
    requires fields[i].ident.None? && fields[j].ident.None?
    ensures FieldNames(fields)[i] != FieldNames(fields)[j]
  {
    var a := FieldNames(fields)[i];
    var b := FieldNames(fields)[j];
    if a == b {
      assert a[5..] == Decimal(i) && b[5..] == Decimal(j);
      DecimalRoundTrip(i);
      DecimalRoundTrip(j);
    }
  }

  /** For named fields the pattern binds exactly the field names, so its names are
      pairwise distinct exactly when the fields' names are. */
  lemma NamedNamesDistinct(fields: seq<Field>)
    requires forall i | 0 <= i < |fields| :: fields[i].ident.Some?
    ensures |FieldNames(fields)| == |fields|
    ensures (forall i, j | 0 <= i < j < |fields| :: FieldNames(fields)[i] != FieldNames(fields)[j])
            <==> (forall i, j | 0 <= i < j < |fields| :: fields[i].ident != fields[j].ident)
  {
    var names := FieldNames(fields);
    forall i | 0 <= i < |fields| ensures fields[i].ident == Some(names[i]) {
    }
  }

  // ---------------------------------------------------------------------------
  // Fields

  /** A field whose `#[intern]` attributes take part: it has a name and at least
      one of them. An unnamed field panics before it could count. */
  predicate Counts(f: Field) {
    f.ident.Some? && HasIntern(f.attrs)
  }

  /** `visit_field_mut` on one field. The attributes are stripped first; a field
      without a name then panics with its type unchanged; otherwise the type of an
      `#[intern]` field becomes the handle of its interned type and every other
      field's type becomes `&'static` of itself. */
  function VisitField(f: Field): (r: Field)
    ensures r.ident == f.ident && |r.attrs| <= |f.attrs|
    ensures f.ident.Some? ==> r.ty != f.ty
  {
    var ty := if f.ident.None? then f.ty else if HasIntern(f.attrs) then InternedOf(f.ty) else StaticRef(f.ty);
    Field(StripIntern(f.attrs), f.ident, ty)
  }

  /** A visited field keeps its name and its non-`#[intern]` attributes; a named
      field has the handle type exactly when it was marked, `&'static` of its type
      otherwise, and an unnamed one keeps its type. */
  lemma VisitFieldSpec(f: Field)
    ensures var r := VisitField(f);
            && r.ident == f.ident
            && (forall a :: a in r.attrs <==> a in f.attrs && !IsIntern(a))
            && (f.ident.None? ==> r.ty == f.ty)
            && (f.ident.Some? ==> (r.ty == InternedOf(f.ty) <==> HasIntern(f.attrs)))
            && (f.ident.Some? && !HasIntern(f.attrs) ==> r.ty == StaticRef(f.ty))
  {
    StripInternMembers(f.attrs);
  }

  /** The interning step a field contributes: one for a field that counts, naming
      that field and its written type, and none otherwise. */
  function MappingOf(f: Field): (r: seq<Mapping>)
  {
    if Counts(f) then [Mapping(f.ident.value, f.ty)] else []
  }

  /** The interning steps of a run of fields, in field order. */
  function MappingsOf(fields: seq<Field>): (r: seq<Mapping>)
    ensures |r| <= |fields|
    decreases |fields|
  {
    if fields == [] then [] else MappingsOf(fields[..|fields| - 1]) + MappingOf(fields[|fields| - 1])
  }

  /** No step is emitted exactly when no field counts. */
  lemma {:induction false} MappingsEmpty(fields: seq<Field>)
    ensures MappingsOf(fields) == [] <==> !AnyCounts(fields)
    decreases |fields|
  {
    if fields != [] {
      var n := |fields| - 1;
      MappingsEmpty(fields[..n]);
      PrefixCounts(fields, n);
      assert fields[..n + 1] == fields;
      var front := MappingsOf(fields[..n]);
      var last := MappingOf(fields[n]);
      assert MappingsOf(fields) == front + last;
      assert |front + last| == |front| + |last|;
      assert last == [] <==> !Counts(fields[n]);
    }
  }

  /** Every field of the shadow type, each visited by `VisitField`. */
  function VisitAll(fields: seq<Field>): seq<Field>
  {
    seq(|fields|, i requires 0 <= i < |fields| => VisitField(fields[i]))
  }

  predicate AnyCounts(fields: seq<Field>) {
    exists i | 0 <= i < |fields| :: Counts(fields[i])
  }

  predicate AllNamed(fields: seq<Field>) {
    forall i | 0 <= i < |fields| :: fields[i].ident.Some?
  }

  /** The position of the first field without a name, where `visit_fields_mut`
      panics, or the number of fields when every field has one. */
  function FirstUnnamed(fields: seq<Field>): (k: nat)
    ensures k <= |fields|
    ensures forall j | 0 <= j < k :: fields[j].ident.Some?
    ensures k < |fields| ==> fields[k].ident.None?
    decreases |fields|
  {
    if fields == [] then 0
    else if fields[0].ident.None? then 0
    else 1 + FirstUnnamed(fields[1..])
  }

  /** Every field has a name exactly when no unnamed field is found. */
  lemma FirstUnnamedAll(fields: seq<Field>)
    ensures AllNamed(fields) <==> FirstUnnamed(fields) == |fields|
  {
  }

  /** An unnamed field after named ones is the first unnamed one. */
  lemma FirstUnnamedAt(fields: seq<Field>, i: nat)
    requires i < |fields| && fields[i].ident.None?
    requires forall j | 0 <= j < i :: fields[j].ident.Some?
    ensures FirstUnnamed(fields) == i
  {
    var k := FirstUnnamed(fields);
    if k < i {
    } else if i < k {
    }
  }

  /** Mappings of a concatenation are the concatenation of the mappings; so the
      steps appear in field order. */
  lemma {:induction false} MappingsAppend(a: seq<Field>, b: seq<Field>)
    ensures MappingsOf(a + b) == MappingsOf(a) + MappingsOf(b)
    decreases |b|
  {
    if b == [] {
      assert a + b == a;
    } else {
      var n := |b| - 1;
      assert (a + b)[..|a + b| - 1] == a + b[..n];
      assert (a + b)[|a + b| - 1] == b[n];
      MappingsAppend(a, b[..n]);
    }
  }

  /** Every step names a field that counts, and every field that counts has its
      step: a step is in the mappings exactly when some counted field produced it. */
  lemma {:induction false} MappingsOfFields(fields: seq<Field>)
    ensures forall m :: m in MappingsOf(fields) <==>
              exists i | 0 <= i < |fields| :: Counts(fields[i]) && m == Mapping(fields[i].ident.value, fields[i].ty)
    decreases |fields|
  {
    if fields != [] {
      var n := |fields| - 1;
      var front := fields[..n];
      MappingsOfFields(front);
      forall m ensures m in MappingsOf(fields) <==>
          exists i | 0 <= i < |fields| :: Counts(fields[i]) && m == Mapping(fields[i].ident.value, fields[i].ty)
      {
        if m in MappingsOf(front) {
          var i :| 0 <= i < |front| && Counts(front[i]) && m == Mapping(front[i].ident.value, front[i].ty);
          assert fields[i] == front[i];
        }
        if exists i | 0 <= i < |fields| :: Counts(fields[i]) && m == Mapping(fields[i].ident.value, fields[i].ty) {
          var i :| 0 <= i < |fields| && Counts(fields[i]) && m == Mapping(fields[i].ident.value, fields[i].ty);
          if i < n {
            assert front[i] == fields[i];
          }
        }
      }
    }
  }

  /** The steps of one more field follow those of the fields before it. */
  lemma PrefixMappings(fields: seq<Field>, i: nat)
    requires i < |fields|
    ensures MappingsOf(fields[..i + 1]) == MappingsOf(fields[..i]) + MappingOf(fields[i])
  {
    var p := fields[..i + 1];
    assert p[..i] == fields[..i] && p[i] == fields[i];
  }

  lemma PrefixCounts(fields: seq<Field>, i: nat)
    requires i < |fields|
    ensures AnyCounts(fields[..i + 1]) == (AnyCounts(fields[..i]) || Counts(fields[i]))
  {
    var p := fields[..i + 1];
    if AnyCounts(p) && !Counts(fields[i]) {
      var j :| 0 <= j < |p| && Counts(p[j]);
      assert fields[..i][j] == p[j];
    }
    if AnyCounts(fields[..i]) {
      var j :| 0 <= j < i && Counts(fields[..i][j]);
      assert p[j] == fields[..i][j];
    }
    if Counts(fields[i]) {
      assert p[i] == fields[i];
    }
  }

  /** The state `visit_fields_mut` leaves, from field list `fs`, mappings `m0`
      and flag `u0`: the fields up to and including the first unnamed field are
      visited, where it panics (all of them when there is none), and the mappings
      and the flag take in the named fields before it. */
  ghost predicate Visited(fs: seq<Field>, cur: seq<Field>, m0: seq<Mapping>, m: seq<Mapping>, u0: bool, u: bool) {
    var k := FirstUnnamed(fs);
    && VisitedUpTo(cur, fs, if k < |fs| then k + 1 else k)
    && m == m0 + MappingsOf(fs[..k])
    && u == (u0 || AnyCounts(fs[..k]))
  }

  /** `cur` is the field list `fs` with its first `n` fields visited and the
      others untouched. */
  ghost predicate VisitedUpTo(cur: seq<Field>, fs: seq<Field>, n: nat) {
    && |cur| == |fs| && n <= |fs|
    && (forall j | 0 <= j < n :: cur[j] == VisitField(fs[j]))
    && (forall j | n <= j < |fs| :: cur[j] == fs[j])
  }

  /** Visiting field `i` of a state whose first `i` fields are visited gives the
      state whose first `i + 1` fields are visited. */
  lemma VisitedStep(fs: seq<Field>, i: nat, cur: seq<Field>)
    requires i < |fs| && VisitedUpTo(cur, fs, i)
    ensures VisitedUpTo(cur[i := VisitField(fs[i])], fs, i + 1)
  {
  }

  /** All fields visited: the list is the visited list. */
  lemma VisitedAll(fs: seq<Field>, cur: seq<Field>)
    requires VisitedUpTo(cur, fs, |fs|)
    ensures cur == VisitAll(fs)
  {
  }

  /** One turn of the loop of `visit_fields_mut`: visiting field `i` takes the
      state of the first `i` fields to that of the first `i + 1`. */
  lemma VisitedLoopStep(fs: seq<Field>, i: nat, cur: seq<Field>, cur': seq<Field>,
                        m0: seq<Mapping>, mi: seq<Mapping>, m: seq<Mapping>, u0: bool, ui: bool, u: bool)
    requires i < |fs| && VisitedUpTo(cur, fs, i) && cur' == cur[i := VisitField(fs[i])]
    requires mi == m0 + MappingsOf(fs[..i]) && m == mi + MappingOf(fs[i])
    requires ui == (u0 || AnyCounts(fs[..i])) && u == (ui || Counts(fs[i]))
    ensures VisitedUpTo(cur', fs, i + 1)
    ensures m == m0 + MappingsOf(fs[..i + 1]) && u == (u0 || AnyCounts(fs[..i + 1]))
  {
    PrefixMappings(fs, i);
    PrefixCounts(fs, i);
    VisitedStep(fs, i, cur);
  }

  /** The state when field `i` is the first without a name: it was visited, and
      the visitor panicked there. */
  lemma VisitedPanic(fs: seq<Field>, i: nat, cur: seq<Field>, m0: seq<Mapping>, m: seq<Mapping>, u0: bool, u: bool)
    requires i < |fs| && fs[i].ident.None? && forall j | 0 <= j < i :: fs[j].ident.Some?
    requires VisitedUpTo(cur, fs, i + 1)
    requires m == m0 + MappingsOf(fs[..i]) && u == (u0 || AnyCounts(fs[..i]))
    ensures Visited(fs, cur, m0, m, u0, u) && !AllNamed(fs)
  {
    FirstUnnamedAt(fs, i);
  }

  /** The state when every field has a name and all were visited. */
  lemma VisitedDone(fs: seq<Field>, cur: seq<Field>, m0: seq<Mapping>, m: seq<Mapping>, u0: bool, u: bool)
    requires forall j | 0 <= j < |fs| :: fs[j].ident.Some?
    requires VisitedUpTo(cur, fs, |fs|)
    requires m == m0 + MappingsOf(fs[..|fs|]) && u == (u0 || AnyCounts(fs[..|fs|]))
    ensures Visited(fs, cur, m0, m, u0, u) && AllNamed(fs)
  {
    FirstUnnamedAll(fs);
    assert fs[..|fs|] == fs;
  }

  lemma PrefixAll<X>(s: seq<X>)
    ensures s[..|s|] == s
  {
  }

  /** `FieldVisitor`: the flag that some field was marked `#[intern]` and the
      interning steps collected so far. */
  class FieldVisitor {
    var updated: bool
    var mappings: seq<Mapping>

    constructor ()
      ensures !updated && mappings == []
    {
      updated := false;
      mappings := [];
    }

    /** `visit_field_mut` on `fields[i]`, in place; `false` where it panics. */
    method VisitFieldMut(fields: array<Field>, i: nat) returns (ok: bool)
      requires i < fields.Length
      modifies this, fields
      ensures ok <==> old(fields[i]).ident.Some?
      ensures fields[..] == old(fields[..])[i := VisitField(old(fields[i]))]
      ensures mappings == old(mappings) + MappingOf(old(fields[i]))
      ensures updated == (old(updated) || Counts(old(fields[i])))
    {
      var f := fields[i];
      var numAttrs := |f.attrs|;
      var attrs := StripIntern(f.attrs);
      StripInternShorter(f.attrs);
      fields[i] := f.(attrs := attrs);
      if f.ident.None? {
        ok := false;
        return;
      }
      var name := f.ident.value;
      if |attrs| < numAttrs {
        updated := true;
        fields[i] := fields[i].(ty := InternedOf(f.ty));
        mappings := mappings + [Mapping(name, f.ty)];
      } else {
        fields[i] := fields[i].(ty := StaticRef(f.ty));
      }
      ok := true;
    }

    /** `visit_fields_mut`: `visit_field_mut` on every field in order, until the
        first field without a name panics. */
    method VisitFieldsMut(fields: array<Field>) returns (ok: bool)
      modifies this, fields
      ensures ok <==> AllNamed(old(fields[..]))
      ensures Visited(old(fields[..]), fields[..], old(mappings), mappings, old(updated), updated)
    {
      ghost var fs := fields[..];
      var i := 0;
      while i < fields.Length
        invariant 0 <= i <= fields.Length
        invariant forall j | 0 <= j < i :: fs[j].ident.Some?
        invariant VisitedUpTo(fields[..], fs, i)
        invariant mappings == old(mappings) + MappingsOf(fs[..i])
        invariant updated == (old(updated) || AnyCounts(fs[..i]))
      {
        assert fields[i] == fs[i];
        ghost var c0, m0, u0 := fields[..], mappings, updated;
        ok := VisitFieldMut(fields, i);
        VisitedLoopStep(fs, i, c0, fields[..], old(mappings), m0, mappings, old(updated), u0, updated);
        if !ok {
          assert MappingOf(fs[i]) == [] && !Counts(fs[i]);
          VisitedPanic(fs, i, fields[..], old(mappings), mappings, old(updated), updated);
          return;
        }
        i := i + 1;
      }
      VisitedDone(fs, fields[..], old(mappings), mappings, old(updated), updated);
      ok := true;
    }
  }

  /** `StructVisitor`: the names of the input and shadow types, the unpack and
      pack token streams (empty until the fields are visited), and the field
      visitor it drives. */
  class StructVisitor {
    const input: string
    const output: string
    var unpack: Option<Pattern>
    var pack: Option<Pattern>
    const fieldVisitor: FieldVisitor

    constructor (input: string, output: string, fieldVisitor: FieldVisitor)
      ensures this.input == input && this.output == output && this.fieldVisitor == fieldVisitor
      ensures unpack == None && pack == None
    {
      this.input := input;
      this.output := output;
      this.fieldVisitor := fieldVisitor;
      unpack := None;
      pack := None;
    }

    /** `visit_fields_mut`: the names are taken from the fields as written, then
        the field visitor runs, then `let input { names } = self;` and
        `output { names }` are stored. */
    method VisitFieldsMut(fields: array<Field>) returns (ok: bool)
      modifies this, fieldVisitor, fields
      ensures ok <==> AllNamed(old(fields[..]))
      ensures Visited(old(fields[..]), fields[..], old(fieldVisitor.mappings), fieldVisitor.mappings,
                      old(fieldVisitor.updated), fieldVisitor.updated)
      ensures ok ==> unpack == Some(Pattern(input, FieldNames(old(fields[..]))))
      ensures ok ==> pack == Some(Pattern(output, FieldNames(old(fields[..]))))
      ensures !ok ==> unpack == old(unpack) && pack == old(pack)
    {
      var names := FieldNames(fields[..]);
      ok := fieldVisitor.VisitFieldsMut(fields);
      if !ok {
        return;
      }
      unpack := Some(Pattern(input, names));
      pack := Some(Pattern(output, names));
    }

    /** `get_implementation`: the unpack, the drained mappings, then
        `ARENA.insert_owned(pack)`. */
    method GetImplementation() returns (body: Body)
      modifies fieldVisitor
      ensures body == InsertOwned(unpack, old(fieldVisitor.mappings), pack)
      ensures fieldVisitor.mappings == [] && fieldVisitor.updated == old(fieldVisitor.updated)
    {
      body := InsertOwned(unpack, fieldVisitor.mappings, pack);
      fieldVisitor.mappings := [];
    }
  }

  // ---------------------------------------------------------------------------
  // The whole macro

  /** `derive_intern` as written. The fallback for an input with no `#[intern]`
      field also catches enums and unions, whose `updated` flag is never set, so
      their `compile_error!` body is replaced by `ARENA.insert(self)`. */
  function ExpandAsWritten(input: DeriveInput): (r: Outcome)
    ensures r.Panicked? <==> input.data.Struct? && !AllNamed(input.data.fields)
    ensures r.Emitted? ==> r.output.constName == ConstName(input.ident) && r.output.selfName == input.ident
    ensures r.Emitted? ==> (r.output.targetType.Some? <==> input.data.Struct? && AnyCounts(input.data.fields))
    ensures !input.data.Struct? ==> r.Emitted? && r.output.body == InsertSelf
  {
    var attrs := RenameInternDerive(input.attrs);
    var name := input.ident;
    match input.data
    case Struct(fields) =>
      if !AllNamed(fields) then
        Panicked(TupleStructMessage)
      else if AnyCounts(fields) then
        var names := FieldNames(fields);
        Emitted(Output(Some(DeriveInput(attrs, TargetName(name), Struct(VisitAll(fields)))), ConstName(name), name,
                       TargetName(name), InsertOwned(Some(Pattern(name, names)), MappingsOf(fields),
                                                     Some(Pattern(TargetName(name), names)))))
      else
        Emitted(Output(None, ConstName(name), name, name, InsertSelf))
    case Enum => Emitted(Output(None, ConstName(name), name, name, InsertSelf))
    case Union => Emitted(Output(None, ConstName(name), name, name, InsertSelf))
  }

  /** `derive_intern` with the fallback limited to structs, as the two
      `compile_error!` arms intend: enums and unions are rejected. */
  function Expand(input: DeriveInput): (r: Outcome)
    ensures r.Panicked? <==> input.data.Struct? && !AllNamed(input.data.fields)
    ensures r.Emitted? ==> r.output.constName == ConstName(input.ident) && r.output.selfName == input.ident
    ensures r.Emitted? ==> (r.output.targetType.Some? <==> input.data.Struct? && AnyCounts(input.data.fields))
    ensures r.Emitted? && r.output.body.CompileError? <==> !input.data.Struct?
  {
    match input.data
    case Struct(_) => ExpandAsWritten(input)
    case Enum => Emitted(Output(None, ConstName(input.ident), input.ident, TargetName(input.ident), CompileError(EnumMessage)))
    case Union => Emitted(Output(None, ConstName(input.ident), input.ident, TargetName(input.ident), CompileError(UnionMessage)))
  }

  /** The corrected expansion rejects enums and unions with their diagnostics and
      emits no shadow type for them. */
  lemma RejectsNonStructs(input: DeriveInput)
    requires !input.data.Struct?
    ensures Expand(input).Emitted?
    ensures Expand(input).output.body == CompileError(if input.data.Enum? then EnumMessage else UnionMessage)
    ensures Expand(input).output.targetType == None
  {
  }

  /** As written, an enum gets the plain implementation instead of its
      diagnostic: `enum Color {}` gets `ARENA.insert(self)`. */
  lemma EnumIsNotRejected()
    ensures ExpandAsWritten(DeriveInput([], "Color", Enum)) == Emitted(Output(None, "_INTERN_IMPL_COLOR", "Color", "Color", InsertSelf))
    ensures ExpandAsWritten(DeriveInput([], "Color", Enum)) != Expand(DeriveInput([], "Color", Enum))
  {
    ConstNameOf("Color", "COLOR");
    var input := DeriveInput([], "Color", Enum);
    assert Expand(input).output.body.CompileError?;
  }

  /** On structs the two expansions agree. */
  lemma StructsAgree(input: DeriveInput)
    requires input.data.Struct?
    ensures Expand(input) == ExpandAsWritten(input)
  {
  }

  /** A struct with an unnamed field is rejected with the tuple-struct panic, and
      only then does the macro panic. */
  lemma PanicsExactlyOnUnnamed(input: DeriveInput)
    ensures Expand(input).Panicked? <==> input.data.Struct? && !AllNamed(input.data.fields)
    ensures Expand(input).Panicked? ==> Expand(input).message == TupleStructMessage
  {
  }

  /** A struct of named fields none of which is marked gets no shadow type, keeps
      its own name as `InternedType`, and interns `self` directly; a struct with a
      marked field gets the shadow type `Interned{name}`, whose fields are the
      rewritten ones and whose attributes have `intern_derive` renamed. */
  lemma StructExpansion(input: DeriveInput)
    requires input.data.Struct? && AllNamed(input.data.fields)
    ensures Expand(input).Emitted?
    ensures var out := Expand(input).output;
            && out.selfName == input.ident
            && out.constName == ConstName(input.ident)
            && (out.targetType.Some? <==> AnyCounts(input.data.fields))
            && (!AnyCounts(input.data.fields) ==> out.targetName == input.ident && out.body == InsertSelf)
            && (AnyCounts(input.data.fields) ==>
                  && out.targetName == "Interned" + input.ident
                  && out.targetType.value.ident == out.targetName
                  && out.targetType.value.attrs == RenameInternDerive(input.attrs)
                  && out.targetType.value.data == Struct(VisitAll(input.data.fields))
                  && out.body.InsertOwned?
                  && out.body.mappings == MappingsOf(input.data.fields)
                  && out.body.unpack == Some(Pattern(input.ident, FieldNames(input.data.fields)))
                  && out.body.pack == Some(Pattern(out.targetName, FieldNames(input.data.fields))))
  {
  }

  /** The shadow type of a marked struct: each field keeps its name, loses its
      `#[intern]` attributes, and has the handle type exactly when it was marked,
      `&'static` of its type otherwise. */
  lemma ShadowFields(input: DeriveInput, i: nat)
    requires input.data.Struct? && AllNamed(input.data.fields) && AnyCounts(input.data.fields)
    requires i < |input.data.fields|
    ensures var f := input.data.fields[i];
            var g := Expand(input).output.targetType.value.data.fields[i];
            && g.ident == f.ident
            && (forall a :: a in g.attrs <==> a in f.attrs && !IsIntern(a))
            && (g.ty == InternedOf(f.ty) <==> HasIntern(f.attrs))
            && (!HasIntern(f.attrs) ==> g.ty == StaticRef(f.ty))
  {
    assert input.data.fields[i].ident.Some?;
    VisitFieldSpec(input.data.fields[i]);
  }

  /** The struct arm of `derive_intern`: a `StructVisitor` over the fields, in
      place, then `get_implementation`. */
  method ImplementStruct(name: string, targetName: string, fieldVisitor: FieldVisitor, fs: seq<Field>)
    returns (res: Option<(Body, seq<Field>)>)
    requires !fieldVisitor.updated && fieldVisitor.mappings == []
    modifies fieldVisitor
    ensures res.Some? <==> AllNamed(fs)
    ensures res.Some? ==> fieldVisitor.updated == AnyCounts(fs)
    ensures res.Some? ==> res.value == (InsertOwned(Some(Pattern(name, FieldNames(fs))), MappingsOf(fs),
                                                    Some(Pattern(targetName, FieldNames(fs)))), VisitAll(fs))
  {
    var fields := new Field[|fs|](i requires 0 <= i < |fs| => fs[i]);
    assert fields[..] == fs;
    var visitor := new StructVisitor(name, targetName, fieldVisitor);
    var ok := visitor.VisitFieldsMut(fields);
    if !ok {
      return None;
    }
    PrefixAll(fs);
    FirstUnnamedAll(fs);
    assert fieldVisitor.mappings == MappingsOf(fs);
    assert fieldVisitor.updated == AnyCounts(fs);
    VisitedAll(fs, fields[..]);
    var visited := fields[..];
    var implementation := visitor.GetImplementation();
    res := Some((implementation, visited));
  }

  /** `derive_intern` step by step: rename the attribute in place, choose the
      names, visit a struct's fields in place, then apply the fallback. */
  method DeriveIntern(input: DeriveInput) returns (out: Outcome)
    ensures out == ExpandAsWritten(input)
  {
    var attrs := new Attribute[|input.attrs|](i requires 0 <= i < |input.attrs| => input.attrs[i]);
    assert attrs[..] == input.attrs;
    RenameInternDeriveMut(attrs);
    var name := input.ident;
    var constName := ConstName(name);
    var targetName := TargetName(name);
    var fieldVisitor := new FieldVisitor();
    var implementation: Body;
    var data := input.data;
    match input.data {
      case Struct(fs) =>
        var arm := ImplementStruct(name, targetName, fieldVisitor, fs);
        if arm.None? {
          return Panicked(TupleStructMessage);
        }
        implementation := arm.value.0;
        data := Struct(arm.value.1);
      case Enum =>
        implementation := CompileError(EnumMessage);
      case Union =>
        implementation := CompileError(UnionMessage);
    }
    if !fieldVisitor.updated {
      implementation := InsertSelf;
      targetName := name;
    }
    var targetType := if fieldVisitor.updated then Some(DeriveInput(attrs[..], targetName, data)) else None;
    out := Emitted(Output(targetType, constName, name, targetName, implementation));
  }


  /** The two `#[intern]` fields of the derive test's `User`. */
  function MarkedUserFields(): seq<Field> {
    [Field([Attribute(Some("intern"), PathOnly)], Some("first_name"), Named("String")),
     Field([Attribute(Some("intern"), PathOnly)], Some("last_name"), Named("String"))]
  }

  /** Both fields count, in order, and each contributes its step. */
  lemma MarkedUserMappings()
    ensures AllNamed(MarkedUserFields()) && AnyCounts(MarkedUserFields())
    ensures MappingsOf(MarkedUserFields()) == [Mapping("first_name", Named("String")), Mapping("last_name", Named("String"))]
  {
    var fields := MarkedUserFields();
    assert IsIntern(fields[0].attrs[0]) && IsIntern(fields[1].attrs[0]);
    assert Counts(fields[0]) && Counts(fields[1]);
    assert fields[..1] == [fields[0]] && fields[..1][..0] == [];
    assert MappingsOf(fields[..1]) == [Mapping("first_name", Named("String"))];
  }

  /** A lone `#[intern_derive(..)]` in list form is renamed to `#[derive(..)]`. */
  lemma UserRename(internDerive: Attribute)
    requires internDerive.ident == Some("intern_derive") && internDerive.kind.List?
    ensures RenameInternDerive([internDerive]) == [Attribute(Some("derive"), internDerive.kind)]
  {
    assert FirstInternDerive([internDerive]) == 0;
  }

  /** The `User` of the derive test with two `#[intern]` fields and an
      `#[intern_derive(..)]` attribute. The `#[derive(..)]` attribute that invokes
      the macro is not part of its input, so `#[intern_derive(..)]` is the only
      attribute the macro sees, and the shadow type gets exactly its derives. */
  method DeriveFieldsExpansion() returns (out: Outcome)
    ensures out.Emitted? && out.output.targetName == "InternedUser"
    ensures out.output.constName == "_INTERN_IMPL_USER"
    ensures out.output.body.InsertOwned?
    ensures out.output.body.mappings == [Mapping("first_name", Named("String")), Mapping("last_name", Named("String"))]
    ensures out.output.targetType.Some?
    ensures out.output.targetType.value.attrs == [Attribute(Some("derive"), List(["Debug", "PartialEq", "Eq", "Hash"]))]
  {
    var internDerive := Attribute(Some("intern_derive"), List(["Debug", "PartialEq", "Eq", "Hash"]));
    var input := DeriveInput([internDerive], "User", Struct(MarkedUserFields()));
    MarkedUserMappings();
    ConstNameOf("User", "USER");
    UserRename(internDerive);
    StructExpansion(input);
    StructsAgree(input);
    out := DeriveIntern(input);
    assert out == Expand(input);
    assert out.output.targetName == TargetName("User") == "InternedUser";
  }

  /** The `User` of the derive test without `#[intern]` fields: no shadow type,
      and `intern` inserts `self` into the arena of `User` itself. The invoking
      `#[derive(..)]` is not part of the input, which has no attributes. */
  method DerivePlainExpansion() returns (out: Outcome)
    ensures out == Emitted(Output(None, "_INTERN_IMPL_USER", "User", "User", InsertSelf))
  {
    var fields := [Field([], Some("first_name"), Named("String")), Field([], Some("last_name"), Named("String"))];
    var input := DeriveInput([], "User", Struct(fields));
    assert !HasIntern(fields[0].attrs) && !HasIntern(fields[1].attrs);
    ConstNameOf("User", "USER");
    StructExpansion(input);
    out := DeriveIntern(input);
  }
}
