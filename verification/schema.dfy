/** What the `Descriptor` derive macro (descriptor_derive/src/lib.rs) works
    from, as data: the shape of each describable type with its per-field and
    per-struct directives, and the values that get rendered. Also the
    generated methods that depend on the type alone: `struct_pad`,
    `headers`, `default_headers` and `header_name`. */
module Schema {
  import opened Wrappers
  import opened Text
  import opened Paths

  /** Data to render. */
  datatype Value =
    | Scalar(text: string)                                     // String, integers, bool, DateTime: already formatted
    | Variant(name: string, renameDescription: Option<string>) // a variant of a derived enum with its rename
    | Optional(content: Option<Value>)                         // Option<T>
    | List(items: seq<Value>)                                  // Vec<T>
    | Dict(entries: map<string, Value>)                        // HashMap<String, T>
    | Record(fields: map<string, Value>)                       // a derived struct, by field name

  /** A user conversion into a value of shape `target`: a field's `map`
      function or `into` type, a struct's `into` or `extra_fields` type. */
  datatype Conv = Conv(target: Shape, apply: Value -> Value)

  /** The `#[descriptor(...)]` directives of one field. */
  datatype FieldAttrs = FieldAttrs(
    skip: bool,
    skipHeader: bool,
    skipDescription: bool,
    flatten: bool,
    outputTable: bool,
    resolveOption: bool,
    renameHeader: Option<string>,
    mapWith: Option<Conv>,
    into: Option<Conv>)

  datatype Field = Field(name: string, shape: Shape, attrs: FieldAttrs)

  /** `extra_fields = T`: the type's name as `stringify!` spells it, and the
      conversion from the struct to it. */
  datatype Extra = Extra(typeName: string, conv: Conv)

  /** The `#[descriptor(...)]` directives of a struct. */
  datatype StructAttrs = StructAttrs(
    into: Option<Conv>,
    defaultHeaders: Option<seq<string>>,
    mapResult: Option<(Value, string) -> string>,
    extra: Option<Extra>)

  /** The type of a describable value. */
  datatype Shape =
    | ScalarShape
    | EnumShape
    | OptionShape(inner: Shape)
    | VecShape(elem: Shape)
    | MapShape(elem: Shape)
    | StructShape(fields: seq<Field>, attrs: StructAttrs)

  /** Field names, as Rust identifiers, hold no dot and are distinct. */
  predicate WellNamed(fs: seq<Field>) {
    && (forall i | 0 <= i < |fs| :: '.' !in fs[i].name)
    && (forall i, j | 0 <= i < j < |fs| :: fs[i].name != fs[j].name)
  }

  // ---------------------------------------------------------------------
  // Field selection

  /** `extract_field`: the declared fields without those marked `skip`,
      in declared order. Every generated method sees only these. */
  function Active(fs: seq<Field>): (r: seq<Field>)
    ensures |r| <= |fs|
    ensures forall i | 0 <= i < |r| :: !r[i].attrs.skip && r[i] in fs
    ensures forall i | 0 <= i < |fs| :: !fs[i].attrs.skip ==> fs[i] in r
  {
    if fs == [] then []
    else
      var rest := Active(fs[1..]);
      assert forall i | 0 <= i < |rest| :: rest[i] in fs by {
        forall i | 0 <= i < |rest| ensures rest[i] in fs {
          assert rest[i] in fs[1..];
        }
      }
      assert forall i | 1 <= i < |fs| :: fs[i] == fs[1..][i - 1];
      if fs[0].attrs.skip then rest else [fs[0]] + rest
  }

  /** The fields `describe` writes: those not marked `skip_description`. */
  function Described(fs: seq<Field>): (r: seq<Field>)
    ensures |r| <= |fs|
    ensures forall i | 0 <= i < |r| :: !r[i].attrs.skipDescription && r[i] in fs
    ensures forall i | 0 <= i < |fs| :: !fs[i].attrs.skipDescription ==> fs[i] in r
  {
    if fs == [] then []
    else
      var rest := Described(fs[1..]);
      assert forall i | 0 <= i < |rest| :: rest[i] in fs by {
        forall i | 0 <= i < |rest| ensures rest[i] in fs {
          assert rest[i] in fs[1..];
        }
      }
      assert forall i | 1 <= i < |fs| :: fs[i] == fs[1..][i - 1];
      if fs[0].attrs.skipDescription then rest else [fs[0]] + rest
  }

  /** The first field `describe` writes is the first declared one not
      marked `skip_description`: the filter runs before the fields are
      numbered. */
  lemma {:induction false} DescribedFirst(fs: seq<Field>, k: nat)
    requires k < |fs| && !fs[k].attrs.skipDescription
    requires forall j | 0 <= j < k :: fs[j].attrs.skipDescription
    ensures Described(fs) != [] && Described(fs)[0] == fs[k]
    decreases k
  {
    if k > 0 {
      assert forall j | 0 <= j < k - 1 :: fs[1..][j] == fs[j + 1];
      DescribedFirst(fs[1..], k - 1);
    }
  }

  /** The arm a generated `match` on a field name takes: the first field
      with that name, if any. */
  function FindField(fs: seq<Field>, name: string): (r: Option<nat>)
    ensures r.Some? ==> r.value < |fs| && fs[r.value].name == name
    ensures r.Some? ==> forall k | 0 <= k < r.value :: fs[k].name != name
    ensures r.None? <==> forall k | 0 <= k < |fs| :: fs[k].name != name
  {
    if fs == [] then None
    else if fs[0].name == name then Some(0)
    else
      match FindField(fs[1..], name)
      case Some(i) => Some(i + 1)
      case None => None
  }

  /** The type whose headers a field exposes: its `into` type when it has
      one, its declared type otherwise. */
  function HeaderShape(f: Field): (r: Shape)
    ensures r < f
  {
    if f.attrs.into.Some? then f.attrs.into.value.target else f.shape
  }

  // ---------------------------------------------------------------------
  // struct_pad

  function MaxTitle(fs: seq<Field>): (r: nat)
    ensures forall i | 0 <= i < |fs| :: |TitleCase(fs[i].name)| <= r
  {
    if fs == [] then 0 else Max(|TitleCase(fs[0].name)|, MaxTitle(fs[1..]))
  }

  /** The widest title is the title of one of the fields. */
  lemma {:induction false} MaxTitleAttained(fs: seq<Field>)
    requires fs != []
    ensures exists i | 0 <= i < |fs| :: |TitleCase(fs[i].name)| == MaxTitle(fs)
  {
    if MaxTitle(fs) == |TitleCase(fs[0].name)| {
      assert |TitleCase(fs[0].name)| == MaxTitle(fs);
    } else {
      assert MaxTitle(fs) == MaxTitle(fs[1..]) && fs[1..] != [];
      MaxTitleAttained(fs[1..]);
      var i :| 0 <= i < |fs[1..]| && |TitleCase(fs[1..][i].name)| == MaxTitle(fs[1..]);
      assert fs[i + 1] == fs[1..][i];
    }
  }

  /** Widest label among `fs` plus one, 0 for no fields. */
  function LabelPad(fs: seq<Field>): nat {
    if fs == [] then 0 else MaxTitle(fs) + 1
  }

  ghost predicate FieldsOf(parent: Shape, fs: seq<Field>) {
    parent.StructShape? && forall i | 0 <= i < |fs| :: fs[i] in parent.fields
  }

  /** Widest `struct_pad` among the flattened fields of `fs`. */
  function FlattenedPad(parent: Shape, fs: seq<Field>): (r: nat)
    requires FieldsOf(parent, fs)
    decreases parent, 0, |fs|
  {
    if fs == [] then 0
    else
      var tail := fs[1..];
      assert forall i | 0 <= i < |tail| :: tail[i] == fs[i + 1];
      var own := if fs[0].attrs.flatten then StructPad(fs[0].shape) else 0;
      Max(own, FlattenedPad(parent, tail))
  }

  /** The pad a flattened field demands of its parent, 0 for the others. */
  ghost function Demand(f: Field): nat {
    if f.attrs.flatten then StructPad(f.shape) else 0
  }

  lemma {:induction false} FlattenedPadStep(parent: Shape, fs: seq<Field>)
    requires FieldsOf(parent, fs) && fs != []
    ensures FieldsOf(parent, fs[1..])
    ensures FlattenedPad(parent, fs) == Max(Demand(fs[0]), FlattenedPad(parent, fs[1..]))
  {
    assert forall i | 0 <= i < |fs[1..]| :: fs[1..][i] == fs[i + 1];
  }

  /** Every flattened field's own column fits in the widest one. */
  lemma {:induction false} FlattenedPadUpper(parent: Shape, fs: seq<Field>, i: nat)
    requires FieldsOf(parent, fs) && i < |fs|
    ensures Demand(fs[i]) <= FlattenedPad(parent, fs)
    decreases i
  {
    FlattenedPadStep(parent, fs);
    if i > 0 {
      var tail := fs[1..];
      assert tail[i - 1] == fs[i];
      FlattenedPadUpper(parent, tail, i - 1);
      assert Demand(fs[i]) <= FlattenedPad(parent, tail);
    }
  }


  /** The widest column is 0 or some flattened field's own. */
  lemma {:induction false} FlattenedPadAttained(parent: Shape, fs: seq<Field>)
    requires FieldsOf(parent, fs)
    ensures FlattenedPad(parent, fs) == 0
         || exists i | 0 <= i < |fs| :: Demand(fs[i]) == FlattenedPad(parent, fs)
    decreases |fs|
  {
    if fs != [] {
      var tail := fs[1..];
      FlattenedPadStep(parent, fs);
      FlattenedPadAttained(parent, tail);
      var rest := FlattenedPad(parent, tail);
      if rest != 0 && FlattenedPad(parent, fs) == rest {
        var k :| 0 <= k < |tail| && Demand(tail[k]) == rest;
        assert fs[k + 1] == tail[k];
      }
    }
  }

  /** `struct_pad`: the label column a struct needs so that all its labels,
      and those of the structs flattened into it, fit with one blank to
      spare. Other types need none. */
  function StructPad(s: Shape): (r: nat)
    ensures !s.StructShape? ==> r == 0
    decreases s, 1
  {
    match s
    case StructShape(fields, _) =>
      var fs := Active(fields);
      Max(LabelPad(fs), FlattenedPad(s, fs))
    case _ => 0
  }

  /** The label column of a struct is wider than every field label and at
      least as wide as every flattened child's own column, and it is no
      wider than one of these demands: 0 for a struct without fields. */
  lemma StructPadBounds(s: Shape)
    requires s.StructShape?
    ensures var fs := Active(s.fields);
      && (forall i | 0 <= i < |fs| :: |TitleCase(fs[i].name)| < StructPad(s))
      && (forall i | 0 <= i < |fs| :: fs[i].attrs.flatten ==> StructPad(fs[i].shape) <= StructPad(s))
      && (fs == [] ==> StructPad(s) == 0)
      && (StructPad(s) == 0
          || (exists i | 0 <= i < |fs| :: |TitleCase(fs[i].name)| + 1 == StructPad(s))
          || (exists i | 0 <= i < |fs| :: fs[i].attrs.flatten && StructPad(fs[i].shape) == StructPad(s)))
  {
    var fs := Active(s.fields);
    forall i | 0 <= i < |fs|
      ensures Demand(fs[i]) <= FlattenedPad(s, fs)
    {
      FlattenedPadUpper(s, fs, i);
    }
    FlattenedPadAttained(s, fs);
    if fs != [] {
      MaxTitleAttained(fs);
      var k :| 0 <= k < |fs| && |TitleCase(fs[k].name)| == MaxTitle(fs);
    }
  }
  /** A described field's title always fits in its struct's label column. */
  lemma TitleFits(s: Shape, f: Field)
    requires s.StructShape? && f in Active(s.fields)
    ensures |TitleCase(f.name)| < StructPad(s)
  {
    StructPadBounds(s);
    var fs := Active(s.fields);
    var k :| 0 <= k < |fs| && fs[k] == f;
  }


  // ---------------------------------------------------------------------
  // headers, default_headers

  /** `name.` in front of each child header. */
  function Prefixed(name: string, hs: seq<string>): (r: seq<string>)
    ensures |r| == |hs|
    ensures forall i | 0 <= i < |hs| :: r[i] == name + "." + hs[i]
  {
    seq(|hs|, i requires 0 <= i < |hs| => name + "." + hs[i])
  }

  /** The headers one field contributes: its type's default headers under
      `name.`, or the bare field name when its type has none. */
  function FieldHeaders(parent: Shape, f: Field): (r: seq<string>)
    requires parent.StructShape? && f in parent.fields
    ensures |r| >= 1
    decreases parent, 0
  {
    var inner := DefaultHeaders(HeaderShape(f));
    if inner == [] then [f.name] else Prefixed(f.name, inner)
  }

  function FieldsHeaders(parent: Shape, fs: seq<Field>): seq<string>
    requires FieldsOf(parent, fs)
    decreases parent, 1, |fs|
  {
    if fs == [] then []
    else
      assert fs[0] in fs;
      assert forall f | f in fs[1..] :: f in fs;
      FieldHeaders(parent, fs[0]) + FieldsHeaders(parent, fs[1..])
  }

  /** `headers`: every field's headers in declared order, then the default
      headers of the `extra_fields` type, unprefixed. An `Option` has the
      headers of what it wraps; other types have none. */
  function Headers(s: Shape): seq<string>
    decreases s, 2
  {
    match s
    case OptionShape(inner) => Headers(inner)
    case StructShape(fields, a) =>
      FieldsHeaders(s, Active(fields)) + (if a.extra.Some? then DefaultHeaders(a.extra.value.conv.target) else [])
    case _ => []
  }

  /** Names of the fields marked `skip_header`. */
  /** Some field of `fs` marked `skip_header` is named `h`. */
  predicate SkipsHeader(fs: seq<Field>, h: string) {
    exists i | 0 <= i < |fs| :: fs[i].attrs.skipHeader && fs[i].name == h
  }

  function SkipNames(fs: seq<Field>): (r: seq<string>)
    ensures forall n :: n in r <==> SkipsHeader(fs, n)
  {
    if fs == [] then []
    else
      var rest := SkipNames(fs[1..]);
      assert forall i | 1 <= i < |fs| :: fs[i] == fs[1..][i - 1];
      assert forall i | 0 <= i < |fs[1..]| :: fs[1..][i] == fs[i + 1];
      if fs[0].attrs.skipHeader then [fs[0].name] + rest else rest
  }

  /** `hs` without the entries equal to one of `names`, order kept. */
  function Without(hs: seq<string>, names: seq<string>): (r: seq<string>)
    ensures |r| <= |hs|
    ensures forall h :: h in r <==> h in hs && h !in names
    ensures (forall i | 0 <= i < |hs| :: hs[i] !in names) ==> r == hs
  {
    if hs == [] then []
    else
      var rest := Without(hs[1..], names);
      assert forall h | h in hs :: h == hs[0] || h in hs[1..];
      if hs[0] in names then rest else [hs[0]] + rest
  }

  /** `default_headers`: the struct's explicit list when it declares one,
      otherwise its headers minus the entries that are exactly the name of a
      `skip_header` field. For other types, their headers. */
  function DefaultHeaders(s: Shape): seq<string>
    decreases s, 3
  {
    match s
    case StructShape(fields, a) =>
      if a.defaultHeaders.Some? then a.defaultHeaders.value
      else Without(Headers(s), SkipNames(Active(fields)))
    case _ => Headers(s)
  }

  // ---------------------------------------------------------------------
  // header_name

  /** `header_name`: the label a table column gets when it is not derived
      from the path. The head of the path selects a field: its
      `rename_header` wins, otherwise the question goes to the field's type
      (its `into` type when it has one) with the rest of the path. A head
      equal to the `extra_fields` type's name goes to that type. Anything
      else has no label of its own. */
  function HeaderName(s: Shape, path: string): Option<string>
    decreases s
  {
    match s
    case OptionShape(inner) => HeaderName(inner, path)
    case StructShape(fields, a) =>
      var (head, child) := GetKeys(path);
      var fs := Active(fields);
      (match FindField(fs, head)
       case Some(i) =>
         var f := fs[i];
         if f.attrs.renameHeader.Some? then f.attrs.renameHeader else HeaderName(HeaderShape(f), child)
       case None =>
         if a.extra.Some? && head == a.extra.value.typeName then HeaderName(a.extra.value.conv.target, child)
         else None)
    case _ => None
  }

  // ---------------------------------------------------------------------
  // Properties

  /** Headers follow the field order: the headers of a run of fields are
      those of its first part followed by those of the rest. */
  lemma {:induction false} FieldsHeadersAppend(parent: Shape, a: seq<Field>, b: seq<Field>)
    requires FieldsOf(parent, a) && FieldsOf(parent, b)
    ensures FieldsOf(parent, a + b)
    ensures FieldsHeaders(parent, a + b) == FieldsHeaders(parent, a) + FieldsHeaders(parent, b)
    decreases |a|
  {
    assert forall i | 0 <= i < |a + b| :: (a + b)[i] == if i < |a| then a[i] else b[i - |a|];
    if a != [] {
      assert (a + b)[1..] == a[1..] + b;
      assert forall i | 0 <= i < |a[1..]| :: a[1..][i] == a[i + 1];
      FieldsHeadersAppend(parent, a[1..], b);
      var x, y, z := FieldHeaders(parent, a[0]), FieldsHeaders(parent, a[1..]), FieldsHeaders(parent, b);
      assert FieldsHeaders(parent, a) == x + y;
      assert FieldsHeaders(parent, a + b) == x + (y + z);
      assert x + (y + z) == (x + y) + z;
    } else {
      assert a + b == b;
    }
  }

  /** Every field contributes at least one header. */
  lemma {:induction false} FieldsHeadersLength(parent: Shape, fs: seq<Field>)
    requires FieldsOf(parent, fs)
    ensures |FieldsHeaders(parent, fs)| >= |fs|
    decreases |fs|
  {
    if fs != [] {
      assert forall i | 0 <= i < |fs[1..]| :: fs[1..][i] == fs[i + 1];
      FieldsHeadersLength(parent, fs[1..]);
    }
  }

  /** What one field puts among the headers: its bare name when its type
      has no default headers, each of them under `name.` otherwise. */
  lemma {:induction false} FieldHeadersPresent(parent: Shape, fs: seq<Field>, k: nat)
    requires FieldsOf(parent, fs) && k < |fs|
    ensures DefaultHeaders(HeaderShape(fs[k])) == [] ==> fs[k].name in FieldsHeaders(parent, fs)
    ensures forall h | h in DefaultHeaders(HeaderShape(fs[k])) :: fs[k].name + "." + h in FieldsHeaders(parent, fs)
    decreases |fs|
  {
    assert fs[k] in parent.fields;
    if k == 0 {
      assert fs[0] in fs;
      assert forall h | h in DefaultHeaders(HeaderShape(fs[0])) ::
        fs[0].name + "." + h in FieldHeaders(parent, fs[0]);
    } else {
      assert forall i | 0 <= i < |fs[1..]| :: fs[1..][i] == fs[i + 1];
      assert fs[1..][k - 1] == fs[k];
      FieldHeadersPresent(parent, fs[1..], k - 1);
    }
  }

  /** `headers` of a struct lists the headers of each of its fields. */
  lemma StructHeadersCover(s: Shape, k: nat)
    requires s.StructShape? && k < |Active(s.fields)|
    ensures var f := Active(s.fields)[k];
      && (DefaultHeaders(HeaderShape(f)) == [] ==> f.name in Headers(s))
      && (forall h | h in DefaultHeaders(HeaderShape(f)) :: f.name + "." + h in Headers(s))
  {
    FieldHeadersPresent(s, Active(s.fields), k);
  }

  /** Without an explicit list, `default_headers` keeps exactly those
      headers that are not the bare name of a `skip_header` field. */
  lemma DefaultHeadersFilter(s: Shape, h: string)
    requires s.StructShape? && s.attrs.defaultHeaders.None?
    ensures h in DefaultHeaders(s) <==> h in Headers(s) && !SkipsHeader(Active(s.fields), h)
  {
    assert DefaultHeaders(s) == Without(Headers(s), SkipNames(Active(s.fields)));
  }

  /** Filtering keeps order: filtering a concatenation is concatenating
      the filtered parts. */
  lemma {:induction false} WithoutAppend(a: seq<string>, b: seq<string>, names: seq<string>)
    ensures Without(a + b, names) == Without(a, names) + Without(b, names)
    decreases |a|
  {
    if a == [] {
      assert a + b == b;
    } else {
      assert (a + b)[0] == a[0];
      assert (a + b)[1..] == a[1..] + b;
      WithoutAppend(a[1..], b, names);
    }
  }

  /** One header survives the filter exactly when it is not a skipped name. */
  lemma WithoutOne(h: string, names: seq<string>)
    ensures Without([h], names) == if h in names then [] else [h]
  {
    assert [h][1..] == [];
  }

  /** Without an explicit list, `default_headers` is the filtered headers
      of the earlier fields, then those of the later fields, then those of
      the `extra_fields` type: the filter never reorders columns. */
  lemma DefaultHeadersInOrder(s: Shape, a: seq<Field>, b: seq<Field>)
    requires s.StructShape? && s.attrs.defaultHeaders.None?
    requires Active(s.fields) == a + b && FieldsOf(s, a) && FieldsOf(s, b)
    ensures var skip := SkipNames(Active(s.fields));
      var extra := if s.attrs.extra.Some? then DefaultHeaders(s.attrs.extra.value.conv.target) else [];
      DefaultHeaders(s) == Without(FieldsHeaders(s, a), skip) + Without(FieldsHeaders(s, b), skip) + Without(extra, skip)
  {
    var skip := SkipNames(Active(s.fields));
    var extra := if s.attrs.extra.Some? then DefaultHeaders(s.attrs.extra.value.conv.target) else [];
    FieldsHeadersAppend(s, a, b);
    var x, y := FieldsHeaders(s, a), FieldsHeaders(s, b);
    assert Headers(s) == (x + y) + extra;
    WithoutAppend(x + y, extra, skip);
    WithoutAppend(x, y, skip);
  }

  /** `skip_header` only removes the bare field name: the headers of a
      skipped field's type, under `name.`, stay in the default list. */
  lemma SkipHeaderKeepsChildren(s: Shape, k: nat, h: string)
    requires s.StructShape? && s.attrs.defaultHeaders.None?
    requires WellNamed(Active(s.fields)) && k < |Active(s.fields)|
    requires h in DefaultHeaders(HeaderShape(Active(s.fields)[k]))
    ensures Active(s.fields)[k].name + "." + h in DefaultHeaders(s)
  {
    var fs := Active(s.fields);
    var full := fs[k].name + "." + h;
    StructHeadersCover(s, k);
    assert full[|fs[k].name|] == '.';
    forall i | 0 <= i < |fs| ensures fs[i].name != full {
      assert '.' !in fs[i].name;
    }
    DefaultHeadersFilter(s, full);
  }

  /** A field's `rename_header` labels the column of the field itself and
      of every path below it. */
  lemma RenamedHeader(s: Shape, k: nat, rest: string)
    requires s.StructShape? && WellNamed(Active(s.fields)) && k < |Active(s.fields)|
    requires Active(s.fields)[k].attrs.renameHeader.Some?
    ensures var f := Active(s.fields)[k];
      && HeaderName(s, f.name) == f.attrs.renameHeader
      && HeaderName(s, f.name + "." + rest) == f.attrs.renameHeader
  {
    var fs := Active(s.fields);
    GetKeysOfJoined(fs[k].name, rest);
    FirstFound(fs, k);
  }

  /** Without a rename, the question goes to the field's (converted) type
      with the rest of the path. */
  lemma DelegatedHeader(s: Shape, k: nat, rest: string)
    requires s.StructShape? && WellNamed(Active(s.fields)) && k < |Active(s.fields)|
    requires Active(s.fields)[k].attrs.renameHeader.None?
    ensures var f := Active(s.fields)[k];
      && HeaderName(s, f.name) == HeaderName(HeaderShape(f), "")
      && HeaderName(s, f.name + "." + rest) == HeaderName(HeaderShape(f), rest)
  {
    var fs := Active(s.fields);
    GetKeysOfJoined(fs[k].name, rest);
    FirstFound(fs, k);
  }

  /** A head that names no field and is not the `extra_fields` type has no
      label. */
  lemma UnknownHeader(s: Shape, path: string)
    requires s.StructShape?
    requires forall i | 0 <= i < |Active(s.fields)| :: Active(s.fields)[i].name != GetKeys(path).0
    requires s.attrs.extra.Some? ==> s.attrs.extra.value.typeName != GetKeys(path).0
    ensures HeaderName(s, path) == None
  {
  }

  /** With distinct names, the generated `match` takes the arm of the field
      that carries the name. */
  lemma FirstFound(fs: seq<Field>, k: nat)
    requires WellNamed(fs) && k < |fs|
    ensures FindField(fs, fs[k].name) == Some(k)
  {
  }
}
