/** Whether the column paths a type advertises (`headers`,
    `default_headers`, descriptor_derive/src/lib.rs) can be read back by its
    `to_field` without reaching the `field not found` arm: where that holds,
    and two kinds of struct for which it does not. */
module Agreement {
  import opened Wrappers
  import opened Paths
  import opened Schema
  import opened Render

  // ---------------------------------------------------------------------
  // Reading a path

  /** The shape `to_field` reads a field's present value as: the target of
      its `map` or `into` conversion, otherwise its declared type, unwrapped
      when `resolve_option` applies. */
  function ReadShape(f: Field): (r: Shape)
    ensures r < f
  {
    var conv := if f.attrs.mapWith.Some? then f.attrs.mapWith else f.attrs.into;
    if conv.Some? then conv.value.target
    else if f.attrs.resolveOption && f.shape.OptionShape? then f.shape.inner
    else f.shape
  }

  /** `ReadShape` is the shape of what `field_getter` hands on: whenever
      the field's value is converted or read as it is, and not the absent
      value of a `resolve_option` field, which is passed on unconverted. */
  lemma OperandReadsAs(f: Field, fv: Value)
    ensures var resolving := f.attrs.resolveOption && f.shape.OptionShape?;
      (!resolving || (fv.Optional? && fv.content.Some?)) ==> Operand(f, fv).0 == ReadShape(f)
    ensures var resolving := f.attrs.resolveOption && f.shape.OptionShape?;
      (resolving && !(fv.Optional? && fv.content.Some?)) ==> Operand(f, fv) == (f.shape, fv)
  {
  }

  /** `path` names something in every value of shape `s`. Scalars, enums
      and maps ignore the path; `Option` and `Vec` hand it to what they
      hold; a struct dispatches on the head like `to_field` does, and an
      unknown head must be known to the `extra_fields` type. */
  predicate Resolves(s: Shape, path: string)
    decreases s
  {
    match s
    case OptionShape(inner) => Resolves(inner, path)
    case VecShape(e) => Resolves(e, path)
    case StructShape(fields, a) =>
      var fs := Active(fields);
      (match FindField(fs, GetKeys(path).0)
       case Some(i) =>
         assert fs[i] in fields;
         Resolves(ReadShape(fs[i]), GetKeys(path).1)
       case None => a.extra.Some? && Resolves(a.extra.value.conv.target, path))
    case _ => true
  }

  /** Reading `path` from `v` with `to_field` reaches, somewhere, a struct
      whose fields and `extra_fields` type do not know the head of what is
      left of the path: the place where `field not found` is produced. */
  predicate Unresolved(s: Shape, v: Value, path: string)
    decreases s
  {
    match s
    case OptionShape(inner) => v.Optional? && v.content.Some? && Unresolved(inner, v.content.value, path)
    case VecShape(e) => v.List? && exists i | 0 <= i < |v.items| :: Unresolved(e, v.items[i], path)
    case StructShape(fields, a) =>
      var fs := Active(fields);
      (match FindField(fs, GetKeys(path).0)
       case Some(i) =>
         assert fs[i] in fields;
         var op := Operand(fs[i], FieldValue(v, fs[i].name));
         Unresolved(op.0, op.1, GetKeys(path).1)
       case None =>
         if a.extra.Some? then Unresolved(a.extra.value.conv.target, a.extra.value.conv.apply(v), path)
         else true)
    case _ => false
  }

  /** `Unresolved` follows the match of `to_field` arm by arm. When the
      head selects field `i`, both go to the field's operand with the rest
      of the path. */
  lemma SelectedArmsAgree(s: Shape, v: Value, path: string, i: nat)
    requires s.StructShape? && FindField(Active(s.fields), GetKeys(path).0) == Some(i)
    ensures Active(s.fields)[i] in s.fields
    ensures var f := Active(s.fields)[i];
      var op := Operand(f, FieldValue(v, f.name));
      && Unresolved(s, v, path) == Unresolved(op.0, op.1, GetKeys(path).1)
      && FieldText(s, v, path) == ToField(op.0, op.1, GetKeys(path).1)
  {
    UnresolvedSelected(s, v, path, i);
  }

  /** When no field has that name, both go to the `extra_fields` type with
      the whole path; without one, the path is unresolved exactly where
      the match answers `field not found`. */
  lemma UnknownArmsAgree(s: Shape, v: Value, path: string)
    requires s.StructShape? && FindField(Active(s.fields), GetKeys(path).0).None?
    ensures s.attrs.extra.None? ==> Unresolved(s, v, path) && FieldText(s, v, path) == NotFound
    ensures s.attrs.extra.Some? ==>
      var c := s.attrs.extra.value.conv;
      && Unresolved(s, v, path) == Unresolved(c.target, c.apply(v), path)
      && FieldText(s, v, path) == ToField(c.target, c.apply(v), path)
  {
    UnresolvedUnknown(s, v, path);
  }

  /** A path that resolves in a shape never fails on a value of it, however
      the value's options and sequences are filled. */
  lemma {:induction false} ResolvedNeverFails(s: Shape, v: Value, path: string)
    requires Resolves(s, path)
    ensures !Unresolved(s, v, path)
    decreases s
  {
    match s
    case OptionShape(inner) =>
      if v.Optional? && v.content.Some? {
        ResolvedNeverFails(inner, v.content.value, path);
      }
    case VecShape(e) =>
      if v.List? {
        forall i | 0 <= i < |v.items|
          ensures !Unresolved(e, v.items[i], path)
        {
          ResolvedNeverFails(e, v.items[i], path);
        }
      }
    case StructShape(fields, a) =>
      var fs := Active(fields);
      match FindField(fs, GetKeys(path).0) {
        case Some(i) =>
          var f := fs[i];
          assert f in fields;
          var fv := FieldValue(v, f.name);
          var op := Operand(f, fv);
          if !(f.attrs.resolveOption && f.shape.OptionShape? && !(fv.Optional? && fv.content.Some?)) {
            assert op.0 == ReadShape(f);
            ResolvedNeverFails(op.0, op.1, GetKeys(path).1);
          }
        case None =>
          if a.extra.Some? {
            ResolvedNeverFails(a.extra.value.conv.target, a.extra.value.conv.apply(v), path);
          }
      }
    case _ =>
  }

  // ---------------------------------------------------------------------
  // Where headers and to_field agree

  /** The types for which every advertised header resolves. At every
      struct: field names are distinct and dot-free; no field has a `map`
      (its headers come from the declared type, while `to_field` reads the
      map's result); a field whose type advertises no headers can be read
      at the empty path (it is not a struct, nor a sequence of structs);
      the headers of the `extra_fields` type do not start with a field's
      name; and an explicit header list names only paths that resolve. */
  predicate Agreeing(s: Shape)
    decreases s, 1
  {
    match s
    case OptionShape(inner) => Agreeing(inner)
    case StructShape(fields, a) =>
      var fs := Active(fields);
      && WellNamed(fs)
      && (forall i | 0 <= i < |fs| :: FieldAgrees(s, fs[i]))
      && (a.extra.Some? ==>
           && Agreeing(a.extra.value.conv.target)
           && forall h | h in DefaultHeaders(a.extra.value.conv.target) :: FindField(fs, GetKeys(h).0).None?)
      && (a.defaultHeaders.Some? ==> forall h | h in a.defaultHeaders.value :: Resolves(s, h))
    case _ => true
  }

  predicate FieldAgrees(parent: Shape, f: Field)
    requires parent.StructShape? && f in parent.fields
    decreases parent, 0
  {
    && f.attrs.mapWith.None?
    && Agreeing(HeaderShape(f))
    && (DefaultHeaders(HeaderShape(f)) == [] ==> Resolves(HeaderShape(f), ""))
  }

  /** Without a `map`, `to_field` reads a field as the type its headers
      come from (an `Option` reads as what it holds). */
  lemma ReadAsHeaderShape(f: Field, path: string)
    requires f.attrs.mapWith.None?
    ensures Resolves(ReadShape(f), path) == Resolves(HeaderShape(f), path)
  {
  }

  /** Each header of a run of fields comes from one of them. */
  lemma {:induction false} FieldsHeadersSource(parent: Shape, fs: seq<Field>, h: string) returns (k: nat)
    requires FieldsOf(parent, fs) && h in FieldsHeaders(parent, fs)
    ensures k < |fs| && fs[k] in parent.fields && h in FieldHeaders(parent, fs[k])
    decreases |fs|
  {
    assert fs[0] in fs;
    if h in FieldHeaders(parent, fs[0]) {
      k := 0;
    } else {
      var tail := fs[1..];
      assert forall i | 0 <= i < |tail| :: tail[i] == fs[i + 1];
      var j := FieldsHeadersSource(parent, tail, h);
      k := j + 1;
    }
  }

  /** A header contributed by field `k` resolves: its head selects that
      field, and the rest is one of the field type's own default headers,
      or empty for a field whose type has none. */
  lemma {:induction false} FieldHeaderResolves(s: Shape, k: nat, h: string)
    requires s.StructShape? && Agreeing(s) && k < |Active(s.fields)|
    requires Active(s.fields)[k] in s.fields
    requires h in FieldHeaders(s, Active(s.fields)[k])
    ensures Resolves(s, h)
    decreases s, 0
  {
    var fs := Active(s.fields);
    var f := fs[k];
    assert FieldAgrees(s, f);
    FirstFound(fs, k);
    var inner := DefaultHeaders(HeaderShape(f));
    if inner == [] {
      assert h == f.name;
      assert GetKeys(h) == (f.name, "");
      ReadAsHeaderShape(f, "");
    } else {
      var i :| 0 <= i < |inner| && h == f.name + "." + inner[i];
      GetKeysOfJoined(f.name, inner[i]);
      DefaultHeadersResolve(HeaderShape(f), inner[i]);
      ReadAsHeaderShape(f, inner[i]);
    }
  }

  /** The law, for `headers`: in the agreeing fragment, every header the
      type lists resolves. */
  lemma {:induction false} HeadersResolve(s: Shape, h: string)
    requires Agreeing(s) && h in Headers(s)
    ensures Resolves(s, h)
    decreases s, 1
  {
    match s
    case OptionShape(inner) =>
      HeadersResolve(inner, h);
    case StructShape(fields, a) =>
      var fs := Active(fields);
      var extra := if a.extra.Some? then DefaultHeaders(a.extra.value.conv.target) else [];
      assert Headers(s) == FieldsHeaders(s, fs) + extra;
      if h in FieldsHeaders(s, fs) {
        var k := FieldsHeadersSource(s, fs, h);
        FieldHeaderResolves(s, k, h);
      } else {
        DefaultHeadersResolve(a.extra.value.conv.target, h);
        assert FindField(fs, GetKeys(h).0).None?;
      }
    case _ =>
  }

  /** The law, for `default_headers`: in the agreeing fragment, every
      column a table shows by default resolves. */
  lemma {:induction false} DefaultHeadersResolve(s: Shape, h: string)
    requires Agreeing(s) && h in DefaultHeaders(s)
    ensures Resolves(s, h)
    decreases s, 2
  {
    if s.StructShape? && s.attrs.defaultHeaders.None? {
      assert h in Headers(s);
    }
    if !s.StructShape? || s.attrs.defaultHeaders.None? {
      HeadersResolve(s, h);
    }
  }

  /** Hence no default column of a table of an agreeing type ever reads
      `field not found`, whatever the rows hold. */
  lemma TableCellsResolve(s: Shape, v: Value, h: string)
    requires Agreeing(s) && h in DefaultHeaders(s)
    ensures !Unresolved(s, v, h)
  {
    DefaultHeadersResolve(s, h);
    ResolvedNeverFails(s, v, h);
  }

  // ---------------------------------------------------------------------
  // Outside the fragment

  const Plain: FieldAttrs := FieldAttrs(false, false, false, false, false, false, None, None, None)
  const Bare: StructAttrs := StructAttrs(None, None, None, None)

  /** `struct Bar { test: String }`. */
  const BarShape: Shape := StructShape([Field("test", ScalarShape, Plain)], Bare)

  /** `struct Foo { #[descriptor(map = to_bar)] time: u64 }`, where
      `to_bar` returns a `Bar`. */
  function MappedShape(toBar: Value -> Value): Shape {
    StructShape([Field("time", ScalarShape, Plain.(mapWith := Some(Conv(BarShape, toBar))))], Bare)
  }

  /** `struct Foo { list: Vec<Bar> }`. */
  const ListShape: Shape := StructShape([Field("list", VecShape(BarShape), Plain)], Bare)

  lemma NoDot(name: string)
    requires forall i | 0 <= i < |name| :: name[i] != '.'
    ensures GetKeys(name) == (name, "")
  {
  }

  /** A mapped field advertises its bare name, because its declared `u64`
      has no headers, but `to_field` reads the `Bar` it maps to at the
      empty path, which names no field of `Bar`. */
  lemma MappedFieldFails(toBar: Value -> Value, v: Value)
    ensures Headers(MappedShape(toBar)) == ["time"]
    ensures Unresolved(MappedShape(toBar), v, "time")
    ensures ToField(MappedShape(toBar), v, "time") == NotFound
  {
    var s := MappedShape(toBar);
    var f := s.fields[0];
    assert Active(s.fields) == [f];
    assert FieldHeaders(s, f) == ["time"];
    assert FieldsHeaders(s, [f]) == FieldHeaders(s, f) + FieldsHeaders(s, []);
    NoDot("time");
    assert FindField([f], "time") == Some(0);
    var op := Operand(f, FieldValue(v, "time"));
    assert op.0 == BarShape;
    var g := BarShape.fields[0];
    assert Active(BarShape.fields) == [g];
    assert FindField([g], "") == None;
    assert FieldText(BarShape, op.1, "") == NotFound;
    assert FieldText(s, v, "time") == NotFound;
  }

  /** A field holding a sequence of structs advertises its bare name,
      because `Vec` has no headers; each element is then read at the empty
      path and answers `field not found`. */
  lemma ListFieldFails(bar: Value)
    ensures Headers(ListShape) == ["list"]
    ensures var v := Record(map["list" := List([bar])]);
      && Unresolved(ListShape, v, "list")
      && ToField(ListShape, v, "list") == NotFound
  {
    var s := ListShape;
    var f := s.fields[0];
    assert Active(s.fields) == [f];
    assert DefaultHeaders(HeaderShape(f)) == [];
    assert FieldHeaders(s, f) == ["list"];
    assert FieldsHeaders(s, [f]) == FieldHeaders(s, f) + FieldsHeaders(s, []);
    var v := Record(map["list" := List([bar])]);
    NoDot("list");
    assert FindField([f], "list") == Some(0);
    assert FieldValue(v, "list") == List([bar]);
    var g := BarShape.fields[0];
    assert Active(BarShape.fields) == [g];
    assert FindField([g], "") == None;
    assert FieldText(BarShape, bar, "") == NotFound;
    assert Unresolved(BarShape, bar, "");
    var op := Operand(f, FieldValue(v, "list"));
    assert op == (VecShape(BarShape), List([bar]));
    assert List([bar]).items[0] == bar;
    assert Unresolved(op.0, op.1, "");
    assert ItemFields(BarShape, [bar], "") == [NotFound];
    assert FieldText(s, v, "list") == NotFound;
  }

  /** However many elements the list holds, as long as there is one,
      reading `list` reaches `field not found` in each of them. */
  lemma ListFieldUnresolved(items: seq<Value>)
    requires items != []
    ensures Unresolved(ListShape, Record(map["list" := List(items)]), "list")
  {
    var s := ListShape;
    var f := s.fields[0];
    assert Active(s.fields) == [f];
    var v := Record(map["list" := List(items)]);
    NoDot("list");
    assert FindField([f], "list") == Some(0);
    assert FieldValue(v, "list") == List(items);
    var g := BarShape.fields[0];
    assert Active(BarShape.fields) == [g];
    assert FindField([g], "") == None;
    assert Unresolved(BarShape, items[0], "");
    var op := Operand(f, FieldValue(v, "list"));
    assert op == (VecShape(BarShape), List(items));
    assert Unresolved(op.0, op.1, "");
  }

  // ---------------------------------------------------------------------
  // Headers taken from what a mapped field reads as

  /** A `map` field with its headers taken from the map's result type:
      the same conversion, declared as `into`, which both `headers` and
      `to_field` follow. */
  function CorrectField(f: Field): (r: Field)
    ensures r.name == f.name && r.attrs.skip == f.attrs.skip && r.attrs.mapWith.None?
    ensures HeaderShape(r) == if f.attrs.mapWith.Some? then f.attrs.mapWith.value.target else HeaderShape(f)
    ensures forall fv :: Operand(r, fv) == Operand(f, fv)
  {
    if f.attrs.mapWith.Some? then f.(attrs := f.attrs.(into := f.attrs.mapWith, mapWith := None)) else f
  }

  function CorrectFields(fs: seq<Field>): (r: seq<Field>)
    ensures |r| == |fs|
    ensures forall i | 0 <= i < |fs| :: r[i] == CorrectField(fs[i])
  {
    if fs == [] then [] else [CorrectField(fs[0])] + CorrectFields(fs[1..])
  }

  /** A struct whose own fields take their headers from their map's result. */
  function Corrected(s: Shape): (r: Shape)
    requires s.StructShape?
    ensures r.StructShape? && r.attrs == s.attrs && r.fields == CorrectFields(s.fields)
  {
    StructShape(CorrectFields(s.fields), s.attrs)
  }

  lemma {:induction false} ActiveCorrect(fs: seq<Field>)
    ensures Active(CorrectFields(fs)) == CorrectFields(Active(fs))
    decreases |fs|
  {
    if fs != [] {
      assert CorrectFields(fs)[1..] == CorrectFields(fs[1..]);
      ActiveCorrect(fs[1..]);
    }
  }

  lemma {:induction false} FindCorrect(fs: seq<Field>, name: string)
    ensures FindField(CorrectFields(fs), name) == FindField(fs, name)
    decreases |fs|
  {
    if fs != [] {
      assert CorrectFields(fs)[1..] == CorrectFields(fs[1..]);
      FindCorrect(fs[1..], name);
    }
  }

  /** The corrected struct selects the same field for every head, and
      that field converts its value the same way. */
  lemma CorrectedSelects(s: Shape, name: string)
    requires s.StructShape?
    ensures var fs := Active(s.fields);
      var cs := Active(Corrected(s).fields);
      && FindField(cs, name) == FindField(fs, name)
      && |cs| == |fs|
      && forall i | 0 <= i < |fs| :: cs[i] == CorrectField(fs[i])
  {
    ActiveCorrect(s.fields);
    FindCorrect(Active(s.fields), name);
  }

  /** The correction changes no cell: the corrected struct's match reads
      every path exactly like the struct as written. */
  lemma CorrectedReadsAlike(s: Shape, v: Value, path: string)
    requires s.StructShape?
    ensures FieldText(Corrected(s), v, path) == FieldText(s, v, path)
  {
    var head := GetKeys(path).0;
    CorrectedSelects(s, head);
    var fs := Active(s.fields);
    match FindField(fs, head) {
      case Some(i) =>
        var cs := Active(Corrected(s).fields);
        assert cs[i] == CorrectField(fs[i]);
        assert Operand(cs[i], FieldValue(v, fs[i].name)) == Operand(fs[i], FieldValue(v, fs[i].name));
      case None =>
    }
  }

  /** Hence the corrected struct's `to_field` agrees too, struct-level
      `map` included. */
  lemma CorrectedToFieldAlike(s: Shape, v: Value, path: string)
    requires s.StructShape?
    ensures ToField(Corrected(s), v, path) == ToField(s, v, path)
  {
    CorrectedReadsAlike(s, v, path);
    StructMap(s, v, path);
    StructMap(Corrected(s), v, path);
  }

  /** One level of `Unresolved` at a struct whose match selects field `i`. */
  lemma UnresolvedSelected(s: Shape, v: Value, path: string, i: nat)
    requires s.StructShape? && FindField(Active(s.fields), GetKeys(path).0) == Some(i)
    ensures Active(s.fields)[i] in s.fields
    ensures var f := Active(s.fields)[i];
      var op := Operand(f, FieldValue(v, f.name));
      Unresolved(s, v, path) == Unresolved(op.0, op.1, GetKeys(path).1)
  {
  }

  /** One level of `Unresolved` at a struct whose match knows no field of
      that name. */
  lemma UnresolvedUnknown(s: Shape, v: Value, path: string)
    requires s.StructShape? && FindField(Active(s.fields), GetKeys(path).0).None?
    ensures Unresolved(s, v, path)
         == if s.attrs.extra.Some? then Unresolved(s.attrs.extra.value.conv.target, s.attrs.extra.value.conv.apply(v), path) else true
  {
  }

  /** Nor does it change where reading a path fails. */
  lemma CorrectedFailsAlike(s: Shape, v: Value, path: string)
    requires s.StructShape?
    ensures Unresolved(Corrected(s), v, path) == Unresolved(s, v, path)
  {
    var head := GetKeys(path).0;
    CorrectedSelects(s, head);
    var fs := Active(s.fields);
    match FindField(fs, head) {
      case Some(i) =>
        var cs := Active(Corrected(s).fields);
        assert cs[i] == CorrectField(fs[i]);
        assert Operand(cs[i], FieldValue(v, fs[i].name)) == Operand(fs[i], FieldValue(v, fs[i].name));
        UnresolvedSelected(s, v, path, i);
        UnresolvedSelected(Corrected(s), v, path, i);
      case None =>
        UnresolvedUnknown(s, v, path);
        UnresolvedUnknown(Corrected(s), v, path);
    }
  }

  /** The intended law, for the corrected headers: when the corrected
      struct agrees, every default column it advertises reads a cell of
      the struct as written, never `field not found`. */
  lemma CorrectedHeadersResolve(s: Shape, v: Value, h: string)
    requires s.StructShape? && Agreeing(Corrected(s)) && h in DefaultHeaders(Corrected(s))
    ensures !Unresolved(s, v, h)
  {
    TableCellsResolve(Corrected(s), v, h);
    CorrectedFailsAlike(s, v, h);
  }

  /** `Bar` has the one header `test`, which resolves. */
  lemma BarAgrees()
    ensures DefaultHeaders(BarShape) == ["test"]
    ensures Agreeing(BarShape)
  {
    var g := BarShape.fields[0];
    assert Active(BarShape.fields) == [g];
    assert FieldHeaders(BarShape, g) == ["test"];
    assert FieldsHeaders(BarShape, [g]) == FieldHeaders(BarShape, g) + FieldsHeaders(BarShape, []);
    assert FieldAgrees(BarShape, g);
  }

  lemma CorrectedMappedHeaders(toBar: Value -> Value)
    ensures Headers(Corrected(MappedShape(toBar))) == ["time.test"]
  {
    var s := Corrected(MappedShape(toBar));
    var f := s.fields[0];
    assert Active(s.fields) == [f];
    BarAgrees();
    assert HeaderShape(f) == BarShape;
    assert "time" + "." + "test" == "time.test";
    assert FieldHeaders(s, f) == Prefixed("time", ["test"]) == ["time.test"];
    assert FieldsHeaders(s, [f]) == FieldHeaders(s, f) + FieldsHeaders(s, []);
  }

  lemma CorrectedMappedAgrees(toBar: Value -> Value)
    ensures Agreeing(Corrected(MappedShape(toBar)))
  {
    var s := Corrected(MappedShape(toBar));
    var f := s.fields[0];
    assert Active(s.fields) == [f];
    BarAgrees();
    assert HeaderShape(f) == BarShape;
    assert FieldAgrees(s, f);
  }

  /** The mapped example has the one, well-named, active field `time`. */
  lemma MappedActive(toBar: Value -> Value)
    ensures Active(MappedShape(toBar).fields) == MappedShape(toBar).fields
    ensures |MappedShape(toBar).fields| == 1 && MappedShape(toBar).fields[0].name == "time"
    ensures WellNamed(MappedShape(toBar).fields)
  {
    var fs := MappedShape(toBar).fields;
    assert Active(fs) == [fs[0]] + Active([]);
    assert "time"[0] != '.' && "time"[1] != '.' && "time"[2] != '.' && "time"[3] != '.';
  }

  lemma MappedSelects(toBar: Value -> Value, v: Value)
    ensures FieldText(MappedShape(toBar), v, "time.test") == ToField(BarShape, toBar(FieldValue(v, "time")), "test")
  {
    var s := MappedShape(toBar);
    MappedActive(toBar);
    var f := s.fields[0];
    var fv := FieldValue(v, "time");
    assert Operand(f, fv) == (BarShape, toBar(fv));
    assert f.name + "." + "test" == "time.test";
    ToFieldSelects(s, v, 0, "test");
  }

  lemma MappedReads(toBar: Value -> Value, v: Value)
    ensures ToField(MappedShape(toBar), v, "time.test") == ToField(BarShape, toBar(FieldValue(v, "time")), "test")
  {
    MappedSelects(toBar, v);
    StructMap(MappedShape(toBar), v, "time.test");
  }

  /** On the example, the corrected header is `time.test`, and it reads
      the `test` field of the `Bar` that `to_bar` returns. */
  lemma CorrectedMappedField(toBar: Value -> Value, v: Value)
    ensures Headers(Corrected(MappedShape(toBar))) == ["time.test"]
    ensures Agreeing(Corrected(MappedShape(toBar)))
    ensures ToField(MappedShape(toBar), v, "time.test") == ToField(BarShape, toBar(FieldValue(v, "time")), "test")
  {
    CorrectedMappedHeaders(toBar);
    CorrectedMappedAgrees(toBar);
    MappedReads(toBar, v);
  }
}
