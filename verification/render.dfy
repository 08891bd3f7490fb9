/** What the generated `to_field` and `describe` methods do (the derive
    macro, descriptor_derive/src/lib.rs) together with the built-in
    implementations for `Option`, `Vec` and `HashMap` and the entry points
    (src/lib.rs): a value of a given shape becomes a cell text, an indented
    object view, or a table. */
module Render {
  import opened Wrappers
  import opened Text
  import opened Paths
  import opened Layout
  import Table
  import opened Schema

  /** `to_field` of a struct for a path whose head names no field. */
  const NotFound: string := "field not found"

  /** Written for `None`, an empty sequence or an empty map. */
  const Tombstone: string := "~"

  /** `to_field` of a map, whatever the path. */
  const MapPlaceholder: string := "todo"

  /** `self.<name>` on a struct value. A value that is not a struct, or
      lacks the field, cannot occur in the Rust program; it reads as an
      empty scalar. */
  function FieldValue(v: Value, name: string): Value {
    if v.Record? && name in v.fields then v.fields[name] else Scalar("")
  }

  /** `field_getter`: what a field's method is called on. The conversion is
      the field's `map` function when it has one, its `into` type
      otherwise. With `resolve_option` on an `Option` field, a present
      value is unwrapped and converted, and an absent one is passed on
      as it is, unconverted. */
  function Operand(f: Field, fv: Value): (r: (Shape, Value))
    ensures r.0 < f
  {
    var conv := if f.attrs.mapWith.Some? then f.attrs.mapWith else f.attrs.into;
    var resolving := f.attrs.resolveOption && f.shape.OptionShape?;
    if resolving && fv.Optional? && fv.content.Some? then
      if conv.Some? then (conv.value.target, conv.value.apply(fv.content.value))
      else (f.shape.inner, fv.content.value)
    else if resolving then (f.shape, fv)
    else if conv.Some? then (conv.value.target, conv.value.apply(fv))
    else (f.shape, fv)
  }

  // ---------------------------------------------------------------------
  // to_field

  /** `to_field`: the text of the cell that `path` selects in `v`. */
  function ToField(s: Shape, v: Value, path: string): string
    decreases s, 1
  {
    match s
    case ScalarShape => if v.Scalar? then v.text else ""
    case EnumShape => if v.Variant? then v.renameDescription.GetOr(v.name) else ""
    case OptionShape(inner) =>
      if v.Optional? && v.content.Some? then ToField(inner, v.content.value, path) else Tombstone
    case VecShape(e) => Join(ItemFields(e, if v.List? then v.items else [], path), ",")
    case MapShape(_) => MapPlaceholder
    case StructShape(_, a) =>
      var text := FieldText(s, v, path);
      if a.mapResult.Some? then a.mapResult.value(v, text) else text
  }

  /** The cell text of every element of a sequence, in order. */
  function ItemFields(e: Shape, items: seq<Value>, path: string): seq<string>
    decreases e, 2
  {
    seq(|items|, i requires 0 <= i < |items| => ToField(e, items[i], path))
  }

  /** The generated `match` of a struct's `to_field`, before `map`: the
      head of the path selects a field, which answers for the rest of the
      path; an unknown head goes, with the whole path, to the
      `extra_fields` type when there is one. */
  function FieldText(s: Shape, v: Value, path: string): string
    requires s.StructShape?
    decreases s, 0
  {
    var (head, child) := GetKeys(path);
    var fs := Active(s.fields);
    match FindField(fs, head)
    case Some(i) =>
      assert fs[i] in s.fields;
      var (sh, x) := Operand(fs[i], FieldValue(v, fs[i].name));
      ToField(sh, x, child)
    case None =>
      if s.attrs.extra.Some? then
        var c := s.attrs.extra.value.conv;
        ToField(c.target, c.apply(v), path)
      else NotFound
  }

  // ---------------------------------------------------------------------
  // describe

  /** `describe`: the object view of `v` at layout `ctx`. An `Err` stands
      for the point where the Rust program subtracts below zero. */
  function Describe(s: Shape, v: Value, ctx: Context): Result<string>
    decreases s, 1
  {
    match s
    case ScalarShape => WriteValue(ctx, ToField(s, v, ""))
    case EnumShape => WriteValue(ctx, ToField(s, v, ""))
    case OptionShape(inner) =>
      if v.Optional? && v.content.Some? then Describe(inner, v.content.value, ctx)
      else WriteValue(ctx, Tombstone)
    case VecShape(e) =>
      if v.List? && v.items != [] then DescribeItems(e, v.items, ctx.Array())
      else WriteValue(ctx, Tombstone)
    case MapShape(e) => DescribeMap(e, v, ctx)
    case StructShape(_, _) => DescribeStruct(s, v, ctx)
  }

  /** A map: its entries in ascending key order, the label column one past
      the longest key. */
  function DescribeMap(e: Shape, v: Value, ctx: Context): Result<string>
    decreases e, 3
  {
    if v.Dict? && |v.entries| > 0 then
      var keys := SortedKeys(v.entries.Keys);
      DescribeEntries(e, keys, v.entries, MaxLen(keys) + 1, ctx)
    else WriteValue(ctx, Tombstone)
  }

  /** A struct: through its `into` type when it has one; otherwise its
      described fields, then its `extra_fields` type in its own label
      column. */
  function DescribeStruct(s: Shape, v: Value, ctx: Context): Result<string>
    requires s.StructShape?
    decreases s, 0, |s.fields| + 1
  {
    var a := s.attrs;
    if a.into.Some? then Describe(a.into.value.target, a.into.value.apply(v), ctx)
    else
      var body :- DescribeFields(s, Described(Active(s.fields)), v, ctx, true);
      if a.extra.Some? then
        var c := a.extra.value.conv;
        var more :- Describe(c.target, c.apply(v), ctx.Pad(StructPad(s)));
        Ok(body + more)
      else Ok(body)
  }

  /** The elements of a sequence one after the other, each at `ctx`. */
  function DescribeItems(e: Shape, items: seq<Value>, ctx: Context): Result<string>
    decreases e, 2, |items|
  {
    if items == [] then Ok("")
    else Then(Describe(e, items[0], ctx), DescribeItems(e, items[1..], ctx))
  }

  /** Two pieces of text written one after the other; a fault in either
      stops the render. */
  function Then(a: Result<string>, b: Result<string>): (r: Result<string>)
    ensures r.Ok? <==> a.Ok? && b.Ok?
    ensures r.Ok? ==> r.value == a.value + b.value
  {
    var x :- a;
    var y :- b;
    Ok(x + y)
  }

  /** `m[k]`. The keys looked up are always the map's own; a missing one
      reads as an empty scalar. */
  function Lookup(m: map<string, Value>, k: string): Value {
    if k in m then m[k] else Scalar("")
  }

  /** The entries of a map in the order of `keys`: the key as a label,
      then its value one level deeper with the label column at `pad`. */
  function DescribeEntries(e: Shape, keys: seq<string>, m: map<string, Value>, pad: nat, ctx: Context): Result<string>
    decreases e, 2, |keys|
  {
    if keys == [] then Ok("")
    else
      var k := keys[0];
      var title :- WriteTitle(ctx, k, false);
      var value :- Describe(e, Lookup(m, k), ctx.Indent(pad, |k|));
      var rest :- DescribeEntries(e, keys[1..], m, pad, ctx);
      Ok(title + value + rest)
  }

  /** The fields of a struct in declared order; only the first one gets
      the bullet of a sequence element. */
  function DescribeFields(parent: Shape, fs: seq<Field>, v: Value, ctx: Context, first: bool): Result<string>
    requires FieldsOf(parent, fs)
    decreases parent, 0, |fs|
  {
    if fs == [] then Ok("")
    else
      var head :- DescribeField(parent, fs[0], v, ctx, first);
      var tail := fs[1..];
      assert forall i | 0 <= i < |tail| :: tail[i] == fs[i + 1];
      var rest :- DescribeFields(parent, tail, v, ctx, false);
      Ok(head + rest)
  }

  /** `describe_field`: a flattened field's value is written in place, in
      the parent's label column; any other field gets its title-cased
      label, then either an embedded table (`output_table`) or its value
      one level deeper, in the parent's label column. */
  function DescribeField(parent: Shape, f: Field, v: Value, ctx: Context, first: bool): Result<string>
    requires parent.StructShape? && f in parent.fields
    decreases parent, 0, 0
  {
    var fv := FieldValue(v, f.name);
    if f.attrs.flatten then Describe(f.shape, fv, ctx.Pad(StructPad(parent)))
    else
      var title := TitleCase(f.name);
      var line :- WriteTitle(ctx, title, first);
      if f.attrs.outputTable && f.shape.VecShape? then
        var items := if fv.List? then fv.items else [];
        Ok(line + "\n" + TableBody(f.shape.elem, items, [], ctx.IndentAndTable().offset))
      else
        var (sh, x) := Operand(f, fv);
        var value :- Describe(sh, x, ctx.Indent(StructPad(parent), |title|));
        Ok(line + value)
  }

  // ---------------------------------------------------------------------
  // Tables

  /** The headers a table shows: those asked for, or the type's default
      headers when none are. */
  function Columns(s: Shape, explicit: seq<string>): seq<string> {
    if explicit == [] then DefaultHeaders(s) else explicit
  }

  /** The label of a column: the type's own name for the path, or the path
      in upper snake case. */
  function Label(s: Shape, path: string): string {
    match HeaderName(s, path)
    case Some(name) => name
    case None => UpperSnake(path)
  }

  function Labels(s: Shape, headers: seq<string>): (r: seq<string>)
    ensures |r| == |headers|
  {
    seq(|headers|, j requires 0 <= j < |headers| => Label(s, headers[j]))
  }

  /** One row per item, one cell per header. */
  function Cells(s: Shape, items: seq<Value>, headers: seq<string>): (r: seq<seq<string>>)
    ensures |r| == |items| && Table.Rectangular(r, |headers|)
  {
    seq(|items|, i requires 0 <= i < |items| =>
      seq(|headers|, j requires 0 <= j < |headers| => ToField(s, items[i], headers[j])))
  }

  /** `describe_list_internal`: the table of `items` at indentation
      `offset`. */
  function TableBody(s: Shape, items: seq<Value>, explicit: seq<string>, offset: nat): string {
    var headers := Columns(s, explicit);
    Table.Render(Labels(s, headers), Cells(s, items, headers), offset)
  }

  // ---------------------------------------------------------------------
  // Entry points

  /** `object_describe`: the object view from `Context::default()`, with a
      closing line break. */
  function ObjectDescribe(s: Shape, v: Value): Result<string> {
    var text :- Describe(s, v, Root);
    Ok(text + "\n")
  }

  /** `describe_list_with_header` (`describe_list` when `headers` is
      empty): the table from column 0, with a closing line break. */
  function TableDescribe(s: Shape, items: seq<Value>, headers: seq<string>): string {
    TableBody(s, items, headers, Root.offset) + "\n"
  }

  // ---------------------------------------------------------------------
  // No subtraction below zero

  /** `s` never reaches a sequence without going one level deeper first:
      no `Vec` at its own level, nor inside what an `Option`, a struct
      `into`, a flattened field or an `extra_fields` type renders at that
      same level. */
  ghost predicate StaysInline(s: Shape)
    decreases s
  {
    match s
    case VecShape(_) => false
    case OptionShape(inner) => StaysInline(inner)
    case StructShape(fields, a) =>
      if a.into.Some? then StaysInline(a.into.value.target)
      else
        && (forall f | f in fields && f.attrs.flatten :: StaysInline(f.shape))
        && (a.extra.Some? ==> StaysInline(a.extra.value.conv.target))
    case _ => true
  }

  /** A context the line writers accept: the label fits in its column, and
      a bullet has two columns of indentation to go in. */
  predicate Writable(ctx: Context) {
    ctx.Aligned() && (ctx.isArray ==> ctx.offset >= 2)
  }

  /** Rendering never subtracts below zero from a writable context, as long
      as a sequence is only reached one level below column 0. */
  lemma {:induction false} DescribeOk(s: Shape, v: Value, ctx: Context)
    requires Writable(ctx)
    requires ctx.offset < 2 ==> StaysInline(s)
    ensures Describe(s, v, ctx).Ok?
    decreases s, 1
  {
    match s
    case ScalarShape =>
    case EnumShape =>
    case OptionShape(inner) =>
      if v.Optional? && v.content.Some? {
        DescribeOk(inner, v.content.value, ctx);
      }
    case VecShape(e) =>
      if v.List? && v.items != [] {
        ItemsOk(e, v.items, ctx.Array());
      }
    case MapShape(e) => MapOk(e, v, ctx);
    case StructShape(_, _) => StructOk(s, v, ctx);
  }

  lemma {:induction false} MapOk(e: Shape, v: Value, ctx: Context)
    requires Writable(ctx)
    ensures DescribeMap(e, v, ctx).Ok?
    decreases e, 3
  {
    if v.Dict? && |v.entries| > 0 {
      var keys := SortedKeys(v.entries.Keys);
      EntriesOk(e, keys, v.entries, MaxLen(keys) + 1, ctx);
    }
  }

  lemma {:induction false} StructOk(s: Shape, v: Value, ctx: Context)
    requires s.StructShape?
    requires Writable(ctx)
    requires ctx.offset < 2 ==> StaysInline(s)
    ensures DescribeStruct(s, v, ctx).Ok?
    decreases s, 0, |s.fields| + 1
  {
    var a := s.attrs;
    if a.into.Some? {
      DescribeOk(a.into.value.target, a.into.value.apply(v), ctx);
    } else {
      FieldsOk(s, Described(Active(s.fields)), v, ctx, true);
      if a.extra.Some? {
        var c := a.extra.value.conv;
        DescribeOk(c.target, c.apply(v), ctx.Pad(StructPad(s)));
      }
    }
  }

  lemma {:induction false} ItemsOk(e: Shape, items: seq<Value>, ctx: Context)
    requires Writable(ctx) && ctx.offset >= 2
    ensures DescribeItems(e, items, ctx).Ok?
    decreases e, 2, |items|
  {
    if items != [] {
      DescribeOk(e, items[0], ctx);
      ItemsOk(e, items[1..], ctx);
    }
  }

  lemma {:induction false} EntriesOk(e: Shape, keys: seq<string>, m: map<string, Value>, pad: nat, ctx: Context)
    requires forall i | 0 <= i < |keys| :: |keys[i]| <= pad
    ensures DescribeEntries(e, keys, m, pad, ctx).Ok?
    decreases e, 2, |keys|
  {
    if keys != [] {
      DescribeOk(e, Lookup(m, keys[0]), ctx.Indent(pad, |keys[0]|));
      EntriesOk(e, keys[1..], m, pad, ctx);
    }
  }

  lemma {:induction false} FieldsOk(parent: Shape, fs: seq<Field>, v: Value, ctx: Context, first: bool)
    requires parent.StructShape? && forall i | 0 <= i < |fs| :: fs[i] in Active(parent.fields)
    requires FieldsOf(parent, fs)
    requires Writable(ctx)
    requires ctx.offset < 2 ==> forall f | f in parent.fields && f.attrs.flatten :: StaysInline(f.shape)
    ensures DescribeFields(parent, fs, v, ctx, first).Ok?
    decreases parent, 0, |fs|
  {
    if fs != [] {
      FieldOk(parent, fs[0], v, ctx, first);
      var tail := fs[1..];
      assert forall i | 0 <= i < |tail| :: tail[i] == fs[i + 1];
      FieldsOk(parent, tail, v, ctx, false);
    }
  }

  lemma {:induction false} FieldOk(parent: Shape, f: Field, v: Value, ctx: Context, first: bool)
    requires parent.StructShape? && f in Active(parent.fields) && f in parent.fields
    requires Writable(ctx)
    requires ctx.offset < 2 && f.attrs.flatten ==> StaysInline(f.shape)
    ensures DescribeField(parent, f, v, ctx, first).Ok?
    decreases parent, 0, 0
  {
    var fv := FieldValue(v, f.name);
    if f.attrs.flatten {
      DescribeOk(f.shape, fv, ctx.Pad(StructPad(parent)));
    } else if !(f.attrs.outputTable && f.shape.VecShape?) {
      var title := TitleCase(f.name);
      TitleFits(parent, f);
      var (sh, x) := Operand(f, fv);
      DescribeOk(sh, x, ctx.Indent(StructPad(parent), |title|));
    }
  }

  /** Every shape that stays inline renders from the top without fault,
      and the text ends with a line break. */
  lemma ObjectDescribeOk(s: Shape, v: Value)
    requires StaysInline(s)
    ensures ObjectDescribe(s, v).Ok?
    ensures var text := ObjectDescribe(s, v).value; |text| > 0 && text[|text| - 1] == '\n'
  {
    DescribeOk(s, v, Root);
  }

  /** The restriction is needed: a non-empty sequence rendered at the top
      asks for two columns of indentation that are not there. */
  lemma TopLevelListFails(e: Shape, items: seq<Value>)
    requires e.ScalarShape? || e.EnumShape?
    requires items != []
    ensures ObjectDescribe(VecShape(e), List(items)) == Err(Underflow)
  {
    var ctx := Root.Array();
    assert Describe(e, items[0], ctx) == Err(Underflow);
    assert DescribeItems(e, items, ctx) == Err(Underflow);
  }

  /** A struct whose first described field is labelled (not flattened)
      faults as a sequence element at column 0 or 1: the bullet has no room. */
  lemma StructElementFails(s: Shape, v: Value, ctx: Context)
    requires s.StructShape? && s.attrs.into.None?
    requires Described(Active(s.fields)) != [] && !Described(Active(s.fields))[0].attrs.flatten
    requires ctx.isArray && ctx.offset < 2
    ensures DescribeStruct(s, v, ctx) == Err(Underflow)
  {
    var fs := Described(Active(s.fields));
    assert fs[0] in s.fields;
    assert WriteTitle(ctx, TitleCase(fs[0].name), true) == Err(Underflow);
    assert DescribeField(s, fs[0], v, ctx, true) == Err(Underflow);
    assert DescribeFields(s, fs, v, ctx, true) == Err(Underflow);
  }

  /** Hence a non-empty sequence of such structs, described directly at
      column 0, faults too. */
  lemma TopLevelStructListFails(s: Shape, items: seq<Value>)
    requires s.StructShape? && s.attrs.into.None?
    requires Described(Active(s.fields)) != [] && !Described(Active(s.fields))[0].attrs.flatten
    requires items != []
    ensures ObjectDescribe(VecShape(s), List(items)) == Err(Underflow)
  {
    var ctx := Root.Array();
    StructElementFails(s, items[0], ctx);
    assert Describe(s, items[0], ctx) == Err(Underflow);
    FirstItemFails(s, items, ctx);
  }

  /** A fault in the first element stops the whole sequence. */
  lemma FirstItemFails(e: Shape, items: seq<Value>, ctx: Context)
    requires items != [] && Describe(e, items[0], ctx) == Err(Underflow)
    ensures DescribeItems(e, items, ctx) == Err(Underflow)
    ensures ctx == Root.Array() ==> ObjectDescribe(VecShape(e), List(items)) == Err(Underflow)
  {
  }

  // ---------------------------------------------------------------------
  // Containers

  /** `None`, an empty sequence and an empty map are written as `~` in the
      value column; as cells, `None` reads `~` and an empty sequence reads
      as nothing. */
  lemma EmptyContainers(e: Shape, ctx: Context, path: string)
    requires !ctx.isArray && ctx.Aligned()
    ensures Describe(OptionShape(e), Optional(None), ctx) == Ok(Spaces(ctx.pad - ctx.titleSize) + Tombstone)
    ensures Describe(VecShape(e), List([]), ctx) == Ok(Spaces(ctx.pad - ctx.titleSize) + Tombstone)
    ensures Describe(MapShape(e), Dict(map[]), ctx) == Ok(Spaces(ctx.pad - ctx.titleSize) + Tombstone)
    ensures ToField(OptionShape(e), Optional(None), path) == Tombstone
    ensures ToField(VecShape(e), List([]), path) == ""
  {
    assert WriteValue(ctx, Tombstone) == Ok(Spaces(ctx.pad - ctx.titleSize) + Tombstone);
  }

  /** `Option` is transparent: a present value is written, read and
      labelled exactly as the value it holds. Its default headers are the
      full headers of what it wraps: an `Option` does not forward
      `default_headers`, so a wrapped struct's `skip_header` and explicit
      list do not apply through it. */
  lemma OptionTransparent(inner: Shape, x: Value, ctx: Context, path: string)
    ensures Describe(OptionShape(inner), Optional(Some(x)), ctx) == Describe(inner, x, ctx)
    ensures ToField(OptionShape(inner), Optional(Some(x)), path) == ToField(inner, x, path)
    ensures HeaderName(OptionShape(inner), path) == HeaderName(inner, path)
    ensures DefaultHeaders(OptionShape(inner)) == Headers(inner)
  {
  }

  /** The cell of a sequence lists its elements' cells in order, separated
      by commas: one more element adds a comma and its cell at the end. */
  lemma {:induction false} ListCellSnoc(e: Shape, items: seq<Value>, x: Value, path: string)
    ensures ToField(VecShape(e), List(items + [x]), path)
         == if items == [] then ToField(e, x, path)
            else ToField(VecShape(e), List(items), path) + "," + ToField(e, x, path)
  {
    var parts := ItemFields(e, items, path);
    assert ItemFields(e, items + [x], path) == parts + [ToField(e, x, path)];
    if items != [] {
      JoinSnoc(parts, ToField(e, x, path), ",");
    }
  }

  /** The elements of a sequence are written in order: the text for
      `a + b` is the text for `a` followed by the text for `b`, and a fault
      in `a` is a fault of the whole. */
  lemma {:induction false} ItemsAppend(e: Shape, a: seq<Value>, b: seq<Value>, ctx: Context)
    ensures DescribeItems(e, a + b, ctx) == Then(DescribeItems(e, a, ctx), DescribeItems(e, b, ctx))
    decreases |a|
  {
    if a == [] {
      assert a + b == b;
      assert DescribeItems(e, a, ctx) == Ok("");
      ThenUnit(DescribeItems(e, b, ctx));
    } else {
      ItemsCons(e, a, b, ctx);
      ItemsAppend(e, a[1..], b, ctx);
      var h := Describe(e, a[0], ctx);
      assert DescribeItems(e, a, ctx) == Then(h, DescribeItems(e, a[1..], ctx));
      ThenAssoc(h, DescribeItems(e, a[1..], ctx), DescribeItems(e, b, ctx));
    }
  }

  lemma ItemsCons(e: Shape, a: seq<Value>, b: seq<Value>, ctx: Context)
    requires a != []
    ensures DescribeItems(e, a + b, ctx) == Then(Describe(e, a[0], ctx), DescribeItems(e, a[1..] + b, ctx))
  {
    assert (a + b)[0] == a[0];
    assert (a + b)[1..] == a[1..] + b;
  }

  /** Nothing written first changes nothing. */
  lemma ThenUnit(r: Result<string>)
    ensures Then(Ok(""), r) == r
  {
    if r.Ok? {
      assert "" + r.value == r.value;
    }
  }

  /** Writing is associative, faults included. */
  lemma ThenAssoc(x: Result<string>, y: Result<string>, z: Result<string>)
    ensures Then(x, Then(y, z)) == Then(Then(x, y), z)
  {
    if x.Ok? && y.Ok? && z.Ok? {
      assert x.value + (y.value + z.value) == (x.value + y.value) + z.value;
    }
  }

  /** One map entry with a plain value: a new line, the key at the
      indentation, `:`, blanks up to the label column `col`, then the
      value's text. */
  function EntryLine(k: string, text: string, col: nat, offset: nat): string
    requires |k| <= col
  {
    "\n" + Spaces(offset) + k + ":" + Spaces(col - |k|) + text
  }

  /** The entries of a map of plain values, written out directly. */
  function EntryLines(keys: seq<string>, m: map<string, Value>, col: nat, offset: nat): string
    requires forall i | 0 <= i < |keys| :: |keys[i]| <= col
  {
    if keys == [] then ""
    else EntryLine(keys[0], ToField(ScalarShape, Lookup(m, keys[0]), ""), col, offset) + EntryLines(keys[1..], m, col, offset)
  }

  lemma {:induction false} ScalarEntries(keys: seq<string>, m: map<string, Value>, pad: nat, ctx: Context)
    requires forall i | 0 <= i < |keys| :: |keys[i]| <= pad
    ensures DescribeEntries(ScalarShape, keys, m, pad, ctx) == Ok(EntryLines(keys, m, Max(pad, ctx.upperPad), ctx.offset))
    decreases |keys|
  {
    if keys != [] {
      var col := Max(pad, ctx.upperPad);
      var k := keys[0];
      var text := ToField(ScalarShape, Lookup(m, k), "");
      ScalarEntries(keys[1..], m, pad, ctx);
      var rest := EntryLines(keys[1..], m, col, ctx.offset);
      var value := WriteValue(ctx.Indent(pad, |k|), text).value;
      assert value == Spaces(col - |k|) + text;
      var title := WriteTitle(ctx, k, false).value;
      assert title == "\n" + Spaces(ctx.offset) + k + ":";
      assert DescribeEntries(ScalarShape, keys, m, pad, ctx) == Ok(title + value + rest);
      assert EntryLines(keys, m, col, ctx.offset) == EntryLine(k, text, col, ctx.offset) + rest;
      assert title + value == EntryLine(k, text, col, ctx.offset);
    }
  }

  /** A map of plain values is written in the order of its sorted keys,
      one entry per line, every value starting in the same column: one
      past the longest key (or the column proposed from above, if
      wider). */
  lemma ScalarMapLines(m: map<string, Value>, ctx: Context)
    requires |m| > 0
    ensures Describe(MapShape(ScalarShape), Dict(m), ctx)
         == Ok(EntryLines(SortedKeys(m.Keys), m, Max(MaxLen(SortedKeys(m.Keys)) + 1, ctx.upperPad), ctx.offset))
  {
    var keys := SortedKeys(m.Keys);
    var pad := MaxLen(keys) + 1;
    var d := DescribeEntries(ScalarShape, keys, m, pad, ctx);
    assert DescribeMap(ScalarShape, Dict(m), ctx) == d;
    ScalarEntries(keys, m, pad, ctx);
  }

  /** The sorted keys are the map's keys, each once, strictly ascending. */
  lemma MapKeyOrder(m: map<string, Value>)
    ensures var keys := SortedKeys(m.Keys);
      && |keys| == |m|
      && (forall k :: k in keys <==> k in m)
      && (forall i, j | 0 <= i < j < |keys| :: Below(keys[i], keys[j]))
  {
    SortedKeysMembers(m.Keys);
    SortedKeysAscending(m.Keys);
  }

  // ---------------------------------------------------------------------
  // Paths

  /** A struct's `to_field` is its field dispatch, post-processed by the
      struct-level `map` when there is one: the function receives the
      struct and the text the dispatch produced. */
  lemma StructMap(s: Shape, v: Value, path: string)
    requires s.StructShape?
    ensures s.attrs.mapResult.None? ==> ToField(s, v, path) == FieldText(s, v, path)
    ensures s.attrs.mapResult.Some? ==> ToField(s, v, path) == s.attrs.mapResult.value(v, FieldText(s, v, path))
  {
  }

  /** With distinct, dot-free field names, a path whose head is a field's
      name is answered by that field (after its conversion) for the rest
      of the path; the bare name asks it for the empty path. */
  lemma ToFieldSelects(s: Shape, v: Value, k: nat, rest: string)
    requires s.StructShape?
    requires WellNamed(Active(s.fields)) && k < |Active(s.fields)|
    ensures var f := Active(s.fields)[k];
      var op := Operand(f, FieldValue(v, f.name));
      && FieldText(s, v, f.name) == ToField(op.0, op.1, "")
      && FieldText(s, v, f.name + "." + rest) == ToField(op.0, op.1, rest)
  {
    var fs := Active(s.fields);
    GetKeysOfJoined(fs[k].name, rest);
    FirstFound(fs, k);
  }

  /** A path whose head names no field goes, whole, to the `extra_fields`
      type, or reads `field not found` when there is none. */
  lemma ToFieldFallback(s: Shape, v: Value, path: string)
    requires s.StructShape?
    requires forall i | 0 <= i < |Active(s.fields)| :: Active(s.fields)[i].name != GetKeys(path).0
    ensures s.attrs.extra.None? ==> FieldText(s, v, path) == NotFound
    ensures s.attrs.extra.Some? ==>
      FieldText(s, v, path) == ToField(s.attrs.extra.value.conv.target, s.attrs.extra.value.conv.apply(v), path)
  {
  }

  /** `skip_header` hides a field from the default columns only: asked for
      by name, the field still answers. */
  lemma SkipHeaderStillSelects(s: Shape, v: Value, k: nat)
    requires s.StructShape? && s.attrs.defaultHeaders.None?
    requires WellNamed(Active(s.fields)) && k < |Active(s.fields)|
    requires Active(s.fields)[k].attrs.skipHeader
    ensures var f := Active(s.fields)[k];
      var op := Operand(f, FieldValue(v, f.name));
      && f.name !in DefaultHeaders(s)
      && FieldText(s, v, f.name) == ToField(op.0, op.1, "")
  {
    var fs := Active(s.fields);
    DefaultHeadersFilter(s, fs[k].name);
    assert SkipsHeader(fs, fs[k].name) by {
      assert fs[k].attrs.skipHeader && fs[k].name == fs[k].name;
    }
    ToFieldSelects(s, v, k, "");
  }

  /** An enum's cell is its variant's description whatever the path. */
  lemma EnumIgnoresPath(v: Value, path: string)
    requires v.Variant?
    ensures ToField(EnumShape, v, path) == ToField(EnumShape, v, "")
    ensures v.renameDescription.None? ==> ToField(EnumShape, v, path) == v.name
    ensures v.renameDescription.Some? ==> ToField(EnumShape, v, path) == v.renameDescription.value
  {
  }

  // ---------------------------------------------------------------------
  // Fields

  /** `resolve_option` on an `Option` field holding a value is the same as
      a plain field of the inner type holding that value; an absent value
      is passed on unconverted and reads `~`. */
  lemma ResolvedOption(f: Field, x: Value, path: string)
    requires f.attrs.resolveOption && f.shape.OptionShape?
    ensures Operand(f, Optional(Some(x)))
         == Operand(Field(f.name, f.shape.inner, f.attrs.(resolveOption := false)), x)
    ensures var op := Operand(f, Optional(None)); ToField(op.0, op.1, path) == Tombstone
  {
  }

  /** Fields of a flattened struct line up with the fields around it: one
      level down, a flattened field's own fields use the same label column
      as the parent's own fields. */
  lemma FlattenedColumn(parent: Shape, k: nat, ctx: Context, title: nat)
    requires parent.StructShape? && k < |Active(parent.fields)|
    requires Active(parent.fields)[k].attrs.flatten
    ensures var f := Active(parent.fields)[k];
      ctx.Pad(StructPad(parent)).Indent(StructPad(f.shape), title).pad == ctx.Indent(StructPad(parent), title).pad
  {
    StructPadBounds(parent);
  }

  /** A plain text field is written as its label line with the value at
      column `offset + Max(StructPad(parent), upperPad) + 2` (index 0 being
      the line break), whatever the label's length. */
  lemma PlainFieldLine(parent: Shape, f: Field, v: Value, ctx: Context, first: bool)
    requires parent.StructShape? && f in Active(parent.fields) && f in parent.fields
    requires f.shape.ScalarShape? && !f.attrs.flatten && f.attrs.mapWith.None? && f.attrs.into.None?
    requires first && ctx.isArray ==> ctx.offset >= 2
    ensures DescribeField(parent, f, v, ctx, first).Ok?
    ensures var line := DescribeField(parent, f, v, ctx, first).value;
      var col := ctx.offset + Max(StructPad(parent), ctx.upperPad) + 2;
      && col <= |line|
      && line[col..] == ToField(ScalarShape, FieldValue(v, f.name), "")
  {
    var title := TitleCase(f.name);
    var fv := FieldValue(v, f.name);
    var text := ToField(ScalarShape, fv, "");
    TitleFits(parent, f);
    ValueColumn(ctx, title, StructPad(parent), text, first);
    var inner := ctx.Indent(StructPad(parent), |title|);
    assert Operand(f, fv) == (ScalarShape, fv);
    OperandLine(parent, f, v, ctx, first);
    assert Describe(ScalarShape, fv, inner) == WriteValue(inner, text);
  }

  /** A field that is neither flattened nor an embedded table is its label
      line followed by its operand's value one level deeper. */
  lemma OperandLine(parent: Shape, f: Field, v: Value, ctx: Context, first: bool)
    requires parent.StructShape? && f in parent.fields
    requires !f.attrs.flatten && !(f.attrs.outputTable && f.shape.VecShape?)
    requires WriteTitle(ctx, TitleCase(f.name), first).Ok?
    requires var op := Operand(f, FieldValue(v, f.name));
      Describe(op.0, op.1, ctx.Indent(StructPad(parent), |TitleCase(f.name)|)).Ok?
    ensures var op := Operand(f, FieldValue(v, f.name));
      DescribeField(parent, f, v, ctx, first)
        == Ok(WriteTitle(ctx, TitleCase(f.name), first).value
              + Describe(op.0, op.1, ctx.Indent(StructPad(parent), |TitleCase(f.name)|)).value)
  {
  }

  /** Once `first_field` is false, bullet mode no longer matters: a field
      renders exactly as it would outside a sequence. */
  lemma FieldIgnoresBullet(parent: Shape, f: Field, v: Value, ctx: Context)
    requires parent.StructShape? && f in parent.fields
    ensures DescribeField(parent, f, v, ctx, false) == DescribeField(parent, f, v, ctx.(isArray := false), false)
  {
    assert ctx.Pad(StructPad(parent)) == ctx.(isArray := false).Pad(StructPad(parent));
    assert WriteTitle(ctx, TitleCase(f.name), false) == WriteTitle(ctx.(isArray := false), TitleCase(f.name), false);
  }

  lemma {:induction false} FieldsIgnoreBullet(parent: Shape, fs: seq<Field>, v: Value, ctx: Context)
    requires FieldsOf(parent, fs)
    ensures DescribeFields(parent, fs, v, ctx, false) == DescribeFields(parent, fs, v, ctx.(isArray := false), false)
    decreases |fs|
  {
    if fs != [] {
      assert fs[0] in parent.fields;
      assert forall i | 0 <= i < |fs[1..]| :: fs[1..][i] == fs[i + 1];
      FieldIgnoresBullet(parent, fs[0], v, ctx);
      FieldsIgnoreBullet(parent, fs[1..], v, ctx);
    }
  }

  /** Only the first field of a struct sees the sequence's bullet mode:
      the fields after it render as they would outside a sequence. */
  lemma BulletOnFirst(parent: Shape, fs: seq<Field>, v: Value, ctx: Context, first: bool)
    requires FieldsOf(parent, fs) && fs != []
    ensures FieldsOf(parent, fs[1..])
    ensures DescribeFields(parent, fs, v, ctx, first)
         == Then(DescribeField(parent, fs[0], v, ctx, first), DescribeFields(parent, fs[1..], v, ctx.(isArray := false), false))
  {
    assert forall i | 0 <= i < |fs[1..]| :: fs[1..][i] == fs[i + 1];
    FieldsIgnoreBullet(parent, fs[1..], v, ctx);
  }

  /** A struct without `into` starts with its described fields. */
  lemma StructStartsWithFields(s: Shape, v: Value, ctx: Context)
    requires s.StructShape? && s.attrs.into.None?
    requires DescribeStruct(s, v, ctx).Ok?
    ensures FieldsOf(s, Described(Active(s.fields)))
    ensures var body := DescribeFields(s, Described(Active(s.fields)), v, ctx, true);
      body.Ok? && body.value <= DescribeStruct(s, v, ctx).value
  {
    var body := DescribeFields(s, Described(Active(s.fields)), v, ctx, true);
    if s.attrs.extra.Some? {
      var c := s.attrs.extra.value.conv;
      var more := Describe(c.target, c.apply(v), ctx.Pad(StructPad(s)));
      assert DescribeStruct(s, v, ctx) == Ok(body.value + more.value);
      PrefixOfAppend(body.value, more.value);
    } else {
      assert DescribeStruct(s, v, ctx) == body;
    }
  }

  /** A run of fields starts with its first field. */
  lemma FieldsStartWithFirst(parent: Shape, fs: seq<Field>, v: Value, ctx: Context, first: bool)
    requires FieldsOf(parent, fs) && fs != []
    requires DescribeFields(parent, fs, v, ctx, first).Ok?
    ensures fs[0] in parent.fields
    ensures var head := DescribeField(parent, fs[0], v, ctx, first);
      head.Ok? && head.value <= DescribeFields(parent, fs, v, ctx, first).value
  {
  }

  /** A field that is not flattened starts with its label line. */
  lemma FieldStartsWithTitle(parent: Shape, f: Field, v: Value, ctx: Context, first: bool)
    requires parent.StructShape? && f in parent.fields && !f.attrs.flatten
    requires DescribeField(parent, f, v, ctx, first).Ok?
    ensures var line := WriteTitle(ctx, TitleCase(f.name), first);
      line.Ok? && line.value <= DescribeField(parent, f, v, ctx, first).value
  {
  }

  /** A struct without `into` starts with its first described field. */
  lemma StructFirstField(s: Shape, v: Value, ctx: Context)
    requires s.StructShape? && s.attrs.into.None?
    requires Described(Active(s.fields)) != []
    requires DescribeStruct(s, v, ctx).Ok?
    ensures Described(Active(s.fields))[0] in s.fields
    ensures var head := DescribeField(s, Described(Active(s.fields))[0], v, ctx, true);
      head.Ok? && head.value <= DescribeStruct(s, v, ctx).value
  {
    var fs := Described(Active(s.fields));
    StructStartsWithFields(s, v, ctx);
    FieldsStartWithFirst(s, fs, v, ctx, true);
    PrefixTrans(DescribeField(s, fs[0], v, ctx, true).value, DescribeFields(s, fs, v, ctx, true).value, DescribeStruct(s, v, ctx).value);
  }

  /** A struct without `into` whose first described field is not
      flattened starts with that field's label: bulleted (`- ` in the last
      two columns of the indentation) when it is a sequence element, plain
      otherwise. */
  lemma StructBullet(s: Shape, v: Value, ctx: Context)
    requires s.StructShape? && s.attrs.into.None?
    requires Described(Active(s.fields)) != [] && !Described(Active(s.fields))[0].attrs.flatten
    requires DescribeStruct(s, v, ctx).Ok?
    ensures var g := Described(Active(s.fields))[0];
      var text := DescribeStruct(s, v, ctx).value;
      && (ctx.isArray ==> ctx.offset >= 2 && "\n" + Spaces(ctx.offset - 2) + "- " + TitleCase(g.name) + ":" <= text)
      && (!ctx.isArray ==> "\n" + Spaces(ctx.offset) + TitleCase(g.name) + ":" <= text)
  {
    var g := Described(Active(s.fields))[0];
    StructFirstField(s, v, ctx);
    FieldStartsWithTitle(s, g, v, ctx, true);
    PrefixTrans(WriteTitle(ctx, TitleCase(g.name), true).value, DescribeField(s, g, v, ctx, true).value, DescribeStruct(s, v, ctx).value);
  }

  /** A flattened field is its type's render at `ctx.pad(struct_pad)`. */
  lemma FlattenedField(parent: Shape, f: Field, v: Value, ctx: Context, first: bool)
    requires parent.StructShape? && f in parent.fields && f.attrs.flatten
    ensures DescribeField(parent, f, v, ctx, first) == Describe(f.shape, FieldValue(v, f.name), ctx.Pad(StructPad(parent)))
  {
  }

  /** A struct's `describe` is the struct description. */
  lemma DescribeOfStruct(s: Shape, v: Value, ctx: Context)
    requires s.StructShape?
    ensures Describe(s, v, ctx) == DescribeStruct(s, v, ctx)
  {
  }

  /** A flattened first field takes the bullet away: `ctx.pad` leaves
      sequence mode, so when the first described field is a flattened
      struct, its own first field is labelled without `- ` even in a
      sequence element (and by `BulletOnFirst` the fields after the
      flattened one are written with `first_field` false). */
  lemma FlattenedFirstLosesBullet(s: Shape, v: Value, ctx: Context)
    requires s.StructShape? && s.attrs.into.None?
    requires Described(Active(s.fields)) != [] && Described(Active(s.fields))[0].attrs.flatten
    requires var t := Described(Active(s.fields))[0].shape;
      && t.StructShape? && t.attrs.into.None?
      && Described(Active(t.fields)) != [] && !Described(Active(t.fields))[0].attrs.flatten
    requires DescribeStruct(s, v, ctx).Ok?
    ensures var g := Described(Active(Described(Active(s.fields))[0].shape.fields))[0];
      "\n" + Spaces(ctx.offset) + TitleCase(g.name) + ":" <= DescribeStruct(s, v, ctx).value
  {
    var f := Described(Active(s.fields))[0];
    var t := f.shape;
    var fv := FieldValue(v, f.name);
    var inner := ctx.Pad(StructPad(s));
    StructFirstField(s, v, ctx);
    FlattenedField(s, f, v, ctx, true);
    DescribeOfStruct(t, fv, inner);
    StructBullet(t, fv, inner);
    var g := Described(Active(t.fields))[0];
    PrefixTrans("\n" + Spaces(ctx.offset) + TitleCase(g.name) + ":", DescribeStruct(t, fv, inner).value, DescribeStruct(s, v, ctx).value);
  }

  // ---------------------------------------------------------------------
  // Tables

  /** With no items the table is the header row, each label as wide as
      itself, then `Empty list`. */
  lemma EmptyTable(s: Shape, explicit: seq<string>, offset: nat)
    ensures var labels := Labels(s, Columns(s, explicit));
      TableBody(s, [], explicit, offset)
        == Table.Line(labels, Table.Lengths(labels), Table.Lengths(labels), offset) + Table.EmptyList + "\n"
  {
    var headers := Columns(s, explicit);
    assert Cells(s, [], headers) == [];
    Table.EmptyRender(Labels(s, headers), offset);
  }

  /** A table's cells line up under their labels: the cell of item `i`
      for column `j` starts at the same position of its line as label `j`
      in the header, provided the cells left of it carry no escape
      sequences. */
  lemma TableColumnsAlign(s: Shape, items: seq<Value>, headers: seq<string>, offset: nat, i: nat, j: nat)
    requires i < |items| && j < |headers|
    requires forall k | 0 <= k < j :: Esc !in Cells(s, items, headers)[i][k]
    ensures var labels := Labels(s, headers);
      var rows := Cells(s, items, headers);
      var widths := Table.Widths(labels, rows);
      var start := Table.ColumnStart(widths, offset, j);
      && start + |labels[j]| <= |Table.HeaderLine(labels, rows, offset)|
      && Table.HeaderLine(labels, rows, offset)[start..start + |labels[j]|] == labels[j]
      && start + |rows[i][j]| <= |Table.Line(rows[i], Table.Sizes(rows[i]), widths, offset)|
      && Table.Line(rows[i], Table.Sizes(rows[i]), widths, offset)[start..start + |rows[i][j]|] == rows[i][j]
  {
    Table.ColumnsAlign(Labels(s, headers), Cells(s, items, headers), offset, i, j);
  }

}
