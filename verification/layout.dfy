/** The layout context of the object view (`Context`, src/lib.rs) and the two
    line writers every value goes through. */
module Layout {
  import opened Wrappers
  import opened Text

  /** Layout state handed down, by value, through one recursive render.
      - offset: indentation of the current block;
      - pad: width of the label column values line up after;
      - upperPad: label width proposed by an enclosing struct whose fields
        are rendered in the same column (flattening);
      - isArray: the value is an element of a sequence (bullet mode);
      - titleSize: width of the label already written on the current line. */
  datatype Context = Context(offset: nat, pad: nat, upperPad: nat, isArray: bool, titleSize: nat) {

    /** `ctx.pad(upper)`: stay on the same indentation, forget the current
        line, and raise the proposed label width to at least `upper`. */
    function Pad(upper: nat): Context {
      Context(offset, 0, Max(upperPad, upper), false, 0)
    }

    /** `ctx.indent(pad, title_size)`: one level deeper; the label column is
        the wider of `padTo` and the proposal received from above. */
    function Indent(padTo: nat, title: nat): Context {
      Context(offset + 2, Max(padTo, upperPad), 0, false, title)
    }

    /** `ctx.array()`: render an element of a sequence. */
    function Array(): Context {
      Context(offset, pad, 0, true, 0)
    }

    /** `ctx.indent_and_table()`: an embedded table one level deeper. */
    function IndentAndTable(): Context {
      Context(offset + 2, 0, 0, true, 0)
    }

    /** The label already on the line fits inside the label column. */
    predicate Aligned() {
      titleSize <= pad
    }
  }

  /** `Context::default()`, where every object render starts. */
  const Root: Context := Context(0, 0, 0, false, 0)

  /** `a - b` on `usize`: below zero the Rust program panics. */
  function Sub(a: nat, b: nat): (r: Result<nat>)
    ensures r.Ok? <==> b <= a
    ensures r.Ok? ==> r.value + b == a
  {
    if b <= a then Ok(a - b) else Err(Underflow)
  }

  /** `write_title`: a new line, then the label followed by `:`. The first
      field of a sequence element is bulleted: `- ` takes the last two
      columns of the indentation, so the label still starts at column
      `offset` in every case. */
  function WriteTitle(ctx: Context, name: string, firstField: bool): (r: Result<string>)
    ensures r.Ok? <==> !(firstField && ctx.isArray) || ctx.offset >= 2
  {
    if firstField && ctx.isArray then
      var lead :- Sub(ctx.offset, 2);
      Ok("\n" + Spaces(lead) + "- " + name + ":")
    else
      Ok("\n" + Spaces(ctx.offset) + name + ":")
  }

  /** The label line: a line break, the indentation (its last two columns
      a bullet for the first field of a sequence element), the label at
      column `offset`, and a colon. */
  lemma TitleLayout(ctx: Context, name: string, firstField: bool)
    requires WriteTitle(ctx, name, firstField).Ok?
    ensures var r := WriteTitle(ctx, name, firstField).value;
      && |r| == ctx.offset + |name| + 2
      && r[0] == '\n' && r[ctx.offset + 1..] == name + ":"
      && (firstField && ctx.isArray ==> r[1..ctx.offset + 1] == Spaces(ctx.offset - 2) + "- ")
      && (!(firstField && ctx.isArray) ==> r[1..ctx.offset + 1] == Spaces(ctx.offset))
  {
    var line := WriteTitle(ctx, name, firstField).value;
    if firstField && ctx.isArray {
      var lead := ctx.offset - 2;
      assert line == "\n" + Spaces(lead) + "- " + name + ":";
      assert line[ctx.offset + 1..] == name + ":";
      assert line[1..ctx.offset + 1] == Spaces(lead) + "- ";
    } else {
      assert line == "\n" + Spaces(ctx.offset) + name + ":";
      assert line[ctx.offset + 1..] == name + ":";
      assert line[1..ctx.offset + 1] == Spaces(ctx.offset);
    }
  }

  /** `write_value`: outside a sequence the value follows the label on the
      same line, after enough blanks to fill the label column; inside a
      sequence it goes on a new line, bulleted, its text at column
      `offset`. */
  function WriteValue(ctx: Context, value: string): (r: Result<string>)
    ensures r.Ok? <==> if ctx.isArray then ctx.offset >= 2 else ctx.titleSize <= ctx.pad
  {
    if ctx.isArray then
      var lead :- Sub(ctx.offset, 2);
      Ok("\n" + Spaces(lead) + "- " + value)
    else
      var gap :- Sub(ctx.pad, ctx.titleSize);
      Ok(Spaces(gap) + value)
  }

  /** Where the value lands: in a sequence, on a new bulleted line at
      column `offset`; otherwise after blanks up to the label column. */
  lemma ValueLayout(ctx: Context, value: string)
    requires WriteValue(ctx, value).Ok?
    ensures var r := WriteValue(ctx, value).value;
      && (ctx.isArray ==>
        && |r| == ctx.offset + 1 + |value|
        && r[0] == '\n'
        && r[ctx.offset - 1..ctx.offset + 1] == "- "
        && r[ctx.offset + 1..] == value)
      && (!ctx.isArray ==>
        && |r| == ctx.pad - ctx.titleSize + |value|
        && r[..ctx.pad - ctx.titleSize] == Spaces(ctx.pad - ctx.titleSize)
        && r[ctx.pad - ctx.titleSize..] == value)
  {
    var line := WriteValue(ctx, value).value;
    if ctx.isArray {
      assert line == "\n" + Spaces(ctx.offset - 2) + "- " + value;
      assert line[ctx.offset - 1..ctx.offset + 1] == "- ";
      assert line[ctx.offset + 1..] == value;
    } else {
      var gap := ctx.pad - ctx.titleSize;
      assert line == Spaces(gap) + value;
      assert line[..gap] == Spaces(gap);
      assert line[gap..] == value;
    }
  }

  /** Label alignment: a field label written at `ctx` followed by its value
      written one level deeper (`ctx.Indent(padTo, |name|)`) puts the value
      at column `offset + Max(padTo, upperPad) + 1` of its line, whatever
      the label's length. (Index 0 of the text is the line break.) */
  lemma ValueColumn(ctx: Context, name: string, padTo: nat, value: string, firstField: bool)
    requires |name| <= padTo
    requires firstField && ctx.isArray ==> ctx.offset >= 2
    ensures WriteTitle(ctx, name, firstField).Ok?
    ensures WriteValue(ctx.Indent(padTo, |name|), value).Ok?
    ensures var line := WriteTitle(ctx, name, firstField).value + WriteValue(ctx.Indent(padTo, |name|), value).value;
      && |line| == ctx.offset + Max(padTo, ctx.upperPad) + 2 + |value|
      && line[ctx.offset + Max(padTo, ctx.upperPad) + 2..] == value
  {
    var title := WriteTitle(ctx, name, firstField).value;
    var inner := ctx.Indent(padTo, |name|);
    var text := WriteValue(inner, value).value;
    TitleLayout(ctx, name, firstField);
    ValueLayout(inner, value);
    assert (title + text)[|title| + inner.pad - inner.titleSize..] == text[inner.pad - inner.titleSize..];
  }

  // ---------------------------------------------------------------------
  // Chains of transforms

  /** One transform of the context, as applied while descending. */
  datatype Step = PadStep(floor: nat) | IndentStep(padTo: nat, title: nat) | ArrayStep | TableStep

  function Take(ctx: Context, step: Step): Context {
    match step
    case PadStep(u) => ctx.Pad(u)
    case IndentStep(p, t) => ctx.Indent(p, t)
    case ArrayStep => ctx.Array()
    case TableStep => ctx.IndentAndTable()
  }

  function Apply(ctx: Context, steps: seq<Step>): Context
    decreases |steps|
  {
    if steps == [] then ctx else Apply(Take(ctx, steps[0]), steps[1..])
  }

  /** Number of steps that descend one level. */
  function Depth(steps: seq<Step>): nat {
    if steps == [] then 0
    else (if steps[0].IndentStep? || steps[0].TableStep? then 1 else 0) + Depth(steps[1..])
  }

  /** Indentation only grows, by exactly two columns per level entered;
      `pad` and `array` keep it. */
  lemma {:induction false} OffsetTracksDepth(ctx: Context, steps: seq<Step>)
    ensures Apply(ctx, steps).offset == ctx.offset + 2 * Depth(steps)
    ensures Apply(ctx, steps).offset >= ctx.offset
    decreases |steps|
  {
    if steps != [] {
      OffsetTracksDepth(Take(ctx, steps[0]), steps[1..]);
    }
  }

  /** A label never overhangs the label column, however the context was
      reached, provided each indent was given a label that fits. */
  lemma {:induction false} StepsKeepAligned(ctx: Context, steps: seq<Step>)
    requires ctx.Aligned()
    requires forall i | 0 <= i < |steps| :: steps[i].IndentStep? ==> steps[i].title <= steps[i].padTo
    ensures Apply(ctx, steps).Aligned()
    decreases |steps|
  {
    if steps != [] {
      StepsKeepAligned(Take(ctx, steps[0]), steps[1..]);
    }
  }

  function MaxOf(xs: seq<nat>): (r: nat)
    ensures forall i | 0 <= i < |xs| :: xs[i] <= r
  {
    if xs == [] then 0 else Max(xs[0], MaxOf(xs[1..]))
  }

  function Pads(floors: seq<nat>): seq<Step> {
    if floors == [] then [] else [PadStep(floors[0])] + Pads(floors[1..])
  }

  /** Flattening through several levels: after a chain of `pad` transforms
      (one per flattened struct) the next `indent` uses the widest label
      width proposed anywhere in the chain. */
  lemma {:induction false} FlattenChainPad(ctx: Context, floors: seq<nat>, padTo: nat, title: nat)
    ensures Apply(ctx, Pads(floors)).Indent(padTo, title).pad == Max(padTo, Max(ctx.upperPad, MaxOf(floors)))
    ensures Apply(ctx, Pads(floors)).offset == ctx.offset
    decreases |floors|
  {
    if floors != [] {
      assert Pads(floors)[0] == PadStep(floors[0]);
      assert Pads(floors)[1..] == Pads(floors[1..]);
      FlattenChainPad(ctx.Pad(floors[0]), floors[1..], padTo, title);
    }
  }
}
