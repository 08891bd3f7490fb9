# descriptor, modelled in Dafny

`descriptor` is a Rust crate that turns a value into text. The text takes one of two forms:

- An **object view**: an indented, `Label:  value` listing. Nested structs go one level deeper. Sequences are bulleted with `- `. Maps are listed in key order. Missing values show as `~`.
- A **table**: one column per header path (`address.street`), one row per element.

A derive macro, `Descriptor`, generates the per-type methods that drive the rendering:

- `to_field`, `describe`, `headers`, `default_headers`, `header_name` and `struct_pad`;
- their behaviour is steered by `#[descriptor(...)]` directives, such as `skip`, `flatten`, `output_table`, `resolve_option`, `rename_header`, `map`, `into` and `extra_fields`.

This project models both halves as pure Dafny functions over data:

- the rendering engine in `src/lib.rs`: the layout `Context`, `write_title`/`write_value`, `get_keys`, the built-in `Option`/`Vec`/`HashMap` impls, and the table writer `describe_list_internal`;
- the methods the derive macro generates, in `descriptor_derive/src/lib.rs`.

Each Rust type becomes a `Schema.Shape` that carries its directives. Each runtime value becomes a `Schema.Value`. The generated methods become functions of both:

- `Render.ToField`, `Render.Describe`, `Schema.Headers`, `Schema.DefaultHeaders`, `Schema.HeaderName` and `Schema.StructPad`.

Where the Rust program subtracts below zero on a `usize` (a bullet at offset 0, or a label wider than its column), the model returns `Err(Underflow)` instead of text.

Files:

- `wrappers.dfy`: `Option`, `Result`, `Max`.
- `text.dfy`: blanks, joining, ANSI stripping, case conversion, key order, longest key.
- `paths.dfy`: `get_keys`.
- `layout.dfy`: `Context` and its transforms, `write_title`, `write_value`.
- `table.dfy`: column widths and the table layout.
- `schema.dfy`: shapes, values, directives, `struct_pad` and the header methods.
- `render.dfy`: `to_field`, `describe`, tables of values, the entry points.
- `agreement.dfy`: whether the headers a type advertises can be read back by its `to_field`. Covers where this holds, where it fails, and a corrected `map` field.

## Model

| member | source | states |
|---|---|---|
| `Text.JoinSnoc` | src/lib.rs:588-593 | Joining one more element's cell text appends `,` and that text, so a sequence's cell lists its elements' texts in order, comma-separated. |
| `Text.StripAnsi` | src/lib.rs:776-780 | Removing escape sequences never makes a text longer. A text without an ESC character comes back unchanged. |
| `Text.VisibleLen` | src/lib.rs:776-780 | A cell's measured size is at most its length. It equals the length when the cell has no escape sequence. |
| `Text.StripPlainPrefix` | src/lib.rs:776-780 | Escape-free text in front of a cell survives stripping verbatim, and the rest is stripped independently. |
| `Text.SkipSgr` | src/lib.rs:776-780 | A CSI sequence of digits and `;` ending in `m` is consumed completely, leaving exactly what follows it. |
| `Text.StripSgr` | src/lib.rs:776-780 | A complete SGR colour sequence contributes nothing to the stripped text. |
| `Text.StyledWidth` | src/lib.rs:776-780 | A coloured cell (SGR on, text, SGR reset) measures as its plain text, so colouring never widens a column. |
| `Text.TitleCase` | descriptor_derive/src/lib.rs:344-345 | A field's title-cased label has as many characters as the field identifier. |
| `Text.UpperSnake` | src/lib.rs:702-708 | A column's default label has as many characters as its header path. |
| `Text.LessEqTotal` | src/lib.rs:574-575 | Any two keys are comparable in the order used to sort map keys. |
| `Text.LessEqReflexive` | src/lib.rs:574-575 | Every key is ordered before or equal to itself. |
| `Text.LessEqAntisymmetric` | src/lib.rs:574-575 | Two keys ordered both ways are the same key, so sorting is deterministic. |
| `Text.LessEqTransitive` | src/lib.rs:574-575 | The key order is transitive. |
| `Text.LeastExists` | src/lib.rs:574-575 | Every non-empty set of keys has a least key. |
| `Text.Least` | src/lib.rs:574-575 | The key chosen first is one of the keys, and it is ordered before every key. |
| `Text.SortedKeys` | src/lib.rs:574-575 | Sorting yields as many keys as the map has. |
| `Text.SortedKeysMembers` | src/lib.rs:574-575 | The sorted sequence holds exactly the map's keys. |
| `Text.SortedKeysAscending` | src/lib.rs:574-575 | The sorted keys are strictly ascending: no key is repeated and no pair is out of order. |
| `Text.MaxLen` | src/lib.rs:573 | No key is longer than the computed maximum, and the maximum is 0 when there are no keys. |
| `Text.MaxLenAttained` | src/lib.rs:573 | Some key is exactly as long as the computed maximum. |
| `Paths.GetKeys` | src/lib.rs:518-524 | The head holds no dot. A path without a dot is its own head with an empty rest. Otherwise head, `.` and rest rebuild the path, so the split is at the first dot. |
| `Paths.GetKeysOfJoined` | src/lib.rs:518-524 | Round trip: splitting `head.rest` with a dotless head gives back exactly `head` and `rest`. |
| `Layout.Sub` | src/lib.rs:493-515 | `usize` subtraction succeeds exactly when the result is not negative, and then it is the difference. |
| `Layout.WriteTitle` | src/lib.rs:472-491 | Writing a label fails exactly when a bulleted first field is asked for at an offset below 2. |
| `Layout.TitleLayout` | src/lib.rs:472-491 | A label line is a line break, `offset` columns of indentation (the last two being `- ` for a bulleted first field), the label, and `:`. The label always starts at column `offset`. |
| `Layout.WriteValue` | src/lib.rs:493-515 | Writing a value fails exactly when, in a sequence, the offset is below 2, or, outside one, the label already written is wider than the label column. |
| `Layout.ValueLayout` | src/lib.rs:493-515 | In a sequence, the value goes on a new line after `- `, starting at column `offset`. Otherwise blanks fill the label column and the value follows on the same line. |
| `Layout.ValueColumn` | descriptor_derive/src/lib.rs:344-376 | A label followed by its value one level deeper puts the value at the same column, `offset + max(pad, upper_pad) + 2`, whatever the label's length. |
| `Layout.OffsetTracksDepth` | src/lib.rs:422-461 | Across any chain of context transforms, the indentation grows by exactly 2 per `indent` or `indent_and_table`. `pad` and `array` keep it. |
| `Layout.StepsKeepAligned` | src/lib.rs:422-461 | If each `indent` is given a label that fits its column, no chain of transforms produces a label wider than the label column. |
| `Layout.FlattenChainPad` | src/lib.rs:423-441 | After several nested `pad` transforms (flattening), the next `indent` uses the widest label column proposed anywhere in the chain, and the offset is unchanged. |
| `Table.Widest` | src/lib.rs:715-720 | A column's width is at least its starting value and at least every cell's measured size. |
| `Table.WidestAttained` | src/lib.rs:715-720 | A column's width is either its starting value or the size of one of its cells. |
| `Table.Widths` | src/lib.rs:710-720 | There is one width per column, at least the label's length and at least every cell's measured size. |
| `Table.WidthsTight` | src/lib.rs:710-720 | Each width is the least such bound: it is the label's length or the size of some cell in that column. |
| `Table.WidestSnoc` | src/lib.rs:716-719 | One more row raises a column's width to the larger of the old width and the new cell's size. |
| `Table.WidenByRow` | src/lib.rs:716-719 | After the inner loop over row `i`, the widths account for the labels and rows `0..i` inclusive. |
| `Table.ComputeWidths` | src/lib.rs:710-720 | The imperative double loop over rows and cells computes exactly the declarative column widths. |
| `Table.CellPosition` | src/lib.rs:722-742 | In a table line every cell is preceded by `offset` blanks, so the cell of column `j` starts after `offset + width + 1` columns for each earlier column, then `offset` more. This holds provided the earlier cells are measured by their length. |
| `Table.PlainCellPosition` | src/lib.rs:748-771 | In a data line, a cell starts at its column's start whenever the cells before it hold no escape sequence. |
| `Table.RenderHeader` | src/lib.rs:722-742 | The rendered table begins with its header line. |
| `Table.NoRowWidths` | src/lib.rs:710-720 | With no rows, each column is exactly as wide as its label. |
| `Table.EmptyRender` | src/lib.rs:744-747 | A table without rows is its header line at natural widths, then `Empty list` on the same line, then a line break. |
| `Table.HeaderCell` | src/lib.rs:722-742 | The label of column `j` is written at that column's start in the header line. |
| `Table.ColumnsAlign` | src/lib.rs:722-771 | A column's label and that column's cell in any row start at the same position, when earlier cells carry no escapes. |
| `Schema.Active` | descriptor_derive/src/lib.rs:96-118 | The fields every generated method sees are exactly the declared fields not marked `skip`. |
| `Schema.Described` | descriptor_derive/src/lib.rs:324-329 | The fields `describe` writes are exactly those not marked `skip_description`. |
| `Schema.DescribedFirst` | descriptor_derive/src/lib.rs:324-329 | The first field written is the first declared field not marked `skip_description`, because the filter runs before the fields are numbered. |
| `Schema.FindField` | descriptor_derive/src/lib.rs:121-176 | A path head selects the first field with that name. There is no match exactly when no field has that name. |
| `Schema.FirstFound` | descriptor_derive/src/lib.rs:121-176 | With distinct field names, each field's own name selects that field. |
| `Schema.MaxTitle` | descriptor_derive/src/lib.rs:67-94 | No field's title-cased label is longer than the computed maximum. |
| `Schema.MaxTitleAttained` | descriptor_derive/src/lib.rs:67-94 | Some field's label is exactly as long as the computed maximum. |
| `Schema.FlattenedPadUpper` | descriptor_derive/src/lib.rs:81-88 | Every flattened field's own `struct_pad` is at most the widest of them. |
| `Schema.FlattenedPadAttained` | descriptor_derive/src/lib.rs:81-88 | The widest flattened `struct_pad` is 0 or is the pad of one of the flattened fields. |
| `Schema.StructPadBounds` | descriptor_derive/src/lib.rs:67-94 | A struct's label column is: wider than every field label; at least as wide as every flattened child's column; 0 without fields; and no wider than the largest of these demands. |
| `Schema.TitleFits` | descriptor_derive/src/lib.rs:67-94 | Every field label fits strictly inside its struct's label column, leaving at least one blank. |
| `Schema.FieldHeaders` | descriptor_derive/src/lib.rs:227-272 | Every field contributes at least one header. |
| `Schema.SkipNames` | descriptor_derive/src/lib.rs:286-296 | The skip list holds exactly the names of fields marked `skip_header`. |
| `Schema.Without` | descriptor_derive/src/lib.rs:298-305 | Filtering keeps exactly the headers not in the skip list, and changes nothing when none is in it. |
| `Schema.FieldsHeadersAppend` | descriptor_derive/src/lib.rs:227-272 | Headers follow field order: the headers of two runs of fields are those of the first run followed by those of the second. |
| `Schema.FieldsHeadersLength` | descriptor_derive/src/lib.rs:227-272 | There are at least as many headers as fields. |
| `Schema.FieldHeadersPresent` | descriptor_derive/src/lib.rs:227-272 | A field whose type has no headers appears under its own name. Otherwise each of its type's default headers appears prefixed with `field.`. |
| `Schema.StructHeadersCover` | descriptor_derive/src/lib.rs:227-272 | A struct's `headers` include the headers contributed by every active field. |
| `Schema.DefaultHeadersFilter` | descriptor_derive/src/lib.rs:275-308 | Without an explicit list, a header is a default header exactly when it is one of the struct's headers and is not the name of a `skip_header` field. |
| `Schema.WithoutAppend` | descriptor_derive/src/lib.rs:298-305 | The skip filter keeps order: filtering a concatenation gives the filtered parts, concatenated. |
| `Schema.WithoutOne` | descriptor_derive/src/lib.rs:298-305 | A single header survives the filter exactly when it is not in the skip list. |
| `Schema.DefaultHeadersInOrder` | descriptor_derive/src/lib.rs:227-305 | Without an explicit list, the default headers are the filtered headers of the earlier fields, then of the later fields, then of the `extra_fields` type. The filter never reorders columns. |
| `Schema.SkipHeaderKeepsChildren` | descriptor_derive/src/lib.rs:275-308 | `skip_header` hides only the exact field name. The nested headers `field.h` of a struct-typed field stay among the defaults. |
| `Schema.RenamedHeader` | descriptor_derive/src/lib.rs:179-225 | A field's `rename_header` is the label for the field and for every path beneath it. |
| `Schema.DelegatedHeader` | descriptor_derive/src/lib.rs:179-225 | Without a rename, the label question goes to the field's type (its `into` type if it has one) with the rest of the path. |
| `Schema.UnknownHeader` | descriptor_derive/src/lib.rs:179-225 | A head that names no field and is not the `extra_fields` type has no label of its own. |
| `Render.Cells` | src/lib.rs:688-700 | The table has one row per element and one cell per header. |
| `Render.DescribeOk` | src/lib.rs:472-515 | The object view never subtracts below zero when it starts from a writable context, provided a sequence is never reached at column 0. |
| `Render.MapOk` | src/lib.rs:566-585 | A map never faults: its label column, one past the longest key, holds every key. |
| `Render.StructOk` | descriptor_derive/src/lib.rs:311-341 | A struct's description, including its `into` and `extra_fields` parts, never faults under the same conditions. |
| `Render.ItemsOk` | src/lib.rs:595-604 | A sequence's elements, bulleted at an offset of at least 2, never fault. |
| `Render.EntriesOk` | src/lib.rs:576-579 | A map's entries never fault when every key fits the label column. |
| `Render.FieldsOk` | descriptor_derive/src/lib.rs:311-341 | A run of active fields written in order never faults. |
| `Render.FieldOk` | descriptor_derive/src/lib.rs:344-376 | One field, whether plain, flattened or shown as a table, never faults, because its label always fits its struct's column. |
| `Render.ObjectDescribeOk` | src/lib.rs:783-792 | `object_describe` of a value that does not start with a sequence succeeds, and its text ends with a line break. |
| `Render.TopLevelListFails` | src/lib.rs:595-604 | A non-empty sequence of scalars or enums described directly at column 0 subtracts below zero while computing the first element's bullet indentation. (A sequence of maps does not fault there; see `Render.ScalarMapLines`.) |
| `Render.StructElementFails` | descriptor_derive/src/lib.rs:344-376 | A struct element whose first described field is not flattened faults when its sequence sits at column 0 or 1: its bullet is indented by `offset - 2`. |
| `Render.TopLevelStructListFails` | src/lib.rs:595-604 | A non-empty sequence of such structs described directly at column 0 faults. |
| `Render.EmptyContainers` | src/lib.rs:566-629 | `None`, an empty sequence and an empty map are all written as `~` in the label column. As cells, `None` is `~` and an empty sequence is empty. |
| `Render.OptionTransparent` | src/lib.rs:607-629 | `Some(x)` renders, reads and names headers exactly like `x`. The default headers of an `Option` are its inner type's `headers`, not its default headers. |
| `Render.ListCellSnoc` | src/lib.rs:588-593 | A sequence's cell is its elements' cells joined by `,`, in element order. |
| `Render.ItemsAppend` | src/lib.rs:595-604 | Describing the concatenation of two sequences is describing the first and then the second, and a fault in either is a fault of the whole. |
| `Render.ScalarEntries` | src/lib.rs:576-579 | Map entries with scalar values are one line each: the key as label, and the value in the label column. |
| `Render.ScalarMapLines` | src/lib.rs:571-584 | A non-empty map of scalars is its entries in ascending key order, with the label column one past the longest key (or wider if an enclosing struct proposes more). |
| `Render.MapKeyOrder` | src/lib.rs:574-575 | Entries are written once per key, for every key, in strictly ascending key order. |
| `Render.StructMap` | descriptor_derive/src/lib.rs:153-173 | A struct's `to_field` is the matched text itself, or, with a struct-level `map`, that function applied to the struct and the matched text. |
| `Render.ToFieldSelects` | descriptor_derive/src/lib.rs:121-140 | With distinct names, the match on `field` or `field.rest` answers with the field's converted value read at the empty path or at `rest`. This is the text before any struct-level `map`. |
| `Render.ToFieldFallback` | descriptor_derive/src/lib.rs:142-151 | In the match, a head that names no field gives `field not found`, or, with `extra_fields`, the extra type's answer for the whole path. |
| `Render.SkipHeaderStillSelects` | descriptor_derive/src/lib.rs:121-176 | A `skip_header` field is missing from the default headers, but the match still selects it by an explicit header. |
| `Render.EnumIgnoresPath` | descriptor_derive/src/lib.rs:423-453 | An enum's cell ignores the path. It is the variant's `rename_description`, or else its name. |
| `Render.ResolvedOption` | descriptor_derive/src/lib.rs:379-420 | With `resolve_option`, `Some(x)` is converted as if the field held `x`. `None` passes through unconverted and reads `~`. |
| `Render.FlattenedColumn` | src/lib.rs:423-441 | The fields of a flattened struct get the same label column as their parent's own fields. |
| `Render.FieldIgnoresBullet` | descriptor_derive/src/lib.rs:344-376 | A field written with `first_field` false renders exactly as it would outside a sequence. |
| `Render.FieldsIgnoreBullet` | descriptor_derive/src/lib.rs:311-341 | A run of fields none of which is first renders exactly as it would outside a sequence. |
| `Render.BulletOnFirst` | descriptor_derive/src/lib.rs:324-329 | Only the first described field sees the sequence's bullet mode. The fields after it render as outside a sequence. |
| `Render.StructBullet` | descriptor_derive/src/lib.rs:311-376 | A struct without `into` whose first described field is not flattened starts with that field's label line. In a sequence element the line is bulleted (`- ` in the last two columns of the indentation); otherwise it is plain. |
| `Render.FlattenedField` | descriptor_derive/src/lib.rs:347-350 | A flattened field is its type's render at `ctx.pad(struct_pad)`, with no label of its own. |
| `Render.FlattenedFirstLosesBullet` | descriptor_derive/src/lib.rs:324-350 | When the first described field is a flattened struct, its own first field is labelled without a bullet even inside a sequence element, because `ctx.pad` leaves sequence mode. |
| `Render.PlainFieldLine` | descriptor_derive/src/lib.rs:344-376 | A plain scalar field is written without fault as its label line with the value starting at the struct's label column. |
| `Render.EmptyTable` | src/lib.rs:679-747 | A table of no elements is the header line at the labels' natural widths, followed by `Empty list`. |
| `Render.TableColumnsAlign` | src/lib.rs:670-774 | In a table of values, each column's label and each element's cell for that column start at the same position, provided the element's cells left of that column carry no escape sequence. |
| `Agreement.ReadShape` | descriptor_derive/src/lib.rs:379-420 | The type `to_field` reads a field as is its `map` or `into` target, else its `Option` content under `resolve_option`, else its declared type; it is smaller than the field. |
| `Agreement.OperandReadsAs` | descriptor_derive/src/lib.rs:379-420 | The shape `field_getter` hands on is `ReadShape` whenever the field is converted or read as it is, and not an absent `resolve_option` value; that absent value is handed on unconverted under the declared shape. |
| `Agreement.ResolvedNeverFails` | descriptor_derive/src/lib.rs:121-176 | A path that resolves in a type never reaches `field not found` on any value of that type, however its options and sequences are filled. |
| `Agreement.ReadAsHeaderShape` | descriptor_derive/src/lib.rs:233-241 | Without a `map`, `to_field` reads a field as the type its headers come from. |
| `Agreement.FieldsHeadersSource` | descriptor_derive/src/lib.rs:233-257 | Each header of a run of fields comes from one of those fields. |
| `Agreement.FieldHeaderResolves` | descriptor_derive/src/lib.rs:243-257 | In the agreeing fragment, a header contributed by a field resolves: its head selects that field and its rest is a default header of the field's type. |
| `Agreement.HeadersResolve` | descriptor_derive/src/lib.rs:227-272 | In the agreeing fragment, every path `headers` lists resolves. |
| `Agreement.DefaultHeadersResolve` | descriptor_derive/src/lib.rs:275-308 | In the agreeing fragment, every path `default_headers` lists resolves. |
| `Agreement.TableCellsResolve` | src/lib.rs:679-700 | In the agreeing fragment, no default column of a table ever reads `field not found`, whatever the rows hold. |
| `Agreement.MappedFieldFails` | descriptor_derive/src/lib.rs:233-249 | For a `u64` field mapped to a struct `Bar { test: String }`, the header is the bare name `time`, and reading `time` from any value gives `field not found`. |
| `Agreement.ListFieldFails` | descriptor_derive/src/lib.rs:233-249 | A field `list: Vec<Bar>` advertises its bare name `list`, and reading it from a one-element list gives `field not found`. |
| `Agreement.ListFieldUnresolved` | descriptor_derive/src/lib.rs:379-420 | Reading `list` reaches `field not found` for every non-empty list of `Bar`. (An empty list reads as an empty cell.) |
| `Agreement.SelectedArmsAgree` | descriptor_derive/src/lib.rs:121-176 | When the path's head selects a field, `Unresolved` and `to_field`'s match both continue into that field's operand with the rest of the path. |
| `Agreement.UnknownArmsAgree` | descriptor_derive/src/lib.rs:121-176 | When no field has the head's name, both continue into the `extra_fields` type with the whole path; without one, the path is unresolved and the match answers `field not found`. |
| `Agreement.CorrectField` | descriptor_derive/src/lib.rs:233-241 | A `map` field re-declared as the same conversion via `into`: no `map` left, headers from the map's result type, and the same conversion of every value. |
| `Agreement.CorrectedReadsAlike` | descriptor_derive/src/lib.rs:121-151 | The corrected struct's match reads every path exactly like the struct as written. |
| `Agreement.CorrectedToFieldAlike` | descriptor_derive/src/lib.rs:121-176 | The corrected struct's `to_field`, struct-level `map` included, gives the same text as the struct as written for every path. |
| `Agreement.CorrectedFailsAlike` | descriptor_derive/src/lib.rs:121-176 | The corrected struct fails to resolve a path exactly when the struct as written does. |
| `Agreement.CorrectedHeadersResolve` | descriptor_derive/src/lib.rs:227-308 | When the corrected struct agrees, every default column it advertises reads a cell of the struct as written, never `field not found`. |
| `Agreement.CorrectedMappedField` | descriptor_derive/src/lib.rs:233-249 | On the mapped example, the corrected header is `time.test`, the corrected struct agrees, and the header reads the `test` field of the mapped value. |

## Left out

- `Text.MaxLen`: map keys are measured in characters, where the source measures them in UTF-8 bytes (`k.len()`, src/lib.rs:573 and 578). A map with non-ASCII keys is padded differently: for `{"ab": "y", "é": "x"}` the source writes `é: x` with one blank and the model with two.
- `Render.ScalarMapLines`: the label column follows `Text.MaxLen`, so it is stated in characters, not UTF-8 bytes as in the source.
- `Layout.ValueColumn`: struct labels are measured in characters, where the source uses the byte length of the title-cased label (descriptor_derive/src/lib.rs:70 and 365). Non-ASCII labels are padded differently.
- `Schema.MaxTitle`, `Schema.StructPadBounds`: the same character count stands for the byte length of labels.
- Writers and I/O errors: each output is a complete string. Partial output written before a fault is not modelled, and a write error is not modelled.
- Panics: `Err(Underflow)` stands for the `usize` subtraction that panics (debug builds) in `write_title`, `write_value` and the table padding.
- Release-mode wrap-around of `usize` is not modelled.
- `compute_string_size` counts bytes after stripping. The model counts characters, and strips only CSI sequences (ESC `[` … final byte) and a lone ESC. Other escape kinds and invalid UTF-8 handling are out of scope.
- `Text.TitleCase`: the contract states only the length. The body maps snake_case identifiers per character. `convert_case`'s handling of camelCase and digits inside identifiers is not modelled.
- `Text.UpperSnake`: the contract states only the length. The body upper-cases each character, matching snake_case header paths such as `address.street`. Other `convert_case` word splitting is not modelled.
- `Text.SortedKeys`: the function's own contract states only the length. Membership and order are proved separately in `Text.SortedKeysMembers` and `Text.SortedKeysAscending`.
- `Schema.Active`: the contract states membership, not that declared order is kept. The body keeps the order.
- `Schema.Described`: the contract states membership, not that declared order is kept. The body keeps the order.
- Formatting of scalars is not modelled. This covers `DateTime` (`%d-%m-%y %H:%M:%S`), integers, `bool` and `String`: a `Scalar` value carries its text already formatted.
- User functions (`map`, `into`, `extra_fields` conversions, the struct-level `map`) are parameters of the shape.
- The `method` flag of `map` only changes how the Rust call is spelled, so it is not modelled.
- A value that does not fit its shape cannot occur in Rust. The model reads it as an empty scalar.
- `output_table` on a field that is not a `Vec` does not compile in Rust. The model writes such a field as a value.
- Attribute parsing (`descriptor_derive/src/parse.rs`) is not part of this model. Directives are already-parsed data.
- Compile-time aborts of the derive (unnamed structs, unions) are not modelled.
- `Render.DescribeOk`: the premise "no sequence at column 0" (`StaysInline`) is sufficient, not necessary. Values that never reach such a sequence, such as an empty `Vec` or a `None`, render fine without it.
- `Render.PlainFieldLine`: covers scalar fields without conversions. Other fields are covered by `Render.FieldOk` (no fault) and by `Layout.ValueColumn` (the value column).
- `Table.PlainCellPosition`: states alignment for cells whose preceding cells hold no escapes. With escapes, cells are aligned by visible width, which is not stated as a position.
- `Table.ColumnsAlign`: requires that the cells left of column `j` in the row hold no escape character. Alignment of coloured cells is stated only as width (`Text.StyledWidth`), not as a position.
- `Render.TableColumnsAlign`: has the same escape-free premise for the element's cells left of the column.
- `Agreement.HeadersResolve`: the law is proved only for agreeing types (`Agreement.Agreeing`). At every struct of such a type:
  - field names are distinct and dot-free;
  - no field has a `map`;
  - no field advertises a bare name it cannot read;
  - the `extra_fields` headers do not start with a field name;
  - an explicit header list names only resolving paths.

  `Agreement.MappedFieldFails` and `Agreement.ListFieldFails` show the two ways the source breaks the law.
- `Agreement.ListFieldFails`: a sequence of structs used as a column has no evident intended cell, so the model records the behaviour and proposes no correction.
- `Agreement.CorrectField`: the correction is applied to the fields of one struct (`Agreement.Corrected`), not to structs nested inside them. The rest of the model keeps the code as written.
- Column alignment of table lines assumes each earlier cell's measured size is its length. Multi-byte characters make the Rust program's byte count differ from the visible width, and that difference is not modelled.

## Findings

| source | as written | input that shows it | evidently intended | confidence | as-written member | corrected member |
|---|---|---|---|---|---|---|
| descriptor_derive/src/lib.rs:233-249 | A field's headers come from its declared type (or `into` type), even when `map` converts it to another type | `struct Foo { #[descriptor(map = to_bar)] time: u64 }` with `to_bar` returning `struct Bar { test: String }`: the header is `time`, and its cell reads `field not found` | headers from the map's result type (`time.test`), which `to_field` can read | medium, not executed | `Agreement.MappedFieldFails` | `Agreement.CorrectField`, with `Agreement.CorrectedHeadersResolve` and `Agreement.CorrectedMappedField` |
