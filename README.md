# Bounded value inspector of the DeviceScript runtime, in Dafny

This project models the value inspector of the DeviceScript runtime,
`runtime/devicescript/inspect.c`. The inspector renders a runtime value as a
JSON-like debug string under a hard byte budget:

- strings appear JSON-escaped;
- arrays appear as `[a,b]` with no trailing comma;
- maps appear as `{k:v,}`. Every entry ends in a comma, and a key that looks like
  an identifier is written without quotes;
- a value met again while it is being expanded appears as `[Circular]`;
- a rendering that does not fit is cut, never inside a UTF-8 code point, and
  followed by `...`.

The model is layered:

- `text.dfy` (module `Text`): bytes, C strings (`strlen`), continuation bytes,
  counting code points and UTF-8 framing.
- `writer.dfy` (module `Writer`): the bounded writer `add_str` as a function
  `Append` on the abstract render state `Progress(out, ulen, overflow)`.
  - `FeedAll` is a run of writes and `Flat` the untruncated text of the tokens.
  - The lemmas say what a run emits, how it counts code points, that it keeps
    UTF-8 framing, and what the final report with `...` is.
- `values.dfy` (module `Values`): the part of the runtime's value system the
  inspector sees.
  - A heap of values with the JSON escaper as a function.
  - The type tags and `is_complex`.
  - The termination measure: the number of arrays and maps not yet pinned.
- `layout.dfy` (module `Layout`): `is_id`, and `Tokens`, the complete untruncated
  sequence of C strings the renderer writes for a value.
- `render.dfy` (module `Render`): `Obj`, `Elems`, `Field` and `Fields`, which
  follow `inspect_obj`, the element loop, `inspect_field` and the map iteration
  step by step on the abstract state, with the early exits on overflow.
  - They are proved equal to writing the complete token stream
    (`ObjIsFeedAll`).
  - From that follow the properties of a pass of `devs_inspect_to`: its bound,
    truncation, code-point count and UTF-8 framing.
- `inspect.dfy` (module `Inspect`): the imperative code.
  - Class `Ctx` holds the heap and the pin set.
  - Class `Inspector` is `inspect_t`, with its fields `off`, `ulen`, `overflow`,
    `size` and `dst` updated in place. Its methods are `add_str` (with its
    backward scan and copy loop), `add_ch`, `inspect_obj` and `inspect_field`.
  - The driver methods are `devs_inspect_to` (`InspectTo`) and `devs_inspect`
    (`InspectValue`).
  - Every method is proved against the `Writer`/`Render` functions. The byte
    array `dst` always holds exactly the bytes emitted so far.
- `shapes.dfy` (module `Shapes`): what a cycle, an array and a map entry look
  like as text in the complete rendering.

All source references below are to `runtime/devicescript/inspect.c`.

## Model

| member | source | states |
|---|---|---|
| Text.CStrLen | runtime/devicescript/inspect.c:21 | `strlen`: the length is the index of the first NUL, or the whole buffer when there is none; no NUL comes before it |
| Writer.Append | runtime/devicescript/inspect.c:16-47 | `add_str` on the abstract state: once overflow is set nothing changes; the output never exceeds the capacity and only grows (old output is a prefix of the new) |
| Writer.AppendMeaning | runtime/devicescript/inspect.c:16-47 | overflow after the call iff it was set or `strlen(s)` exceeds the space left; without overflow exactly the C string is appended; otherwise a prefix of it; `ulen` grows by the code points (non-continuation bytes) appended |
| Writer.LastLead | runtime/devicescript/inspect.c:29-35 | the backward scan stops on the first byte at or below `j` that is not a continuation byte (or at index 0); every byte it passes over is a continuation byte |
| Writer.SafeCut | runtime/devicescript/inspect.c:26-37 | the bytes kept never exceed the space; all of the space is kept iff the space is 0 or the last byte that fits is ASCII; otherwise the cut lands on a lead byte (or 0) with only continuation bytes between it and the limit |
| Writer.SafeCutKeepsUtf8 | runtime/devicescript/inspect.c:26-37 | cutting well-framed UTF-8 text never leaves a partial code point |
| Writer.CompleteCodePointAtLimitDropped | runtime/devicescript/inspect.c:28-36 | a complete two-byte code point that ends exactly at the limit is dropped as well: "AéB" with room for 3 keeps only "A" |
| Writer.AppendKeepsUtf8 | runtime/devicescript/inspect.c:16-47 | appending well-framed text to well-framed output leaves well-framed output, whether it fits or is cut |
| Writer.FeedAllMeaning | runtime/devicescript/inspect.c:16-24 | a run of `add_str` calls from a state without overflow overflows iff the complete text does not fit; without overflow it emits exactly the complete text, otherwise a prefix of it |
| Writer.FeedAllCounts | runtime/devicescript/inspect.c:40-46 | over a run of writes, `ulen` grows by exactly the code points of the emitted bytes |
| Writer.FeedAllKeepsUtf8 | runtime/devicescript/inspect.c:16-47 | a run of writes of well-framed tokens leaves well-framed output |
| Writer.OutputMeaning | runtime/devicescript/inspect.c:172-184 | the reported text of a run from a fresh state is at most capacity + 3 bytes; it is the complete text when that fits, otherwise a prefix of it followed by `...` |
| Writer.OutputCount | runtime/devicescript/inspect.c:172-174 | the reported code-point count (3 more on overflow) is the number of code points of the reported text |
| Values.ComplexValues | runtime/devicescript/inspect.c:89-96 | `is_complex` holds exactly for arrays, maps and role members (whose tag is the map tag) |
| Values.PinShrinks | runtime/devicescript/inspect.c:132 | pinning an unpinned array or map lowers the number of unpinned expandable values: the recursion measure |
| Layout.IsIdFrom | runtime/devicescript/inspect.c:56-65 | `is_id` accepts iff every byte is an ASCII letter or `_`, or a digit at a position after the first; vacuously true for the empty key |
| Layout.BarewordExamples | runtime/devicescript/inspect.c:56-65 | the empty key, `foo` and `_a1` are barewords; `1abc` (digit first) and `a-` are not |
| Layout.BarewordIsAscii | runtime/devicescript/inspect.c:75-80 | a bareword key has no NUL, so `add_str` sees all of it, and it is well-framed |
| Layout.TokensUtf8 | runtime/devicescript/inspect.c:98-156 | on a heap whose escaped strings and coerced texts are well-framed, every string the renderer writes is well-framed |
| Render.Obj | runtime/devicescript/inspect.c:98-156 | `inspect_obj` on the abstract state: once overflow is set it changes nothing; otherwise the output only grows and stays within capacity |
| Render.Elems | runtime/devicescript/inspect.c:137-143 | the element loop: changes nothing once overflow is set; output grows within capacity |
| Render.Field | runtime/devicescript/inspect.c:67-87 | `inspect_field`: nothing once overflow is set; output grows within capacity |
| Render.Fields | runtime/devicescript/inspect.c:146-152 | the map iteration: one `inspect_field` per entry; changes nothing once overflow is set |
| Render.ObjIsFeedAll | runtime/devicescript/inspect.c:98-156 | rendering step by step, with its early exits on overflow, ends in exactly the state of writing the complete token stream one token at a time |
| Render.ElemsIsFeedAll | runtime/devicescript/inspect.c:137-143 | the element loop with its `break` on overflow ends in the state of writing all element tokens and separators |
| Render.ElemTokensStep | runtime/devicescript/inspect.c:138-142 | writing elements from `i` on is element `i`, then (unless that overflowed) its comma and the rest |
| Render.FieldIsFeedAll | runtime/devicescript/inspect.c:67-87 | `inspect_field` ends in the state of writing the entry's tokens: key, `:`, value, `,` |
| Render.FieldsIsFeedAll | runtime/devicescript/inspect.c:146-152 | the map iteration ends in the state of writing all entry tokens |
| Render.PassMeaning | runtime/devicescript/inspect.c:158-185 | the text `devs_inspect_to` reports is at most `size` bytes; the pass overflows iff the rendering does not fit in `size - 3` bytes; without overflow the text is the complete rendering, otherwise a prefix of it followed by `...` |
| Render.PassCount | runtime/devicescript/inspect.c:172-174 | the reported `ulen` is the code-point count of the reported text |
| Render.PassUtf8 | runtime/devicescript/inspect.c:158-185 | on a well-framed heap the reported text is well-framed UTF-8 |
| Inspect.KeptLength | runtime/devicescript/inspect.c:26-37 | the backward scan of `add_str` returns exactly the UTF-8-safe cut `SafeCut` |
| Inspect.Inspector.constructor | runtime/devicescript/inspect.c:162-168 | a fresh render state: nothing emitted, no code points, no overflow |
| Inspect.Inspector.AddStr | runtime/devicescript/inspect.c:16-47 | the new state is `Append` of the old one; `dst` holds the emitted bytes and is untouched from the new offset on |
| Inspect.Inspector.Copy | runtime/devicescript/inspect.c:40-46 | the copy loop appends the first `sz` bytes at the offset, counts their code points, writes `dst` only at `[off, off+sz)` and only when it is non-null |
| Inspect.Inspector.AddCh | runtime/devicescript/inspect.c:49-52 | `add_ch(c)` is `add_str` of the one-byte string; for NUL it appends nothing |
| Inspect.Inspector.InspectObj | runtime/devicescript/inspect.c:98-156 | the new state is `Render.Obj` of the old one; the pin set is what it was before |
| Inspect.Inspector.Expand | runtime/devicescript/inspect.c:132-155 | pin, brackets around the children, unpin: the state follows `Render.Obj` and the pin set is restored |
| Inspect.Inspector.InspectElems | runtime/devicescript/inspect.c:137-143 | the element loop follows `Render.Elems`, keeping the pin set |
| Inspect.Inspector.InspectEntries | runtime/devicescript/inspect.c:148-151 | the map iteration follows `Render.Fields`, keeping the pin set |
| Inspect.Inspector.InspectField | runtime/devicescript/inspect.c:67-87 | the new state is `Render.Field` of the old one; the pin set is restored |
| Inspect.InspectTo | runtime/devicescript/inspect.c:158-185 | -1 when `size < 10`, with `dst` untouched; otherwise the pass has capacity `size - 3`. The length and code-point count (3 more on overflow) are the same in measuring and writing mode; in writing mode `dst` starts with the reported text, `...` included, and is unchanged from the reported length on. The result never exceeds `size` (the `JD_ASSERT` of :170). The pin set is restored |
| Inspect.RunPass | runtime/devicescript/inspect.c:162-184 | the pass with capacity `cap`: the reported length and code-point count are those of the reported text of `Render.Obj` from a fresh state; `dst` starts with that text and is unchanged after it; the length is at most `cap + 3`; the pin set is restored |
| Inspect.RenderPass | runtime/devicescript/inspect.c:162-169 | a fresh state and `inspect_obj`: its offset, count and overflow flag are those of `Render.Obj` from a fresh state; `dst` starts with the emitted bytes and is unchanged after them |
| Inspect.Report | runtime/devicescript/inspect.c:172-184 | from the state after rendering: the code-point count (3 more on overflow) and the length of the reported text, which `dst` then starts with, unchanged after it |
| Inspect.WriteEllipsis | runtime/devicescript/inspect.c:179-183 | the three `.` bytes follow the bytes already written; nothing before or after them changes |
| Inspect.InspectValue | runtime/devicescript/inspect.c:187-206 | budget 0 means 100; a value that is not complex gives its string coercion; a budget below 10 gives undefined. Otherwise the measuring and writing passes agree and the string holds the reported text and code-point count |
| Shapes.SelfCycle | runtime/devicescript/inspect.c:107-110 | an array whose only element is itself renders as `[[Circular]]` |
| Shapes.ArrayText | runtime/devicescript/inspect.c:134-144 | an array renders as `[`, its elements separated by commas with none after the last, `]` |
| Shapes.FieldText | runtime/devicescript/inspect.c:67-87 | an entry renders as the bare key (string passing `is_id`) or the rendered key, `:`, the rendered value, `,` |
| Shapes.MapText | runtime/devicescript/inspect.c:145-153 | a map renders as `{`, every entry with its trailing comma (the last one too), `}` |

## Left out

- Heap internals are modelled as a map from handles to values, a set of pinned
  handles and plain sequences:
  - `devs_value_pin`, `devs_value_unpin`, `devs_value_is_pinned`;
  - `devs_value_to_gc_obj`, `devs_object_get_attached_enum`;
  - the callback protocol of `devs_maplike_iter`.

  A map with no attached enumerable (NULL) is a map with no entries; both
  render as `{}`.
- `devs_json_escape` is a function of the host that is not modelled. Its
  allocation failure and `jd_free` are not modelled either.
- `devs_value_to_string` is the text stored with scalars and role members.
- `devs_value_typeof` and `devs_handle_type` become the `Value` constructors.
  A role member is taken to carry a complex (map) tag. Otherwise the handle
  test in `inspect_obj` could never matter.
- `devs_string_prep`/`devs_string_finish`:
  - a fresh array of the measured length stands for the buffer;
  - the Boolean `prepOk` stands for whether allocation succeeds;
  - on failure `Inspect.InspectValue` returns `PrepFailed`, since what
    `devs_string_prep` leaves in the result is not part of this model.
- Logging (`LOGV`) is left out. `JD_ASSERT(state.off + 3 <= size)` is the
  proved `assert off + 3 <= cap + 3` in `Inspect.RunPass`, where `cap` is
  `size - 3`. `Inspect.InspectTo` also ensures that its result is at most `size`.
- Inspect.InspectTo: when it returns -1 the C code leaves `*ulen` unwritten;
  the model returns 0 there.
- Integer widths are not modelled. `off`, `size` and `ulen` are `unsigned` in C
  and are unbounded naturals here, so a wrap-around of `ulen` on a string of
  more than 2^32 code points is not modelled.
- The byte alphabet: `char` is a byte 0..255. `devs_utf8_is_cont` (not shown)
  is taken to be the standard test for a continuation byte, 0x80..0xBF.
- Control flow is split into helper methods, and each keeps the exact order of
  writes and exits:
  - `add_str`'s backward scan is `Inspect.KeptLength` and its copy loop is
    `Inspector.Copy`;
  - the expansion part of `inspect_obj` (pin to unpin) is `Inspector.Expand`;
  - the element loop is `Inspector.InspectElems` and the map iteration
    `Inspector.InspectEntries`;
  - the body of `devs_inspect_to` after its size test is `RunPass`. It is split
    into `RenderPass` (the state and `inspect_obj`) and `Report` (the count and
    the three `.` writes, which are `WriteEllipsis`).
- `is_id` on the empty key returns true, as the code does. A map with an
  empty-string key therefore writes it bare, as `:value,`. This follows the
  code rather than a reading in which empty keys would be quoted.
- Recursion depth limits and concurrent mutation of the value graph are not
  modelled. The code handles neither.
