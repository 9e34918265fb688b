# Tag-value editor of wafel_setup_mlc, in Dafny

`source/xml_utils.c` is the small XML helper the setup tool uses to read and
patch values in a console's `sys_prod.xml` text. It does not parse XML. It
works on a NUL-terminated `char` buffer with three routines:

- `find_tag_value_start` formats the literal opening tag `<name>` into a
  128-byte scratch array. It then searches the document for that pattern with
  `strstr` and returns the position just after the first match.
- `get_tag_string` finds the value start. It then finds the first `</name>`
  at or after it and copies the characters in between into the caller's
  buffer of `buffer_size` bytes, adding a terminator. A value that does not
  fit with its terminator is refused; it is never truncated. The function
  returns the buffer, or NULL on any failure.
- `set_tag_string` locates the same span and replaces it with a new value
  inside the document's buffer of `xml_buffer_total_size` bytes:
  - When the value grows and the new document plus its terminator would
    not fit, it returns -2 and leaves the buffer untouched.
  - Otherwise, when the length changes, it `memmove`s the rest of the
    document (terminator included), then `memcpy`s the new value in, and
    returns 0.
  - Every other failure returns -1.

The model has five modules:

- `Wrappers` holds `Option` and `Result`.
- `CString` holds the C library routines the editor relies on:
  - `strlen` as the function `TextLength` and as the loop `Strlen`;
  - `strstr` as `Find` (the first occurrence);
  - `memmove` and `memcpy` as in-place array methods. Each is specified by a
    function on the buffer's contents: `Moved` and `Copied`.
- `XmlUtils` models the three routines:
  - `FindTagValueStart`, plus `ValueSpan`, the span both readers locate;
  - `GetTagString` and `SetTagString`, as methods on `array<char>` that
    follow the C control flow step by step;
  - `ReadValue` and `SetText`, the specification functions the two methods
    are proved against. Each function is characterised without reference
    to the search, through `IsValueSpan` (the first `<name>`, then the first
    `</name>` after it).
- `XmlProperties` holds the cross-operation properties: write-then-read,
  idempotent writes, locality of writes, element-shaped documents,
  unmatched tag forms, and the name-length limit.
- `XmlScenarios` replays most documents of `tests/test_xml_utils.c` as
  concrete lemmas: the value starts the find tests check, the values the
  read tests expect, and the documents the write and overflow tests expect.
  The `sys_prod` document of those tests is represented by one of its
  elements only.

## Model

| member | source | states |
|---|---|---|
| CString.TextLength | source/xml_utils.c:95 | strlen: the result indexes a NUL inside the buffer, and no NUL comes before it |
| CString.Text | source/xml_utils.c:95 | the C string a buffer holds is NUL-free, is the buffer's prefix, is shorter than the buffer and is followed by its terminator |
| CString.TextOfTerminated | source/xml_utils.c:105-107 | a buffer holding `t` and then a NUL has string length exactly the length of `t` |
| CString.FirstNulUnique | source/xml_utils.c:105 | two indices that are each the first NUL at or after the same index are equal, so a scan for the terminator finds the string's end |
| CString.FirstOccurrence | source/xml_utils.c:17 | reference definition of strstr's result: `i` is at or after `from`, the pattern occurs at `i` inside the text, and at no index between `from` and `i` |
| CString.Find | source/xml_utils.c:17 | strstr: a returned index lies at or after `from`, with the whole pattern inside the text |
| CString.FindIsFirst | source/xml_utils.c:17 | strstr returns the first occurrence at or after `from`; None means the pattern occurs nowhere from `from` on |
| CString.FindReturnsFirst | source/xml_utils.c:17 | completeness of the search: whenever a first occurrence exists, it is the one found |
| CString.Strlen | source/xml_utils.c:105 | the scan stops at the first NUL at or after `from`: that cell is NUL and none before it is |
| CString.Moved | source/xml_utils.c:107 | memmove keeps the buffer's length (its contents are stated by `MovedCells`) |
| CString.MovedCells | source/xml_utils.c:107 | after memmove, the `len` cells at `dst` hold the old cells at `src`; every other cell is unchanged |
| CString.MemMove | source/xml_utils.c:107 | memmove within one buffer: the array ends as `Moved` of its old contents, even when the ranges overlap |
| CString.CopyBackward | source/xml_utils.c:107 | moving right, copying from the last cell down never overwrites a cell still to be read: the array ends as `Moved` of its old contents |
| CString.CopyForward | source/xml_utils.c:107 | moving left, copying from the first cell up never overwrites a cell still to be read: the array ends as `Moved` of its old contents |
| CString.Copied | source/xml_utils.c:110 | memcpy keeps the buffer's length (its contents are stated by `CopiedCells`) |
| CString.CopiedCells | source/xml_utils.c:110 | after memcpy, the cells at `at` hold `v`; every other cell is unchanged |
| CString.MemCpy | source/xml_utils.c:110 | memcpy of a value into an array: the array ends as `Copied` of its old contents |
| XmlUtils.OpenTag | source/xml_utils.c:13 | the pattern `"<%s>"` formats: `<`, the name, `>`, two characters longer than the name |
| XmlUtils.CloseTag | source/xml_utils.c:34 | the pattern `"</%s>"` formats: `</`, the name, `>`, three characters longer than the name |
| XmlUtils.Fits | source/xml_utils.c:13-16 | snprintf into the 128-byte array succeeds exactly when the pattern and its terminating NUL fit; `written >= sizeof` fails (also lines 34-37 and 79-82) |
| XmlUtils.IsValueSpan | source/xml_utils.c:29-41 | reference definition of a value span, free of the searches: both patterns fit, the start is just past the first `<name>`, the end is the first `</name>` at or after the start; such a span is ordered and lies inside the text |
| XmlUtils.FindTagValueStart | source/xml_utils.c:8-22 | a value start lies inside the text, after at least a whole opening tag |
| XmlUtils.ValueStartIsFirst | source/xml_utils.c:12-21 | a value start is just past the first occurrence of the literal `<name>`, so it follows a `>`; there is none exactly when `<name>` does not fit the 128-byte scratch array or does not occur |
| XmlUtils.OpenTagFirstOccurrenceUnique | source/xml_utils.c:17-19 | the first occurrence of the opening tag, and so the value start, is unique |
| XmlUtils.ValueSpan | source/xml_utils.c:29-41 | a located span is ordered and lies inside the text |
| XmlUtils.ValueSpanIsValueSpan | source/xml_utils.c:29-41 | a located span is a value span (the first `<name>`, then the first `</name>` after it, both patterns fitting 128 bytes), and every value span is the one located |
| XmlUtils.ValueSpanIsUnique | source/xml_utils.c:29-41 | any value span is the one the two searches return |
| XmlUtils.ValueStartIsUnique | source/xml_utils.c:12-21 | any index just past a first `<name>` that fits is the value start returned |
| XmlUtils.ReadValue | source/xml_utils.c:24-63 | a value read is shorter than the buffer size, leaving room for its terminator |
| XmlUtils.ReadValueMeaning | source/xml_utils.c:42-62 | a value read is the whole text of the value span; a read fails exactly when there is no value span or the value with its terminator does not fit: it never truncates |
| XmlUtils.GetTagString | source/xml_utils.c:24-63 | a non-positive size writes nothing and fails. Otherwise every failure leaves buffer[0] NUL, and success writes exactly `ReadValue`'s value and a NUL, leaving the rest of the buffer as it was |
| XmlUtils.StoreString | source/xml_utils.c:60-61 | the buffer holds the value, then a NUL, then its old bytes |
| XmlUtils.ErrorCode | source/xml_utils.c:66-99 | the two errors of `SetError` map to set_tag_string's codes: -1 exactly for an invalid call (zero capacity, missing tag, pattern too long, missing closing tag), -2 exactly for an overflow; both are negative, unlike success (0) |
| XmlUtils.SetText | source/xml_utils.c:65-113 | a written document and its terminator fit the capacity |
| XmlUtils.SetTextMeaning | source/xml_utils.c:65-113 | -1 exactly when the capacity is zero or there is no value span; -2 exactly when there is one, the value grows and the new length plus terminator exceeds the capacity; on success the value span is replaced by the new value |
| XmlUtils.SetTagString | source/xml_utils.c:65-113 | the return code is `SetText`'s outcome; every failure leaves the buffer byte-for-byte unchanged; success leaves the new text, its NUL and the old bytes after it; the document stays terminated within capacity |
| XmlUtils.ResizeValue | source/xml_utils.c:89-112 | given the span: -2 and an untouched buffer when a grown document overflows, else 0 and the spliced text, terminated |
| XmlUtils.SpliceText | source/xml_utils.c:103-110 | given a span whose splice fits, the buffer ends holding the spliced text, its NUL and the old bytes after them, and its string length is the spliced text's |
| XmlUtils.GrowthOverflows | source/xml_utils.c:93-101 | overflow exactly when the value grows and string length plus growth plus terminator exceeds the capacity |
| XmlUtils.SplicedDocument | source/xml_utils.c:103-110 | the spliced buffer holds the spliced text and a NUL, so it is a C string of the spliced length |
| XmlUtils.SetTextSpan | source/xml_utils.c:70-101 | unfolding step for the method proof: given what the two searches returned, the value span and the outcome of `SetText` (overflow or splice) |
| XmlUtils.Spliced | source/xml_utils.c:103-110 | the splice keeps the buffer's length (its contents are stated by `SplicedCells`) |
| XmlUtils.SplicedCells | source/xml_utils.c:103-110 | cell by cell, the splice holds the prefix, the new value, the old tail through its terminator, and then the bytes that were already there |
| XmlUtils.SplicedText | source/xml_utils.c:103-110 | the spliced buffer holds the text `prefix + newValue + suffix` followed by a NUL |
| XmlUtils.MoveInPlace | source/xml_utils.c:103 | a move onto itself changes nothing, so the equal-length case may skip the memmove |
| XmlUtils.MoveThenCopy | source/xml_utils.c:103-110 | memmove of the tail and then memcpy of the value gives exactly the splice |
| XmlUtils.TailLength | source/xml_utils.c:104-105 | strlen from the old value end is the distance to the document's terminator |
| XmlUtils.MoveTail | source/xml_utils.c:103-108 | when the length changes, the tail through the terminator moves to just after where the new value will end; otherwise nothing moves |
| XmlUtils.ReplaceSpan | source/xml_utils.c:103-110 | the array ends as the splice of its old contents |
| XmlProperties.SharedPrefixOccurs | source/xml_utils.c:17 | texts that agree on a prefix agree on every occurrence lying inside it |
| XmlProperties.Mismatch | source/xml_utils.c:17 | a pattern cannot occur where one of its characters differs from the text |
| XmlProperties.ValueStartOfSharedPrefix | source/xml_utils.c:8-22 | the value start depends only on the text up to it |
| XmlProperties.ValueSpanOfSharedPrefix | source/xml_utils.c:29-41 | a value span depends only on the text up to the end of its closing tag |
| XmlProperties.SetTextSplices | source/xml_utils.c:103-110 | unfolding step: a successful write replaces exactly the located value span with the new value |
| XmlProperties.SpanAfterSplice | source/xml_utils.c:84-110 | after the splice of a value without `<`, the span starts at the same place and covers exactly the new value |
| XmlProperties.SpliceKeepsStart | source/xml_utils.c:70-76 | the splice leaves the value start where it was |
| XmlProperties.SpliceEndsValue | source/xml_utils.c:84 | after the splice, the first closing tag from the value start directly follows the new value |
| XmlProperties.OccursAfterSplice | source/xml_utils.c:103-108 | what occurred at the old value end occurs right after the new value |
| XmlProperties.ValueSpanFromSearches | source/xml_utils.c:29-41 | unfolding step: the value span is the pair of indices the two searches return |
| XmlProperties.ValueThenClose | source/xml_utils.c:38 | a value without `<` directly followed by a closing tag ends at that tag |
| XmlProperties.SpanAfterSet | source/xml_utils.c:65-113 | the same, for a successful `SetText` |
| XmlProperties.SetThenGet | source/xml_utils.c:24-113 | round trip: reading right after a successful write of a `<`-free value gives that value when the buffer can hold it and fails otherwise |
| XmlProperties.SetIdempotent | source/xml_utils.c:65-113 | writing the same `<`-free value again succeeds and changes nothing |
| XmlProperties.EarlierElementUnchanged | source/xml_utils.c:103-110 | a write leaves every element that closes before the written value with the same span |
| XmlProperties.ReadValueOfSpan | source/xml_utils.c:42-62 | unfolding step: given the span, a read gives that span's text exactly when it is shorter than the buffer |
| XmlProperties.SetTextOfSpan | source/xml_utils.c:89-113 | unfolding step: given the span, a write overflows exactly when the value grows past the capacity, else splices |
| XmlProperties.FirstOpenAfterAbsent | source/xml_utils.c:12-19 | for a name without `<` and a prefix holding no `<name>`, the first `<name>` in `pre + <name>` is the appended one |
| XmlProperties.FindElement | source/xml_utils.c:12-21 | in `pre + <name>value</name> + post` with no `<name>` in `pre`, the value start is just past the appended opening tag, and the text from there is `value`, the closing tag and `post` |
| XmlProperties.ElementSpan | source/xml_utils.c:8-41 | in `pre + <name>value</name> + post` (`value` without `<`, no `<name>` in `pre`), the value span is exactly `value` |
| XmlProperties.SpanOfParts | source/xml_utils.c:29-41 | when the value start is the end of `a` and `b` starts with `</name>`, the value span of `a + value + b` is exactly `value` |
| XmlProperties.StartOfExtension | source/xml_utils.c:17-19 | a value start at the very end of a text stays the value start when more text is appended |
| XmlProperties.CloseAfterValue | source/xml_utils.c:38 | in `a + value + b` with `value` free of `<` and `b` starting with `</name>`, the search from the end of `a` finds the `</name>` that starts `b` |
| XmlProperties.ReadElement | source/xml_utils.c:24-63 | such an element reads as `value` exactly when `value` and its terminator fit the buffer |
| XmlProperties.WriteElement | source/xml_utils.c:65-113 | writing such an element overflows exactly when the value grows and the new document plus terminator exceeds capacity; otherwise the result is `pre + <name>newValue</name> + post` |
| XmlProperties.MissingElement | source/xml_utils.c:17-21 | a document without the literal `<name>` has no value span, so reading and writing fail |
| XmlProperties.NulNameNotFound | source/xml_utils.c:12-21 | a name holding a NUL is never found in a NUL-free document text, so it has no value start and no value span |
| XmlProperties.UnclosedElement | source/xml_utils.c:38-41 | an opening tag with no closing tag after it has no value span, so reading and writing fail |
| XmlProperties.LongerNameNotFound | source/xml_utils.c:13-17 | `<nameOther>` does not match `name`: only the literal `<name>` is searched |
| XmlProperties.AttributedTagNotFound | source/xml_utils.c:13-17 | `<name attrs>` does not match `name`: opening tags with attributes are not found |
| XmlProperties.NameLengthLimit | source/xml_utils.c:12-16 | names of 125 or more characters can never be read or written: -1 from set, NULL from get; from 126, the value start is not found either |
| XmlScenarios.FindSimpleValue | tests/test_xml_utils.c:13-16 | in `<test>value</test>` the value start is index 6, where `value</test>` begins |
| XmlScenarios.FindNestedValue | tests/test_xml_utils.c:19-22 | in `<outer><test>val</test></outer>` the value start is index 13, where `val</test></outer>` begins |
| XmlScenarios.FindEmptyValue | tests/test_xml_utils.c:25-28 | in `<test></test>` the value start is index 6, where `</test>` begins |
| XmlScenarios.NoTestInAnothertag | tests/test_xml_utils.c:31 | `<anothertag>value</anothertag>` holds no `<test>` |
| XmlScenarios.FindAfterSibling | tests/test_xml_utils.c:31-34 | in `<anothertag>value</anothertag><test>value2</test>` the value start is index 36, where `value2</test>` begins |
| XmlScenarios.FindMissingTag | tests/test_xml_utils.c:36-39 | `<test>value</test>` has no value start for `nonexistent` |
| XmlScenarios.ReadSimpleValue | tests/test_xml_utils.c:64-69 | `<test>value</test>` reads as `value` |
| XmlScenarios.NoTestInOuter | tests/test_xml_utils.c:72 | the first `<test>` in `<outer><test>` is the one after `<outer>` |
| XmlScenarios.ReadNestedValue | tests/test_xml_utils.c:72-77 | `<test>val</test>` nested in `<outer>` reads as `val` |
| XmlScenarios.ReadEmptyValue | tests/test_xml_utils.c:80-85 | `<test></test>` reads as the empty string |
| XmlScenarios.ReadTooLong | tests/test_xml_utils.c:88-94 | a 13-character value does not fit a 10-byte buffer |
| XmlScenarios.ReadExactFit | tests/test_xml_utils.c:97-103 | an 8-character value fits a 9-byte buffer |
| XmlScenarios.ReadOneTooLong | tests/test_xml_utils.c:106-112 | a 9-character value does not fit a 9-byte buffer |
| XmlScenarios.ReadMissingTag | tests/test_xml_utils.c:115-119 | `<test>value</test>` has no value for `nonexistent` |
| XmlScenarios.UnclosedScenario | tests/test_xml_utils.c:122-127 | `<test>value_no_close` can be neither read nor written |
| XmlScenarios.ReadIntoOneByte | tests/test_xml_utils.c:130-136 | a 1-byte buffer holds no non-empty value |
| XmlScenarios.NoItemInRoot | tests/test_xml_utils.c:151 | the first `<item>` in `<root><item>` is the one after `<root>` |
| XmlScenarios.WriteSameLength | tests/test_xml_utils.c:151-154 | `old` becomes `new` inside `<root>` |
| XmlScenarios.WriteShorter | tests/test_xml_utils.c:157-160 | `longer` becomes `short`, shifting `</item></root>` left |
| XmlScenarios.WriteLonger | tests/test_xml_utils.c:163-166 | `short` becomes `much_longer_value`, shifting `</item></root>` right |
| XmlScenarios.WriteEmpty | tests/test_xml_utils.c:169-172 | `data` becomes the empty value |
| XmlScenarios.WriteIntoEmpty | tests/test_xml_utils.c:175-178 | an empty element is filled with `filled` |
| XmlScenarios.WriteMissingTag | tests/test_xml_utils.c:180-185 | a write of `nonexistent` in `<root><item>value</item></root>` returns -1 |
| XmlScenarios.NoVal1InData | tests/test_xml_utils.c:188 | the first `<val1>` in `<data><val1>` is the one after `<data>` |
| XmlScenarios.WriteFirstSibling | tests/test_xml_utils.c:188-190 | `val1` is rewritten and `<val2>def</val2>` follows unchanged |
| XmlScenarios.NoVal2BeforeIt | tests/test_xml_utils.c:190-191 | `<data><val1>xyz</val1>` holds no `<val2>` |
| XmlScenarios.WriteSecondSibling | tests/test_xml_utils.c:191-192 | `val2` is rewritten in `<data><val1>xyz</val1><val2>def</val2></data>` |
| XmlScenarios.WriteSiblingsInTurn | tests/test_xml_utils.c:187-193 | the first write succeeds, and the second, applied to the document the first returns, gives `<data><val1>xyz</val1><val2>jkl</val2></data>` |
| XmlScenarios.NoSecondInFirst | tests/test_xml_utils.c:198 | `<first>one</first>` holds no `<second>` |
| XmlScenarios.WriteSecondElement | tests/test_xml_utils.c:198-201 | the second of two elements is rewritten and the first is left alone |
| XmlScenarios.WriteTooLongForBuffer | tests/test_xml_utils.c:207-211 | a 25-character value overflows a 30-byte buffer |
| XmlScenarios.WriteFitsTightBuffer | tests/test_xml_utils.c:214-217 | `<tag>value_fits_tight</tag>` fits a 30-byte buffer |
| XmlScenarios.WriteOverCapacity | tests/test_xml_utils.c:221-225 | `<t>123</t>` and its terminator overflow a 10-byte buffer |
| XmlScenarios.WriteAtCapacity | tests/test_xml_utils.c:228-232 | `<t>123</t>` and its terminator fit an 11-byte buffer exactly |
| XmlScenarios.WriteFarOverCapacity | tests/test_xml_utils.c:235-239 | `<t>1234</t>` overflows a 10-byte buffer |
| XmlScenarios.LongerNameScenario | source/xml_utils.c:13-17 | `<tagOther>v</tagOther>` has no value for `tag` |
| XmlScenarios.AttributedScenario | tests/test_xml_utils.c:313-318 | writing `product_area` in `<product_area type="unsignedInt">2</product_area>`, an element whose opening tag carries an attribute as at line 258, returns -1 |

## Left out

- Null pointers: Dafny arrays and sequences are never null, so the NULL-argument branches return nothing to model. These are lines 9-11, 25-27 and 66-68 of `source/xml_utils.c`, and the tests at `tests/test_xml_utils.c:43-50`.
- A negative return from `snprintf` (an encoding error) is not modelled. Only its 128-byte truncation limit is, through `Fits`.
- One Dafny `char` stands for one C `char`, that is one byte. Sizes (`buffer_size`, `xml_buffer_total_size`, the 128-byte pattern arrays) count these cells, so a name or value must be given as its bytes (for example its UTF-8 encoding), not as Unicode scalar values, for the sizes to match the C function's. The 125-character limit of `NameLengthLimit` is 125 bytes.
- Integer widths: `size_t`, `ptrdiff_t` and `int` are unbounded integers here. Values and documents anywhere near those widths do not occur in a memory buffer.
- The `value_len < 0` check of `get_tag_string` cannot fire, because the closing tag is searched for from the value start. `GetTagString` omits it.
- `tag_name` is a C string, so the model's `name` is taken NUL-free, like `new_value`; this is not a precondition. A `name` holding a NUL is outside what the C function can be passed (its snprintf would stop at the NUL); the model then finds nothing, returning None, NULL or -1 (`NulNameNotFound`).
- `new_value` is a sequence and must hold no NUL, since `strlen` would stop at one. A `new_value` aliasing the document buffer is not modelled.
- XmlUtils.SetTagString: requires that the document's string and terminator lie within `xml_buffer_total_size` bytes, and that this size is at most the array's length. The C function expects both of its caller by calling the size the buffer's total capacity.
- XmlUtils.GetTagString: requires that `buffer_size` is at most the buffer's length and that the buffer is not the document. The C function writes up to `buffer_size` bytes into the caller's buffer.
- The behaviour described only in `source/xml_utils.h` is not what `source/xml_utils.c` does, and the model follows the `.c` file:
  - attribute-tolerant opening tags;
  - `find_closing_tag_pos`;
  - integer returns from `get_tag_string`;
  - the codes -3 to -6.
- The same holds for tests that expect that behaviour: `get_tag_string` returning 0/-1/-2 at `tests/test_xml_utils.c:64-136`, and the `sys_prod` scenario at `tests/test_xml_utils.c:247-338`, whose tags carry attributes. `AttributedScenario` shows the `.c` returning -1 on that shape of element.
- Nested elements of the same name are not treated specially. The first `</name>` after the first `<name>` ends the value, as `strstr` does.
- The callers (`source/sysprod.c`, `source/main.c`, `source/test_sysprod.c`) are not part of this model.
