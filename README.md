# Native ("raw") Python output format — a Dafny model

This project models plaso's native Python output module, `rawpy`. Given one
event it works in two steps:

1. **Collecting field values.** `NativePythonEventFormattingHelper.GetFieldValues`
   gathers the event data's attribute pairs, followed by the event data
   stream's. It sorts them by name, then by value, and stores every displayable one in a
   field map over the event identifier and timestamp strings. On the way it
   skips container identifiers and date-time values, and it decodes bytes
   values, logging a warning for each one. It then asks the dynamic field
   formatting helper for `display_name`, `filename` and `inode`, but only
   where they are missing. Last, it stores the tag labels when the event has
   a tag.
2. **Writing the report.** `NativePythonOutputModule.WriteFieldValues` walks
   the field map in ascending key order. It skips the four structural keys
   and files every other field into the reserved or the additional
   attributes section. It then lays out the report:
   - an 80-character `+-` separator;
   - the timestamp;
   - an optional `[Pathspec]:` section (the path specification's comparable
     text, indented, with the last piece dropped);
   - the two attribute sections;
   - an optional `[Tag]:` section (a blank line, `[Tag]:` and the labels
     line);
   - a final empty line.

   The lines are joined with newlines.

The modules follow that structure:

- `PyText` (`py_text.dfy`): the Python `str` behaviour the format relies on:
  - the `<` ordering that `sorted` uses, proved a strict total order;
  - `sorted` over a set of keys, with a method `SortKeys` and its
    specification `SortedNames`;
  - `str.join`, and `str.split` on one character, with their round trip;
  - `'+-' * 40`.
- `EventValues` (`event_values.dfy`): attribute values, Python truthiness,
  attribute pairs and the field names the format treats specially.
- `FormattingHelper` (`formatting_helper.dfy`): `GetFieldValues` as a method
  with its loop. It is specified by `FieldMap`, the walk of a name-sorted
  arrangement of the pairs, and lemmas cover:
  - which keys come out;
  - which value a name ends up holding;
  - that skipped pairs write nothing;
  - that the resolver is never consulted for, and never overrides, a present
    field;
  - that there is one warning per bytes value.
- `OutputModule` (`output_module.dfy`): `WriteFieldValues` as methods with
  loops and line-list updates. It is specified by `Render`. Lemmas cover:
  - the sections (ascending, exactly the right keys);
  - the error cases;
  - the separator;
  - the start and end of the text;
  - the path-specification section.
- `RawPy` (`end_to_end.dfy`): the two halves together, as the method
  `WriteEvent`. An event is renderable when three conditions hold:
  - no stored attribute is named `_timestamp`;
  - every stored `path_spec` attribute holds a path specification;
  - an event without a tag stores no `_event_tag_labels` attribute.

  `_event_identifier` attributes, a path specification under `path_spec` and
  tag-label attributes of a tagged event are all allowed. For a renderable
  event, writing the collected values does not raise, the report opens with
  the event's own timestamp, and the tag section appears exactly when the
  tag has labels.

Opaque collaborators are parameters:
- the event identifier string and the ISO 8601 timestamp string;
- `decode` (UTF-8 decoding with replacement);
- `resolve` (the dynamic field formatting helper's `GetFormattedField`);
- `show` (`str()` of a value);
- `reserved` (`definitions.RESERVED_VARIABLE_NAMES`).

Rendering errors that Python raises are values of `RenderError`.

## Model

| member | source | states |
|---|---|---|
| `FormattingHelper.GetFieldValues` | plaso/output/rawpy.py:25-97 | The field map is the walk of some name-sorted arrangement of the gathered pairs, with the warnings logged on that walk. Its keys are the identifier, the timestamp, every stored attribute name, the three fallback names and, with a tag, the tag labels. The resolver is asked exactly for the fallback names that no stored pair carries, and its answers are stored. A stored pair that no other pair shares its name with keeps its normalized value, even when other names repeat, unless the tag takes its name. The tag labels are stored as given. There is one warning per bytes value. |
| `FormattingHelper.SortAttributes` | plaso/output/rawpy.py:55 | `sorted(event_attributes)` by name: the result is ascending by name and a permutation of the input. |
| `FormattingHelper.AddFallbackFields` | plaso/output/rawpy.py:77-92 | Adds `display_name`, `filename` and `inode` from the resolver where missing, and reports exactly which names it asked for, in order. |
| `FormattingHelper.FallbackNames` | plaso/output/rawpy.py:77-92 | A name is asked for exactly when it is one of the three and is not already present. |
| `FormattingHelper.WithFallback` | plaso/output/rawpy.py:77-92 | The keys gain exactly the three names, present values are never replaced, and missing ones get the resolver's answer. |
| `FormattingHelper.ArrangementFacts` | plaso/output/rawpy.py:55-97 | The keys, resolver calls, unique-name values, tag value and warning count are the same for every name-sorted arrangement of the gathered pairs. |
| `FormattingHelper.ArrangementKeys` | plaso/output/rawpy.py:47-95 | The key set and the fallback requests depend only on the multiset of pairs, not on their order. |
| `FormattingHelper.ArrangementUniqueValues` | plaso/output/rawpy.py:55-75 | A stored pair whose name no other pair shares ends up under its name with its normalized value, in every arrangement, whatever other names repeat, unless the tag takes its name. |
| `FormattingHelper.ArrangementWarnings` | plaso/output/rawpy.py:67-73 | Every arrangement logs as many warnings as there are bytes-valued pairs. |
| `FormattingHelper.FallbackValues` | plaso/output/rawpy.py:77-95 | Storing the tag labels afterwards never overwrites a resolver answer. |
| `FormattingHelper.WalkKeys` | plaso/output/rawpy.py:55-75 | The loop stores exactly the names of the pairs it does not skip. |
| `FormattingHelper.WalkValue` | plaso/output/rawpy.py:55-75 | A name holds the normalized value of the last pair with that name that was not skipped. A name without such a pair keeps what the seed map had. |
| `FormattingHelper.LastKeptIsLatest` | plaso/output/rawpy.py:55-75 | The value `LastKept` returns is the one at the latest position holding that name and not skipped, and conversely. |
| `FormattingHelper.LastKeptPresent` | plaso/output/rawpy.py:55-75 | A stored value exists for a name exactly when some non-skipped pair carries it. |
| `FormattingHelper.SkippedPairsWriteNothing` | plaso/output/rawpy.py:56-65 | Removing every identifier, date-time and date-time-list pair leaves the walk's result unchanged. |
| `FormattingHelper.UniqueNameWins` | plaso/output/rawpy.py:55-75 | With no other pair of its name (other names may repeat), a stored pair's normalized value is what the walk leaves under that name. |
| `FormattingHelper.OrderIrrelevantForUniqueNames` | plaso/output/rawpy.py:55 | When names are unique, two orders of the same pairs give the same field map. |
| `FormattingHelper.FieldMapKeys` | plaso/output/rawpy.py:47-95 | The keys of the field map are the identifier, the timestamp, the stored names, the three fallback names and, with a tag, the tag labels. |
| `FormattingHelper.FieldMapValues` | plaso/output/rawpy.py:55-95 | A stored name holds its last stored pair's normalized value unless the tag takes it. A fallback name no pair carries holds the resolver's answer. With a tag, the labels hold the label list. |
| `FormattingHelper.WarningPerBytesValue` | plaso/output/rawpy.py:67-73 | The k-th warning names the k-th bytes-valued pair, the event data type and the decoded text. |
| `FormattingHelper.BytesAttributesPermutation` | plaso/output/rawpy.py:67-73 | The bytes-valued pairs of two orders of the same pairs are the same multiset. |
| `FormattingHelper.Skipped` | plaso/output/rawpy.py:56-65 | Container identifiers, date and time values, and non-empty lists whose first item is a date and time value are not stored. |
| `FormattingHelper.Normalize` | plaso/output/rawpy.py:67-69 | A bytes value is stored as its decoded text; every other value is stored as it is. |
| `FormattingHelper.Seed` | plaso/output/rawpy.py:47-49 | The starting map holds the identifier string under `_event_identifier` and the timestamp string under `_timestamp`, and nothing else. |
| `FormattingHelper.Gathered` | plaso/output/rawpy.py:51-53 | The event data's pairs, followed by the event data stream's pairs when there is a stream. |
| `FormattingHelper.Store` | plaso/output/rawpy.py:56-75 | A skipped pair leaves the map as it is. Any other pair sets its name to its normalized value, replacing what was there. |
| `FormattingHelper.Walk` | plaso/output/rawpy.py:55-75 | The map after storing the pairs one by one, in the given order, starting from the given map. |
| `FormattingHelper.Warnings` | plaso/output/rawpy.py:67-73 | One warning per bytes-valued pair, in walk order, carrying the pair's name, the event data type and the decoded text. Other pairs log nothing. |
| `FormattingHelper.Fill` | plaso/output/rawpy.py:77-92 | A present name is left as it is. A missing one gets the resolver's answer for that name. |
| `FormattingHelper.LabelList` | plaso/output/rawpy.py:94-95 | The tag's labels as a list of string values, in their order. |
| `FormattingHelper.WithTag` | plaso/output/rawpy.py:94-95 | With a tag, `_event_tag_labels` is set to its label list, replacing any stored value. Without a tag the map is unchanged. |
| `FormattingHelper.FieldMap` | plaso/output/rawpy.py:47-95 | The seed map, walked over the pairs in the given order, then filled with the three fallbacks, then given the tag labels. |
| `EventValues.Truthy` | plaso/output/rawpy.py:140 | Python truthiness: empty strings, bytes and lists, zero, `False` and `None` are false; identifiers, date and time values and path specifications are true. |
| `OutputModule.Separator` | plaso/output/rawpy.py:135 | The separator line is `'+-'` repeated 40 times. |
| `OutputModule.IsStructural` | plaso/output/rawpy.py:123-124 | The keys that never get an attribute line are exactly `_event_identifier`, `_event_tag_labels`, `_timestamp` and `path_spec`. |
| `OutputModule.AttributeLine` | plaso/output/rawpy.py:127 | An attribute line is two spaces, the name in braces, a space, and `str()` of the value. |
| `OutputModule.SectionLines` | plaso/output/rawpy.py:122-132 | Taking the keys in the given order, the attribute line of every field key that is not structural and whose membership in the reserved names matches the section. Other keys add nothing. |
| `OutputModule.Indented` | plaso/output/rawpy.py:145-146 | The same number of lines, each line prefixed by two spaces, in order. |
| `OutputModule.ReportLines` | plaso/output/rawpy.py:119-170 | The report's lines are the layout around the reserved and the additional section, both built over the keys in ascending order. |
| `OutputModule.PathSpecLines` | plaso/output/rawpy.py:139-149 | A missing or false `path_spec` gives no section. A true value that is not a path specification raises. Otherwise the section is a blank line, `[Pathspec]:`, and every newline-separated piece of the comparable text indented by two spaces, without the last piece. |
| `OutputModule.LabelStrings` | plaso/output/rawpy.py:162-164 | Iterating the labels gives the items of a list of strings, or the characters of a string. Every other true value yields no labels, which is the tag-labels error: an integer, a boolean, an identifier, a date-time value or a path specification cannot be iterated, and bytes or a list with a non-string item fail the `s` format. |
| `OutputModule.TagLine` | plaso/output/rawpy.py:163-168 | The line is `  {labels} [` followed by the labels, each in single quotes and separated by `, `, then `]`. |
| `OutputModule.TagLines` | plaso/output/rawpy.py:161-168 | Missing or false labels give no section. Labels that are not strings raise. Otherwise the section is a blank line, `[Tag]:` and the tag line. |
| `OutputModule.Assemble` | plaso/output/rawpy.py:134-170 | The layout is, in order:<br>- the separator, `[Timestamp]:` and the indented timestamp;<br>- the path specification section;<br>- a blank line, `[Reserved attributes]:` and the reserved lines;<br>- a blank line, `[Additional attributes]:` and the additional lines;<br>- the tag section;<br>- a final empty line. |
| `OutputModule.Layout` | plaso/output/rawpy.py:134-170 | The assembled lines, or the first error raised along the way:<br>- a missing `_timestamp`;<br>- a non-string `_timestamp`;<br>- the path specification's error;<br>- the tag's error. |
| `OutputModule.Render` | plaso/output/rawpy.py:119-172 | The report's lines joined with newlines, or the error. |
| `OutputModule.WriteFieldValues` | plaso/output/rawpy.py:111-172 | The text produced, or the error raised, is `Render` of the field map. |
| `OutputModule.AttributeSections` | plaso/output/rawpy.py:119-132 | The two section lists are the attribute lines of the non-structural keys, in ascending key order, split by membership in the reserved names. |
| `OutputModule.WriteLines` | plaso/output/rawpy.py:134-170 | The line list is the fixed layout of the timestamp, path specification, sections and tag, or the error raised on the way. |
| `OutputModule.IndentedDropLast` | plaso/output/rawpy.py:144-149 | Extending by the indented pieces and popping the last line gives the indented pieces without the last one. |
| `OutputModule.SelectedMembers` | plaso/output/rawpy.py:122-132 | The keys a section keeps are exactly the walked keys that are non-structural and on the section's side of the reserved names. |
| `OutputModule.SelectedSorted` | plaso/output/rawpy.py:122 | Keeping some keys of an ascending listing keeps it ascending. |
| `OutputModule.SectionLinesOfSelected` | plaso/output/rawpy.py:122-132 | A section's lines are the attribute lines of its kept keys, in order. |
| `OutputModule.SectionOrder` | plaso/output/rawpy.py:119-132 | Each section is one line per key of that section, ascending by key, whatever order the map was built in. |
| `OutputModule.ReportLinesLayout` | plaso/output/rawpy.py:119-170 | The report is the fixed layout around the two ascending sections. |
| `OutputModule.RenderOutcome` | plaso/output/rawpy.py:134-164 | Rendering raises exactly for the following:<br>- a missing `_timestamp`;<br>- a non-string `_timestamp`;<br>- a true `path_spec` that is not a path specification;<br>- true tag labels that are not strings.<br>Each case raises with its own error. |
| `OutputModule.SeparatorShape` | plaso/output/rawpy.py:135 | The separator is 80 characters alternating `+` and `-`. |
| `OutputModule.AssembledText` | plaso/output/rawpy.py:134-172 | The joined layout starts with the separator line, `[Timestamp]:` and the indented timestamp, and ends with a newline. |
| `OutputModule.ReportText` | plaso/output/rawpy.py:134-172 | A successful report starts with the separator and the field map's timestamp, and ends with a newline. |
| `OutputModule.PathSpecBody` | plaso/output/rawpy.py:139-149 | The dropped last piece holds no newline, and the kept pieces plus a newline and that piece rebuild the comparable text. It is empty when the text ends in a newline. |
| `OutputModule.PathSpecLineCount` | plaso/output/rawpy.py:139-149 | The section has its two heading lines plus one line per newline of the comparable text. |
| `PyText.Less` | plaso/output/rawpy.py:55 | Python's `<` on strings: lexicographic by code point, with a proper prefix sorting first. `sorted` orders the names by it, at line 55 and again at line 122. |
| `PyText.SortedNames` | plaso/output/rawpy.py:122 | The key set listed in ascending order, with as many names as the set has. |
| `PyText.Join` | plaso/output/rawpy.py:172 | Python's `sep.join(parts)`: the parts with the separator between neighbours. No parts give the empty string. |
| `PyText.Split` | plaso/output/rawpy.py:146 | Python's `split` on one character: the runs between separators, empty runs included, and always at least one piece. |
| `PyText.Repeat` | plaso/output/rawpy.py:135 | Python's `s * n`: `n` copies of `s`, one after another. |
| `PyText.SortKeys` | plaso/output/rawpy.py:122 | `sorted` of the keys is `SortedNames` of the key set and lists exactly its members. |
| `PyText.SortedNamesSorted` | plaso/output/rawpy.py:122 | The sorted keys are strictly ascending and are exactly the set's members. |
| `PyText.SortedNamesUnique` | plaso/output/rawpy.py:122 | Any strictly ascending listing of a set is its sorted listing. |
| `PyText.LessIrreflexive` | plaso/output/rawpy.py:55 | No name sorts before itself. |
| `PyText.LessTransitive` | plaso/output/rawpy.py:55 | The name order is transitive. |
| `PyText.LessTotal` | plaso/output/rawpy.py:55 | Of two different names one sorts first. |
| `PyText.LessAsymmetric` | plaso/output/rawpy.py:55 | Two names never sort before each other. |
| `PyText.JoinConcat` | plaso/output/rawpy.py:172 | Joining two non-empty line lists is joining each, with one separator between. |
| `PyText.JoinStart` | plaso/output/rawpy.py:172 | The joined text starts with the joined front and a separator. |
| `PyText.JoinEnd` | plaso/output/rawpy.py:170-172 | A final empty line makes the text end with the separator. |
| `PyText.JoinSplit` | plaso/output/rawpy.py:146 | The split pieces hold no separator, and joining them gives the text back. |
| `PyText.SplitJoin` | plaso/output/rawpy.py:146 | Splitting joined separator-free pieces gives the pieces back. |
| `PyText.SplitCount` | plaso/output/rawpy.py:146 | There is one more piece than there are separators. |
| `PyText.RepeatAlternates` | plaso/output/rawpy.py:135 | `'+-' * n` has length 2n, with `+` at even and `-` at odd positions. |
| `RawPy.LabelsRoundTrip` | plaso/output/rawpy.py:161-164 | The labels stored for a tag iterate back to the same strings. |
| `RawPy.SeedKept` | plaso/output/rawpy.py:47-49 | With no stored attribute of that name, the field map holds the identifier string under `_event_identifier` and the timestamp string under `_timestamp`. |
| `RawPy.PathSpecStored` | plaso/output/rawpy.py:139-140 | If every stored attribute named `path_spec` holds a path specification, the field map holds one there or nothing. |
| `RawPy.TagSection` | plaso/output/rawpy.py:161-168 | Provided an event without a tag stores no attribute named `_event_tag_labels`, the `[Tag]:` section is written exactly when the event has a tag with labels, and it lists those labels. |
| `RawPy.EventReport` | plaso/output/rawpy.py:25-172 | For a renderable event, writing the collected field values does not raise, and the text opens with the separator and the event's timestamp. The event is renderable when no stored attribute is named `_timestamp`, every stored `path_spec` attribute holds a path specification, and an event without a tag stores no `_event_tag_labels` attribute. |
| `RawPy.WriteEvent` | plaso/output/rawpy.py:25-172 | One event through both halves. The output and the warnings are the rendering and the warnings of one name-sorted arrangement of the event's pairs. There is one warning per bytes value. A renderable event renders without error, and its text opens with the separator and the event's timestamp. |

## Left out

- Writing the text (`WriteLine`, line 174) is output I/O. The model stops at the text that would be written.
- The constructors (lines 20-23, 106-109) hold no state the model needs. Output registration (line 177) is not modelled either.
- The event identifier's `CopyToString` and the conversion of the timestamp to an ISO 8601 string through `PosixTimeInMicroseconds` are taken as ready strings.
- UTF-8 decoding with replacement is the parameter `decode`. `str()` of a field value is the parameter `show`.
- `definitions.RESERVED_VARIABLE_NAMES` is the parameter `reserved`. The definitions module is not part of this model.
- The dynamic field formatting helper's `GetFormattedField` is the parameter `resolve`, which sees only the field name. Its other arguments are the same for every call within one event.
- `logger.warning` is modelled as a returned list of `Warning` records. The message text is left out.
- FormattingHelper.GetFieldValues: Python sorts the `(name, value)` tuples, so among pairs with the same name the values decide which one is stored last. Values that cannot be compared raise `TypeError`. The model fixes only the name order, so the value kept for a repeated name is stated as "the last one in some name-sorted arrangement". The data stream's pair is not necessarily the one kept: the sort decides, not the order of gathering.
- FormattingHelper.SortAttributes: leaves the relative order of pairs with equal names unspecified, for the same reason.
- Floating point values, dictionaries, tuples and other objects are not among the modelled value kinds.
- The `[Pathspec]:` section always drops its last line, because `pop` runs unconditionally. A comparable text without a trailing newline therefore loses its last line; `PathSpecBody` states exactly what is dropped.
- A truthy tag-labels value is iterated. Only strings and lists of strings format; every other modelled value raises, either when it is iterated or at the `s` format, which the model returns as `TagLabelsNotStrings`.
