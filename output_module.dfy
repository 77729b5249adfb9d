/**
 The native Python output module: renders the field values of one event as a
 fixed-layout, sectioned text report.
 */
module OutputModule {
  import opened EventValues
  import opened PyText

  /** Why rendering raises instead of producing text. */
  datatype RenderError =
      /** `field_values['_timestamp']` raises `KeyError` */
    | MissingTimestamp
      /** the timestamp value does not take the `s` format */
    | TimestampNotString
      /** a true `path_spec` value without a `comparable` attribute */
    | PathSpecNotComparable
      /** true tag labels that are not a sequence of strings */
    | TagLabelsNotStrings

  /** `'+-' * 40`. */
  function Separator(): string
  {
    Repeat("+-", 40)
  }

  /** Section headings. */
  const TimestampHeading := "[Timestamp]:"
  const PathSpecHeading := "[Pathspec]:"
  const ReservedHeading := "[Reserved attributes]:"
  const AdditionalHeading := "[Additional attributes]:"
  const TagHeading := "[Tag]:"

  /** The four keys that never produce an attribute line. */
  predicate IsStructural(name: string)
  {
    name == EventIdentifierKey || name == TagLabelsKey || name == TimestampKey || name == PathSpecKey
  }

  /** The field `k` gets a line in the reserved section (`wantReserved`) or
      in the additional one. */
  predicate InSection(fields: map<string, Value>, k: string, reserved: set<string>, wantReserved: bool)
  {
    k in fields && !IsStructural(k) && (k in reserved) == wantReserved
  }

  /** `'  {name} value'`, with `show` standing for `str()`. */
  function AttributeLine(name: string, value: Value, show: Value -> string): string
  {
    "  {" + name + "} " + show(value)
  }

  /** One attribute line per key of `keys`, in their order, for the keys
      that belong to the reserved section (`wantReserved`) or to the
      additional one. */
  function SectionLines(fields: map<string, Value>, keys: seq<string>, reserved: set<string>,
                        wantReserved: bool, show: Value -> string): seq<string>
    decreases |keys|
  {
    if keys == [] then []
    else
      var k := keys[|keys| - 1];
      SectionLines(fields, keys[..|keys| - 1], reserved, wantReserved, show)
        + if InSection(fields, k, reserved, wantReserved) then [AttributeLine(k, fields[k], show)] else []
  }

  /** Extending the keys by one adds at most that key's line. */
  lemma SectionLinesStep(fields: map<string, Value>, keys: seq<string>, i: nat, reserved: set<string>,
                         wantReserved: bool, show: Value -> string)
    requires i < |keys|
    ensures SectionLines(fields, keys[..i + 1], reserved, wantReserved, show)
            == SectionLines(fields, keys[..i], reserved, wantReserved, show)
               + if InSection(fields, keys[i], reserved, wantReserved)
                 then [AttributeLine(keys[i], fields[keys[i]], show)] else []
  {
    assert keys[..i + 1][..i] == keys[..i];
  }

  /** The `[Pathspec]:` section, or nothing when `path_spec` is missing or
      false. Its body is every piece of the comparable form, indented, with
      the last piece dropped. */
  function PathSpecLines(fields: map<string, Value>): Result<seq<string>, RenderError>
  {
    var v := if PathSpecKey in fields then fields[PathSpecKey] else NoneValue;
    if !Truthy(v) then Ok([])
    else if !v.PathSpec? then Err(PathSpecNotComparable)
    else
      var pieces := Split(v.comparable, '\n');
      Ok(["", PathSpecHeading] + Indented(pieces[..|pieces| - 1]))
  }

  function Indented(lines: seq<string>): (r: seq<string>)
    ensures |r| == |lines| && forall i :: 0 <= i < |lines| ==> r[i] == "  " + lines[i]
  {
    seq(|lines|, i requires 0 <= i < |lines| => "  " + lines[i])
  }

  /** Dropping the last line of an indented block written after a heading is
      indenting all but the last piece. */
  lemma IndentedDropLast(front: seq<string>, heading: seq<string>, pieces: seq<string>)
    requires |pieces| >= 1
    ensures ((front + heading) + Indented(pieces))[..|front| + |heading| + |pieces| - 1]
         == front + (heading + Indented(pieces[..|pieces| - 1]))
  {
    assert Indented(pieces)[..|pieces| - 1] == Indented(pieces[..|pieces| - 1]);
  }

  /** What iterating the tag labels yields, when every item is a string: the
      items of a list, or the characters of a string. */
  function LabelStrings(v: Value): Option<seq<string>>
  {
    match v
    case List(items) =>
      if forall i :: 0 <= i < |items| ==> items[i].Str? then
        Some(seq(|items|, i requires 0 <= i < |items| && items[i].Str? => items[i].s))
      else None
    case Str(s) => Some(seq(|s|, i requires 0 <= i < |s| => [s[i]]))
    case _ => None
  }

  /** `'  {labels} [' + ', '.join(quoted labels) + ']'`. */
  function TagLine(labels: seq<string>): string
  {
    "  {labels} [" + Join(seq(|labels|, i requires 0 <= i < |labels| => "'" + labels[i] + "'"), ", ") + "]"
  }

  /** The `[Tag]:` section, or nothing when the labels are missing or
      false. */
  function TagLines(fields: map<string, Value>): Result<seq<string>, RenderError>
  {
    var v := if TagLabelsKey in fields then fields[TagLabelsKey] else NoneValue;
    if !Truthy(v) then Ok([])
    else match LabelStrings(v)
      case None => Err(TagLabelsNotStrings)
      case Some(labels) => Ok(["", TagHeading, TagLine(labels)])
  }

  /** The lines of the report around its two attribute sections, or the
      error rendering raises. */
  function Layout(fields: map<string, Value>, reservedLines: seq<string>,
                  additionalLines: seq<string>): Result<seq<string>, RenderError>
  {
    if TimestampKey !in fields then Err(MissingTimestamp)
    else if !fields[TimestampKey].Str? then Err(TimestampNotString)
    else match PathSpecLines(fields)
      case Err(e) => Err(e)
      case Ok(pathSpec) =>
        match TagLines(fields)
        case Err(e) => Err(e)
        case Ok(tagLines) =>
          Ok(Assemble(fields[TimestampKey].s, pathSpec, reservedLines, additionalLines, tagLines))
  }

  /** The lines of the report, in order, or the error rendering raises. */
  ghost function ReportLines(fields: map<string, Value>, reserved: set<string>,
                             show: Value -> string): Result<seq<string>, RenderError>
  {
    var keys := SortedNames(fields.Keys);
    Layout(fields, SectionLines(fields, keys, reserved, true, show),
           SectionLines(fields, keys, reserved, false, show))
  }

  /** The fixed layout: separator, timestamp, the optional path
      specification, the reserved and the additional attributes, the optional
      tag, and a final empty line. */
  function Assemble(timestamp: string, pathSpec: seq<string>, reservedLines: seq<string>,
                    additionalLines: seq<string>, tagLines: seq<string>): seq<string>
  {
    [Separator(), TimestampHeading, "  " + timestamp]
    + pathSpec
    + ["", ReservedHeading] + reservedLines
    + ["", AdditionalHeading] + additionalLines
    + tagLines
    + [""]
  }

  /** The report text: the lines joined with newlines. */
  ghost function Render(fields: map<string, Value>, reserved: set<string>,
                        show: Value -> string): Result<string, RenderError>
  {
    match ReportLines(fields, reserved, show)
    case Err(e) => Err(e)
    case Ok(lines) => Ok(Join(lines, "\n"))
  }

  // ---------------------------------------------------------------------
  // Operation

  /** `WriteFieldValues` up to the text it writes: sorts the fields into the
      reserved and the additional section, then lays the sections out. */
  method WriteFieldValues(fields: map<string, Value>, reserved: set<string>, show: Value -> string)
    returns (output: Result<string, RenderError>)
    ensures output == Render(fields, reserved, show)
  {
    var reservedLines, additionalLines := AttributeSections(fields, reserved, show);
    var lines := WriteLines(fields, reservedLines, additionalLines);
    assert lines == ReportLines(fields, reserved, show);
    match lines
    case Err(e) =>
      output := Err(e);
    case Ok(ls) =>
      output := Ok(Join(ls, "\n"));
  }

  /** The loop of `WriteFieldValues`: one line per field in ascending key
      order, skipping the structural keys, into the reserved section when
      the name is reserved and into the additional one otherwise. */
  method AttributeSections(fields: map<string, Value>, reserved: set<string>, show: Value -> string)
    returns (reservedLines: seq<string>, additionalLines: seq<string>)
    ensures reservedLines == SectionLines(fields, SortedNames(fields.Keys), reserved, true, show)
    ensures additionalLines == SectionLines(fields, SortedNames(fields.Keys), reserved, false, show)
  {
    reservedLines := [];
    additionalLines := [];

    var keys := SortKeys(fields.Keys);
    for i := 0 to |keys|
      invariant reservedLines == SectionLines(fields, keys[..i], reserved, true, show)
      invariant additionalLines == SectionLines(fields, keys[..i], reserved, false, show)
    {
      SectionLinesStep(fields, keys, i, reserved, true, show);
      SectionLinesStep(fields, keys, i, reserved, false, show);
      var name := keys[i];
      if IsStructural(name) {
        continue;
      }
      var line := AttributeLine(name, fields[name], show);
      if name in reserved {
        reservedLines := reservedLines + [line];
      } else {
        additionalLines := additionalLines + [line];
      }
    }
    assert keys[..|keys|] == keys;
  }

  /** The writing part of `WriteFieldValues`: the timestamp, the path
      specification, both sections and the tag labels, line by line. */
  method WriteLines(fields: map<string, Value>, reservedLines: seq<string>, additionalLines: seq<string>)
    returns (result: Result<seq<string>, RenderError>)
    ensures result == Layout(fields, reservedLines, additionalLines)
  {
    if TimestampKey !in fields {
      return Err(MissingTimestamp);
    }
    var timestamp := fields[TimestampKey];
    if !timestamp.Str? {
      return Err(TimestampNotString);
    }
    var lines := [Separator(), TimestampHeading, "  " + timestamp.s];
    ghost var header := lines;

    ghost var pathSpecSection: seq<string> := [];
    var pathSpec := if PathSpecKey in fields then fields[PathSpecKey] else NoneValue;
    if Truthy(pathSpec) {
      if !pathSpec.PathSpec? {
        return Err(PathSpecNotComparable);
      }
      lines := lines + ["", PathSpecHeading];
      var pieces := Split(pathSpec.comparable, '\n');
      lines := lines + Indented(pieces);
      // Remove the line of the last piece.
      lines := lines[..|lines| - 1];
      IndentedDropLast(header, ["", PathSpecHeading], pieces);
      pathSpecSection := ["", PathSpecHeading] + Indented(pieces[..|pieces| - 1]);
      assert lines == header + pathSpecSection;
    }
    assert PathSpecLines(fields) == Ok(pathSpecSection);
    assert lines == header + pathSpecSection;

    lines := lines + ["", ReservedHeading];
    lines := lines + reservedLines;
    lines := lines + ["", AdditionalHeading];
    lines := lines + additionalLines;
    ghost var body := lines;

    ghost var tagSection: seq<string> := [];
    var labels := if TagLabelsKey in fields then fields[TagLabelsKey] else NoneValue;
    if Truthy(labels) {
      var strings := LabelStrings(labels);
      if strings.None? {
        return Err(TagLabelsNotStrings);
      }
      tagSection := ["", TagHeading, TagLine(strings.value)];
      lines := lines + ["", TagHeading, TagLine(strings.value)];
    }
    assert TagLines(fields) == Ok(tagSection);
    assert lines == body + tagSection;

    lines := lines + [""];
    result := Ok(lines);
  }

  // ---------------------------------------------------------------------
  // Lemmas

  /** The keys of `fields` that get a line in the reserved section
      (`wantReserved`) or in the additional one. */
  function SectionKeys(fields: map<string, Value>, reserved: set<string>, wantReserved: bool): set<string>
  {
    set k | k in fields && InSection(fields, k, reserved, wantReserved)
  }

  /** The attribute lines of `names`, in their order. */
  function LinesOf(fields: map<string, Value>, names: seq<string>, show: Value -> string): seq<string>
    requires forall n :: n in names ==> n in fields
  {
    seq(|names|, i requires 0 <= i < |names| => AttributeLine(names[i], fields[names[i]], show))
  }

  /** The keys of `keys`, in their order, that get a line in the section. */
  function Selected(fields: map<string, Value>, keys: seq<string>, reserved: set<string>,
                    wantReserved: bool): seq<string>
    decreases |keys|
  {
    if keys == [] then []
    else
      var k := keys[|keys| - 1];
      Selected(fields, keys[..|keys| - 1], reserved, wantReserved)
        + if InSection(fields, k, reserved, wantReserved) then [k] else []
  }

  lemma {:induction false} SelectedMembers(fields: map<string, Value>, keys: seq<string>,
                                           reserved: set<string>, wantReserved: bool)
    ensures forall k :: k in Selected(fields, keys, reserved, wantReserved)
                        <==> k in keys && k in SectionKeys(fields, reserved, wantReserved)
    decreases |keys|
  {
    if keys != [] {
      var init := keys[..|keys| - 1];
      SelectedMembers(fields, init, reserved, wantReserved);
      assert keys == init + [keys[|keys| - 1]];
    }
  }

  /** Keeping some keys of a sorted listing keeps it sorted. */
  lemma {:induction false} SelectedSorted(fields: map<string, Value>, keys: seq<string>,
                                          reserved: set<string>, wantReserved: bool)
    requires StrictlySorted(keys)
    ensures StrictlySorted(Selected(fields, keys, reserved, wantReserved))
    decreases |keys|
  {
    if keys != [] {
      var n := |keys| - 1;
      var init := keys[..n];
      SelectedSorted(fields, init, reserved, wantReserved);
      if InSection(fields, keys[n], reserved, wantReserved) {
        SelectedMembers(fields, init, reserved, wantReserved);
        AppendGreatest(Selected(fields, init, reserved, wantReserved), init, keys[n]);
      }
    }
  }

  /** Appending a name above every name of `within` keeps a sorted listing
      drawn from `within` sorted. */
  lemma AppendGreatest(front: seq<string>, within: seq<string>, k: string)
    requires StrictlySorted(front)
    requires forall x :: x in front ==> x in within
    requires forall i :: 0 <= i < |within| ==> Less(within[i], k)
    ensures StrictlySorted(front + [k])
  {
    var q := front + [k];
    forall i, j | 0 <= i < j < |q| ensures Less(q[i], q[j]) {
      if j == |front| {
        assert q[i] in within;
        var p :| 0 <= p < |within| && within[p] == q[i];
      } else {
        assert q[i] == front[i] && q[j] == front[j];
      }
    }
  }

  /** The lines of a section are those of its selected keys. */
  lemma {:induction false} SectionLinesOfSelected(fields: map<string, Value>, keys: seq<string>,
                                                  reserved: set<string>, wantReserved: bool,
                                                  show: Value -> string)
    ensures forall k :: k in Selected(fields, keys, reserved, wantReserved) ==> k in fields
    ensures SectionLines(fields, keys, reserved, wantReserved, show)
         == LinesOf(fields, Selected(fields, keys, reserved, wantReserved), show)
    decreases |keys|
  {
    SelectedMembers(fields, keys, reserved, wantReserved);
    if keys != [] {
      SectionLinesOfSelected(fields, keys[..|keys| - 1], reserved, wantReserved, show);
    }
  }

  /** Each section holds one line per key of the section, ascending by
      key, whatever the order the map was built in. */
  lemma SectionOrder(fields: map<string, Value>, reserved: set<string>, wantReserved: bool,
                     show: Value -> string)
    ensures forall k :: k in SortedNames(SectionKeys(fields, reserved, wantReserved)) ==> k in fields
    ensures SectionLines(fields, SortedNames(fields.Keys), reserved, wantReserved, show)
         == LinesOf(fields, SortedNames(SectionKeys(fields, reserved, wantReserved)), show)
  {
    var keys := SortedNames(fields.Keys);
    var section := SectionKeys(fields, reserved, wantReserved);
    SortedNamesSorted(fields.Keys);
    SelectedSorted(fields, keys, reserved, wantReserved);
    SelectedMembers(fields, keys, reserved, wantReserved);
    SortedNamesUnique(Selected(fields, keys, reserved, wantReserved), section);
    SectionLinesOfSelected(fields, keys, reserved, wantReserved, show);
  }

  /** The report as the layout of its two sorted sections. */
  lemma ReportLinesLayout(fields: map<string, Value>, reserved: set<string>, show: Value -> string)
    ensures forall k :: k in SortedNames(SectionKeys(fields, reserved, true)) ==> k in fields
    ensures forall k :: k in SortedNames(SectionKeys(fields, reserved, false)) ==> k in fields
    ensures ReportLines(fields, reserved, show)
         == Layout(fields, LinesOf(fields, SortedNames(SectionKeys(fields, reserved, true)), show),
                   LinesOf(fields, SortedNames(SectionKeys(fields, reserved, false)), show))
  {
    SectionOrder(fields, reserved, true, show);
    SectionOrder(fields, reserved, false, show);
  }

  /** When rendering raises, and with which error. */
  lemma RenderOutcome(fields: map<string, Value>, reserved: set<string>, show: Value -> string)
    ensures Render(fields, reserved, show) == Err(MissingTimestamp) <==> TimestampKey !in fields
    ensures Render(fields, reserved, show) == Err(TimestampNotString)
            <==> TimestampKey in fields && !fields[TimestampKey].Str?
    ensures Render(fields, reserved, show) == Err(PathSpecNotComparable)
            <==> TimestampKey in fields && fields[TimestampKey].Str?
                 && PathSpecKey in fields && Truthy(fields[PathSpecKey]) && !fields[PathSpecKey].PathSpec?
    ensures Render(fields, reserved, show) == Err(TagLabelsNotStrings)
            <==> TimestampKey in fields && fields[TimestampKey].Str? && PathSpecLines(fields).Ok?
                 && TagLabelsKey in fields && Truthy(fields[TagLabelsKey])
                 && LabelStrings(fields[TagLabelsKey]).None?
  {
  }

  /** The separator is 80 characters, `+` and `-` alternating. */
  lemma SeparatorShape()
    ensures |Separator()| == 80
    ensures forall i :: 0 <= i < 80 ==> Separator()[i] == if i % 2 == 0 then '+' else '-'
  {
    RepeatAlternates(40, 0);
    forall i | 0 <= i < 80 ensures Separator()[i] == if i % 2 == 0 then '+' else '-' {
      RepeatAlternates(40, i);
    }
  }

  /** The joined layout starts with the separator and the timestamp, and
      ends with a newline. */
  lemma AssembledText(timestamp: string, pathSpec: seq<string>, reservedLines: seq<string>,
                      additionalLines: seq<string>, tagLines: seq<string>)
    ensures var text := Join(Assemble(timestamp, pathSpec, reservedLines, additionalLines, tagLines), "\n");
            var start := Separator() + "\n" + TimestampHeading + "\n" + "  " + timestamp + "\n";
            |start| <= |text| && text[..|start|] == start && text[|text| - 1] == '\n'
  {
    var lines := Assemble(timestamp, pathSpec, reservedLines, additionalLines, tagLines);
    var header := [Separator(), TimestampHeading, "  " + timestamp];
    assert header[1..][1..] == ["  " + timestamp];
    assert Join(header[1..], "\n") == TimestampHeading + "\n" + ("  " + timestamp);
    assert Join(header, "\n") + "\n"
        == Separator() + "\n" + TimestampHeading + "\n" + "  " + timestamp + "\n";
    JoinStart(header, lines[3..], "\n");
    assert lines == header + lines[3..];
    JoinEnd(lines[..|lines| - 1], "\n");
    assert lines == lines[..|lines| - 1] + [""];
  }

  /** The text starts with the separator and the timestamp, and ends with a
      newline. */
  lemma ReportText(fields: map<string, Value>, reserved: set<string>, show: Value -> string)
    requires Render(fields, reserved, show).Ok?
    ensures TimestampKey in fields && fields[TimestampKey].Str?
    ensures var text := Render(fields, reserved, show).value;
            var start := Separator() + "\n" + TimestampHeading + "\n" + "  " + fields[TimestampKey].s + "\n";
            |start| <= |text| && text[..|start|] == start && text[|text| - 1] == '\n'
  {
    var keys := SortedNames(fields.Keys);
    AssembledText(fields[TimestampKey].s, PathSpecLines(fields).value,
                  SectionLines(fields, keys, reserved, true, show),
                  SectionLines(fields, keys, reserved, false, show), TagLines(fields).value);
  }

  /** The path specification section keeps every line of the comparable text
      that ends in a newline, and drops only what follows the last newline. */
  lemma PathSpecBody(comparable: string)
    ensures var pieces := Split(comparable, '\n');
            && '\n' !in pieces[|pieces| - 1]
            && (|pieces| > 1 ==> comparable == Join(pieces[..|pieces| - 1], "\n") + "\n" + pieces[|pieces| - 1])
            && (|pieces| == 1 ==> comparable == pieces[0])
            && (|comparable| > 0 && comparable[|comparable| - 1] == '\n' ==> pieces[|pieces| - 1] == "")
  {
    var pieces := Split(comparable, '\n');
    var n := |pieces| - 1;
    JoinSplit(comparable, '\n');
    assert pieces[n] in pieces;
    if n > 0 {
      assert pieces == pieces[..n] + [pieces[n]];
      JoinConcat(pieces[..n], [pieces[n]], "\n");
    }
  }

  /** The section has a header and one line per newline of the comparable
      text. */
  lemma PathSpecLineCount(fields: map<string, Value>)
    requires PathSpecKey in fields && fields[PathSpecKey].PathSpec?
    ensures PathSpecLines(fields).Ok?
    ensures |PathSpecLines(fields).value| == 2 + multiset(fields[PathSpecKey].comparable)['\n']
  {
    SplitCount(fields[PathSpecKey].comparable, '\n');
  }
}
