/**
 The two halves together: the field values `GetFieldValues` collects, written
 by `WriteFieldValues`.
 */
module RawPy {
  import opened EventValues
  import opened FormattingHelper
  import opened OutputModule

  /** The tag labels the helper stores come back unchanged when the renderer
      iterates over them. */
  lemma LabelsRoundTrip(labels: seq<string>)
    ensures LabelStrings(LabelList(labels)) == Some(labels)
  {
    var items := LabelList(labels).items;
    assert forall i :: 0 <= i < |items| ==> items[i].Str? && items[i].s == labels[i];
    var back := seq(|items|, i requires 0 <= i < |items| && items[i].Str? => items[i].s);
    assert back == labels;
  }

  /** Only path specifications are stored under `path_spec`. */
  predicate PathSpecsOnly(ordered: seq<Attribute>)
  {
    forall a :: a in ordered && !Skipped(a.value) && a.name == PathSpecKey ==> a.value.PathSpec?
  }

  /** Without a tag, no stored attribute is named `_event_tag_labels`. */
  predicate LabelsOnlyFromTag(ordered: seq<Attribute>, tag: Option<seq<string>>)
  {
    forall a :: a in ordered && !Skipped(a.value) && tag.None? ==> a.name != TagLabelsKey
  }

  /** No stored attribute takes a name the renderer reads as structure,
      except a path specification under `path_spec`, and the tag labels come
      only from the tag. */
  predicate Renderable(ordered: seq<Attribute>, tag: Option<seq<string>>)
  {
    && (forall a :: a in ordered && !Skipped(a.value) ==> a.name != TimestampKey)
    && PathSpecsOnly(ordered)
    && LabelsOnlyFromTag(ordered, tag)
  }

  /** Whether an event is renderable does not depend on the order of its
      attributes. */
  lemma RenderableArrangement(ordered: seq<Attribute>, attributes: seq<Attribute>,
                              tag: Option<seq<string>>)
    requires multiset(ordered) == multiset(attributes)
    ensures Renderable(ordered, tag) <==> Renderable(attributes, tag)
  {
    SameMembers(ordered, attributes);
  }

  /** The identifier and the timestamp strings survive the walk, the
      fallback and the tag when no stored attribute takes their name. */
  lemma SeedKept(identifier: string, timestamp: string, ordered: seq<Attribute>,
                 tag: Option<seq<string>>, resolve: string -> string,
                 decode: seq<byte> -> string, key: string)
    requires key in Seed(identifier, timestamp) && key !in KeptNames(ordered)
    ensures var fields := FieldMap(identifier, timestamp, ordered, tag, resolve, decode);
            key in fields && fields[key] == Seed(identifier, timestamp)[key]
  {
    var base := Seed(identifier, timestamp);
    LastKeptPresent(ordered, key);
    WalkValue(base, ordered, decode, key);
  }

  /** What is under `path_spec` after `GetFieldValues` is a path
      specification, or nothing. */
  lemma PathSpecStored(identifier: string, timestamp: string, ordered: seq<Attribute>,
                       tag: Option<seq<string>>, resolve: string -> string,
                       decode: seq<byte> -> string)
    requires PathSpecsOnly(ordered)
    ensures var fields := FieldMap(identifier, timestamp, ordered, tag, resolve, decode);
            PathSpecKey in fields ==> fields[PathSpecKey].PathSpec?
  {
    FieldMapKeys(identifier, timestamp, ordered, tag, resolve, decode);
    FieldMapValues(identifier, timestamp, ordered, tag, resolve, decode, PathSpecKey);
    if PathSpecKey in KeptNames(ordered) {
      var v := LastKept(ordered, PathSpecKey).value;
      LastKeptIsLatest(ordered, PathSpecKey, v);
      var i :| IsLatestKept(ordered, i, PathSpecKey, v);
      assert ordered[i] in ordered;
    }
  }

  /** The `[Tag]:` section is written exactly when the event has a tag with
      at least one label, and lists those labels. */
  lemma TagSection(identifier: string, timestamp: string, ordered: seq<Attribute>,
                   tag: Option<seq<string>>, resolve: string -> string,
                   decode: seq<byte> -> string)
    requires LabelsOnlyFromTag(ordered, tag)
    ensures TagLines(FieldMap(identifier, timestamp, ordered, tag, resolve, decode))
         == Ok(if tag.Some? && |tag.value| > 0 then ["", TagHeading, TagLine(tag.value)] else [])
  {
    FieldMapKeys(identifier, timestamp, ordered, tag, resolve, decode);
    FieldMapValues(identifier, timestamp, ordered, tag, resolve, decode, TagLabelsKey);
    if tag.Some? {
      LabelsRoundTrip(tag.value);
    }
  }

  /** Writing the field values of such an event does not raise; the report
      opens with the separator and the event's own timestamp. */
  lemma EventReport(identifier: string, timestamp: string, ordered: seq<Attribute>,
                    tag: Option<seq<string>>, resolve: string -> string,
                    decode: seq<byte> -> string, reserved: set<string>, show: Value -> string)
    requires Renderable(ordered, tag)
    ensures var fields := FieldMap(identifier, timestamp, ordered, tag, resolve, decode);
            Render(fields, reserved, show).Ok?
    ensures var fields := FieldMap(identifier, timestamp, ordered, tag, resolve, decode);
            var text := Render(fields, reserved, show).value;
            var start := Separator() + "\n" + TimestampHeading + "\n" + "  " + timestamp + "\n";
            Render(fields, reserved, show).Ok? ==> |start| <= |text| && text[..|start|] == start
  {
    var fields := FieldMap(identifier, timestamp, ordered, tag, resolve, decode);
    SeedKept(identifier, timestamp, ordered, tag, resolve, decode, TimestampKey);
    PathSpecStored(identifier, timestamp, ordered, tag, resolve, decode);
    TagSection(identifier, timestamp, ordered, tag, resolve, decode);
    RenderOutcome(fields, reserved, show);
    ReportText(fields, reserved, show);
  }

  /** One event through both halves: `GetFieldValues`, then
      `WriteFieldValues` on the map it returns. The text is the rendering
      of some name-sorted arrangement of the event's attributes; for a
      renderable event it exists and opens with the separator and the
      event's timestamp. */
  method WriteEvent(identifier: string, timestamp: string, dataType: string,
                    dataAttributes: seq<Attribute>, stream: Option<seq<Attribute>>,
                    tag: Option<seq<string>>, resolve: string -> string,
                    decode: seq<byte> -> string, reserved: set<string>, show: Value -> string)
    returns (output: Result<string, RenderError>, warnings: seq<Warning>)
    ensures exists ordered {:trigger IsArrangement(ordered, Gathered(dataAttributes, stream))} ::
              && IsArrangement(ordered, Gathered(dataAttributes, stream))
              && output == Render(FieldMap(identifier, timestamp, ordered, tag, resolve, decode), reserved, show)
              && warnings == Warnings(dataType, ordered, decode)
    ensures |warnings| == |BytesAttributes(Gathered(dataAttributes, stream))|
    ensures Renderable(Gathered(dataAttributes, stream), tag) ==> output.Ok?
    ensures var start := Separator() + "\n" + TimestampHeading + "\n" + "  " + timestamp + "\n";
            Renderable(Gathered(dataAttributes, stream), tag) && output.Ok?
            ==> |start| <= |output.value| && output.value[..|start|] == start
  {
    var fields, logged, _ := GetFieldValues(identifier, timestamp, dataType, dataAttributes, stream,
                                            tag, resolve, decode);
    ghost var attributes := Gathered(dataAttributes, stream);
    ghost var ordered :| && IsArrangement(ordered, attributes)
                         && fields == FieldMap(identifier, timestamp, ordered, tag, resolve, decode)
                         && logged == Warnings(dataType, ordered, decode);
    output := WriteFieldValues(fields, reserved, show);
    warnings := logged;
    assert output == Render(FieldMap(identifier, timestamp, ordered, tag, resolve, decode), reserved, show);
    if Renderable(attributes, tag) {
      RenderableArrangement(ordered, attributes, tag);
      EventReport(identifier, timestamp, ordered, tag, resolve, decode, reserved, show);
    }
  }
}
