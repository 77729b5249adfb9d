/**
 The native Python event formatting helper: collects the output field values
 of one event into a map from field name to value.
 */
module FormattingHelper {
  import opened EventValues
  import opened PyText

  /** What the helper logs when it finds a bytes value: the attribute name,
      the event data type and the decoded text. */
  datatype Warning = Warning(attribute: string, dataType: string, value: string)

  /** Attribute container identifiers, date and time values and lists that
      start with a date and time value are not output fields. */
  predicate Skipped(v: Value)
  {
    v.Identifier? || v.DateTime? || (v.List? && |v.items| > 0 && v.items[0].DateTime?)
  }

  /** The stored form of a value: bytes are decoded as UTF-8, invalid
      sequences replaced (`decode`); everything else is kept as it is. */
  function Normalize(v: Value, decode: seq<byte> -> string): Value
  {
    if v.Bytes? then Str(decode(v.data)) else v
  }

  /** The event data's attributes, followed by the event data stream's when
      there is one. */
  function Gathered(dataAttributes: seq<Attribute>, stream: Option<seq<Attribute>>): seq<Attribute>
  {
    if stream.Some? then dataAttributes + stream.value else dataAttributes
  }

  /** Ascending by name; pairs with equal names may come in either order. */
  predicate NameSorted(ps: seq<Attribute>)
  {
    forall i, j :: 0 <= i < j < |ps| ==> !Less(ps[j].name, ps[i].name)
  }

  /** `ordered` is `attributes` sorted by name. */
  predicate IsArrangement(ordered: seq<Attribute>, attributes: seq<Attribute>)
  {
    NameSorted(ordered) && multiset(ordered) == multiset(attributes)
  }

  /** No two different pairs share a name. */
  predicate UniqueNames(ps: seq<Attribute>)
  {
    forall a, b :: a in ps && b in ps && a.name == b.name ==> a == b
  }

  /** No other pair of `ps` carries the name of `a`. */
  predicate SoleOfName(ps: seq<Attribute>, a: Attribute)
  {
    forall b :: b in ps && b.name == a.name ==> b == a
  }

  /** The map before any attribute is stored. */
  function Seed(identifier: string, timestamp: string): map<string, Value>
  {
    map[EventIdentifierKey := Str(identifier), TimestampKey := Str(timestamp)]
  }

  /** One step of the loop: a skipped pair writes nothing, any other pair
      stores its value under its name. */
  function Store(m: map<string, Value>, a: Attribute, decode: seq<byte> -> string): map<string, Value>
  {
    if Skipped(a.value) then m else m[a.name := Normalize(a.value, decode)]
  }

  /** The map after storing the pairs of `ps` in order into `base`. */
  function Walk(base: map<string, Value>, ps: seq<Attribute>, decode: seq<byte> -> string): map<string, Value>
    decreases |ps|
  {
    if ps == [] then base
    else Store(Walk(base, ps[..|ps| - 1], decode), ps[|ps| - 1], decode)
  }

  /** The names that some stored (not skipped) pair carries. */
  function KeptNames(ps: seq<Attribute>): set<string>
  {
    set a | a in ps && !Skipped(a.value) :: a.name
  }

  /** The value of the last pair of `ps` named `name` that is not skipped. */
  function LastKept(ps: seq<Attribute>, name: string): Option<Value>
    decreases |ps|
  {
    if ps == [] then None
    else
      var a := ps[|ps| - 1];
      if a.name == name && !Skipped(a.value) then Some(a.value)
      else LastKept(ps[..|ps| - 1], name)
  }

  /** The pair at `i` carries `name` and the stored value `v`, and no later
      pair stores anything under `name`. */
  predicate IsLatestKept(ps: seq<Attribute>, i: int, name: string, v: Value)
  {
    0 <= i < |ps| && ps[i] == Attribute(name, v) && !Skipped(v)
    && forall j :: i < j < |ps| ==> ps[j].name != name || Skipped(ps[j].value)
  }

  /** The pairs of `ps` that are not skipped, in order. */
  function KeptOnly(ps: seq<Attribute>): seq<Attribute>
    decreases |ps|
  {
    if ps == [] then []
    else
      var a := ps[|ps| - 1];
      KeptOnly(ps[..|ps| - 1]) + if Skipped(a.value) then [] else [a]
  }

  /** The pairs of `ps` whose value is bytes, in order. */
  function BytesAttributes(ps: seq<Attribute>): seq<Attribute>
    decreases |ps|
  {
    if ps == [] then []
    else
      var a := ps[|ps| - 1];
      BytesAttributes(ps[..|ps| - 1]) + if a.value.Bytes? then [a] else []
  }

  /** The warnings logged while walking `ps`. */
  function Warnings(dataType: string, ps: seq<Attribute>, decode: seq<byte> -> string): seq<Warning>
    decreases |ps|
  {
    if ps == [] then []
    else
      var a := ps[|ps| - 1];
      Warnings(dataType, ps[..|ps| - 1], decode)
        + if a.value.Bytes? then [Warning(a.name, dataType, decode(a.value.data))] else []
  }

  /** Which of display_name, filename and inode are missing from `present`,
      in the order the helper asks for them. */
  function FallbackNames(present: set<string>): (names: seq<string>)
    ensures forall n :: n in names <==> n in {DisplayNameKey, FilenameKey, InodeKey} && n !in present
  {
    (if DisplayNameKey in present then [] else [DisplayNameKey])
    + (if FilenameKey in present then [] else [FilenameKey])
    + (if InodeKey in present then [] else [InodeKey])
  }

  /** Fills display_name, filename and inode from the resolver where they are
      missing; a present value is never replaced. */
  function WithFallback(m: map<string, Value>, resolve: string -> string): (r: map<string, Value>)
    ensures r.Keys == m.Keys + {DisplayNameKey, FilenameKey, InodeKey}
    ensures forall n :: n in m ==> r[n] == m[n]
    ensures forall n :: n in FallbackNames(m.Keys) ==> r[n] == Str(resolve(n))
  {
    Fill(Fill(Fill(m, DisplayNameKey, resolve), FilenameKey, resolve), InodeKey, resolve)
  }

  /** One `if name not in field_values` step of the fallback. */
  function Fill(m: map<string, Value>, name: string, resolve: string -> string): map<string, Value>
  {
    if name in m then m else m[name := Str(resolve(name))]
  }

  /** The tag's labels, as the list of strings stored in the map. */
  function LabelList(labels: seq<string>): Value
  {
    List(seq(|labels|, i requires 0 <= i < |labels| => Str(labels[i])))
  }

  function WithTag(m: map<string, Value>, tag: Option<seq<string>>): map<string, Value>
  {
    if tag.Some? then m[TagLabelsKey := LabelList(tag.value)] else m
  }

  /** The field values of an event whose attributes, walked in the order
      `ordered`, are stored over the identifier and timestamp; then the
      fallback fields and the tag labels. */
  function FieldMap(identifier: string, timestamp: string, ordered: seq<Attribute>,
                    tag: Option<seq<string>>, resolve: string -> string,
                    decode: seq<byte> -> string): map<string, Value>
  {
    WithTag(WithFallback(Walk(Seed(identifier, timestamp), ordered, decode), resolve), tag)
  }

  /** The names `GetFieldValues` returns. */
  function ExpectedKeys(attributes: seq<Attribute>, tag: Option<seq<string>>): set<string>
  {
    {EventIdentifierKey, TimestampKey} + KeptNames(attributes)
    + {DisplayNameKey, FilenameKey, InodeKey}
    + (if tag.Some? then {TagLabelsKey} else {})
  }

  // ---------------------------------------------------------------------
  // Operations

  /** `sorted(event_attributes)` as far as names go: the result is ascending
      by name and a permutation of the input. Which of two pairs with the same
      name comes first is not specified. */
  method SortAttributes(attributes: seq<Attribute>) returns (ordered: seq<Attribute>)
    ensures IsArrangement(ordered, attributes)
  {
    ordered := [];
    var rest := multiset(attributes);
    while rest != multiset{}
      invariant multiset(ordered) + rest == multiset(attributes)
      invariant NameSorted(ordered)
      invariant forall a, b :: a in ordered && b in rest ==> !Less(b.name, a.name)
      decreases |rest|
    {
      LeastNamedExists(rest);
      var a :| a in rest && forall b :: b in rest ==> !Less(b.name, a.name);
      AppendLeastNamed(ordered, rest, a);
      ordered := ordered + [a];
      rest := rest - multiset{a};
    }
  }

  /** The three `if ... not in field_values` steps of `GetFieldValues`: ask
      the resolver for each of display_name, filename and inode that is
      missing, and for no other. */
  method AddFallbackFields(walked: map<string, Value>, resolve: string -> string)
    returns (fields: map<string, Value>, resolved: seq<string>)
    ensures fields == WithFallback(walked, resolve)
    ensures resolved == FallbackNames(walked.Keys)
  {
    fields := walked;
    resolved := [];
    if DisplayNameKey !in fields {
      fields := fields[DisplayNameKey := Str(resolve(DisplayNameKey))];
      resolved := resolved + [DisplayNameKey];
    }
    if FilenameKey !in fields {
      fields := fields[FilenameKey := Str(resolve(FilenameKey))];
      resolved := resolved + [FilenameKey];
    }
    assert fields == Fill(Fill(walked, DisplayNameKey, resolve), FilenameKey, resolve);
    if InodeKey !in fields {
      fields := fields[InodeKey := Str(resolve(InodeKey))];
      resolved := resolved + [InodeKey];
    }
  }

  /** `GetFieldValues`: the field values of one event, the warnings logged on
      the way, and the names the fallback resolver was asked for. */
  method GetFieldValues(identifier: string, timestamp: string, dataType: string,
                        dataAttributes: seq<Attribute>, stream: Option<seq<Attribute>>,
                        tag: Option<seq<string>>, resolve: string -> string,
                        decode: seq<byte> -> string)
    returns (fields: map<string, Value>, warnings: seq<Warning>, resolved: seq<string>)
    ensures exists ordered {:trigger IsArrangement(ordered, Gathered(dataAttributes, stream))} ::
              && IsArrangement(ordered, Gathered(dataAttributes, stream))
              && fields == FieldMap(identifier, timestamp, ordered, tag, resolve, decode)
              && warnings == Warnings(dataType, ordered, decode)
    ensures fields.Keys == ExpectedKeys(Gathered(dataAttributes, stream), tag)
    ensures resolved == FallbackNames(KeptNames(Gathered(dataAttributes, stream)))
    ensures forall n :: n in resolved ==> fields[n] == Str(resolve(n))
    ensures forall a :: a in Gathered(dataAttributes, stream) && !Skipped(a.value)
              && SoleOfName(Gathered(dataAttributes, stream), a)
              && !(tag.Some? && a.name == TagLabelsKey)
              ==> fields[a.name] == Normalize(a.value, decode)
    ensures tag.Some? ==> fields[TagLabelsKey] == LabelList(tag.value)
    ensures |warnings| == |BytesAttributes(Gathered(dataAttributes, stream))|
  {
    fields := map[EventIdentifierKey := Str(identifier), TimestampKey := Str(timestamp)];

    var attributes := dataAttributes;
    if stream.Some? {
      attributes := attributes + stream.value;
    }
    var ordered := SortAttributes(attributes);

    warnings := [];
    for i := 0 to |ordered|
      invariant fields == Walk(Seed(identifier, timestamp), ordered[..i], decode)
      invariant warnings == Warnings(dataType, ordered[..i], decode)
    {
      assert ordered[..i + 1][..i] == ordered[..i];
      var a := ordered[i];
      if Skipped(a.value) {
        continue;
      }
      var value := a.value;
      if value.Bytes? {
        value := Str(decode(value.data));
        warnings := warnings + [Warning(a.name, dataType, value.s)];
      }
      fields := fields[a.name := value];
    }
    assert ordered[..|ordered|] == ordered;
    ghost var walked := fields;
    fields, resolved := AddFallbackFields(fields, resolve);

    if tag.Some? {
      fields := fields[TagLabelsKey := LabelList(tag.value)];
    }

    assert resolved == FallbackNames(walked.Keys);
    assert fields == FieldMap(identifier, timestamp, ordered, tag, resolve, decode);
    ArrangementFacts(identifier, timestamp, dataType, ordered, Gathered(dataAttributes, stream),
                     tag, resolve, decode);
  }

  // ---------------------------------------------------------------------
  // Lemmas

  /** What walking any name-sorted arrangement of the attributes gives,
      stated without the arrangement. */
  lemma ArrangementFacts(identifier: string, timestamp: string, dataType: string,
                         ordered: seq<Attribute>, attributes: seq<Attribute>,
                         tag: Option<seq<string>>, resolve: string -> string,
                         decode: seq<byte> -> string)
    requires IsArrangement(ordered, attributes)
    ensures var fields := FieldMap(identifier, timestamp, ordered, tag, resolve, decode);
            var resolved := FallbackNames(Walk(Seed(identifier, timestamp), ordered, decode).Keys);
            && fields.Keys == ExpectedKeys(attributes, tag)
            && resolved == FallbackNames(KeptNames(attributes))
            && (forall n :: n in resolved ==> fields[n] == Str(resolve(n)))
            && (forall a :: a in attributes && !Skipped(a.value) && SoleOfName(attributes, a)
                  && !(tag.Some? && a.name == TagLabelsKey)
                  ==> fields[a.name] == Normalize(a.value, decode))
            && (tag.Some? ==> fields[TagLabelsKey] == LabelList(tag.value))
            && |Warnings(dataType, ordered, decode)| == |BytesAttributes(attributes)|
  {
    FallbackValues(Walk(Seed(identifier, timestamp), ordered, decode), resolve, tag);
    ArrangementKeys(identifier, timestamp, ordered, attributes, tag, resolve, decode);
    ArrangementUniqueValues(identifier, timestamp, ordered, attributes, tag, resolve, decode);
    ArrangementWarnings(dataType, ordered, attributes, decode);
  }

  /** The resolver's answers survive the tag step. */
  lemma FallbackValues(m: map<string, Value>, resolve: string -> string, tag: Option<seq<string>>)
    ensures forall n :: n in FallbackNames(m.Keys) ==> WithTag(WithFallback(m, resolve), tag)[n] == Str(resolve(n))
  {
    forall n | n in FallbackNames(m.Keys)
      ensures WithTag(WithFallback(m, resolve), tag)[n] == Str(resolve(n))
    {
      assert n != TagLabelsKey;
    }
  }

  lemma SameMembers(p: seq<Attribute>, q: seq<Attribute>)
    requires multiset(p) == multiset(q)
    ensures forall a :: a in p <==> a in q
    ensures KeptNames(p) == KeptNames(q)
  {
    forall a ensures a in p <==> a in q {
      assert a in p <==> a in multiset(p);
      assert a in q <==> a in multiset(q);
    }
  }

  /** The keys any name-sorted arrangement of the attributes gives, stated
      without the arrangement. */
  lemma ArrangementKeys(identifier: string, timestamp: string, ordered: seq<Attribute>,
                        attributes: seq<Attribute>, tag: Option<seq<string>>,
                        resolve: string -> string, decode: seq<byte> -> string)
    requires multiset(ordered) == multiset(attributes)
    ensures FieldMap(identifier, timestamp, ordered, tag, resolve, decode).Keys
         == ExpectedKeys(attributes, tag)
    ensures FallbackNames(Walk(Seed(identifier, timestamp), ordered, decode).Keys)
         == FallbackNames(KeptNames(attributes))
  {
    var base := Seed(identifier, timestamp);
    SameMembers(ordered, attributes);
    WalkKeys(base, ordered, decode);
    FallbackIgnoresSeed(identifier, timestamp, KeptNames(attributes));
  }

  /** The identifier and the timestamp never stand for a fallback field. */
  lemma FallbackIgnoresSeed(identifier: string, timestamp: string, names: set<string>)
    ensures FallbackNames(Seed(identifier, timestamp).Keys + names) == FallbackNames(names)
  {
    var keys := Seed(identifier, timestamp).Keys;
    assert keys == {EventIdentifierKey, TimestampKey};
    assert DisplayNameKey !in keys && FilenameKey !in keys && InodeKey !in keys;
  }

  /** The value of a uniquely named attribute, stated without the
      arrangement. */
  lemma ArrangementUniqueValues(identifier: string, timestamp: string, ordered: seq<Attribute>,
                                attributes: seq<Attribute>, tag: Option<seq<string>>,
                                resolve: string -> string, decode: seq<byte> -> string)
    requires multiset(ordered) == multiset(attributes)
    ensures forall a :: a in attributes && !Skipped(a.value) && SoleOfName(attributes, a)
              && !(tag.Some? && a.name == TagLabelsKey)
              ==> a.name in FieldMap(identifier, timestamp, ordered, tag, resolve, decode)
                  && FieldMap(identifier, timestamp, ordered, tag, resolve, decode)[a.name]
                     == Normalize(a.value, decode)
  {
    var base := Seed(identifier, timestamp);
    SameMembers(ordered, attributes);
    forall a | a in attributes && !Skipped(a.value) && SoleOfName(attributes, a)
                 && !(tag.Some? && a.name == TagLabelsKey)
      ensures a.name in FieldMap(identifier, timestamp, ordered, tag, resolve, decode)
              && FieldMap(identifier, timestamp, ordered, tag, resolve, decode)[a.name]
                 == Normalize(a.value, decode)
    {
      assert a in ordered;
      assert SoleOfName(ordered, a);
      UniqueNameWins(base, ordered, decode, a);
    }
  }

  /** The number of warnings, stated without the arrangement. */
  lemma ArrangementWarnings(dataType: string, ordered: seq<Attribute>, attributes: seq<Attribute>,
                            decode: seq<byte> -> string)
    requires multiset(ordered) == multiset(attributes)
    ensures |Warnings(dataType, ordered, decode)| == |BytesAttributes(attributes)|
  {
    BytesAttributesPermutation(ordered, attributes);
    WarningPerBytesValue(dataType, ordered, decode);
    assert |BytesAttributes(ordered)| == |multiset(BytesAttributes(ordered))|;
    assert |BytesAttributes(attributes)| == |multiset(BytesAttributes(attributes))|;
  }

  /** A non-empty multiset of pairs has a pair whose name no other name is
      below. */
  lemma LeastNamedExists(ms: multiset<Attribute>)
    requires ms != multiset{}
    ensures exists a :: a in ms && forall b :: b in ms ==> !Less(b.name, a.name)
  {
    var names := set b | b in ms :: b.name;
    var x :| x in ms;
    assert x.name in names;
    var m := Least(names);
    var a :| a in ms && a.name == m;
    forall b | b in ms
      ensures !Less(b.name, a.name)
    {
      assert b.name in names;
      if b.name == m {
        LessIrreflexive(m);
      } else {
        LessAsymmetric(m, b.name);
      }
    }
  }

  /** Appending a least-named remaining pair keeps the selection sorted. */
  lemma AppendLeastNamed(ordered: seq<Attribute>, rest: multiset<Attribute>, a: Attribute)
    requires NameSorted(ordered)
    requires forall x, b :: x in ordered && b in rest ==> !Less(b.name, x.name)
    requires a in rest && forall b :: b in rest ==> !Less(b.name, a.name)
    ensures NameSorted(ordered + [a])
    ensures forall x, b :: x in ordered + [a] && b in rest - multiset{a} ==> !Less(b.name, x.name)
    ensures multiset(ordered + [a]) + (rest - multiset{a}) == multiset(ordered) + rest
  {
    var o := ordered + [a];
    forall i, j | 0 <= i < j < |o|
      ensures !Less(o[j].name, o[i].name)
    {
      if j < |ordered| {
        assert o[i] == ordered[i] && o[j] == ordered[j];
      } else {
        assert o[i] in ordered;
      }
    }
    forall x, b | x in o && b in rest - multiset{a}
      ensures !Less(b.name, x.name)
    {
      assert b in rest;
      if x != a {
        assert x in ordered;
      }
    }
  }

  /** Walking stores exactly the names of the pairs that are not skipped. */
  lemma {:induction false} WalkKeys(base: map<string, Value>, ps: seq<Attribute>, decode: seq<byte> -> string)
    ensures Walk(base, ps, decode).Keys == base.Keys + KeptNames(ps)
    decreases |ps|
  {
    if ps != [] {
      var init := ps[..|ps| - 1];
      WalkKeys(base, init, decode);
      assert ps == init + [ps[|ps| - 1]];
      assert KeptNames(ps) == KeptNames(init) + KeptNames([ps[|ps| - 1]]);
    }
  }

  /** After the walk, a name holds the stored form of the last pair with that
      name that is not skipped; a name no such pair carries keeps its value
      from `base`. */
  lemma {:induction false} WalkValue(base: map<string, Value>, ps: seq<Attribute>,
                                     decode: seq<byte> -> string, name: string)
    ensures LastKept(ps, name).Some? ==>
              name in Walk(base, ps, decode)
              && Walk(base, ps, decode)[name] == Normalize(LastKept(ps, name).value, decode)
    ensures LastKept(ps, name).None? ==>
              (name in Walk(base, ps, decode) <==> name in base)
              && (name in base ==> Walk(base, ps, decode)[name] == base[name])
    decreases |ps|
  {
    if ps != [] {
      WalkValue(base, ps[..|ps| - 1], decode, name);
    }
  }

  /** `LastKept` names the pair at the latest position among those with that
      name that are not skipped. */
  lemma {:induction false} LastKeptIsLatest(ps: seq<Attribute>, name: string, v: Value)
    ensures LastKept(ps, name) == Some(v) <==> exists i :: IsLatestKept(ps, i, name, v)
    decreases |ps|
  {
    if ps != [] {
      var n := |ps| - 1;
      var init := ps[..n];
      LastKeptIsLatest(init, name, v);
      var a := ps[n];
      if a.name == name && !Skipped(a.value) {
        if LastKept(ps, name) == Some(v) {
          assert IsLatestKept(ps, n, name, v);
        }
        if exists i :: IsLatestKept(ps, i, name, v) {
          var i :| IsLatestKept(ps, i, name, v);
          assert i == n;
        }
      } else {
        if LastKept(init, name) == Some(v) {
          var i :| IsLatestKept(init, i, name, v);
          assert IsLatestKept(ps, i, name, v);
        }
        if exists i :: IsLatestKept(ps, i, name, v) {
          var i :| IsLatestKept(ps, i, name, v);
          assert IsLatestKept(init, i, name, v);
        }
      }
    }
  }

  /** `LastKept` finds something exactly for the stored names. */
  lemma {:induction false} LastKeptPresent(ps: seq<Attribute>, name: string)
    ensures LastKept(ps, name).Some? <==> name in KeptNames(ps)
    decreases |ps|
  {
    if ps != [] {
      var init := ps[..|ps| - 1];
      LastKeptPresent(init, name);
      assert ps == init + [ps[|ps| - 1]];
      assert KeptNames(ps) == KeptNames(init) + KeptNames([ps[|ps| - 1]]);
    }
  }

  /** A skipped pair writes nothing: dropping every skipped pair leaves the
      result of the walk unchanged. */
  lemma {:induction false} SkippedPairsWriteNothing(base: map<string, Value>, ps: seq<Attribute>,
                                                   decode: seq<byte> -> string)
    ensures Walk(base, ps, decode) == Walk(base, KeptOnly(ps), decode)
    decreases |ps|
  {
    if ps != [] {
      var init := ps[..|ps| - 1];
      var a := ps[|ps| - 1];
      SkippedPairsWriteNothing(base, init, decode);
      var before := Walk(base, init, decode);
      assert Walk(base, ps, decode) == Store(before, a, decode);
      if !Skipped(a.value) {
        var k := KeptOnly(init) + [a];
        assert KeptOnly(ps) == k;
        assert k[..|k| - 1] == KeptOnly(init);
        assert Walk(base, k, decode) == Store(Walk(base, KeptOnly(init), decode), a, decode);
      } else {
        assert KeptOnly(ps) == KeptOnly(init);
        assert Store(before, a, decode) == before;
      }
    }
  }

  /** With no other pair of the same name, a stored pair's value is what the
      walk leaves, whatever the order of the pairs. */
  lemma {:induction false} UniqueNameWins(base: map<string, Value>, ps: seq<Attribute>,
                                          decode: seq<byte> -> string, a: Attribute)
    requires a in ps && !Skipped(a.value) && SoleOfName(ps, a)
    ensures a.name in Walk(base, ps, decode)
    ensures Walk(base, ps, decode)[a.name] == Normalize(a.value, decode)
  {
    OnlyPairNamed(ps, a);
    WalkValue(base, ps, decode, a.name);
  }

  lemma {:induction false} OnlyPairNamed(ps: seq<Attribute>, a: Attribute)
    requires a in ps && !Skipped(a.value) && SoleOfName(ps, a)
    ensures LastKept(ps, a.name) == Some(a.value)
    decreases |ps|
  {
    var init := ps[..|ps| - 1];
    var last := ps[|ps| - 1];
    if last.name != a.name {
      assert ps == init + [last];
      assert a in init;
      OnlyPairNamed(init, a);
    }
  }

  /** Order matters only between pairs that share a name: two orders of the
      same pairs give the same field values when names are unique. */
  lemma OrderIrrelevantForUniqueNames(identifier: string, timestamp: string,
                                      o1: seq<Attribute>, o2: seq<Attribute>,
                                      tag: Option<seq<string>>, resolve: string -> string,
                                      decode: seq<byte> -> string)
    requires multiset(o1) == multiset(o2) && UniqueNames(o1)
    ensures FieldMap(identifier, timestamp, o1, tag, resolve, decode)
         == FieldMap(identifier, timestamp, o2, tag, resolve, decode)
  {
    var base := Seed(identifier, timestamp);
    SameMembers(o1, o2);
    WalkKeys(base, o1, decode);
    WalkKeys(base, o2, decode);
    var w1 := Walk(base, o1, decode);
    var w2 := Walk(base, o2, decode);
    forall n | n in w1
      ensures w1[n] == w2[n]
    {
      if n in KeptNames(o1) {
        var a :| a in o1 && !Skipped(a.value) && a.name == n;
        assert SoleOfName(o1, a) && SoleOfName(o2, a);
        UniqueNameWins(base, o1, decode, a);
        UniqueNameWins(base, o2, decode, a);
      } else {
        LastKeptPresent(o1, n);
        LastKeptPresent(o2, n);
        WalkValue(base, o1, decode, n);
        WalkValue(base, o2, decode, n);
      }
    }
    assert w1 == w2;
  }

  /** The key set of the field values: identifier and timestamp, every stored
      attribute name, the three fallback names, and the tag labels when there
      is a tag. */
  lemma FieldMapKeys(identifier: string, timestamp: string, ordered: seq<Attribute>,
                     tag: Option<seq<string>>, resolve: string -> string,
                     decode: seq<byte> -> string)
    ensures FieldMap(identifier, timestamp, ordered, tag, resolve, decode).Keys
         == ExpectedKeys(ordered, tag)
  {
    WalkKeys(Seed(identifier, timestamp), ordered, decode);
  }

  /** Each stored attribute name holds the stored form of the last pair with
      that name in walk order (unless the tag labels take that name); the
      resolver is consulted for display_name, filename and inode only when no
      stored pair carries them, and never overrides one. */
  lemma FieldMapValues(identifier: string, timestamp: string, ordered: seq<Attribute>,
                       tag: Option<seq<string>>, resolve: string -> string,
                       decode: seq<byte> -> string, name: string)
    ensures var f := FieldMap(identifier, timestamp, ordered, tag, resolve, decode);
            name in KeptNames(ordered) && !(tag.Some? && name == TagLabelsKey) ==>
              LastKept(ordered, name).Some? && name in f && f[name] == Normalize(LastKept(ordered, name).value, decode)
    ensures var f := FieldMap(identifier, timestamp, ordered, tag, resolve, decode);
            name in {DisplayNameKey, FilenameKey, InodeKey} && name !in KeptNames(ordered) ==>
              f[name] == Str(resolve(name))
    ensures var f := FieldMap(identifier, timestamp, ordered, tag, resolve, decode);
            tag.Some? ==> f[TagLabelsKey] == LabelList(tag.value)
  {
    var base := Seed(identifier, timestamp);
    LastKeptPresent(ordered, name);
    WalkValue(base, ordered, decode, name);
    WalkKeys(base, ordered, decode);
  }

  /** Every bytes value logs exactly one warning, naming the attribute and
      carrying the decoded text. */
  lemma {:induction false} WarningPerBytesValue(dataType: string, ps: seq<Attribute>,
                                                decode: seq<byte> -> string)
    ensures |Warnings(dataType, ps, decode)| == |BytesAttributes(ps)|
    ensures forall k :: 0 <= k < |BytesAttributes(ps)| ==>
              BytesAttributes(ps)[k].value.Bytes?
              && Warnings(dataType, ps, decode)[k]
                 == Warning(BytesAttributes(ps)[k].name, dataType,
                            decode(BytesAttributes(ps)[k].value.data))
    decreases |ps|
  {
    if ps != [] {
      WarningPerBytesValue(dataType, ps[..|ps| - 1], decode);
    }
  }

  lemma {:induction false} BytesAttributesCount(ps: seq<Attribute>, x: Attribute)
    ensures multiset(BytesAttributes(ps))[x] == if x.value.Bytes? then multiset(ps)[x] else 0
    decreases |ps|
  {
    if ps != [] {
      var init := ps[..|ps| - 1];
      BytesAttributesCount(init, x);
      assert ps == init + [ps[|ps| - 1]];
    }
  }

  /** The bytes pairs do not depend on the order of the walk. */
  lemma BytesAttributesPermutation(p: seq<Attribute>, q: seq<Attribute>)
    requires multiset(p) == multiset(q)
    ensures multiset(BytesAttributes(p)) == multiset(BytesAttributes(q))
  {
    forall x ensures multiset(BytesAttributes(p))[x] == multiset(BytesAttributes(q))[x] {
      BytesAttributesCount(p, x);
      BytesAttributesCount(q, x);
    }
  }
}
