/** The "Running Modules" list: the `modules_list` property is a
    comma-separated list whose trimmed, non-empty segments become the list's
    entries. */
module ModulesList {
  import opened Optional
  import opened Strings

  /** A module name as it can appear in the rendered list. */
  predicate ValidName(name: string) {
    name != "" && IsTrimmed(name) && ',' !in name
  }

  /** The entry one segment contributes: its trimmed form, unless that is
      empty. */
  function Entry(segment: string): (r: seq<string>)
    ensures |r| <= 1
    ensures r == [] <==> AllSpace(segment)
    ensures r != [] ==> r[0] == Trim(segment)
  {
    var name := Trim(segment);
    if name != "" then [name] else []
  }

  /** What each segment contributes. */
  function SegmentEntries(segments: seq<string>): (es: seq<seq<string>>)
    ensures |es| == |segments|
    ensures forall i :: 0 <= i < |segments| ==> es[i] == Entry(segments[i])
  {
    seq(|segments|, i requires 0 <= i < |segments| => Entry(segments[i]))
  }

  lemma SegmentEntriesAppend(xs: seq<string>, ys: seq<string>)
    ensures SegmentEntries(xs + ys) == SegmentEntries(xs) + SegmentEntries(ys)
  {
  }

  /** The contributions, concatenated in order. */
  function Flatten(parts: seq<seq<string>>): seq<string>
  {
    if parts == [] then [] else parts[0] + Flatten(parts[1..])
  }

  lemma {:induction false} FlattenAppend(xs: seq<seq<string>>, ys: seq<seq<string>>)
    ensures Flatten(xs + ys) == Flatten(xs) + Flatten(ys)
    decreases |xs|
  {
    if xs != [] {
      assert (xs + ys)[0] == xs[0];
      assert (xs + ys)[1..] == xs[1..] + ys;
      FlattenAppend(xs[1..], ys);
      calc {
        Flatten(xs + ys);
        xs[0] + Flatten(xs[1..] + ys);
        xs[0] + (Flatten(xs[1..]) + Flatten(ys));
        (xs[0] + Flatten(xs[1..])) + Flatten(ys);
      }
    } else {
      assert xs + ys == ys;
    }
  }

  /** The entries of the segments, in order. */
  function Entries(segments: seq<string>): seq<string>
  {
    Flatten(SegmentEntries(segments))
  }

  lemma EntriesAppend(xs: seq<string>, ys: seq<string>)
    ensures Entries(xs + ys) == Entries(xs) + Entries(ys)
  {
    SegmentEntriesAppend(xs, ys);
    FlattenAppend(SegmentEntries(xs), SegmentEntries(ys));
  }

  /** The entries of one segment. */
  lemma EntriesSingle(segment: string)
    ensures Entries([segment]) == Entry(segment)
  {
    var es := SegmentEntries([segment]);
    assert es == [Entry(segment)];
    assert Flatten(es) == es[0] + Flatten([]);
  }

  /** The list the script renders for a `modules_list` value. Every entry is a
      non-empty, trimmed name free of commas. */
  function SplitModules(field: string): (r: seq<string>)
    ensures AllValid(r)
  {
    var segments := Split(field, ',');
    EntriesValid(segments);
    Entries(segments)
  }

  predicate AllValid(names: seq<string>) {
    forall i :: 0 <= i < |names| ==> ValidName(names[i])
  }

  lemma AllValidAppend(xs: seq<string>, ys: seq<string>)
    requires AllValid(xs) && AllValid(ys)
    ensures AllValid(xs + ys)
  {
    forall i | 0 <= i < |xs + ys|
      ensures ValidName((xs + ys)[i])
    {
      if i < |xs| {
        assert (xs + ys)[i] == xs[i];
      } else {
        assert (xs + ys)[i] == ys[i - |xs|];
      }
    }
  }

  lemma EntryValid(segment: string)
    requires ',' !in segment
    ensures AllValid(Entry(segment))
  {
    TrimChars(segment);
  }

  /** Concatenating lists of valid names gives a list of valid names. */
  lemma {:induction false} FlattenAllValid(parts: seq<seq<string>>)
    requires forall i :: 0 <= i < |parts| ==> AllValid(parts[i])
    ensures AllValid(Flatten(parts))
    decreases |parts|
  {
    if parts != [] {
      FlattenAllValid(parts[1..]);
      AllValidAppend(parts[0], Flatten(parts[1..]));
    }
  }

  lemma EntriesValid(segments: seq<string>)
    requires FreeOf(segments, ',')
    ensures AllValid(Entries(segments))
  {
    var parts := SegmentEntries(segments);
    forall i | 0 <= i < |parts|
      ensures AllValid(parts[i])
    {
      EntryValid(segments[i]);
    }
    FlattenAllValid(parts);
  }

  /** The list-building loop of `parseModuleProp`: for each comma-separated
      segment, append its trimmed form when that is not empty. */
  method RenderModules(field: string) returns (items: seq<string>)
    ensures items == SplitModules(field)
    ensures AllValid(items)
  {
    var segments := Split(field, ',');
    items := [];
    var i := 0;
    while i < |segments|
      invariant 0 <= i <= |segments|
      invariant items == Entries(segments[..i])
    {
      var name := Trim(segments[i]);
      if name != "" {
        items := items + [name];
      }
      EntriesStep(segments, i);
      i := i + 1;
    }
    assert segments[..i] == segments;
  }

  /** One more segment appends its entry. */
  lemma EntriesStep(segments: seq<string>, i: nat)
    requires i < |segments|
    ensures Entries(segments[..i + 1]) == Entries(segments[..i]) + Entry(segments[i])
  {
    var prefix, s := segments[..i], segments[i];
    assert segments[..i + 1] == prefix + [s];
    EntriesAppend(prefix, [s]);
    EntriesSingle(s);
  }

  /** The list element after `parseModuleProp`: untouched when the element is
      missing or the property is absent or empty, otherwise cleared and filled
      with the names. */
  function UpdateModulesList(list: Option<seq<string>>, field: Option<string>): (r: Option<seq<string>>)
    ensures r.Some? <==> list.Some?
    ensures list.None? || !Truthy(field) ==> r == list
    ensures list.Some? && Truthy(field) ==> r == Some(SplitModules(field.value))
  {
    if list.Some? && Truthy(field) then Some(SplitModules(field.value)) else list
  }

  /** The list is cleared before it is refilled, so rebuilding it from the
      same field a second time changes nothing. */
  lemma UpdateModulesListIdempotent(list: Option<seq<string>>, field: Option<string>)
    ensures UpdateModulesList(UpdateModulesList(list, field), field) == UpdateModulesList(list, field)
  {
  }

  /** The entries of a value are the entries of its part before a comma
      followed by the entries of its part after it. */
  lemma SplitModulesAppend(a: string, b: string)
    ensures SplitModules(a + "," + b) == SplitModules(a) + SplitModules(b)
  {
    SplitAppend(a, b, ',');
    EntriesAppend(Split(a, ','), Split(b, ','));
  }

  /** Round trip: joining valid names with commas and splitting the result
      gives the names back, in order. */
  lemma SplitModulesJoin(names: seq<string>)
    requires AllValid(names)
    ensures SplitModules(Join(names, ',')) == names
  {
    if |names| == 0 {
      SplitModulesBlank("");
    } else {
      AllValidFreeOf(names);
      SplitJoin(names, ',');
      EntriesOfValid(names);
    }
  }

  lemma AllValidFreeOf(names: seq<string>)
    requires AllValid(names)
    ensures FreeOf(names, ',')
  {
    forall i | 0 <= i < |names|
      ensures ',' !in names[i]
    {
      assert ValidName(names[i]);
    }
  }

  /** A list of valid names is its own list of entries. */
  lemma EntriesOfValid(names: seq<string>)
    requires AllValid(names)
    ensures Entries(names) == names
  {
    var parts := SegmentEntries(names);
    forall i | 0 <= i < |names|
      ensures parts[i] == [names[i]]
    {
      assert ValidName(names[i]);
      TrimTrimmed(names[i]);
    }
    FlattenSingletons(parts, names);
  }

  lemma {:induction false} FlattenSingletons(parts: seq<seq<string>>, names: seq<string>)
    requires |parts| == |names|
    requires forall i :: 0 <= i < |parts| ==> parts[i] == [names[i]]
    ensures Flatten(parts) == names
    decreases |parts|
  {
    if parts != [] {
      FlattenSingletons(parts[1..], names[1..]);
      assert names == [names[0]] + names[1..];
    }
  }

  /** A segment of whitespace between two commas contributes nothing. */
  lemma SplitModulesSkipsBlank(a: string, blank: string, b: string)
    requires AllSpace(blank) && ',' !in blank
    ensures SplitModules(a + "," + blank + "," + b) == SplitModules(a) + SplitModules(b)
  {
    EntriesSkipBlank(a, blank, b);
  }

  lemma EntriesSkipBlank(a: string, blank: string, b: string)
    requires AllSpace(blank) && ',' !in blank
    ensures Entries(Split(a + "," + blank + "," + b, ',')) == Entries(Split(a, ',')) + Entries(Split(b, ','))
  {
    SplitAroundBlank(a, blank, b);
    EntriesAroundBlank(Split(a, ','), blank, Split(b, ','));
  }

  lemma SplitAroundBlank(a: string, blank: string, b: string)
    requires ',' !in blank
    ensures Split(a + "," + blank + "," + b, ',') == Split(a, ',') + [blank] + Split(b, ',')
  {
    var tail := blank + [','] + b;
    var xs, ys := Split(a, ','), Split(b, ',');
    calc {
      Split(a + "," + blank + "," + b, ',');
      { assert a + "," + blank + "," + b == a + [','] + tail; }
      Split(a + [','] + tail, ',');
      { SplitAppend(a, tail, ','); }
      xs + Split(tail, ',');
      { SplitBlankTail(blank, b); }
      xs + ([blank] + ys);
      xs + [blank] + ys;
    }
  }

  lemma SplitBlankTail(blank: string, b: string)
    requires ',' !in blank
    ensures Split(blank + [','] + b, ',') == [blank] + Split(b, ',')
  {
    SplitAppend(blank, b, ',');
    assert Split(blank, ',') == [blank];
  }

  lemma EntriesAroundBlank(xs: seq<string>, blank: string, ys: seq<string>)
    requires AllSpace(blank)
    ensures Entries(xs + [blank] + ys) == Entries(xs) + Entries(ys)
  {
    assert xs + [blank] + ys == xs + ([blank] + ys);
    EntriesAppend(xs, [blank] + ys);
    EntriesBlankFirst(blank, ys);
  }

  lemma EntriesBlankFirst(blank: string, ys: seq<string>)
    requires AllSpace(blank)
    ensures Entries([blank] + ys) == Entries(ys)
  {
    EntriesAppend([blank], ys);
    EntriesSingle(blank);
    assert Entry(blank) == [];
  }

  /** A comma-free run of whitespace renders as nothing. */
  lemma SplitModulesBlank(blank: string)
    requires AllSpace(blank) && ',' !in blank
    ensures SplitModules(blank) == []
  {
    assert Split(blank, ',') == [blank];
    EntriesSingle(blank);
  }

  /** A single padded name, with no comma, renders as that name. */
  lemma SplitModulesSingle(lead: string, name: string, trail: string)
    requires AllSpace(lead) && AllSpace(trail) && ValidName(name)
    requires ',' !in lead && ',' !in trail
    ensures SplitModules(lead + name + trail) == [name]
  {
    var s := lead + name + trail;
    assert ',' !in s;
    assert Split(s, ',') == [s];
    TrimPadded(lead, name, trail);
    EntriesSingle(s);
  }

  /** The worked example `modA, modB,,  modC `: the empty segment between the
      two commas is dropped and the other names are trimmed, giving
      `["modA", "modB", "modC"]`. The field is a parameter fixed by the
      precondition so that the literal reaches the solver only through the
      decomposition asserted in the body. */
  lemma SplitModulesExample(field: string)
    requires field == "modA, modB,,  modC "
    ensures SplitModules(field) == ["modA", "modB", "modC"]
  {
    var rest := " modB,,  modC ";
    calc {
      SplitModules(field);
      { assert field == "modA" + "," + rest; }
      SplitModules("modA" + "," + rest);
      { SplitModulesAppend("modA", rest); }
      SplitModules("modA") + SplitModules(rest);
      { ExampleFirst(); ExampleRest(rest); }
      ["modA"] + ["modB", "modC"];
    }
  }

  lemma ExampleFirst()
    ensures SplitModules("modA") == ["modA"]
  {
    assert ValidName("modA");
    assert "" + "modA" + "" == "modA";
    SplitModulesSingle("", "modA", "");
  }

  lemma ExampleRest(rest: string)
    requires rest == " modB,,  modC "
    ensures SplitModules(rest) == ["modB", "modC"]
  {
    calc {
      SplitModules(rest);
      { assert rest == " modB" + "," + "" + "," + "  modC "; }
      SplitModules(" modB" + "," + "" + "," + "  modC ");
      { SplitModulesSkipsBlank(" modB", "", "  modC "); }
      SplitModules(" modB") + SplitModules("  modC ");
      { ExampleSecond(); ExampleThird(); }
      ["modB"] + ["modC"];
    }
  }

  lemma ExampleSecond()
    ensures SplitModules(" modB") == ["modB"]
  {
    assert AllSpace(" ") && ValidName("modB");
    assert " " + "modB" + "" == " modB";
    SplitModulesSingle(" ", "modB", "");
  }

  lemma ExampleThird()
    ensures SplitModules("  modC ") == ["modC"]
  {
    assert AllSpace("  ") && AllSpace(" ") && ValidName("modC");
    assert "  " + "modC" + " " == "  modC ";
    SplitModulesSingle("  ", "modC", " ");
  }
}
