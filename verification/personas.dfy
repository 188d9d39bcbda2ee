/** The persona store: segment records as loaded from the persona file, the
    sorted list of segment names offered by the segment filter, and the
    filtered list of personas shown in the grid. */
module Personas {
  import opened Wrappers
  import opened Text

  /** The attributes of a persona that the conversation layer reads. */
  datatype Persona = Persona(
    name: string,
    age: nat,
    occupation: string,
    location: string,
    values: seq<string>)

  datatype Gender = Male | Female

  /** One record of the persona file: a segment label and up to one male and one
      female persona. */
  datatype Group = Group(segment: string, male: Option<Persona>, female: Option<Persona>)

  /** A persona shown in the grid, with the segment it was listed under. */
  datatype Entry = Entry(persona: Persona, segment: string)

  /** The filter's choice that selects every segment. */
  const AllSegments := "All"

  /** The order in which a record's personas are visited. */
  const Genders: seq<Gender> := [Male, Female]

  /** `group.get(gender)`, truthy only when the persona is present. */
  function Get(g: Group, gender: Gender): Option<Persona> {
    match gender
    case Male => g.male
    case Female => g.female
  }

  // ---------------------------------------------------------------------------
  // The segment list.
  // ---------------------------------------------------------------------------

  /** `{p["segment"] for p in persona_data}`. */
  ghost function SegmentSet(groups: seq<Group>): set<string> {
    set g | g in groups :: g.segment
  }

  /** `sorted({p["segment"] for p in persona_data})`: every segment named in the
      data, once each, in increasing order. */
  function Segments(groups: seq<Group>): (r: seq<string>)
    ensures StrictlySorted(r)
    ensures forall s :: s in r <==> s in SegmentSet(groups)
  {
    if groups == [] then []
    else
      var init := groups[..|groups| - 1];
      var last := groups[|groups| - 1];
      assert groups == init + [last];
      assert SegmentSet(groups) == SegmentSet(init) + {last.segment};
      Insert(Segments(init), last.segment)
  }

  /** The segment list is the only strictly sorted list of the data's segments,
      so it is exactly what Python's `sorted` of the set returns. */
  lemma SegmentsCanonical(groups: seq<Group>, other: seq<string>)
    requires StrictlySorted(other)
    requires forall s :: s in other <==> s in SegmentSet(groups)
    ensures other == Segments(groups)
  {
    SortedUnique(other, Segments(groups));
  }

  // ---------------------------------------------------------------------------
  // Filtering.
  // ---------------------------------------------------------------------------

  /** `selected_segment == "All" or group["segment"] == selected_segment`. */
  predicate Matches(g: Group, selected: string) {
    selected == AllSegments || g.segment == selected
  }

  /** The entries a record contributes when its genders `gs` are visited in
      order: one per present persona. */
  function GroupEntries(g: Group, gs: seq<Gender>): seq<Entry> {
    if gs == [] then []
    else
      var rest := GroupEntries(g, gs[..|gs| - 1]);
      match Get(g, gs[|gs| - 1])
      case Some(p) => rest + [Entry(p, g.segment)]
      case None => rest
  }

  /** The entries of a single optional persona. */
  function OptionalEntry(p: Option<Persona>, segment: string): seq<Entry> {
    match p
    case Some(q) => [Entry(q, segment)]
    case None => []
  }

  /** Within a record, the male persona is listed before the female one. */
  lemma MaleBeforeFemale(g: Group)
    ensures GroupEntries(g, Genders) == OptionalEntry(g.male, g.segment) + OptionalEntry(g.female, g.segment)
  {
    assert Genders[..1] == [Male] && Genders[..1][..0] == [];
    assert GroupEntries(g, Genders[..1]) == OptionalEntry(g.male, g.segment);
  }

  /** The filtered persona list, record by record in file order. */
  function Selected(groups: seq<Group>, selected: string): seq<Entry> {
    if groups == [] then []
    else
      var last := groups[|groups| - 1];
      Selected(groups[..|groups| - 1], selected)
        + (if Matches(last, selected) then GroupEntries(last, Genders) else [])
  }

  /** The filtering loop of the persona grid. */
  method FilterPersonas(groups: seq<Group>, selected: string) returns (filtered: seq<Entry>)
    ensures filtered == Selected(groups, selected)
  {
    filtered := [];
    for i := 0 to |groups|
      invariant filtered == Selected(groups[..i], selected)
    {
      var group := groups[i];
      assert groups[..i + 1][..i] == groups[..i];
      if selected == AllSegments || group.segment == selected {
        for j := 0 to |Genders|
          invariant filtered == Selected(groups[..i], selected) + GroupEntries(group, Genders[..j])
        {
          assert Genders[..j + 1][..j] == Genders[..j];
          var persona := Get(group, Genders[j]);
          if persona.Some? {
            filtered := filtered + [Entry(persona.value, group.segment)];
          }
        }
        assert Genders[..|Genders|] == Genders;
      }
    }
    assert groups[..|groups|] == groups;
  }

  /** Filtering keeps file order: the list for `a + b` is the list for `a`
      followed by the list for `b`. */
  lemma {:induction false} SelectedAppend(a: seq<Group>, b: seq<Group>, selected: string)
    ensures Selected(a + b, selected) == Selected(a, selected) + Selected(b, selected)
    decreases |b|
  {
    if b == [] {
      assert a + b == a;
    } else {
      var b', last := b[..|b| - 1], b[|b| - 1];
      var tail := if Matches(last, selected) then GroupEntries(last, Genders) else [];
      calc {
        Selected(a + b, selected);
        { assert (a + b)[..|a + b| - 1] == a + b' && (a + b)[|a + b| - 1] == last; }
        Selected(a + b', selected) + tail;
        { SelectedAppend(a, b', selected); }
        Selected(a, selected) + Selected(b', selected) + tail;
        Selected(a, selected) + (Selected(b', selected) + tail);
        Selected(a, selected) + Selected(b, selected);
      }
    }
  }

  /** Unless "All" is chosen, every listed persona belongs to the chosen segment. */
  lemma {:induction false} SelectedInSegment(groups: seq<Group>, selected: string)
    requires selected != AllSegments
    ensures forall k :: 0 <= k < |Selected(groups, selected)| ==> Selected(groups, selected)[k].segment == selected
  {
    if groups != [] {
      var init := groups[..|groups| - 1];
      var last := groups[|groups| - 1];
      SelectedInSegment(init, selected);
      GroupEntriesSegment(last, Genders);
    }
  }

  lemma {:induction false} GroupEntriesSegment(g: Group, gs: seq<Gender>)
    ensures forall k :: 0 <= k < |GroupEntries(g, gs)| ==> GroupEntries(g, gs)[k].segment == g.segment
  {
    if gs != [] {
      GroupEntriesSegment(g, gs[..|gs| - 1]);
    }
  }

  lemma {:induction false} GroupEntriesMembership(g: Group, gs: seq<Gender>, e: Entry)
    ensures e in GroupEntries(g, gs) <==>
      e.segment == g.segment && exists gender :: gender in gs && Get(g, gender) == Some(e.persona)
  {
    if gs != [] {
      var init := gs[..|gs| - 1];
      GroupEntriesMembership(g, init, e);
      assert forall gender :: gender in gs <==> gender in init || gender == gs[|gs| - 1] by {
        assert gs == init + [gs[|gs| - 1]];
      }
    }
  }

  /** A persona is listed, under a segment, exactly when some matching record
      of that segment holds it as its male or female persona. */
  lemma {:induction false} SelectedMembership(groups: seq<Group>, selected: string, e: Entry)
    ensures e in Selected(groups, selected) <==>
      exists i :: 0 <= i < |groups| && Matches(groups[i], selected) && e.segment == groups[i].segment &&
        (groups[i].male == Some(e.persona) || groups[i].female == Some(e.persona))
  {
    if groups != [] {
      var init := groups[..|groups| - 1];
      var last := groups[|groups| - 1];
      SelectedMembership(init, selected, e);
      GroupEntriesMembership(last, Genders, e);
      assert forall gender :: gender in Genders <==> gender == Male || gender == Female;
      if e in Selected(groups, selected) {
        if e !in Selected(init, selected) {
          assert groups[|groups| - 1] == last;
        } else {
          var i :| 0 <= i < |init| && Matches(init[i], selected) && e.segment == init[i].segment &&
            (init[i].male == Some(e.persona) || init[i].female == Some(e.persona));
          assert groups[i] == init[i];
        }
      }
      if exists i :: 0 <= i < |groups| && Matches(groups[i], selected) && e.segment == groups[i].segment &&
          (groups[i].male == Some(e.persona) || groups[i].female == Some(e.persona)) {
        var i :| 0 <= i < |groups| && Matches(groups[i], selected) && e.segment == groups[i].segment &&
          (groups[i].male == Some(e.persona) || groups[i].female == Some(e.persona));
        if i < |init| {
          assert init[i] == groups[i];
        } else {
          assert Get(last, Male) == Some(e.persona) || Get(last, Female) == Some(e.persona);
        }
      }
    }
  }

  /** Number of personas present in a record. */
  function Presence(g: Group): nat {
    (if g.male.Some? then 1 else 0) + (if g.female.Some? then 1 else 0)
  }

  /** Number of personas present in the records that match `selected`,
      counted from the first record on. */
  function MatchingCount(groups: seq<Group>, selected: string): nat {
    if groups == [] then 0
    else (if Matches(groups[0], selected) then Presence(groups[0]) else 0) + MatchingCount(groups[1..], selected)
  }

  /** The list holds one entry per present persona of each matching record. */
  lemma {:induction false} SelectedCount(groups: seq<Group>, selected: string)
    ensures |Selected(groups, selected)| == MatchingCount(groups, selected)
    decreases |groups|
  {
    if groups != [] {
      var first := groups[..1];
      assert groups == first + groups[1..];
      SelectedAppend(first, groups[1..], selected);
      SelectedCount(groups[1..], selected);
      MaleBeforeFemale(groups[0]);
      assert first[..0] == [];
    }
  }

  /** The entries of `entries` listed under `segment`, in order. */
  function KeepSegment(entries: seq<Entry>, segment: string): seq<Entry> {
    if entries == [] then []
    else
      var last := entries[|entries| - 1];
      KeepSegment(entries[..|entries| - 1], segment) + (if last.segment == segment then [last] else [])
  }

  lemma {:induction false} KeepSegmentAppend(a: seq<Entry>, b: seq<Entry>, segment: string)
    ensures KeepSegment(a + b, segment) == KeepSegment(a, segment) + KeepSegment(b, segment)
    decreases |b|
  {
    if b == [] {
      assert a + b == a;
    } else {
      var b' := b[..|b| - 1];
      assert (a + b)[..|a + b| - 1] == a + b';
      KeepSegmentAppend(a, b', segment);
    }
  }

  lemma {:induction false} KeepSegmentAll(entries: seq<Entry>, segment: string)
    requires forall k :: 0 <= k < |entries| ==> entries[k].segment == segment
    ensures KeepSegment(entries, segment) == entries
  {
    if entries != [] {
      KeepSegmentAll(entries[..|entries| - 1], segment);
    }
  }

  lemma {:induction false} KeepSegmentNone(entries: seq<Entry>, segment: string)
    requires forall k :: 0 <= k < |entries| ==> entries[k].segment != segment
    ensures KeepSegment(entries, segment) == []
  {
    if entries != [] {
      KeepSegmentNone(entries[..|entries| - 1], segment);
    }
  }

  /** Choosing one segment lists exactly the personas that "All" lists under that
      segment, in the same order. */
  lemma {:induction false} SelectedIsAllRestricted(groups: seq<Group>, segment: string)
    requires segment != AllSegments
    ensures Selected(groups, segment) == KeepSegment(Selected(groups, AllSegments), segment)
  {
    if groups != [] {
      var init := groups[..|groups| - 1];
      var last := groups[|groups| - 1];
      SelectedIsAllRestricted(init, segment);
      var entries := GroupEntries(last, Genders);
      KeepSegmentAppend(Selected(init, AllSegments), entries, segment);
      GroupEntriesSegment(last, Genders);
      if last.segment == segment {
        KeepSegmentAll(entries, segment);
      } else {
        KeepSegmentNone(entries, segment);
      }
    }
  }
}
