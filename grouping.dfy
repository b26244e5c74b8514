/** The grouping of App.tsx: the list of distinct venues, and the grouped
    view of the filtered events for the venue, date and type modes (the
    calendar mode groups nothing here). Groups form an ordered association
    list: labels in the order they are first met, each with its events. */
module Grouping {
  import opened Optional
  import opened ExpoTypes
  import opened Text
  import opened Sequences
  import opened DateOrder

  /** The date-mode bucket for recurring and multi-day events. */
  const MULTI_DAY_LABEL: string := "多日/連續活動"
  /** The marker of an event held on several sessions. */
  const MULTI_SESSION_MARKER: string := "多場次"
  /** The range dash, as in "12/13-14". */
  const RANGE_DASH: string := "-"

  /** How an event's group title is computed in each grouping mode. */
  datatype Keying = ByVenue | ByDate | ByType(labels: TypeLabels)

  /** The type mode's title: the translation if there is a non-empty one,
      otherwise the raw enum value (`labels[type] || type`). */
  function TypeLabel(labels: TypeLabels, t: EventType): (r: string)
    ensures |r| > 0
    ensures r == t.Value() || (t in labels && r == labels[t])
    ensures t in labels && labels[t] != "" ==> r == labels[t]
  {
    if t in labels && labels[t] != "" then labels[t] else t.Value()
  }

  /** The date mode's title: the multi-day bucket when the display text holds
      the multi-session marker or a dash, otherwise the display text itself. */
  function DateLabel(display: string): string
  {
    if Contains(display, MULTI_SESSION_MARKER) || Contains(display, RANGE_DASH) then MULTI_DAY_LABEL
    else display
  }

  /** The multi-day bucket's own name holds neither marker, so labelling is
      idempotent: a date-mode title labels itself. */
  lemma DateLabelIdempotent(display: string)
    ensures DateLabel(DateLabel(display)) == DateLabel(display)
  {
    if DateLabel(display) == MULTI_DAY_LABEL {
      MissingCharNotContained(MULTI_DAY_LABEL, RANGE_DASH, 0);
      MissingCharNotContained(MULTI_DAY_LABEL, MULTI_SESSION_MARKER, 1);
    }
  }

  function KeyOf(k: Keying, e: ExpoEvent): string {
    match k
    case ByVenue => e.venueGroup
    case ByDate => DateLabel(e.dateDisplay)
    case ByType(labels) => TypeLabel(labels, e.eventType)
  }

  /** The title of every event, in order (`events.map(key)`). */
  function Keys(k: Keying, s: seq<ExpoEvent>): seq<string> {
    seq(|s|, i requires 0 <= i < |s| => KeyOf(k, s[i]))
  }

  lemma KeysMembership(k: Keying, s: seq<ExpoEvent>, x: string)
    ensures x in Keys(k, s) <==> exists e :: e in s && KeyOf(k, e) == x
  {
    if x in Keys(k, s) {
      var i :| 0 <= i < |s| && Keys(k, s)[i] == x;
      assert s[i] in s;
    }
    if exists e :: e in s && KeyOf(k, e) == x {
      var e :| e in s && KeyOf(k, e) == x;
      var i :| 0 <= i < |s| && s[i] == e;
      assert Keys(k, s)[i] == x;
    }
  }

  // ---------------------------------------------------------------------
  // uniqueVenues

  /** `Array.from(new Set(data.map(e => e.venueGroup)))`. */
  function UniqueVenues(data: seq<ExpoEvent>): seq<string> {
    Distinct(Keys(ByVenue, data))
  }

  /** The venue list has no duplicates, holds exactly the venues of the data,
      and lists them in the order each venue first appears in the data. */
  lemma UniqueVenuesSpec(data: seq<ExpoEvent>)
    ensures NoDuplicates(UniqueVenues(data))
    ensures forall v :: v in UniqueVenues(data) <==> exists e :: e in data && e.venueGroup == v
    ensures forall v :: v in UniqueVenues(data) ==> v in Keys(ByVenue, data)
    ensures forall i, j :: 0 <= i < j < |UniqueVenues(data)| ==>
      FirstIndex(Keys(ByVenue, data), UniqueVenues(data)[i]) < FirstIndex(Keys(ByVenue, data), UniqueVenues(data)[j])
  {
    DistinctSpec(Keys(ByVenue, data));
    forall v
      ensures v in UniqueVenues(data) <==> exists e :: e in data && e.venueGroup == v
    {
      KeysMembership(ByVenue, data, v);
    }
  }

  // ---------------------------------------------------------------------
  // groupedEvents

  datatype Group = Group(title: string, events: seq<ExpoEvent>)

  function Labels(groups: seq<Group>): seq<string> {
    seq(|groups|, i requires 0 <= i < |groups| => groups[i].title)
  }

  /** The events of s carrying the given title, in the order of s. */
  function Members(k: Keying, title: string, s: seq<ExpoEvent>): seq<ExpoEvent>
  {
    if |s| == 0 then []
    else Members(k, title, s[..|s| - 1]) + if KeyOf(k, s[|s| - 1]) == title then [s[|s| - 1]] else []
  }

  /** The grouping every mode's loop builds: one group per distinct title, in
      first-occurrence order, holding that title's events in input order. */
  function Grouping(k: Keying, s: seq<ExpoEvent>): seq<Group>
  {
    var labels := Distinct(Keys(k, s));
    seq(|labels|, i requires 0 <= i < |labels| => Group(labels[i], Members(k, labels[i], s)))
  }

  /** Lookup of a title in the association list (`groups[title]`). */
  function FindLabel(groups: seq<Group>, title: string): (r: Option<nat>)
    ensures r.Some? ==> r.value < |groups| && groups[r.value].title == title
    ensures r.None? ==> forall i :: 0 <= i < |groups| ==> groups[i].title != title
  {
    if |groups| == 0 then None
    else if groups[0].title == title then Some(0)
    else match FindLabel(groups[1..], title)
      case None => None
      case Some(i) => Some(i + 1)
  }

  /** Concatenation of the groups' event lists, in group order. */
  function Flatten(groups: seq<Group>): seq<ExpoEvent>
  {
    if |groups| == 0 then [] else Flatten(groups[..|groups| - 1]) + groups[|groups| - 1].events
  }

  /** A title's events are the events of s with that title, in the order of s. */
  lemma MembersSpec(k: Keying, title: string, s: seq<ExpoEvent>)
    ensures IsSubsequence(Members(k, title, s), s)
    ensures forall x :: x in Members(k, title, s) <==> x in s && KeyOf(k, x) == title
  {
    MembersKeep(k, title, s);
    KeepSpec(x => KeyOf(k, x) == title, s);
  }

  /** A title's events are `events.filter` by the title test. */
  lemma {:induction false} MembersKeep(k: Keying, title: string, s: seq<ExpoEvent>)
    ensures Members(k, title, s) == Keep(x => KeyOf(k, x) == title, s)
  {
    if |s| > 0 {
      MembersKeep(k, title, s[..|s| - 1]);
    }
  }

  lemma KeysSnoc(k: Keying, s: seq<ExpoEvent>, e: ExpoEvent)
    ensures Keys(k, s + [e]) == Keys(k, s) + [KeyOf(k, e)]
  {
  }

  lemma MembersSnoc(k: Keying, title: string, s: seq<ExpoEvent>, e: ExpoEvent)
    ensures Members(k, title, s + [e]) == Members(k, title, s) + if KeyOf(k, e) == title then [e] else []
  {
    assert (s + [e])[..|s|] == s;
  }

  /** A title not among the keys of s has no members in s. */
  lemma {:induction false} MembersOfNewTitle(k: Keying, s: seq<ExpoEvent>, title: string)
    requires title !in Keys(k, s)
    ensures Members(k, title, s) == []
  {
    if |s| > 0 {
      var init, last := s[..|s| - 1], s[|s| - 1];
      assert s == init + [last];
      KeysSnoc(k, init, last);
      MembersOfNewTitle(k, init, title);
    }
  }

  /** An event with a title not seen before opens a new last group. */
  lemma GroupingSnocNew(k: Keying, s: seq<ExpoEvent>, e: ExpoEvent)
    requires KeyOf(k, e) !in Keys(k, s)
    ensures Grouping(k, s + [e]) == Grouping(k, s) + [Group(KeyOf(k, e), [e])]
  {
    var key := KeyOf(k, e);
    var labels := Distinct(Keys(k, s));
    KeysSnoc(k, s, e);
    assert (Keys(k, s) + [key])[..|s|] == Keys(k, s);
    DistinctSpec(Keys(k, s));
    assert Distinct(Keys(k, s + [e])) == labels + [key];
    MembersOfNewTitle(k, s, key);
    var g, g' := Grouping(k, s), Grouping(k, s + [e]);
    forall i | 0 <= i < |g'|
      ensures g'[i] == (g + [Group(key, [e])])[i]
    {
      MembersSnoc(k, (labels + [key])[i], s, e);
    }
  }

  /** An event whose title already has group j is pushed onto that group. */
  lemma GroupingSnocExisting(k: Keying, s: seq<ExpoEvent>, e: ExpoEvent, j: nat)
    requires j < |Grouping(k, s)| && Grouping(k, s)[j].title == KeyOf(k, e)
    ensures Grouping(k, s + [e]) == Grouping(k, s)[j := Group(KeyOf(k, e), Grouping(k, s)[j].events + [e])]
  {
    var key := KeyOf(k, e);
    var labels := Distinct(Keys(k, s));
    KeysSnoc(k, s, e);
    assert (Keys(k, s) + [key])[..|s|] == Keys(k, s);
    DistinctSpec(Keys(k, s));
    assert labels[j] == key;
    assert Distinct(Keys(k, s + [e])) == labels;
    var g, g' := Grouping(k, s), Grouping(k, s + [e]);
    forall i | 0 <= i < |g|
      ensures g'[i] == g[j := Group(key, g[j].events + [e])][i]
    {
      MembersSnoc(k, labels[i], s, e);
    }
  }

  /** `if (!groups[title]) groups[title] = []; groups[title].push(e)` on the
      association list: a new title opens a last group, a known one grows. */
  function Push(groups: seq<Group>, title: string, e: ExpoEvent): seq<Group>
  {
    match FindLabel(groups, title)
    case None => groups + [Group(title, [e])]
    case Some(j) => groups[j := Group(title, groups[j].events + [e])]
  }

  /** One event more is one Push onto the grouping of the events before it. */
  lemma GroupingSnoc(k: Keying, s: seq<ExpoEvent>, e: ExpoEvent)
    ensures Grouping(k, s + [e]) == Push(Grouping(k, s), KeyOf(k, e), e)
  {
    var key := KeyOf(k, e);
    var g := Grouping(k, s);
    var found := FindLabel(g, key);
    if found.None? {
      DistinctSpec(Keys(k, s));
      var labels := Distinct(Keys(k, s));
      assert forall i :: 0 <= i < |labels| ==> g[i].title == labels[i] && labels[i] != key;
      GroupingSnocNew(k, s, e);
    } else {
      GroupingSnocExisting(k, s, e, found.value);
    }
  }

  /** The loop of every grouping mode: walk the events in order, creating a
      title's group on first sight and pushing the event onto it. */
  method GroupInto(k: Keying, events: seq<ExpoEvent>) returns (groups: seq<Group>)
    ensures groups == Grouping(k, events)
  {
    groups := [];
    var i := 0;
    while i < |events|
      invariant 0 <= i <= |events|
      invariant groups == Grouping(k, events[..i])
    {
      var e := events[i];
      assert events[..i + 1] == events[..i] + [e];
      GroupingSnoc(k, events[..i], e);
      groups := Push(groups, KeyOf(k, e), e);
      i := i + 1;
    }
    assert events[..i] == events;
  }

  /** Group titles are distinct, are exactly the titles of the events, and
      appear in the order of each title's first event; there are no groups
      only when there are no events. */
  lemma GroupingTitles(k: Keying, s: seq<ExpoEvent>)
    ensures NoDuplicates(Labels(Grouping(k, s)))
    ensures forall x :: x in Labels(Grouping(k, s)) <==> exists e :: e in s && KeyOf(k, e) == x
    ensures forall i :: 0 <= i < |Grouping(k, s)| ==> Grouping(k, s)[i].title in Keys(k, s)
    ensures forall i, j :: 0 <= i < j < |Grouping(k, s)| ==>
      FirstIndex(Keys(k, s), Grouping(k, s)[i].title) < FirstIndex(Keys(k, s), Grouping(k, s)[j].title)
    ensures |Grouping(k, s)| == 0 <==> |s| == 0
  {
    var g := Grouping(k, s);
    DistinctSpec(Keys(k, s));
    assert Labels(g) == Distinct(Keys(k, s));
    forall x
      ensures x in Labels(g) <==> exists e :: e in s && KeyOf(k, e) == x
    {
      KeysMembership(k, s, x);
    }
    if |s| > 0 {
      assert Keys(k, s)[0] in Keys(k, s);
    }
  }

  /** Each group holds exactly the events with its title, in input order,
      and is never empty. */
  lemma GroupingMembers(k: Keying, s: seq<ExpoEvent>)
    ensures forall i :: 0 <= i < |Grouping(k, s)| ==>
      && Grouping(k, s)[i].events != []
      && IsSubsequence(Grouping(k, s)[i].events, s)
      && forall x :: x in Grouping(k, s)[i].events <==> x in s && KeyOf(k, x) == Grouping(k, s)[i].title
  {
    var g := Grouping(k, s);
    DistinctSpec(Keys(k, s));
    forall i | 0 <= i < |g|
      ensures g[i].events != []
      ensures IsSubsequence(g[i].events, s)
      ensures forall x :: x in g[i].events <==> x in s && KeyOf(k, x) == g[i].title
    {
      MembersSpec(k, g[i].title, s);
      KeysMembership(k, s, g[i].title);
    }
  }

  /** Pushing e onto one group adds exactly e to the grouped events. */
  lemma {:induction false} FlattenPush(groups: seq<Group>, j: nat, e: ExpoEvent)
    requires j < |groups|
    ensures multiset(Flatten(groups[j := Group(groups[j].title, groups[j].events + [e])]))
         == multiset(Flatten(groups)) + multiset{e}
  {
    var n := |groups|;
    var g' := groups[j := Group(groups[j].title, groups[j].events + [e])];
    if j == n - 1 {
      assert g'[..n - 1] == groups[..n - 1];
    } else {
      assert g'[..n - 1] == groups[..n - 1][j := Group(groups[j].title, groups[j].events + [e])];
      FlattenPush(groups[..n - 1], j, e);
    }
  }

  /** No event is dropped or duplicated: the groups together hold exactly
      the input events. */
  lemma {:induction false} GroupingPartition(k: Keying, s: seq<ExpoEvent>)
    ensures multiset(Flatten(Grouping(k, s))) == multiset(s)
    ensures |Flatten(Grouping(k, s))| == |s|
  {
    if |s| > 0 {
      var init, e := s[..|s| - 1], s[|s| - 1];
      assert s == init + [e];
      GroupingPartition(k, init);
      GroupingSnoc(k, init, e);
      var g := Grouping(k, init);
      match FindLabel(g, KeyOf(k, e))
      case None =>
        assert (g + [Group(KeyOf(k, e), [e])])[..|g|] == g;
      case Some(j) =>
        FlattenPush(g, j, e);
    }
    assert |multiset(Flatten(Grouping(k, s)))| == |multiset(s)|;
  }

  /** A sorted list's groups are each sorted. */
  lemma {:induction false} MembersSorted(k: Keying, title: string, s: seq<ExpoEvent>)
    requires SortedByDate(s)
    ensures SortedByDate(Members(k, title, s))
  {
    if |s| > 0 {
      var init, last := s[..|s| - 1], s[|s| - 1];
      MembersSorted(k, title, init);
      MembersSpec(k, title, init);
      var r := Members(k, title, init);
      forall i | 0 <= i < |r|
        ensures LexLe(r[i].dateSort, last.dateSort)
      {
        assert r[i] in r;
        var j :| 0 <= j < |init| && init[j] == r[i];
        assert s[j] == init[j];
      }
    }
  }

  // ---------------------------------------------------------------------
  // the four view modes

  /** groupedEvents: venue and type modes group the filtered list as it
      is; date mode groups a sorted copy of it; calendar mode yields nothing. */
  function GroupedEvents(mode: ViewMode, labels: TypeLabels, filtered: seq<ExpoEvent>): seq<Group>
  {
    match mode
    case Venue => Grouping(ByVenue, filtered)
    case Date => Grouping(ByDate, SortByDate(filtered))
    case Type => Grouping(ByType(labels), filtered)
    case Calendar => []
  }

  method ComputeGroupedEvents(mode: ViewMode, labels: TypeLabels, filtered: seq<ExpoEvent>)
    returns (groups: seq<Group>)
    ensures groups == GroupedEvents(mode, labels, filtered)
  {
    match mode
    case Venue =>
      groups := GroupInto(ByVenue, filtered);
    case Date =>
      var sorted := SortByDate(filtered);
      groups := GroupInto(ByDate, sorted);
    case Type =>
      groups := GroupInto(ByType(labels), filtered);
    case Calendar =>
      groups := [];
  }

  /** In the three list modes every filtered event is shown exactly once. */
  lemma GroupedEventsPartition(mode: ViewMode, labels: TypeLabels, filtered: seq<ExpoEvent>)
    requires mode != Calendar
    ensures multiset(Flatten(GroupedEvents(mode, labels, filtered))) == multiset(filtered)
  {
    match mode
    case Venue => GroupingPartition(ByVenue, filtered);
    case Type => GroupingPartition(ByType(labels), filtered);
    case Date =>
      GroupingPartition(ByDate, SortByDate(filtered));
      SortByDatePermutation(filtered);
  }

  /** Calendar mode yields no groups; the list modes yield none exactly when
      the filtered list is empty (the "no events" message). */
  lemma GroupedEventsEmpty(mode: ViewMode, labels: TypeLabels, filtered: seq<ExpoEvent>)
    ensures mode == Calendar ==> GroupedEvents(mode, labels, filtered) == []
    ensures mode != Calendar ==> (GroupedEvents(mode, labels, filtered) == [] <==> filtered == [])
  {
    match mode
    case Venue => GroupingTitles(ByVenue, filtered);
    case Type => GroupingTitles(ByType(labels), filtered);
    case Date =>
      GroupingTitles(ByDate, SortByDate(filtered));
      SortByDatePermutation(filtered);
      assert |multiset(SortByDate(filtered))| == |multiset(filtered)|;
    case Calendar =>
  }

  /** In date mode the groups follow the sorted list and each group's events
      are in ascending `dateSort` order. */
  lemma DateGroupsSorted(labels: TypeLabels, filtered: seq<ExpoEvent>)
    ensures forall i :: 0 <= i < |GroupedEvents(Date, labels, filtered)| ==>
      SortedByDate(GroupedEvents(Date, labels, filtered)[i].events)
  {
    var sorted := SortByDate(filtered);
    SortByDateSorted(filtered);
    var g := Grouping(ByDate, sorted);
    forall i | 0 <= i < |g|
      ensures SortedByDate(g[i].events)
    {
      MembersSorted(ByDate, g[i].title, sorted);
    }
  }

  /** In date mode an event sits under the multi-day bucket when its display
      text holds the multi-session marker or a dash, and under its own display
      text otherwise. */
  lemma DateGroupTitles(labels: TypeLabels, filtered: seq<ExpoEvent>)
    ensures forall i, x | 0 <= i < |GroupedEvents(Date, labels, filtered)|
                          && x in GroupedEvents(Date, labels, filtered)[i].events ::
      && x in filtered
      && (Contains(x.dateDisplay, MULTI_SESSION_MARKER) || Contains(x.dateDisplay, RANGE_DASH) ==>
            GroupedEvents(Date, labels, filtered)[i].title == MULTI_DAY_LABEL)
      && (!Contains(x.dateDisplay, MULTI_SESSION_MARKER) && !Contains(x.dateDisplay, RANGE_DASH) ==>
            GroupedEvents(Date, labels, filtered)[i].title == x.dateDisplay)
  {
    GroupingMembers(ByDate, SortByDate(filtered));
    SortByDatePermutation(filtered);
    assert forall x :: x in SortByDate(filtered) ==> x in multiset(SortByDate(filtered));
  }
}
