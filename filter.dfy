/** The event filter of App.tsx: a search over title, venue and location
    detail, a type filter and a venue filter, each with an "All" setting. */
module EventFilter {
  import opened Optional
  import opened ExpoTypes
  import opened Text
  import opened Sequences

  /** The venue selector's "no restriction" value. The selector holds a plain
      string, so this sentinel is compared as a string. */
  const ALL_VENUES: string := "All"

  /** The type selector: the sentinel 'All' or one of the nine types. */
  datatype TypeFilter = AllTypes | OnlyType(eventType: EventType)

  /** The three user selections the filter reads. */
  datatype Query = Query(searchTerm: string, selectedType: TypeFilter, selectedVenue: string)

  /** The lower-cased term occurs in the lower-cased title, venue or (when
      present) location detail. An absent detail contributes no match. */
  predicate MatchesSearch(term: string, e: ExpoEvent) {
    var needle := Lower(term);
    || Contains(Lower(e.title), needle)
    || Contains(Lower(e.venueGroup), needle)
    || (e.locationDetail.Some? && Contains(Lower(e.locationDetail.value), needle))
  }

  predicate MatchesType(f: TypeFilter, e: ExpoEvent) {
    f.AllTypes? || f.eventType == e.eventType
  }

  predicate MatchesVenue(venue: string, e: ExpoEvent) {
    venue == ALL_VENUES || venue == e.venueGroup
  }

  /** The filter callback: all three conditions at once. */
  predicate Matches(q: Query, e: ExpoEvent) {
    MatchesSearch(q.searchTerm, e) && MatchesType(q.selectedType, e) && MatchesVenue(q.selectedVenue, e)
  }

  /** `events.filter(e => Matches(q, e))`. */
  function FilterEvents(q: Query, events: seq<ExpoEvent>): seq<ExpoEvent>
  {
    if |events| == 0 then []
    else
      var last := events[|events| - 1];
      FilterEvents(q, events[..|events| - 1]) + if Matches(q, last) then [last] else []
  }

  /** The filter keeps exactly the matching events, in their input order. */
  lemma FilterEventsSpec(q: Query, events: seq<ExpoEvent>)
    ensures IsSubsequence(FilterEvents(q, events), events)
    ensures forall e :: e in FilterEvents(q, events) <==> e in events && Matches(q, e)
    ensures forall i :: 0 <= i < |FilterEvents(q, events)| ==> Matches(q, FilterEvents(q, events)[i])
  {
    FilterEventsKeep(q, events);
    KeepSpec(e => Matches(q, e), events);
  }

  /** The filter is `events.filter` by the query's test. */
  lemma {:induction false} FilterEventsKeep(q: Query, events: seq<ExpoEvent>)
    ensures FilterEvents(q, events) == Keep(e => Matches(q, e), events)
  {
    if |events| > 0 {
      FilterEventsKeep(q, events[..|events| - 1]);
    }
  }

  /** The filter keeps every copy of a matching event and no copy of any
      other: the result counts each event as often as the input does when it
      matches, and not at all when it does not. */
  lemma FilterEventsCounts(q: Query, events: seq<ExpoEvent>)
    ensures forall x :: multiset(FilterEvents(q, events))[x] == if Matches(q, x) then multiset(events)[x] else 0
  {
    FilterEventsKeep(q, events);
    forall x
      ensures multiset(FilterEvents(q, events))[x] == if Matches(q, x) then multiset(events)[x] else 0
    {
      KeepCount(e => Matches(q, e), events, x);
    }
  }

  /** Filtering the filter's output with the same selections changes nothing. */
  lemma {:induction false} FilterEventsIdempotent(q: Query, events: seq<ExpoEvent>)
    ensures FilterEvents(q, FilterEvents(q, events)) == FilterEvents(q, events)
  {
    if |events| > 0 {
      var init, last := events[..|events| - 1], events[|events| - 1];
      FilterEventsIdempotent(q, init);
      var r := FilterEvents(q, init);
      if Matches(q, last) {
        assert (r + [last])[..|r|] == r;
        assert FilterEvents(q, events) == r + [last];
        assert FilterEvents(q, r + [last]) == FilterEvents(q, r) + [last];
      } else {
        assert FilterEvents(q, events) == r;
      }
    }
  }

  /** The initial selections (empty search, all types, all venues) show every
      event, because the empty string occurs in every title. */
  lemma {:induction false} FilterEventsShowsAll(events: seq<ExpoEvent>)
    ensures FilterEvents(Query("", AllTypes, ALL_VENUES), events) == events
  {
    if |events| > 0 {
      var e := events[|events| - 1];
      assert Lower("") == "";
      assert StartsWith(Lower(e.title), "");
      FilterEventsShowsAll(events[..|events| - 1]);
    }
  }

  /** Dropping the type and venue restrictions never loses an event. */
  lemma FilterEventsMonotone(term: string, t: TypeFilter, venue: string, events: seq<ExpoEvent>)
    ensures forall e :: e in FilterEvents(Query(term, t, venue), events)
                    ==> e in FilterEvents(Query(term, AllTypes, ALL_VENUES), events)
  {
    FilterEventsSpec(Query(term, t, venue), events);
    FilterEventsSpec(Query(term, AllTypes, ALL_VENUES), events);
  }

  /** A search term that occurs in no event leaves nothing. */
  lemma FilterEventsNoMatch(q: Query, events: seq<ExpoEvent>)
    requires forall e :: e in events ==> !MatchesSearch(q.searchTerm, e)
    ensures FilterEvents(q, events) == []
  {
    FilterEventsSpec(q, events);
  }
}
