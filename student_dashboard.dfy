/** The student dashboard's lists (src/pages/StudentDashboard.tsx): events, clubs and
    placements are narrowed by a search term, events also by time, and then sorted by
    the chosen key with a stable sort. Lower-casing is the parameter `lower`,
    `localeCompare` the parameter `cmp`, and "now" the parameter `now`; dates are
    integer timestamps. */
module StudentDashboard {
  import opened Wrappers
  import opened Text
  import Seqs
  import AdminDashboard

  datatype Event = Event(id: string, title: string, description: Option<string>, dateTime: int)

  /** `memberCount` is `club_memberships?.[0]?.count`. */
  datatype Club = Club(id: string, name: string, description: Option<string>, memberCount: Option<int>)

  /** The `company_name` column may be null (`None`), as the search's `?.` allows. */
  datatype Placement = Placement(id: string, title: string, companyName: Option<string>, createdAt: int)

  function EventHit(term: string, lower: string -> string): Event -> bool {
    (e: Event) => SearchHit(e.title, e.description, term, lower)
  }

  function ClubHit(term: string, lower: string -> string): Club -> bool {
    (c: Club) => SearchHit(c.name, c.description, term, lower)
  }

  function PlacementHit(term: string, lower: string -> string): Placement -> bool {
    (p: Placement) => SearchHit(p.title, p.companyName, term, lower)
  }

  function Upcoming(now: int): Event -> bool { (e: Event) => e.dateTime > now }

  function Past(now: int): Event -> bool { (e: Event) => e.dateTime <= now }

  // ---------------------------------------------------------------------------
  // Comparators. `le(a, b)` is `cmp(a, b) <= 0`.

  function EventCompare(sortBy: string, cmp: (string, string) -> int, a: Event, b: Event): int {
    if sortBy == "date-asc" then a.dateTime - b.dateTime
    else if sortBy == "date-desc" then b.dateTime - a.dateTime
    else if sortBy == "title" then cmp(a.title, b.title)
    else 0
  }

  function EventOrder(sortBy: string, cmp: (string, string) -> int): (Event, Event) -> bool {
    (a: Event, b: Event) => EventCompare(sortBy, cmp, a, b) <= 0
  }

  /** `club_memberships?.[0]?.count || 0`. */
  function Members(c: Club): int { c.memberCount.GetOr(0) }

  function ClubCompare(sortBy: string, cmp: (string, string) -> int, a: Club, b: Club): int {
    if sortBy == "name" then cmp(a.name, b.name)
    else if sortBy == "members" then Members(b) - Members(a)
    else 0
  }

  function ClubOrder(sortBy: string, cmp: (string, string) -> int): (Club, Club) -> bool {
    (a: Club, b: Club) => ClubCompare(sortBy, cmp, a, b) <= 0
  }

  /** The company as `localeCompare` reads its argument: a null becomes the text "null". */
  function CompanyKey(p: Placement): string { p.companyName.GetOr("null") }

  /** `a.company_name.localeCompare(b.company_name)`: `None` is the TypeError thrown when
      `a` has no company. */
  function CompanyCompare(cmp: (string, string) -> int, a: Placement, b: Placement): Option<int> {
    if a.companyName.None? then None else Some(cmp(a.companyName.value, CompanyKey(b)))
  }

  /** The order the sort applies; for "company" it orders by `CompanyKey`, which is what
      the comparator computes whenever it does not throw (`CompanyCompareAgrees`). */
  function PlacementCompare(sortBy: string, cmp: (string, string) -> int, a: Placement, b: Placement): int {
    if sortBy == "recent" then b.createdAt - a.createdAt
    else if sortBy == "company" then cmp(CompanyKey(a), CompanyKey(b))
    else 0
  }

  /** The comparator throws exactly when its left operand has no company; otherwise it
      gives the value the sort's order is built from. */
  lemma CompanyCompareAgrees(cmp: (string, string) -> int, a: Placement, b: Placement)
    ensures CompanyCompare(cmp, a, b).None? <==> a.companyName.None?
    ensures a.companyName.Some? ==> CompanyCompare(cmp, a, b) == Some(PlacementCompare("company", cmp, a, b))
  {
  }

  function PlacementOrder(sortBy: string, cmp: (string, string) -> int): (Placement, Placement) -> bool {
    (a: Placement, b: Placement) => PlacementCompare(sortBy, cmp, a, b) <= 0
  }

  // ---------------------------------------------------------------------------
  // The three lists

  /** The events before sorting: searched, then narrowed by "upcoming" or "past". */
  function SearchedEvents(events: seq<Event>, term: string, filterType: string, now: int,
                          lower: string -> string): seq<Event>
  {
    var searched := Seqs.Filter(events, EventHit(term, lower));
    if filterType == "upcoming" then Seqs.Filter(searched, Upcoming(now))
    else if filterType == "past" then Seqs.Filter(searched, Past(now))
    else searched
  }

  /** `getFilteredEvents`. */
  function FilteredEvents(events: seq<Event>, term: string, filterType: string, sortBy: string,
                          now: int, lower: string -> string, cmp: (string, string) -> int): (r: seq<Event>)
    ensures multiset(r) == multiset(SearchedEvents(events, term, filterType, now, lower))
  {
    Seqs.SortBy(SearchedEvents(events, term, filterType, now, lower), EventOrder(sortBy, cmp))
  }

  /** `getFilteredClubs`. */
  function FilteredClubs(clubs: seq<Club>, term: string, sortBy: string,
                         lower: string -> string, cmp: (string, string) -> int): (r: seq<Club>)
    ensures multiset(r) == multiset(Seqs.Filter(clubs, ClubHit(term, lower)))
  {
    Seqs.SortBy(Seqs.Filter(clubs, ClubHit(term, lower)), ClubOrder(sortBy, cmp))
  }

  /** Whether the "company" sort of `listed` can reach the comparator with a placement
      that has no company: a sort compares as soon as there are two elements. */
  predicate CompanySortCanThrow(listed: seq<Placement>) {
    |listed| >= 2 && exists i :: 0 <= i < |listed| && listed[i].companyName.None?
  }

  /** `getFilteredPlacements`; `None` is the render throwing a TypeError out of the
      "company" comparator. */
  function FilteredPlacements(placements: seq<Placement>, term: string, sortBy: string,
                              lower: string -> string, cmp: (string, string) -> int): (r: Option<seq<Placement>>)
    ensures r.None? <==> sortBy == "company" && CompanySortCanThrow(Seqs.Filter(placements, PlacementHit(term, lower)))
    ensures r.Some? ==> multiset(r.value) == multiset(Seqs.Filter(placements, PlacementHit(term, lower)))
  {
    var listed := Seqs.Filter(placements, PlacementHit(term, lower));
    if sortBy == "company" && CompanySortCanThrow(listed) then None
    else Some(Seqs.SortBy(listed, PlacementOrder(sortBy, cmp)))
  }

  // ---------------------------------------------------------------------------
  // Properties

  /** An event is listed exactly when it was fetched, matches the search, and lies on the
      chosen side of "now". */
  lemma EventListedIff(events: seq<Event>, term: string, filterType: string, sortBy: string,
                       now: int, lower: string -> string, cmp: (string, string) -> int, e: Event)
    ensures e in FilteredEvents(events, term, filterType, sortBy, now, lower, cmp) <==>
            e in events && SearchHit(e.title, e.description, term, lower) &&
            (filterType == "upcoming" ==> e.dateTime > now) &&
            (filterType == "past" ==> e.dateTime <= now)
  {
    var r := FilteredEvents(events, term, filterType, sortBy, now, lower, cmp);
    var searched := Seqs.Filter(events, EventHit(term, lower));
    assert e in r <==> e in multiset(SearchedEvents(events, term, filterType, now, lower));
    Seqs.FilterMembership(events, EventHit(term, lower), e);
    Seqs.FilterMembership(searched, Upcoming(now), e);
    Seqs.FilterMembership(searched, Past(now), e);
  }

  /** "Upcoming" and "past" split the searched events: together they have every searched
      event exactly once. */
  lemma UpcomingPastPartition(events: seq<Event>, term: string, now: int, lower: string -> string)
    ensures var searched := SearchedEvents(events, term, "all", now, lower);
            var up := SearchedEvents(events, term, "upcoming", now, lower);
            var past := SearchedEvents(events, term, "past", now, lower);
            |up| + |past| == |searched| && multiset(up) + multiset(past) == multiset(searched)
  {
    var searched := Seqs.Filter(events, EventHit(term, lower));
    Seqs.FilterPartition(searched, Upcoming(now), Past(now));
  }

  /** "date-asc" lists events in non-decreasing time. */
  lemma DateAscSorted(events: seq<Event>, term: string, filterType: string, now: int,
                      lower: string -> string, cmp: (string, string) -> int)
    ensures var r := FilteredEvents(events, term, filterType, "date-asc", now, lower, cmp);
            forall i, j :: 0 <= i < j < |r| ==> r[i].dateTime <= r[j].dateTime
  {
    var le := EventOrder("date-asc", cmp);
    assert Seqs.TotalPreorder(le);
    Seqs.SortBySorted(SearchedEvents(events, term, filterType, now, lower), le);
  }

  /** "date-desc" lists events in non-increasing time. */
  lemma DateDescSorted(events: seq<Event>, term: string, filterType: string, now: int,
                       lower: string -> string, cmp: (string, string) -> int)
    ensures var r := FilteredEvents(events, term, filterType, "date-desc", now, lower, cmp);
            forall i, j :: 0 <= i < j < |r| ==> r[i].dateTime >= r[j].dateTime
  {
    var le := EventOrder("date-desc", cmp);
    assert Seqs.TotalPreorder(le);
    Seqs.SortBySorted(SearchedEvents(events, term, filterType, now, lower), le);
  }

  /** A `localeCompare` that is a consistent total order: every pair is comparable one
      way round, and `<= 0` is transitive. */
  ghost predicate ConsistentCompare(cmp: (string, string) -> int) {
    (forall a, b :: cmp(a, b) <= 0 || cmp(b, a) <= 0) &&
    (forall a, b, c :: cmp(a, b) <= 0 && cmp(b, c) <= 0 ==> cmp(a, c) <= 0)
  }

  /** "title" lists events in `localeCompare` order. */
  lemma TitleSorted(events: seq<Event>, term: string, filterType: string, now: int,
                    lower: string -> string, cmp: (string, string) -> int)
    requires ConsistentCompare(cmp)
    ensures var r := FilteredEvents(events, term, filterType, "title", now, lower, cmp);
            forall i, j :: 0 <= i < j < |r| ==> cmp(r[i].title, r[j].title) <= 0
  {
    var le := EventOrder("title", cmp);
    assert Seqs.TotalPreorder(le);
    Seqs.SortBySorted(SearchedEvents(events, term, filterType, now, lower), le);
  }

  /** A sort key the events do not know leaves the filtered order as it is. */
  lemma EventsUnknownSortKeepsOrder(events: seq<Event>, term: string, filterType: string, sortBy: string,
                                    now: int, lower: string -> string, cmp: (string, string) -> int)
    requires sortBy != "date-asc" && sortBy != "date-desc" && sortBy != "title"
    ensures FilteredEvents(events, term, filterType, sortBy, now, lower, cmp) ==
            SearchedEvents(events, term, filterType, now, lower)
  {
    Seqs.SortByAllEqual(SearchedEvents(events, term, filterType, now, lower), EventOrder(sortBy, cmp));
  }

  /** A club is listed exactly when it was fetched and its name or description matches
      the search. */
  lemma ClubListedIff(clubs: seq<Club>, term: string, sortBy: string,
                      lower: string -> string, cmp: (string, string) -> int, c: Club)
    ensures c in FilteredClubs(clubs, term, sortBy, lower, cmp) <==>
            c in clubs && SearchHit(c.name, c.description, term, lower)
  {
    var r := FilteredClubs(clubs, term, sortBy, lower, cmp);
    assert c in r <==> c in multiset(Seqs.Filter(clubs, ClubHit(term, lower)));
    Seqs.FilterMembership(clubs, ClubHit(term, lower), c);
  }

  /** "members" lists clubs by non-increasing member count, a missing count being 0. */
  lemma MembersSorted(clubs: seq<Club>, term: string, lower: string -> string, cmp: (string, string) -> int)
    ensures var r := FilteredClubs(clubs, term, "members", lower, cmp);
            forall i, j :: 0 <= i < j < |r| ==> Members(r[i]) >= Members(r[j])
  {
    var le := ClubOrder("members", cmp);
    assert Seqs.TotalPreorder(le);
    Seqs.SortBySorted(Seqs.Filter(clubs, ClubHit(term, lower)), le);
  }

  /** "name" lists clubs in `localeCompare` order of their names. */
  lemma NameSorted(clubs: seq<Club>, term: string, lower: string -> string, cmp: (string, string) -> int)
    requires ConsistentCompare(cmp)
    ensures var r := FilteredClubs(clubs, term, "name", lower, cmp);
            forall i, j :: 0 <= i < j < |r| ==> cmp(r[i].name, r[j].name) <= 0
  {
    var le := ClubOrder("name", cmp);
    assert Seqs.TotalPreorder(le);
    Seqs.SortBySorted(Seqs.Filter(clubs, ClubHit(term, lower)), le);
  }

  /** A sort key the clubs do not know (such as the default "date-desc") leaves the
      searched order as it is. */
  lemma ClubsUnknownSortKeepsOrder(clubs: seq<Club>, term: string, sortBy: string,
                                   lower: string -> string, cmp: (string, string) -> int)
    requires sortBy != "name" && sortBy != "members"
    ensures FilteredClubs(clubs, term, sortBy, lower, cmp) == Seqs.Filter(clubs, ClubHit(term, lower))
  {
    Seqs.SortByAllEqual(Seqs.Filter(clubs, ClubHit(term, lower)), ClubOrder(sortBy, cmp));
  }

  /** "recent" lists placements newest first. */
  lemma RecentSorted(placements: seq<Placement>, term: string, lower: string -> string,
                     cmp: (string, string) -> int)
    ensures var r := FilteredPlacements(placements, term, "recent", lower, cmp);
            r.Some? && forall i, j :: 0 <= i < j < |r.value| ==> r.value[i].createdAt >= r.value[j].createdAt
  {
    var le := PlacementOrder("recent", cmp);
    assert Seqs.TotalPreorder(le);
    Seqs.SortBySorted(Seqs.Filter(placements, PlacementHit(term, lower)), le);
  }

  /** "company" lists placements in `localeCompare` order of the company name when every
      listed placement has one; a page that does list one without a company throws. */
  lemma CompanySorted(placements: seq<Placement>, term: string, lower: string -> string,
                      cmp: (string, string) -> int)
    requires ConsistentCompare(cmp)
    ensures var listed := Seqs.Filter(placements, PlacementHit(term, lower));
            HasCompanies(listed) ==> FilteredPlacements(placements, term, "company", lower, cmp).Some?
    ensures var r := FilteredPlacements(placements, term, "company", lower, cmp);
            r.Some? ==> forall i, j :: 0 <= i < j < |r.value| ==>
              r.value[i].companyName.Some? && r.value[j].companyName.Some? &&
              cmp(r.value[i].companyName.value, r.value[j].companyName.value) <= 0
  {
    var listed := Seqs.Filter(placements, PlacementHit(term, lower));
    var le := PlacementOrder("company", cmp);
    assert Seqs.TotalPreorder(le);
    Seqs.SortBySorted(listed, le);
    var sorted := Seqs.SortBy(listed, le);
    if !CompanySortCanThrow(listed) && |sorted| >= 2 {
      assert HasCompanies(listed);
      forall i | 0 <= i < |sorted| ensures sorted[i].companyName.Some? {
        assert sorted[i] in multiset(listed);
      }
      CompanyOrderSorted(sorted, cmp);
    }
  }

  predicate HasCompanies(s: seq<Placement>) {
    forall i :: 0 <= i < |s| ==> s[i].companyName.Some?
  }

  /** Sorted by `CompanyKey`, placements that all have a company are sorted by it. */
  lemma CompanyOrderSorted(s: seq<Placement>, cmp: (string, string) -> int)
    requires HasCompanies(s) && Seqs.SortedBy(s, PlacementOrder("company", cmp))
    ensures forall i, j :: 0 <= i < j < |s| ==>
              s[i].companyName.Some? && s[j].companyName.Some? &&
              cmp(s[i].companyName.value, s[j].companyName.value) <= 0
  {
    forall i, j | 0 <= i < j < |s|
      ensures cmp(s[i].companyName.value, s[j].companyName.value) <= 0
    {
      assert PlacementOrder("company", cmp)(s[i], s[j]);
    }
  }

  /** A placement is listed exactly when it was fetched and its title or company matches
      the search. */
  lemma PlacementListedIff(placements: seq<Placement>, term: string, sortBy: string,
                           lower: string -> string, cmp: (string, string) -> int, p: Placement)
    ensures var r := FilteredPlacements(placements, term, sortBy, lower, cmp);
            r.Some? ==> (p in r.value <==> p in placements && SearchHit(p.title, p.companyName, term, lower))
  {
    var r := FilteredPlacements(placements, term, sortBy, lower, cmp);
    assert r.Some? ==> (p in r.value <==> p in multiset(Seqs.Filter(placements, PlacementHit(term, lower))));
    Seqs.FilterMembership(placements, PlacementHit(term, lower), p);
  }

  /** A sort key the placements do not know leaves the searched order as it is. */
  lemma PlacementsUnknownSortKeepsOrder(placements: seq<Placement>, term: string, sortBy: string,
                                        lower: string -> string, cmp: (string, string) -> int)
    requires sortBy != "recent" && sortBy != "company"
    ensures FilteredPlacements(placements, term, sortBy, lower, cmp) ==
            Some(Seqs.Filter(placements, PlacementHit(term, lower)))
  {
    Seqs.SortByAllEqual(Seqs.Filter(placements, PlacementHit(term, lower)), PlacementOrder(sortBy, cmp));
  }

  // ---------------------------------------------------------------------------
  // Placement eligibility

  /** `profileData && [7, 8].includes(profileData.semester)`: `None` is a missing profile
      row or semester. */
  predicate LoadsPlacements(semester: Option<int>) {
    semester.Some? && semester.value in [7, 8]
  }

  /** The semesters a placement created on the admin dashboard is open to are exactly
      those for which the student dashboard loads placements. */
  lemma NewPlacementsReachEligible(form: AdminDashboard.PlacementForm, semester: int)
    ensures semester in AdminDashboard.NewPlacement(form).eligibilitySemesters <==> LoadsPlacements(Some(semester))
  {
  }
}
