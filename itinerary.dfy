/**
 * The route across all categories (`viewFullRoute` in App.tsx): every task
 * that has a location, whatever its date, put in date-and-time order, and the
 * Google Maps link built from their locations.
 *
 * The route's comparator is not a consistent comparator in the sense of
 * ECMA-262 on some lists where tasks lack a date or a time
 * (RouteComparatorInconsistent exhibits a cycle), and on those the engine may
 * return any order. The model sorts with the same insertion sort as the
 * columns; order is claimed only when every task on the route has a date and
 * a time, and otherwise only the properties that hold for every order (which
 * tasks, how often).
 */
module Itinerary {
  import opened Types
  import opened Seqs
  import opened Collation
  import opened StableSort
  import opened Column
  import opened Uri

  /** The route's comparator: different dates decide; otherwise two times decide; otherwise a tie. */
  function CompareForRoute(a: Task, b: Task): int
  {
    if Present(a.date) && Present(b.date) && a.date != b.date then Compare(a.date, b.date)
    else if Present(a.time) && Present(b.time) then Compare(a.time, b.time)
    else 0
  }

  /** `tasks.filter(t => t.location)`. */
  function WithLocation(ts: seq<Task>): seq<Task>
  {
    Filter(ts, (t: Task) => Present(t.location))
  }

  /** When every task has a location, none is dropped. */
  lemma {:induction false} WithLocationAll(ts: seq<Task>)
    requires forall t :: t in ts ==> Present(t.location)
    ensures WithLocation(ts) == ts
  {
    if ts != [] {
      WithLocationAll(ts[1..]);
      assert [ts[0]] + ts[1..] == ts;
    }
  }

  /** `[...tasksWithLocation].sort(...)`. */
  function RouteOrder(ts: seq<Task>): seq<Task>
  {
    Sort(WithLocation(ts), CompareForRoute)
  }

  /** `sorted.map(t => t.location)`. */
  function RouteLocations(ts: seq<Task>): seq<string>
  {
    Locations(RouteOrder(ts))
  }

  /** The Maps pages the links open: a place search and driving directions. */
  const SearchPage := "https://www.google.com/maps/search/"
  const DirectionsPage := "https://www.google.com/maps/dir/"

  /** The Maps link for a non-empty list of stops: a search for one stop, directions for several. */
  function RouteUrl(locs: seq<string>): string
    requires locs != []
  {
    if |locs| == 1 then
      SearchPage + "?api=1&query=" + Encode(locs[0])
    else
      var waypoints := Join(locs[1..|locs| - 1], "|");
      DirectionsPage + "?api=1&origin=" + Encode(locs[0])
      + "&destination=" + Encode(locs[|locs| - 1])
      + (if waypoints != "" then "&waypoints=" + Encode(waypoints) else "")
      + "&travelmode=driving"
  }

  /** The link `viewFullRoute` opens, or None when it returns early. */
  function FullRoute(ts: seq<Task>): Option<string>
  {
    var locs := RouteLocations(ts);
    if locs == [] then None else Some(RouteUrl(locs))
  }

  /** The query parameters a directions link is meant to carry. */
  function DirectionsParams(locs: seq<string>): seq<(string, string)>
    requires |locs| >= 2
  {
    var waypoints := Join(locs[1..|locs| - 1], "|");
    DirectionsQueryParams(Encode(locs[0]), Encode(locs[|locs| - 1]), waypoints != "", Encode(waypoints))
  }

  // ---------------------------------------------------------------------------
  // Which tasks make up the route

  lemma LocationsCons(y: Task, r: seq<Task>)
    ensures multiset(Locations([y] + r)) == multiset{y.location} + multiset(Locations(r))
  {
    LocationsAppend([y], r);
    assert Locations([y]) == [y.location];
  }

  lemma LocationsInsertStep(x: Task, s: seq<Task>, cmp: (Task, Task) -> int)
    requires s != [] && cmp(x, s[0]) > 0
    requires multiset(Locations(Insert(x, s[1..], cmp))) == multiset(Locations(s[1..])) + multiset{x.location}
    ensures multiset(Locations(Insert(x, s, cmp))) == multiset(Locations(s)) + multiset{x.location}
  {
    var r := Insert(x, s[1..], cmp);
    assert Insert(x, s, cmp) == [s[0]] + r;
    LocationsCons(s[0], r);
    LocationsCons(s[0], s[1..]);
    assert [s[0]] + s[1..] == s;
  }

  lemma {:induction false} LocationsInsert(x: Task, s: seq<Task>, cmp: (Task, Task) -> int)
    ensures multiset(Locations(Insert(x, s, cmp))) == multiset(Locations(s)) + multiset{x.location}
  {
    if s == [] || cmp(x, s[0]) <= 0 {
      LocationsCons(x, s);
    } else {
      LocationsInsert(x, s[1..], cmp);
      LocationsInsertStep(x, s, cmp);
    }
  }

  /** Sorting, with any comparator, keeps the multiset of locations. */
  lemma {:induction false} LocationsSort(s: seq<Task>, cmp: (Task, Task) -> int)
    ensures multiset(Locations(Sort(s, cmp))) == multiset(Locations(s))
  {
    if s != [] {
      var r := Sort(s[1..], cmp);
      calc {
        multiset(Locations(Sort(s, cmp)));
        multiset(Locations(Insert(s[0], r, cmp)));
        { LocationsInsert(s[0], r, cmp); }
        multiset(Locations(r)) + multiset{s[0].location};
        { LocationsSort(s[1..], cmp); }
        multiset(Locations(s[1..])) + multiset{s[0].location};
        { LocationsCons(s[0], s[1..]); }
        multiset(Locations([s[0]] + s[1..]));
        { assert [s[0]] + s[1..] == s; }
        multiset(Locations(s));
      }
    }
  }

  /**
   * The route visits exactly the tasks that have a location, each as often as
   * it occurs, whatever their dates and times; its stops are those tasks'
   * locations, rearranged, and none of them is empty.
   */
  lemma RouteIsPermutation(ts: seq<Task>)
    ensures multiset(RouteOrder(ts)) == multiset(WithLocation(ts))
    ensures forall x :: x in RouteOrder(ts) <==> x in ts && Present(x.location)
    ensures multiset(RouteLocations(ts)) == multiset(Locations(WithLocation(ts)))
  {
    var kept := WithLocation(ts);
    forall x ensures x in RouteOrder(ts) <==> x in kept {
      assert x in RouteOrder(ts) <==> x in multiset(RouteOrder(ts));
    }
    LocationsSort(kept, CompareForRoute);
  }

  /** No stop of the route is empty. */
  lemma RouteStopsPresent(ts: seq<Task>)
    ensures forall i :: 0 <= i < |RouteLocations(ts)| ==> Present(RouteLocations(ts)[i])
  {
    RouteIsPermutation(ts);
    forall i | 0 <= i < |RouteLocations(ts)| ensures Present(RouteLocations(ts)[i]) {
      LocationAt(RouteOrder(ts), i);
      assert RouteOrder(ts)[i] in RouteOrder(ts);
    }
  }

  /** No link is produced exactly when no task has a location. */
  lemma FullRouteNoneIff(ts: seq<Task>)
    ensures FullRoute(ts).None? <==> forall t :: t in ts ==> !Present(t.location)
  {
    RouteIsPermutation(ts);
    if RouteLocations(ts) != [] {
      assert RouteOrder(ts)[0] in RouteOrder(ts);
    }
  }

  // ---------------------------------------------------------------------------
  // Order of the route

  /** A task with both a date and a time. */
  predicate Scheduled(t: Task)
  {
    Present(t.date) && Present(t.time)
  }

  /** On scheduled tasks the route's comparator is the column's. */
  lemma RouteComparatorAgrees(a: Task, b: Task)
    requires Scheduled(a) && Scheduled(b)
    ensures CompareForRoute(a, b) == CompareTasks(a, b)
  {
  }

  /** When every task with a location is scheduled, the route is sorted exactly as a column would sort those tasks. */
  lemma RouteIsColumnSort(ts: seq<Task>)
    requires forall t :: t in ts && Present(t.location) ==> Scheduled(t)
    ensures RouteOrder(ts) == SortColumn(WithLocation(ts))
  {
    var kept := WithLocation(ts);
    forall a, b | a in kept && b in kept ensures CompareForRoute(a, b) == CompareTasks(a, b) {
      RouteComparatorAgrees(a, b);
    }
    SortAgrees(kept, CompareForRoute, CompareTasks);
  }

  /**
   * When every task with a location has a date and a time, the route is
   * ordered by date and then by time, and tasks with the same date and time
   * keep their order in the list.
   */
  lemma RouteOrderScheduled(ts: seq<Task>)
    requires forall t :: t in ts && Present(t.location) ==> Scheduled(t)
    ensures var r := RouteOrder(ts);
      forall i, j :: 0 <= i < j < |r| ==>
        Compare(r[i].date, r[j].date) < 0 || (r[i].date == r[j].date && Compare(r[i].time, r[j].time) <= 0)
    ensures forall d, t :: Slot(RouteOrder(ts), d, t) == Slot(WithLocation(ts), d, t)
  {
    RouteIsColumnSort(ts);
    SortColumnCorrect(WithLocation(ts));
    RouteIsPermutation(ts);
    var r := RouteOrder(ts);
    forall i, j | 0 <= i < j < |r|
      ensures Compare(r[i].date, r[j].date) < 0 || (r[i].date == r[j].date && Compare(r[i].time, r[j].time) <= 0)
    {
      assert r[i] in r && r[j] in r;
      assert Scheduled(r[i]) && Scheduled(r[j]);
      assert InColumnOrder(r[i], r[j]);
      CompareZero(r[i].date, r[j].date);
    }
  }

  /** The comparisons of the dates and times used below. */
  lemma SampleComparisons()
    ensures Compare("2024-05-01", "2024-05-02") < 0
    ensures Compare("08:00", "09:00") < 0 && Compare("09:00", "08:00") > 0
    ensures Compare("09:00", "10:00") < 0
  {
    CompareIsLexicographic("2024-05-01", "2024-05-02");
    assert "2024-05-01"[..9] == "2024-05-02"[..9];
    CompareIsLexicographic("08:00", "09:00");
    assert "08:00"[..1] == "09:00"[..1];
    CompareAntisymmetric("08:00", "09:00");
    CompareIsLexicographic("09:00", "10:00");
    assert "09:00"[..0] == "10:00"[..0];
  }

  /**
   * With some dates or times missing the comparator is inconsistent: a task
   * dated 2024-05-02 at 08:00, an undated one at 09:00 and one dated
   * 2024-05-01 at 10:00 each come before the next, in a cycle.
   */
  lemma RouteComparatorInconsistent()
    ensures !Consistent(CompareForRoute)
  {
    CycleComparisons();
    NotConsistentOnCycle(CompareForRoute, LateDated, Undated, EarlyDated);
  }

  const LateDated := Task("a", "", "", "A", Casa, "08:00", "2024-05-02", "", "")
  const Undated := Task("b", "", "", "B", Casa, "09:00", "", "", "")
  const EarlyDated := Task("c", "", "", "C", Casa, "10:00", "2024-05-01", "", "")

  /** Two tasks on different dates are compared by date. */
  lemma ComparedByDate(a: Task, b: Task)
    requires Present(a.date) && Present(b.date) && Compare(a.date, b.date) != 0
    ensures CompareForRoute(a, b) == Compare(a.date, b.date)
  {
    CompareZero(a.date, b.date);
  }

  /** Two timed tasks whose dates do not decide are compared by time. */
  lemma ComparedByTime(a: Task, b: Task)
    requires a.date == b.date || !Present(a.date) || !Present(b.date)
    requires Present(a.time) && Present(b.time)
    ensures CompareForRoute(a, b) == Compare(a.time, b.time)
  {
  }

  lemma CycleComparisons()
    ensures CompareForRoute(EarlyDated, LateDated) < 0
    ensures CompareForRoute(LateDated, Undated) < 0
    ensures CompareForRoute(Undated, EarlyDated) < 0
  {
    SampleComparisons();
    ComparedByDate(EarlyDated, LateDated);
    ComparedByTime(LateDated, Undated);
    ComparedByTime(Undated, EarlyDated);
  }

  /** Three tasks on two days, listed out of order. */
  const Office := Task("1", "Office", "", "Office", Lavoro, "09:00", "2024-05-01", "", "")
  const Gym := Task("2", "Gym", "", "Gym", Allenamento, "08:00", "2024-05-01", "", "")
  const Home := Task("3", "Home", "", "Home", Casa, "10:00", "2024-05-02", "", "")

  lemma ExampleComparisons()
    ensures CompareForRoute(Gym, Home) < 0
    ensures CompareForRoute(Office, Gym) > 0
    ensures CompareForRoute(Office, Home) < 0
  {
    SampleComparisons();
    CompareAntisymmetric("2024-05-01", "2024-05-02");
    ComparedByDate(Gym, Home);
    ComparedByTime(Office, Gym);
    ComparedByDate(Office, Home);
  }

  lemma ExampleSort()
    ensures Sort([Office, Gym, Home], CompareForRoute) == [Gym, Office, Home]
  {
    ExampleComparisons();
    SortThree(Office, Gym, Home, CompareForRoute);
  }

  /** The route goes to the gym, then the office, then home. */
  lemma WorkedExample()
    ensures RouteLocations([Office, Gym, Home]) == ["Gym", "Office", "Home"]
  {
    WithLocationAll([Office, Gym, Home]);
    ExampleSort();
    ExampleLocations();
  }

  lemma ExampleLocations()
    ensures Locations([Gym, Office, Home]) == ["Gym", "Office", "Home"]
  {
    LocationAt([Gym, Office, Home], 0);
    LocationAt([Gym, Office, Home], 1);
    LocationAt([Gym, Office, Home], 2);
  }

  // ---------------------------------------------------------------------------
  // The link

  lemma NoQueryInPages()
    ensures '?' !in SearchPage && '?' !in DirectionsPage
  {
  }

  /** The query of a search link, with `e` standing for the encoded stop. */
  lemma SearchQuery(e: string)
    ensures QueryString([("api", "1"), ("query", e)]) == "api=1&query=" + e
    ensures SearchPage + "?api=1&query=" + e == SearchPage + ['?'] + ("api=1&query=" + e)
  {
    QueryStringCons(("api", "1"), [("query", e)]);
  }

  /** A single-stop link is the search page, `?`, and the query of `api=1` and the encoded stop. */
  lemma SingleStopUrlParts(l: string)
    ensures RouteUrl([l]) == SearchPage + ['?'] + QueryString([("api", "1"), ("query", Encode(l))])
  {
    SearchQuery(Encode(l));
  }

  /** A search link for an `&`-free value `e` reads back as `api=1` and `query=e`. */
  lemma SearchUrlReadsBack(e: string)
    requires '&' !in e
    ensures var url := SearchPage + ['?'] + QueryString([("api", "1"), ("query", e)]);
      Cut(url, '?') == (SearchPage, QueryString([("api", "1"), ("query", e)]))
      && QueryParams(Cut(url, '?').1) == [("api", "1"), ("query", e)]
  {
    NoQueryInPages();
    ParseUrl(SearchPage, [("api", "1"), ("query", e)]);
  }

  /** A single stop gives a Maps search whose only parameters are `api=1` and the encoded stop. */
  lemma SingleStopUrl(l: string)
    ensures Cut(RouteUrl([l]), '?') == (SearchPage, QueryString([("api", "1"), ("query", Encode(l))]))
    ensures QueryParams(Cut(RouteUrl([l]), '?').1) == [("api", "1"), ("query", Encode(l))]
  {
    SingleStopUrlParts(l);
    SearchUrlReadsBack(Encode(l));
  }

  /** The parameters of a directions link, with `o`, `d` and `w` standing for the encoded stops. */
  function DirectionsQueryParams(o: string, d: string, hasWaypoints: bool, w: string): seq<(string, string)>
  {
    [("api", "1"), ("origin", o), ("destination", d)]
    + (if hasWaypoints then [("waypoints", w)] else [])
    + [("travelmode", "driving")]
  }

  /** The literal head of the directions template, cut where the query syntax puts its `?`, `&` and `=`. */
  lemma HeadPieces()
    ensures "?api=1&origin=" == ['?'] + ("api" + "=" + "1" + "&") + ("origin" + "=")
    ensures "&destination=" == "&" + ("destination" + "=")
  {
  }

  /** The literal tail of the directions template, cut the same way. */
  lemma TailPieces()
    ensures "&waypoints=" == "&" + ("waypoints" + "=")
    ensures "&travelmode=driving" == "&" + ("travelmode" + "=" + "driving")
  {
  }

  /** The query of a directions link after its destination. */
  lemma DirectionsTail(hasWaypoints: bool, w: string)
    ensures (if hasWaypoints then "&waypoints=" + w else "") + "&travelmode=driving"
            == "&" + QueryString((if hasWaypoints then [("waypoints", w)] else []) + [("travelmode", "driving")])
  {
    var tail := [("travelmode", "driving")];
    TailPieces();
    if hasWaypoints {
      QueryStringCons(("waypoints", w), tail);
      var a, b := "waypoints" + "=", "travelmode" + "=" + "driving";
      calc {
        "&waypoints=" + w + "&travelmode=driving";
        ("&" + a) + w + ("&" + b);
        "&" + (a + w + "&" + b);
      }
    } else {
      assert [] + tail == tail;
    }
  }

  /** The query of a directions link, written out. */
  lemma DirectionsQueryString(o: string, d: string, hasWaypoints: bool, w: string)
    ensures var rest := (if hasWaypoints then [("waypoints", w)] else []) + [("travelmode", "driving")];
      QueryString(DirectionsQueryParams(o, d, hasWaypoints, w))
      == "api" + "=" + "1" + "&" + ("origin" + "=" + o + "&" + ("destination" + "=" + d + "&" + QueryString(rest)))
  {
    var rest := (if hasWaypoints then [("waypoints", w)] else []) + [("travelmode", "driving")];
    assert DirectionsQueryParams(o, d, hasWaypoints, w) == [("api", "1")] + ([("origin", o)] + ([("destination", d)] + rest));
    QueryStringCons(("destination", d), rest);
    QueryStringCons(("origin", o), [("destination", d)] + rest);
    QueryStringCons(("api", "1"), [("origin", o)] + ([("destination", d)] + rest));
  }

  /** Regrouping the directions template around its `?`, with the page and the tail left abstract. */
  lemma DirectionsRegroup(page: string, o: string, d: string, q: string)
    ensures page + "?api=1&origin=" + o + "&destination=" + d + ("&" + q)
            == page + ['?'] + ("api" + "=" + "1" + "&" + ("origin" + "=" + o + "&" + ("destination" + "=" + d + "&" + q)))
  {
    HeadPieces();
    var api, org, dst := "api" + "=" + "1" + "&", "origin" + "=", "destination" + "=";
    calc {
      page + "?api=1&origin=" + o + "&destination=" + d + ("&" + q);
      page + (['?'] + api + org) + o + ("&" + dst) + d + ("&" + q);
      page + ['?'] + (api + (org + o + "&" + (dst + d + "&" + q)));
    }
  }

  /** The text of a directions link is the directions page, `?`, and the query of its parameters. */
  lemma DirectionsQueryText(o: string, d: string, hasWaypoints: bool, w: string)
    ensures DirectionsPage + "?api=1&origin=" + o + "&destination=" + d
              + (if hasWaypoints then "&waypoints=" + w else "") + "&travelmode=driving"
            == DirectionsPage + ['?'] + QueryString(DirectionsQueryParams(o, d, hasWaypoints, w))
  {
    var rest := (if hasWaypoints then [("waypoints", w)] else []) + [("travelmode", "driving")];
    var x := (if hasWaypoints then "&waypoints=" + w else "") + "&travelmode=driving";
    DirectionsTail(hasWaypoints, w);
    DirectionsQueryString(o, d, hasWaypoints, w);
    DirectionsRegroup(DirectionsPage, o, d, QueryString(rest));
    assert DirectionsPage + "?api=1&origin=" + o + "&destination=" + d + x
        == DirectionsPage + "?api=1&origin=" + o + "&destination=" + d + ("&" + QueryString(rest));
  }

  /** A directions link over `&`-free values reads back as exactly its parameters. */
  lemma DirectionsUrlReadsBack(o: string, d: string, hasWaypoints: bool, w: string)
    requires '&' !in o && '&' !in d && '&' !in w
    ensures var params := DirectionsQueryParams(o, d, hasWaypoints, w);
      var url := DirectionsPage + ['?'] + QueryString(params);
      Cut(url, '?') == (DirectionsPage, QueryString(params)) && QueryParams(Cut(url, '?').1) == params
  {
    var params := DirectionsQueryParams(o, d, hasWaypoints, w);
    NoQueryInPages();
    forall i | 0 <= i < |params| ensures WellFormedParam(params[i]) {
    }
    ParseUrl(DirectionsPage, params);
  }

  /**
   * Several stops give Maps directions whose parameters read back as exactly
   * `api`, the encoded first stop as origin, the encoded last stop as
   * destination, the encoded `|`-joined middle stops as waypoints when that
   * join is not empty, and `travelmode=driving`: no location can add, drop or
   * reorder a parameter.
   */
  lemma DirectionsUrl(locs: seq<string>)
    requires |locs| >= 2
    ensures Cut(RouteUrl(locs), '?') == (DirectionsPage, QueryString(DirectionsParams(locs)))
    ensures QueryParams(Cut(RouteUrl(locs), '?').1) == DirectionsParams(locs)
  {
    var waypoints := Join(locs[1..|locs| - 1], "|");
    var o, d, w := Encode(locs[0]), Encode(locs[|locs| - 1]), Encode(waypoints);
    assert Delimiter('&');
    EncodeHasNoDelimiters(locs[0]);
    EncodeHasNoDelimiters(locs[|locs| - 1]);
    EncodeHasNoDelimiters(waypoints);
    DirectionsQueryText(o, d, waypoints != "", w);
    DirectionsUrlReadsBack(o, d, waypoints != "", w);
  }

  /** With non-empty stops, the waypoints parameter is there exactly when there are three stops or more. */
  lemma WaypointsIffThreeStops(locs: seq<string>)
    requires |locs| >= 2
    requires forall i :: 0 <= i < |locs| ==> Present(locs[i])
    ensures |locs| >= 3 <==> |DirectionsParams(locs)| == 5
    ensures |locs| >= 3 ==> DirectionsParams(locs)[3] == ("waypoints", Encode(Join(locs[1..|locs| - 1], "|")))
  {
    var mid := locs[1..|locs| - 1];
    if |mid| >= 2 {
      assert Join(mid, "|")[0] == mid[0][0];
    } else if |mid| == 1 {
      assert Join(mid, "|") == locs[1];
    }
  }

  /**
   * Middle stops are joined with `|` before encoding, so a `|` inside a
   * location is indistinguishable from a stop boundary.
   */
  lemma PipeSplitsStop(origin: string, m1: string, m2: string, destination: string)
    ensures RouteUrl([origin, m1 + "|" + m2, destination]) == RouteUrl([origin, m1, m2, destination])
  {
    assert [origin, m1 + "|" + m2, destination][1..2] == [m1 + "|" + m2];
    assert [origin, m1, m2, destination][1..3] == [m1, m2];
    assert Join([m1, m2], "|") == m1 + "|" + m2;
  }

  /** When the route has a link and two stops or more, waypoints appear exactly when three or more tasks have a location. */
  lemma FullRouteWaypoints(ts: seq<Task>)
    requires |WithLocation(ts)| >= 2
    ensures var locs := RouteLocations(ts);
      |locs| == |WithLocation(ts)|
      && FullRoute(ts) == Some(RouteUrl(locs))
      && (|WithLocation(ts)| >= 3 <==> |DirectionsParams(locs)| == 5)
  {
    RouteIsPermutation(ts);
    RouteStopsPresent(ts);
    var locs := RouteLocations(ts);
    assert |locs| == |multiset(locs)| == |multiset(Locations(WithLocation(ts)))|;
    WaypointsIffThreeStops(locs);
  }
}
