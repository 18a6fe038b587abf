/**
 * What a task card derives from its task (components/TaskCard.tsx): the link
 * behind its "route" button and the date and time badges.
 */
module TaskCard {
  import opened Types
  import opened Seqs
  import opened Uri
  import opened Itinerary

  /** `mapsSearchUrl`: a Maps search for the task's location. */
  function SearchUrl(location: string): string
  {
    SearchPage + "?api=1&query=" + Encode(location)
  }

  /** `finalMapsUrl`: the link stored with the task when there is one, else the search. */
  function RouteLink(t: Task): string
  {
    if Present(t.mapsUrl) then t.mapsUrl else SearchUrl(t.location)
  }

  /** The card's search link is the link the route opens when the task is its only stop. */
  lemma SearchUrlIsSingleStopRoute(location: string)
    ensures SearchUrl(location) == RouteUrl([location])
  {
  }

  /**
   * The search link reads back as the search page with exactly the parameters
   * `api=1` and `query`, and the query value percent-decodes to the UTF-8
   * bytes of the location: whatever the location holds, it is searched for
   * as a whole.
   */
  lemma SearchUrlFindsLocation(location: string)
    ensures Cut(SearchUrl(location), '?').0 == SearchPage
    ensures QueryParams(Cut(SearchUrl(location), '?').1) == [("api", "1"), ("query", Encode(location))]
    ensures PercentDecode(QueryParams(Cut(SearchUrl(location), '?').1)[1].1) == Some(Utf8String(location))
  {
    SearchUrlIsSingleStopRoute(location);
    SingleStopUrl(location);
    DecodeEncode(location);
  }

  /** A stored link wins; without one the card falls back to searching for the location. */
  lemma RouteLinkChoice(t: Task)
    ensures Present(t.mapsUrl) ==> RouteLink(t) == t.mapsUrl
    ensures !Present(t.mapsUrl) ==> RouteLink(t) == RouteUrl([t.location])
    ensures !Present(t.mapsUrl) ==> Cut(RouteLink(t), '?').0 == SearchPage
    ensures !Present(t.mapsUrl) ==> QueryParams(Cut(RouteLink(t), '?').1) == [("api", "1"), ("query", Encode(t.location))]
  {
    SearchUrlIsSingleStopRoute(t.location);
    SearchUrlFindsLocation(t.location);
  }

  /** A badge on the card. The date badge's locale formatting is not modelled: it carries the stored date. */
  datatype Badge = DateBadge(date: string) | TimeBadge(time: string)

  /** The badges a card shows, left to right. */
  function Badges(t: Task): (r: seq<Badge>)
    ensures DateBadge(t.date) in r <==> Present(t.date)
    ensures TimeBadge(t.time) in r <==> Present(t.time)
    ensures forall b :: b in r ==> b == DateBadge(t.date) || b == TimeBadge(t.time)
    ensures |r| == (if Present(t.date) then 1 else 0) + (if Present(t.time) then 1 else 0)
  {
    (if Present(t.date) then [DateBadge(t.date)] else [])
    + (if Present(t.time) then [TimeBadge(t.time)] else [])
  }
}
