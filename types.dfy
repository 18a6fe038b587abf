/**
 * The board's data model: the closed set of categories and the task record.
 */
module Types {

  datatype Option<T> = None | Some(value: T)

  /** The four columns of the board. */
  datatype Category = Lavoro | Casa | Corsi | Allenamento

  /** The string value each enum member carries. */
  function Name(c: Category): string
  {
    match c
    case Lavoro => "Lavoro"
    case Casa => "Casa"
    case Corsi => "Corsi"
    case Allenamento => "Allenamento"
  }

  /**
   * The category whose string value is `s`, if any: how the category
   * selector's value is read back.
   */
  function Parse(s: string): (r: Option<Category>)
    ensures forall c :: r == Some(c) <==> s == Name(c)
  {
    if s == "Lavoro" then Some(Lavoro)
    else if s == "Casa" then Some(Casa)
    else if s == "Corsi" then Some(Corsi)
    else if s == "Allenamento" then Some(Allenamento)
    else None
  }

  /** The four string values are pairwise distinct, so comparing them is comparing the categories. */
  lemma NameInjective(c: Category, d: Category)
    ensures Name(c) == Name(d) <==> c == d
  {
    assert Parse(Name(c)) == Some(c);
  }

  /**
   * A task. The optional fields `time`, `date`, `mapsUrl` and `mapsDetails`
   * are strings where "" means absent: every reader tests them by
   * truthiness, for which an absent field and "" are the same.
   */
  datatype Task = Task(
    id: string,
    title: string,
    description: string,
    location: string,
    category: Category,
    time: string,
    date: string,
    mapsUrl: string,
    mapsDetails: string)

  /** JavaScript truthiness of a string field. */
  predicate Present(s: string)
  {
    s != ""
  }

  /** The ids of `ts`, position by position. */
  function Ids(ts: seq<Task>): (r: seq<string>)
    ensures |r| == |ts|
    ensures forall i :: 0 <= i < |ts| ==> r[i] == ts[i].id
  {
    if ts == [] then [] else [ts[0].id] + Ids(ts[1..])
  }

  /** The locations of `ts`, in order: `ts.map(t => t.location)`. */
  function Locations(ts: seq<Task>): (r: seq<string>)
    ensures |r| == |ts|
  {
    if ts == [] then [] else [ts[0].location] + Locations(ts[1..])
  }

  /** Position `i` of the locations is the location of task `i`. */
  lemma {:induction false} LocationAt(ts: seq<Task>, i: nat)
    requires i < |ts|
    ensures Locations(ts)[i] == ts[i].location
  {
    if i > 0 {
      LocationAt(ts[1..], i - 1);
    }
  }

  lemma {:induction false} LocationsAppend(a: seq<Task>, b: seq<Task>)
    ensures Locations(a + b) == Locations(a) + Locations(b)
  {
    if a != [] {
      LocationsAppend(a[1..], b);
      assert (a + b)[1..] == a[1..] + b;
    } else {
      assert a + b == b;
    }
  }
}
