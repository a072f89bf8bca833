/** The activity record and the small pieces of client logic both the store
    and the component apply to it: trimming a wire date to its calendar part,
    JavaScript truthiness of an optional id, and the sort key. */
module Activities {
  import opened Wrappers

  /** One activity as the client holds it; every field is a string on the
      wire, the date in ISO-8601 form such as "2024-01-05T08:00:00". */
  datatype Activity = Activity(
    id: string,
    title: string,
    date: string,
    description: string,
    category: string,
    city: string,
    venue: string)

  /** `date.split("T")[0]`: the part of `s` before its first 'T', or all of
      `s` when it has none. */
  function DatePart(s: string): (r: string)
    ensures r <= s
    ensures 'T' !in r
    ensures |r| < |s| ==> s[|r|] == 'T'
    decreases |s|
  {
    if s == [] || s[0] == 'T' then ""
    else [s[0]] + DatePart(s[1..])
  }

  /** Trimming an already trimmed date changes nothing. */
  lemma DatePartIdempotent(s: string)
    ensures DatePart(DatePart(s)) == DatePart(s)
  {
  }

  /** The activity with its date trimmed to the calendar part; nothing else
      changes. */
  function Normalize(a: Activity): (r: Activity)
    ensures r.(date := a.date) == a
    ensures r.date == DatePart(a.date)
  {
    a.(date := DatePart(a.date))
  }

  /** JavaScript truthiness of an optional string id: present and non-empty. */
  predicate Truthy(id: Option<string>): (b: bool)
    ensures b <==> id.Some? && |id.value| > 0
  {
    id.Some? && id.value != ""
  }

  /** The comparison key of `activitiesByDate`: the parsed date. `parse`
      stands for `Date.parse`, taken as a total function to integers. */
  function DateKey(parse: string -> int): (key: Activity -> int)
    ensures forall a :: key(a) == parse(a.date)
  {
    (a: Activity) => parse(a.date)
  }

  /** The set of ids occurring in a list of activities. */
  ghost function Ids(list: seq<Activity>): set<string> {
    set i | 0 <= i < |list| :: list[i].id
  }
}
