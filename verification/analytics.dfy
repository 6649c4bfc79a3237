/** Daily visit counting: one row per calendar day with the hit count, the
    visitor count and the list of addresses seen that day, kept as JSON
    text. */
module Analytics {

  import opened Js

  /** What the row's address column holds once read back. */
  datatype IpText =
    | NoText                   // null: read as `[]`
    | IpArray(ips: seq<string>)
    | NotJson                  // `JSON.parse` throws: read as `[]`
    | NotArray                 // parses to a value without `includes`

  datatype Day = Day(hits: int, visitors: int, ips: IpText)

  /** date (`YYYY-MM-DD`) -> that day's row */
  type Table = map<string, Day>

  /** The address list the tracker starts from, or `None` when using it
      throws. */
  function ReadIps(t: IpText): (r: Option<seq<string>>)
    ensures r.None? <==> t.NotArray?
    ensures t.IpArray? ==> r == Some(t.ips)
  {
    match t
    case NoText => Some([])
    case IpArray(ips) => Some(ips)
    case NotJson => Some([])
    case NotArray => None
  }

  /** `trackVisit` for a request from `ip` on day `today`. The request
      always goes on (`next()` runs on success and on error); only the table
      may change. A row whose list cannot be searched throws before the save
      and keeps its old counts. */
  function Track(table: Table, today: string, ip: string): (r: Table)
    ensures forall d :: d != today ==> (d in r <==> d in table) && (d in table ==> r[d] == table[d])
    ensures today in r
    ensures today !in table ==> r[today] == Day(1, 1, IpArray([ip]))
    ensures today in table && table[today].ips.NotArray? ==> r[today] == table[today]
    ensures today in table && !table[today].ips.NotArray? ==>
              var ips := ReadIps(table[today].ips).value;
              && r[today].hits == table[today].hits + 1
              && (ip in ips ==> r[today].visitors == table[today].visitors && r[today].ips == IpArray(ips))
              && (ip !in ips ==> r[today].visitors == table[today].visitors + 1 && r[today].ips == IpArray(ips + [ip]))
  {
    if today !in table then table[today := Day(1, 1, IpArray([ip]))]
    else
      var day := table[today];
      match ReadIps(day.ips)
      case None => table
      case Some(ips) =>
        if ip in ips then table[today := Day(day.hits + 1, day.visitors, IpArray(ips))]
        else table[today := Day(day.hits + 1, day.visitors + 1, IpArray(ips + [ip]))]
  }

  predicate Distinct(s: seq<string>) {
    forall i, j :: 0 <= i < j < |s| ==> s[i] != s[j]
  }

  /** A row whose list is intact: distinct addresses, one visitor each, and
      at least one hit per visitor. */
  predicate Counted(d: Day) {
    d.ips.IpArray? && Distinct(d.ips.ips) && d.visitors == |d.ips.ips| && d.hits >= d.visitors
  }

  /** Tracking keeps every intact row intact and makes today's row intact
      when it is created. */
  lemma TrackKeepsCounted(table: Table, today: string, ip: string)
    requires forall d :: d in table ==> Counted(table[d])
    ensures forall d :: d in Track(table, today, ip) ==> Counted(Track(table, today, ip)[d])
  {
    TrackKeepsCountedAt(table, today, ip);
  }

  /** A run of requests on one day. */
  function TrackAll(table: Table, today: string, ips: seq<string>): (r: Table)
    decreases |ips|
  {
    if ips == [] then table else TrackAll(Track(table, today, ips[0]), today, ips[1..])
  }

  /** From no row, a day's requests leave as many hits as requests, and as
      many visitors as distinct addresses among them. */
  lemma {:induction false} TrackAllCounts(table: Table, today: string, ips: seq<string>)
    requires today in table ==> Counted(table[today])
    ensures today in TrackAll(table, today, ips) || (ips == [] && today !in table)
    ensures today in table ==>
              && Counted(TrackAll(table, today, ips)[today])
              && TrackAll(table, today, ips)[today].hits == table[today].hits + |ips|
              && (forall a :: a in TrackAll(table, today, ips)[today].ips.ips <==> a in table[today].ips.ips || a in ips)
    ensures today !in table && ips != [] ==>
              && Counted(TrackAll(table, today, ips)[today])
              && TrackAll(table, today, ips)[today].hits == |ips|
              && (forall a :: a in TrackAll(table, today, ips)[today].ips.ips <==> a in ips)
    decreases |ips|
  {
    if ips != [] {
      var t1 := Track(table, today, ips[0]);
      TrackKeepsCountedAt(table, today, ips[0]);
      TrackAllCounts(t1, today, ips[1..]);
      assert forall a :: a in ips <==> a == ips[0] || a in ips[1..];
    }
  }

  lemma TrackKeepsCountedAt(table: Table, today: string, ip: string)
    requires today in table ==> Counted(table[today])
    ensures Counted(Track(table, today, ip)[today])
  {
    if today in table {
      var ips := table[today].ips.ips;
      if ip !in ips {
        assert Distinct(ips + [ip]) by {
          forall i, j | 0 <= i < j < |ips| + 1 ensures (ips + [ip])[i] != (ips + [ip])[j] {
            if j == |ips| { assert ips[i] in ips; }
          }
        }
      }
    }
  }

  datatype Summary = Summary(
    hits: int, visitors: int,
    hitsIncrease: int, hitsPercent: real,
    visitorsIncrease: int, visitorsPercent: real)

  /** A missing row counts as zero. */
  function Hits(table: Table, day: string): int {
    if day in table then table[day].hits else 0
  }

  function Visitors(table: Table, day: string): int {
    if day in table then table[day].visitors else 0
  }

  /** `yesterday ? today - yesterday : today` and the matching percentage,
      100 when there is nothing to compare with. */
  function Change(today: int, yesterday: int): (r: (int, real))
    ensures yesterday != 0 ==> today == yesterday + r.0
    ensures yesterday == 0 ==> r == (today, 100.0)
    ensures yesterday != 0 ==> r.1 * (yesterday as real) == (r.0 * 100) as real
  {
    if yesterday != 0 then (today - yesterday, ((today - yesterday) as real / yesterday as real) * 100.0)
    else (today, 100.0)
  }

  /** `getSummary` (before `Math.round`). */
  function GetSummary(table: Table, today: string, yesterday: string): (r: Summary)
    ensures today !in table ==> r.hits == 0 && r.visitors == 0
    ensures today in table ==> r.hits == table[today].hits && r.visitors == table[today].visitors
    ensures (r.hitsIncrease, r.hitsPercent) == Change(r.hits, Hits(table, yesterday))
    ensures (r.visitorsIncrease, r.visitorsPercent) == Change(r.visitors, Visitors(table, yesterday))
  {
    var h := Change(Hits(table, today), Hits(table, yesterday));
    var v := Change(Visitors(table, today), Visitors(table, yesterday));
    Summary(Hits(table, today), Visitors(table, today), h.0, h.1, v.0, v.1)
  }

  /** One more request today, tracked over an intact row, shows in the
      summary as one more hit and one more hit of increase, and as one more
      visitor exactly when the address is new today; yesterday's figures
      are untouched. */
  lemma TrackRaisesSummary(table: Table, today: string, yesterday: string, ip: string)
    requires today != yesterday
    requires today in table ==> Counted(table[today])
    ensures var a := GetSummary(table, today, yesterday);
            var b := GetSummary(Track(table, today, ip), today, yesterday);
            var seen := today in table && ip in table[today].ips.ips;
            && b.hits == a.hits + 1 && b.hitsIncrease == a.hitsIncrease + 1
            && b.visitors == a.visitors + (if seen then 0 else 1)
            && b.visitorsIncrease == a.visitorsIncrease + (if seen then 0 else 1)
  {
  }

  /** From no row, a day's requests show in the summary as one hit per
      request and one visitor per distinct address. */
  lemma SummaryOfDay(table: Table, today: string, yesterday: string, ips: seq<string>)
    requires today !in table && ips != []
    ensures var t := TrackAll(table, today, ips);
            && today in t && t[today].ips.IpArray?
            && GetSummary(t, today, yesterday).hits == |ips|
            && GetSummary(t, today, yesterday).visitors == |t[today].ips.ips|
            && Distinct(t[today].ips.ips) && (forall a :: a in t[today].ips.ips <==> a in ips)
  {
    TrackAllCounts(table, today, ips);
  }
}
