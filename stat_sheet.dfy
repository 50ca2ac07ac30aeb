/**
 * The statistics sheet: the overall assessment, the topic, mode and history
 * tables with their colour bands, cell truncation and padding, the
 * strongest/weakest and most-used selections, and the time estimate.  The
 * statistics are the records the database hands back; colours are bands and
 * `toFixed` rendering of rates is not modelled.
 */
module StatSheet {
  import opened Wrappers
  import opened Text
  import opened Numbers
  import SelectionMenu
  import ProfileManager

  datatype Overall = Overall(totalAttempted: nat, totalCorrect: nat, successRate: real)
  datatype TopicStat = TopicStat(topicName: string, attempted: nat, correct: nat, successRate: real)
  datatype ModeStat = ModeStat(modeName: string, attempted: nat, correct: nat, successRate: real)
  /** One history entry; `month` counts from 0 as `getMonth` does. */
  datatype Session = Session(topicName: string, modeName: string, attempted: nat, correct: nat,
                             avgScore: real, year: nat, month: nat, day: nat)

  /** What `getStatistics` returns; the overall record may be missing. */
  datatype Stats = Stats(overall: Option<Overall>, topicStats: seq<TopicStat>,
                         modeStats: seq<ModeStat>, detailedStats: seq<Session>)

  // ---------------------------------------------------------------------
  // Overall statistics

  datatype OverallView = NoStatistics | Assessment(attempted: nat, correct: nat, tier: Tier)

  function OverallViewOf(overall: Option<Overall>): (v: OverallView)
    ensures v.NoStatistics? <==> overall.None? || overall.value.totalAttempted == 0
  {
    match overall
    case None => NoStatistics
    case Some(o) =>
      if o.totalAttempted == 0 then NoStatistics
      else Assessment(o.totalAttempted, o.totalCorrect, TierOf(Finite(o.successRate)))
  }

  function AssessmentText(t: Tier): string
  {
    match t
    case Outstanding => "Outstanding performance! Keep up the great work!"
    case Great => "Good performance! You're doing well."
    case Decent => "Average performance. Room for improvement."
    case NeedsWork => "Below average performance. More practice needed."
  }

  /** With some attempts recorded, exactly one assessment applies, by the
      success rate against 90, 75 and 60. */
  lemma OverallAssessment(o: Overall)
    requires o.totalAttempted > 0
    ensures var v := OverallViewOf(Some(o));
            v.Assessment? && v.attempted == o.totalAttempted &&
            (v.tier == Outstanding <==> o.successRate >= 90.0) &&
            (v.tier == Great <==> 75.0 <= o.successRate < 90.0) &&
            (v.tier == Decent <==> 60.0 <= o.successRate < 75.0) &&
            (v.tier == NeedsWork <==> o.successRate < 60.0)
  {
  }

  // ---------------------------------------------------------------------
  // Table cells

  /** `s.substring(0, keep).padEnd(width)` */
  function Cell(s: string, keep: nat, width: nat): string
  {
    PadEnd(Take(s, keep), width)
  }

  /** A cell narrower than its width is exactly `width` long: the first `keep`
      characters (or all of a shorter text), then spaces. */
  lemma CellShape(s: string, keep: nat, width: nat)
    requires keep < width
    ensures var c := Cell(s, keep, width);
            var n := if |s| < keep then |s| else keep;
            |c| == width && c[..n] == s[..n] && forall k :: n <= k < width ==> c[k] == ' '
  {
  }

  /** The band colouring a rate: the same in all three tables. */
  function RateBand(rate: real): (b: Band)
    ensures b == Green <==> rate >= 80.0
    ensures b == Yellow <==> 60.0 <= rate < 80.0
    ensures b == Red <==> rate < 60.0
  {
    BandOf(Finite(rate))
  }

  /** A table row without its rate: name, attempted and correct columns. */
  function CountsRow(name: string, attempted: nat, correct: nat): string
  {
    Cell(name, 18, 20) + PadEnd(Decimal(attempted), 15) + PadEnd(Decimal(correct), 15)
  }

  /** The name column takes the first 20 characters of a row and holds at most
      18 characters of the name; the attempted count follows it. */
  lemma RowColumns(name: string, attempted: nat, correct: nat)
    ensures var row := CountsRow(name, attempted, correct);
            |row| >= 20 && row[..20] == Cell(name, 18, 20) &&
            row[20..20 + |Decimal(attempted)|] == Decimal(attempted)
  {
    var c := Cell(name, 18, 20);
    var d := Decimal(attempted);
    var first := PadEnd(d, 15);
    var rest := first + PadEnd(Decimal(correct), 15);
    var row := c + rest;
    assert |c| == 20;
    assert row[..20] == c;
    assert row[20..20 + |d|] == rest[..|d|];
    assert rest[..|d|] == first[..|d|];
  }

  // ---------------------------------------------------------------------
  // Topic statistics

  datatype TableRow = TableRow(text: string, band: Band)

  datatype TopicView = NoTopics | TopicTable(rows: seq<TableRow>, analysis: Option<(TopicStat, TopicStat)>)

  /** Strongest and weakest: the first and the last entry, when there are two or more. */
  function AnalysisOf(stats: seq<TopicStat>): (r: Option<(TopicStat, TopicStat)>)
    ensures r.Some? <==> |stats| > 1
  {
    if |stats| > 1 then Some((stats[0], stats[|stats| - 1])) else None
  }

  function TopicViewOf(stats: seq<TopicStat>): TopicView
  {
    if stats == [] then NoTopics
    else
      TopicTable(seq(|stats|, i requires 0 <= i < |stats| =>
                   TableRow(CountsRow(stats[i].topicName, stats[i].attempted, stats[i].correct),
                            RateBand(stats[i].successRate))),
                 AnalysisOf(stats))
  }

  ghost predicate RateDescending(stats: seq<TopicStat>)
  {
    forall a, b :: 0 <= a < b < |stats| ==> stats[a].successRate >= stats[b].successRate
  }

  /** With the topics ordered by success rate, as the heading says, the
      strongest topic has the highest rate and the weakest the lowest. */
  lemma StrongestAndWeakest(stats: seq<TopicStat>)
    requires RateDescending(stats) && |stats| > 1
    ensures var (strong, weak) := AnalysisOf(stats).value;
            forall k :: 0 <= k < |stats| ==> weak.successRate <= stats[k].successRate <= strong.successRate
  {
  }

  // ---------------------------------------------------------------------
  // Mode statistics

  /** Highest `attempted` first. */
  predicate AttemptedDescending(s: seq<ModeStat>)
  {
    forall a, b :: 0 <= a < b < |s| ==> s[a].attempted >= s[b].attempted
  }

  /** The entries used exactly `a` times, in their order in `s`. */
  function WithCount(s: seq<ModeStat>, a: nat): (r: seq<ModeStat>)
    ensures |r| <= |s|
    ensures forall k :: 0 <= k < |r| ==> r[k].attempted == a
  {
    if s == [] then []
    else WithCount(s[..|s| - 1], a) + if s[|s| - 1].attempted == a then [s[|s| - 1]] else []
  }

  /** `[...modeStats].sort((a, b) => b.attempted - a.attempted)`: a stable sort
      by attempted, highest first, built by insertion.  `SortKeepsTies` adds
      that entries used equally often keep their order. */
  function SortByAttempted(xs: seq<ModeStat>): (r: seq<ModeStat>)
    ensures |r| == |xs|
    ensures multiset(r) == multiset(xs)
    ensures AttemptedDescending(r)
  {
    if xs == [] then []
    else
      assert xs == xs[..|xs| - 1] + [xs[|xs| - 1]];
      InsertSorted(xs[|xs| - 1], SortByAttempted(xs[..|xs| - 1]));
      Insert(xs[|xs| - 1], SortByAttempted(xs[..|xs| - 1]))
  }

  /** Puts `x` after the last element that is used at least as much. */
  function Insert(x: ModeStat, s: seq<ModeStat>): (r: seq<ModeStat>)
    ensures |r| == |s| + 1
    ensures multiset(r) == multiset(s) + multiset{x}
  {
    if s == [] || s[|s| - 1].attempted >= x.attempted then s + [x]
    else
      assert s == s[..|s| - 1] + [s[|s| - 1]];
      Insert(x, s[..|s| - 1]) + [s[|s| - 1]]
  }

  /** Inserting into a sorted list keeps it sorted. */
  lemma {:induction false} InsertSorted(x: ModeStat, s: seq<ModeStat>)
    requires AttemptedDescending(s)
    ensures AttemptedDescending(Insert(x, s))
    decreases |s|
  {
    if s != [] && s[|s| - 1].attempted < x.attempted {
      var p := s[..|s| - 1];
      var last := s[|s| - 1];
      assert AttemptedDescending(p) by {
        forall a, b | 0 <= a < b < |p| ensures p[a].attempted >= p[b].attempted {
          assert p[a] == s[a] && p[b] == s[b];
        }
      }
      InsertSorted(x, p);
      var q := Insert(x, p);
      forall k | 0 <= k < |q| ensures q[k].attempted >= last.attempted {
        assert q[k] in multiset(q);
        if q[k] != x {
          assert q[k] in multiset(p);
          var j :| 0 <= j < |p| && p[j] == q[k];
          assert p[j] == s[j];
        }
      }
      assert Insert(x, s) == q + [last];
    }
  }

  /** Inserting `x` puts it after every entry used equally often. */
  lemma {:induction false} InsertKeepsTies(x: ModeStat, s: seq<ModeStat>, a: nat)
    ensures WithCount(Insert(x, s), a) == WithCount(s, a) + if x.attempted == a then [x] else []
    decreases |s|
  {
    if s == [] || s[|s| - 1].attempted >= x.attempted {
      assert (s + [x])[..|s|] == s;
    } else {
      var p := s[..|s| - 1];
      var last := s[|s| - 1];
      InsertKeepsTies(x, p, a);
      var q := Insert(x, p);
      assert (q + [last])[..|q|] == q;
      assert Insert(x, s) == q + [last];
    }
  }

  /** The sort is stable: the entries used exactly `a` times appear in the
      sorted copy in the order they had in the input. */
  lemma {:induction false} SortKeepsTies(xs: seq<ModeStat>, a: nat)
    ensures WithCount(SortByAttempted(xs), a) == WithCount(xs, a)
    decreases |xs|
  {
    if xs != [] {
      var p := xs[..|xs| - 1];
      SortKeepsTies(p, a);
      InsertKeepsTies(xs[|xs| - 1], SortByAttempted(p), a);
    }
  }

  predicate UsedAtLeast(s: seq<ModeStat>, a: nat)
  {
    exists k :: 0 <= k < |s| && s[k].attempted >= a
  }

  /** Inserting keeps the head unless `x` is used more than every element. */
  lemma {:induction false} InsertHead(x: ModeStat, s: seq<ModeStat>)
    ensures Insert(x, s)[0] == if UsedAtLeast(s, x.attempted) then s[0] else x
    decreases |s|
  {
    if s != [] && s[|s| - 1].attempted < x.attempted {
      var p := s[..|s| - 1];
      InsertHead(x, p);
      if UsedAtLeast(s, x.attempted) {
        var k :| 0 <= k < |s| && s[k].attempted >= x.attempted;
        assert k < |p| && p[k] == s[k];
      } else {
        assert !UsedAtLeast(p, x.attempted) by {
          forall k | 0 <= k < |p| ensures p[k].attempted < x.attempted {
            assert p[k] == s[k];
          }
        }
      }
    }
  }

  /** The earliest entry with the largest `attempted`. */
  function FirstMostUsed(xs: seq<ModeStat>): (i: nat)
    requires xs != []
    ensures i < |xs|
    ensures forall k :: 0 <= k < |xs| ==> xs[k].attempted <= xs[i].attempted
    ensures forall k :: 0 <= k < i ==> xs[k].attempted < xs[i].attempted
  {
    if |xs| == 1 then 0
    else
      var m := FirstMostUsed(xs[..|xs| - 1]);
      if xs[|xs| - 1].attempted > xs[m].attempted then |xs| - 1 else m
  }

  /** The head of the sorted copy is the earliest most-used entry. */
  lemma {:induction false} SortedHeadIsFirstMostUsed(xs: seq<ModeStat>)
    requires xs != []
    ensures SortByAttempted(xs)[0] == xs[FirstMostUsed(xs)]
    decreases |xs|
  {
    var n := |xs|;
    var x := xs[n - 1];
    var p := xs[..n - 1];
    var sp := SortByAttempted(p);
    assert SortByAttempted(xs) == Insert(x, sp);
    InsertHead(x, sp);
    if n > 1 {
      SortedHeadIsFirstMostUsed(p);
      var m := FirstMostUsed(p);
      assert xs[m] == p[m];
      if p[m].attempted >= x.attempted {
        assert UsedAtLeast(sp, x.attempted) by {
          assert p[m] in multiset(sp);
          var k :| 0 <= k < |sp| && sp[k] == p[m];
        }
        assert FirstMostUsed(xs) == m;
      } else {
        assert !UsedAtLeast(sp, x.attempted) by {
          forall k | 0 <= k < |sp| ensures sp[k].attempted < x.attempted {
            assert sp[k] in multiset(p);
          }
        }
        assert FirstMostUsed(xs) == n - 1;
      }
    }
  }

  datatype Insights = Insights(mostUsed: ModeStat, best: ModeStat)

  datatype ModeView = NoModes | ModeTable(rows: seq<TableRow>, insights: Option<Insights>)

  /** The insights: the most-used mode, and the first entry as the best. */
  function InsightsOf(stats: seq<ModeStat>): (r: Option<Insights>)
    ensures r.Some? <==> |stats| > 1
  {
    if |stats| > 1 then Some(Insights(SortByAttempted(stats)[0], stats[0])) else None
  }

  function ModeViewOf(stats: seq<ModeStat>): ModeView
  {
    if stats == [] then NoModes
    else
      ModeTable(seq(|stats|, i requires 0 <= i < |stats| =>
                  TableRow(CountsRow(stats[i].modeName, stats[i].attempted, stats[i].correct),
                           RateBand(stats[i].successRate))),
                InsightsOf(stats))
  }

  /** The most-used mode is used most, ties going to the earliest entry, and
      sorting a copy leaves the first entry as the best. */
  lemma MostUsedMode(stats: seq<ModeStat>)
    requires |stats| > 1
    ensures var ins := InsightsOf(stats).value;
            ins.best == stats[0] &&
            (exists i :: 0 <= i < |stats| && ins.mostUsed == stats[i] &&
               (forall k :: 0 <= k < |stats| ==> stats[k].attempted <= stats[i].attempted) &&
               (forall k :: 0 <= k < i ==> stats[k].attempted < stats[i].attempted))
  {
    SortedHeadIsFirstMostUsed(stats);
    var i := FirstMostUsed(stats);
    assert InsightsOf(stats).value.mostUsed == stats[i];
  }

  // ---------------------------------------------------------------------
  // Detailed history

  const RecentCount: nat := 10

  /** `detailedStats.slice(0, 10)` */
  function Recent(sessions: seq<Session>): (r: seq<Session>)
    ensures |r| == if |sessions| < RecentCount then |sessions| else RecentCount
    ensures r == sessions[..|r|]
  {
    if |sessions| < RecentCount then sessions else sessions[..RecentCount]
  }

  /** `detailedStats.reduce((sum, s) => sum + s.attempted, 0)` */
  function TotalAttempted(sessions: seq<Session>): nat
  {
    if sessions == [] then 0 else TotalAttempted(sessions[..|sessions| - 1]) + sessions[|sessions| - 1].attempted
  }

  /** The total splits over any cut of the list. */
  lemma {:induction false} TotalSplits(a: seq<Session>, b: seq<Session>)
    ensures TotalAttempted(a + b) == TotalAttempted(a) + TotalAttempted(b)
    decreases |b|
  {
    if b != [] {
      TotalSplits(a, b[..|b| - 1]);
      assert (a + b)[..|a + b| - 1] == a + b[..|b| - 1];
      assert (a + b)[|a + b| - 1] == b[|b| - 1];
    } else {
      assert a + b == a;
    }
  }

  /** The total covers every session, the listed ones and the rest. */
  lemma TotalCoversAll(sessions: seq<Session>)
    ensures TotalAttempted(sessions) ==
            TotalAttempted(Recent(sessions)) + TotalAttempted(sessions[|Recent(sessions)|..])
  {
    var r := Recent(sessions);
    TotalSplits(r, sessions[|r|..]);
    assert r + sessions[|r|..] == sessions;
  }

  /** `Math.round(t * 1.5)` for a whole number t. */
  function EstimatedMinutes(t: nat): (est: nat)
    ensures est as real - 0.5 <= 1.5 * t as real < est as real + 0.5
  {
    (3 * t + 1) / 2
  }

  /** The estimate as hours and minutes: `Math.floor(est / 60)` and `est % 60`. */
  function HoursAndMinutes(est: nat): (hm: (nat, nat))
    ensures 60 * hm.0 + hm.1 == est && hm.1 < 60
  {
    (est / 60, est % 60)
  }

  /** The date column: year, then month and day padded to two digits. */
  function DateText(year: nat, month: nat, day: nat): string
  {
    Decimal(year) + "-" + TwoDigits(month + 1) + "-" + TwoDigits(day)
  }

  /** `n.toString().padStart(2, "0")` */
  function TwoDigits(n: nat): string
  {
    PadStart(Decimal(n), 2, '0')
  }

  /** Months and days are two digits wide and read back as their values. */
  lemma TwoDigitsReadBack(n: nat)
    requires n < 100
    ensures var s := TwoDigits(n);
            |s| == 2 && (forall k :: 0 <= k < 2 ==> IsDigit(s[k])) && DigitsValue(s) == n
  {
    var d := Decimal(n);
    DecimalValue(n);
    if |d| < 2 {
      LeadingZerosValue(2 - |d|, d);
    }
  }

  /** The history row without its score column. */
  function SessionRow(s: Session): string
  {
    Cell(s.topicName, 13, 15) + Cell(s.modeName, 13, 15) + PadEnd(Decimal(s.attempted), 10)
    + PadEnd(Decimal(s.correct), 10)
  }

  datatype HistoryView =
    | NoHistory
    | HistoryTable(rows: seq<TableRow>, dates: seq<string>, combinations: nat,
                   estimate: nat, hours: nat, minutes: nat)

  function HistoryViewOf(sessions: seq<Session>): HistoryView
  {
    if sessions == [] then NoHistory
    else
      var recent := Recent(sessions);
      var est := EstimatedMinutes(TotalAttempted(sessions));
      HistoryTable(seq(|recent|, i requires 0 <= i < |recent| =>
                     TableRow(SessionRow(recent[i]), RateBand(recent[i].avgScore))),
                   seq(|recent|, i requires 0 <= i < |recent| =>
                     DateText(recent[i].year, recent[i].month, recent[i].day)),
                   |sessions|, est, HoursAndMinutes(est).0, HoursAndMinutes(est).1)
  }

  /** At most ten rows are listed, the first ones, while the combination count
      and the time estimate cover every session. */
  lemma HistorySummary(sessions: seq<Session>)
    requires sessions != []
    ensures var v := HistoryViewOf(sessions);
            |v.rows| <= RecentCount && |v.rows| == |Recent(sessions)| &&
            (forall i :: 0 <= i < |v.rows| ==> v.rows[i].text == SessionRow(sessions[i])) &&
            v.combinations == |sessions| &&
            v.estimate == EstimatedMinutes(TotalAttempted(sessions)) &&
            60 * v.hours + v.minutes == v.estimate && v.minutes < 60
  {
  }

  // ---------------------------------------------------------------------
  // The sheet

  datatype Page = OverallPage(overall: OverallView) | TopicPage(topics: TopicView)
                | ModePage(modes: ModeView) | HistoryPage(history: HistoryView)

  const StatOptions: seq<string> :=
    ["Back to Main Menu", "Overall Statistics", "Topic-wise Statistics", "Mode-wise Statistics", "Detailed History"]

  /** The page for menu answer 1 to 4. */
  function PageOf(stats: Stats, idx: int): Page
    requires 1 <= idx <= 4
  {
    if idx == 1 then OverallPage(OverallViewOf(stats.overall))
    else if idx == 2 then TopicPage(TopicViewOf(stats.topicStats))
    else if idx == 3 then ModePage(ModeViewOf(stats.modeStats))
    else HistoryPage(HistoryViewOf(stats.detailedStats))
  }

  /** The pages shown for a run of menu visits, each given by its keys; the
      sheet closes on the first answer of 0 or -1, or when a visit does not end
      with an answer; an answer without a page shows the menu again. */
  function Pages(stats: Stats, visits: seq<seq<SelectionMenu.Key>>): seq<Page>
    decreases |visits|
  {
    if visits == [] then []
    else
      match SelectionMenu.Navigate(|StatOptions|, 0, visits[0])
      case Chosen(i) =>
        if i == -1 || i == 0 then []
        else if 1 <= i <= 4 then [PageOf(stats, i)] + Pages(stats, visits[1..])
        else Pages(stats, visits[1..])
      case _ => []
  }

  /** `StatSheet`: None when the user is unknown. */
  method ShowStatSheet(users: seq<ProfileManager.User>, userId: int, stats: Stats,
                       visits: seq<seq<SelectionMenu.Key>>)
    returns (pages: Option<seq<Page>>)
    ensures ProfileManager.FindById(users, userId).None? ==> pages.None?
    ensures ProfileManager.FindById(users, userId).Some? ==> pages == Some(Pages(stats, visits))
  {
    var currentUser := ProfileManager.FindById(users, userId);
    if currentUser.None? {
      pages := None;
      return;
    }
    var shown := [];
    var i := 0;
    while i < |visits|
      invariant 0 <= i <= |visits|
      invariant Pages(stats, visits) == shown + Pages(stats, visits[i..])
    {
      assert visits[i..][0] == visits[i] && visits[i..][1..] == visits[i + 1..];
      var selected, _ := SelectionMenu.DisplaySelectionMenu(StatOptions, "Select statistics to view:", 0, visits[i]);
      if !selected.Chosen? || selected.index == -1 || selected.index == 0 {
        assert Pages(stats, visits[i..]) == [];
        assert shown + [] == shown;
        pages := Some(shown);
        return;
      }
      if 1 <= selected.index <= 4 {
        shown := shown + [PageOf(stats, selected.index)];
      }
      i := i + 1;
    }
    assert visits[i..] == [] && shown + [] == shown;
    pages := Some(shown);
  }

  /** The menu starts at 0, so the -1 exit is unreachable and every answer is an
      index of the five options. */
  lemma StatMenuNeverCancels(keys: seq<SelectionMenu.Key>)
    ensures SelectionMenu.Navigate(|StatOptions|, 0, keys) != SelectionMenu.Chosen(-1)
    ensures var m := SelectionMenu.Navigate(|StatOptions|, 0, keys);
            m.Chosen? ==> 0 <= m.index < |StatOptions|
  {
    SelectionMenu.StartAtZeroNeverCancels(|StatOptions|, keys);
    SelectionMenu.InRangeStays(|StatOptions|, 0, keys);
  }
}
