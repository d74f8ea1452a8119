/**
 * The run itself: the shame folder and the README as the state of a
 * repository, the operations of the script on them, and what one daily
 * run does to that state.
 */
module WallOfShame {
  import opened Wrappers
  import opened Dates
  import opened Contributions
  import opened ShameStats
  import opened Report
  import opened Text

  /** The files the script owns: the `shames` folder (name to content) and `README.md`. */
  class Repository {
    var shames: map<string, string>
    var readme: string

    constructor (shames: map<string, string>, readme: string)
      ensures this.shames == shames && this.readme == readme
    {
      this.shames := shames;
      this.readme := readme;
    }

    /** `create_shame_file`: writes today's marker, replacing a file of that name. */
    method CreateShameFile(today: Date)
      requires ValidDate(today)
      modifies this
      ensures shames == old(shames)[MarkerName(today) := MarkerText(today)]
      ensures readme == old(readme)
    {
      shames := shames[MarkerName(today) := MarkerText(today)];
    }

    /** `os.listdir` of the folder: every entry once, in no particular order. */
    method ListShames() returns (names: seq<string>)
      ensures Distinct(names)
      ensures forall x :: x in names <==> x in shames
    {
      names := [];
      var rest := shames.Keys;
      while rest != {}
        invariant rest <= shames.Keys
        invariant Distinct(names)
        invariant forall x :: x in names <==> x in shames && x !in rest
        decreases rest
      {
        var x :| x in rest;
        names := names + [x];
        rest := rest - {x};
      }
    }

    /** `get_shame_stats` on the folder as it is now. */
    method GetShameStats(today: Date) returns (stats: Result<Stats, StatsError>)
      requires ValidDate(today)
      ensures stats == LedgerStats(shames.Keys, today)
    {
      var names := ListShames();
      stats := StatsOfListing(names, today);
      StatsOfListingIsLedgerStats(names, today);
      assert (set x | x in names) == shames.Keys;
    }

    /** `update_readme`: replaces the whole README with the rendered template. */
    method UpdateReadme(stats: Stats)
      modifies this
      ensures readme == Render(stats)
      ensures shames == old(shames)
    {
      readme := Render(stats);
    }

    /**
     * `main`: one run on `today`, with the GraphQL answer `response`. A day
     * without a contribution adds today's marker; the statistics are then
     * recomputed from the folder and written to the README. When `strptime`
     * rejects the last marker the run stops with that error before the
     * README is written.
     */
    method Run(response: Response, today: Date) returns (outcome: Result<Stats, StatsError>)
      requires ValidDate(today)
      modifies this
      ensures shames == LedgerAfterCheck(old(shames), ContributedToday(response, today), today)
      ensures outcome == LedgerStats(shames.Keys, today)
      ensures readme == if outcome.Ok? then Render(outcome.value) else old(readme)
    {
      var contributed := HasContributedToday(response, today);
      if !contributed {
        CreateShameFile(today);
      }
      outcome := GetShameStats(today);
      if outcome.Ok? {
        UpdateReadme(outcome.value);
      }
    }
  }

  /** The folder after the check answered `contributed`. */
  function LedgerAfterCheck(shames: map<string, string>, contributed: bool, today: Date): map<string, string>
    requires ValidDate(today)
  {
    if contributed then shames else shames[MarkerName(today) := MarkerText(today)]
  }

  /**
   * A run only ever adds today's marker: a day with a contribution leaves
   * the folder as it is, nothing is removed or rewritten otherwise, the
   * folder grows by one entry exactly when the check failed and no marker
   * for today existed, and re-running on the same day leaves the folder as
   * it was.
   */
  lemma LedgerGrowsByAtMostOne(shames: map<string, string>, contributed: bool, today: Date)
    requires ValidDate(today)
    ensures var after := LedgerAfterCheck(shames, contributed, today);
      && (contributed ==> after == shames)
      && shames.Keys <= after.Keys
      && (forall x :: x in shames && x != MarkerName(today) ==> after[x] == shames[x])
      && (!contributed ==> MarkerName(today) in after && after[MarkerName(today)] == MarkerText(today))
      && |after.Keys| == |shames.Keys| + (if contributed || MarkerName(today) in shames then 0 else 1)
      && (!contributed ==> LedgerAfterCheck(after, false, today) == after)
  {
    var after := LedgerAfterCheck(shames, contributed, today);
    if !contributed {
      if MarkerName(today) in shames {
        assert after.Keys == shames.Keys;
      } else {
        assert after.Keys == shames.Keys + {MarkerName(today)};
      }
    }
  }

  /** The `total` shown after a run: one more exactly when a new marker was written. */
  lemma TotalAfterCheck(shames: map<string, string>, contributed: bool, today: Date)
    requires ValidDate(today)
    ensures |ShameNames(LedgerAfterCheck(shames, contributed, today).Keys)|
            == |ShameNames(shames.Keys)| + (if contributed || MarkerName(today) in shames then 0 else 1)
  {
    var after := LedgerAfterCheck(shames, contributed, today);
    MarkerNameRoundTrip(today);
    if !contributed && MarkerName(today) !in shames {
      assert ShameNames(after.Keys) == ShameNames(shames.Keys) + {MarkerName(today)};
    } else {
      assert after.Keys == shames.Keys;
    }
  }

  /** Every marker name in the folder is one written on a day no later than `today`. */
  ghost predicate MarkersUpTo(names: set<string>, today: Date)
    requires ValidDate(today)
  {
    forall x :: x in names && IsShameName(x) ==>
      exists d :: ValidDate(d) && x == MarkerName(d) && Ordinal(d) <= Ordinal(today)
  }

  /** Daily runs on non-decreasing dates keep every marker a written one, dated no later than the run. */
  lemma MarkersUpToPreserved(shames: map<string, string>, contributed: bool, yesterday: Date, today: Date)
    requires ValidDate(yesterday) && ValidDate(today) && Ordinal(yesterday) <= Ordinal(today)
    requires MarkersUpTo(shames.Keys, yesterday)
    ensures MarkersUpTo(LedgerAfterCheck(shames, contributed, today).Keys, today)
  {
    var after := LedgerAfterCheck(shames, contributed, today);
    forall x | x in after.Keys && IsShameName(x)
      ensures exists d :: ValidDate(d) && x == MarkerName(d) && Ordinal(d) <= Ordinal(today)
    {
      if x == MarkerName(today) {
        assert ValidDate(today) && x == MarkerName(today);
      } else {
        assert x in shames.Keys;
      }
    }
  }

  /**
   * On a day without a contribution, in a folder holding only written
   * markers up to today, the README reports today as the last shame and a
   * streak of zero days.
   */
  lemma ShameDayStats(shames: map<string, string>, today: Date)
    requires ValidDate(today)
    requires MarkersUpTo(shames.Keys, today)
    ensures var after := LedgerAfterCheck(shames, false, today);
      LedgerStats(after.Keys, today) == Ok(Stats(|ShameNames(after.Keys)|, On(IsoFormat(today)), Days(0)))
  {
    MarkersUpToPreserved(shames, false, today, today);
    LatestMarkerStats(LedgerAfterCheck(shames, false, today).Keys, today, today);
  }

  /** The README a run writes reads back as exactly the statistics it computed. */
  lemma ReadmeCarriesStats(names: set<string>, today: Date)
    requires ValidDate(today)
    requires LedgerStats(names, today).Ok?
    ensures ReadReport(Render(LedgerStats(names, today).value)) == Some(LedgerStats(names, today).value)
  {
    var markers := ShameNames(names);
    StatsAreDisplayable(|markers|, if markers == {} then None else Some(Greatest(markers)), today);
    ReportRoundTrip(LedgerStats(names, today).value);
  }

  lemma IsoOfJanuaryThird()
    ensures IsoFormat(Date(2024, 1, 3)) == "2024-01-03"
  {
    assert Pad(2024, 4) == "2024";
    assert Pad(1, 2) == "01";
    assert Pad(3, 2) == "03";
  }

  /** A folder holding exactly two markers reports the later one. */
  lemma TwoMarkersStats(first: Date, last: Date, today: Date)
    requires ValidDate(first) && ValidDate(last) && ValidDate(today)
    requires Ordinal(first) < Ordinal(last)
    ensures var shames := map[MarkerName(first) := MarkerText(first), MarkerName(last) := MarkerText(last)];
            LedgerStats(shames.Keys, today) == Ok(Stats(2, On(IsoFormat(last)), Days(Ordinal(today) - Ordinal(last))))
  {
    var a, b := MarkerName(first), MarkerName(last);
    var shames := map[a := MarkerText(first), b := MarkerText(last)];
    assert a != b by {
      MarkerOrder(last, first);
      LexLeReflexive(a);
    }
    assert shames.Keys == {a, b};
    assert ShameNames({a, b}) == {a, b} by {
      MarkerNameKept(first);
      MarkerNameKept(last);
    }
    assert MarkersUpTo({a, b}, last) by {
      assert ValidDate(first) && a == MarkerName(first) && Ordinal(first) <= Ordinal(last);
      assert ValidDate(last) && b == MarkerName(last) && Ordinal(last) <= Ordinal(last);
    }
    assert |{a, b}| == 2;
    assert LedgerStats({a, b}, today) == Ok(Stats(2, On(IsoFormat(last)), Days(Ordinal(today) - Ordinal(last)))) by {
      LatestMarkerStats({a, b}, last, today);
    }
  }

  /**
   * Markers for 2024-01-01 and 2024-01-03, a contribution found on
   * 2024-01-10: the folder keeps its two markers and the README shows
   * 2 days, last shame 2024-01-03 and a streak of 7.
   */
  lemma ContributionAfterTwoShames()
    ensures var shames := map[MarkerName(Date(2024, 1, 1)) := MarkerText(Date(2024, 1, 1)),
                              MarkerName(Date(2024, 1, 3)) := MarkerText(Date(2024, 1, 3))];
            var after := LedgerAfterCheck(shames, true, Date(2024, 1, 10));
            && after == shames
            && LedgerStats(after.Keys, Date(2024, 1, 10)) == Ok(Stats(2, On("2024-01-03"), Days(7)))
  {
    var first, last, today := Date(2024, 1, 1), Date(2024, 1, 3), Date(2024, 1, 10);
    assert Ordinal(first) + 2 == Ordinal(last) && Ordinal(last) + 7 == Ordinal(today);
    TwoMarkersStats(first, last, today);
    IsoOfJanuaryThird();
  }
}
