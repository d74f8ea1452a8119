/**
 * The shame ledger's names and `get_shame_stats`: which directory entries
 * are markers, what `create_shame_file` calls them, and the three values
 * derived from them (the count, the last marker's date text and the streak).
 */
module ShameStats {
  import opened Wrappers
  import opened Text
  import opened Dates

  const Prefix := "shame_"
  const Suffix := ".txt"

  /** `f.startswith("shame_") and f.endswith(".txt")`. */
  predicate IsShameName(f: string)
  {
    Prefix <= f && |f| >= |Suffix| && f[|f| - |Suffix|..] == Suffix
  }

  /** The file name `create_shame_file` writes for `d`. */
  function MarkerName(d: Date): string
    requires ValidDate(d)
  {
    Prefix + (IsoFormat(d) + Suffix)
  }

  /** The sentence `create_shame_file` writes into the marker for `d`. */
  function MarkerText(d: Date): string
    requires ValidDate(d)
  {
    "You failed your discipline on " + IsoFormat(d)
  }

  /** `name.replace("shame_", "").replace(".txt", "")`. */
  function ExtractDateText(name: string): string
  {
    RemoveAll(RemoveAll(name, Prefix), Suffix)
  }

  /** The filter keeps every marker name `create_shame_file` writes. */
  lemma MarkerNameKept(d: Date)
    requires ValidDate(d)
    ensures IsShameName(MarkerName(d))
  {
    var name := MarkerName(d);
    assert name[|name| - |Suffix|..] == Suffix;
  }

  /** A marker name is kept by the filter and gives back its date. */
  lemma MarkerNameRoundTrip(d: Date)
    requires ValidDate(d)
    ensures IsShameName(MarkerName(d))
    ensures ExtractDateText(MarkerName(d)) == IsoFormat(d)
    ensures ParseIsoDate(ExtractDateText(MarkerName(d))) == Some(d)
  {
    var iso := IsoFormat(d);
    MarkerNameKept(d);
    assert forall i :: 0 <= i < |iso| ==> iso[i] != 's' && iso[i] != '.' by {
      ParseIsoFormat(d);
    }
    RemoveAllLeading(Prefix, iso + Suffix);
    RemoveAllAbsent(iso + Suffix, Prefix);
    RemoveAllTrailing(iso, Suffix);
    ParseIsoFormat(d);
  }

  /** Marker names sort exactly as their dates do. */
  lemma MarkerOrder(d: Date, e: Date)
    requires ValidDate(d) && ValidDate(e)
    ensures LexLe(MarkerName(d), MarkerName(e)) <==> Ordinal(d) <= Ordinal(e)
  {
    LexLeCommonPrefix(Prefix, IsoFormat(d) + Suffix, IsoFormat(e) + Suffix);
    IsoOrder(d, e);
    if IsoFormat(d) != IsoFormat(e) {
      LexLeSameLength(IsoFormat(d), IsoFormat(e), Suffix, Suffix);
    } else {
      LexLeReflexive(MarkerName(d));
      ParseIsoFormat(d);
      ParseIsoFormat(e);
    }
  }

  // ---------------------------------------------------------------------
  // The statistics
  // ---------------------------------------------------------------------

  /** `last_shame`: the "Never" sentinel or a marker's date text. */
  datatype LastShame = Never | On(text: string)

  /** `streak`: the "Perfect Discipline!" sentinel or a number of days. */
  datatype Streak = PerfectDiscipline | Days(days: int)

  datatype Stats = Stats(total: nat, lastShame: LastShame, streak: Streak)

  /** `strptime` raised ValueError on the last marker's date text. */
  datatype StatsError = UnparsableDate(text: string)

  predicate Distinct(s: seq<string>)
  {
    forall i, j :: 0 <= i < j < |s| ==> s[i] != s[j]
  }

  /** The generator's filter: the marker names of a listing, in listing order. */
  function KeepShameNames(names: seq<string>): (kept: seq<string>)
    ensures forall x :: x in kept <==> x in names && IsShameName(x)
    ensures |kept| <= |names|
  {
    if names == [] then []
    else (if IsShameName(names[0]) then [names[0]] else []) + KeepShameNames(names[1..])
  }

  lemma {:induction false} KeepShameNamesDistinct(names: seq<string>)
    requires Distinct(names)
    ensures Distinct(KeepShameNames(names))
  {
    if names != [] {
      KeepShameNamesDistinct(names[1..]);
    }
  }

  lemma {:induction false} KeepShameNamesAppend(a: seq<string>, b: seq<string>)
    ensures KeepShameNames(a + b) == KeepShameNames(a) + KeepShameNames(b)
  {
    if a != [] {
      assert (a + b)[0] == a[0];
      assert (a + b)[1..] == a[1..] + b;
      KeepShameNamesAppend(a[1..], b);
    } else {
      assert a + b == b;
    }
  }

  lemma {:induction false} KeepShameNamesNone(names: seq<string>)
    requires forall x :: x in names ==> !IsShameName(x)
    ensures KeepShameNames(names) == []
  {
    if names != [] {
      KeepShameNamesNone(names[1..]);
    }
  }

  predicate SortedNames(s: seq<string>)
  {
    forall i, j :: 0 <= i < j < |s| ==> LexLe(s[i], s[j])
  }

  function Insert(x: string, s: seq<string>): seq<string>
  {
    if s == [] then [x]
    else if LexLe(x, s[0]) then [x] + s
    else [s[0]] + Insert(x, s[1..])
  }

  /** `sorted(...)` on str values. */
  function SortNames(s: seq<string>): seq<string>
  {
    if s == [] then [] else Insert(s[0], SortNames(s[1..]))
  }

  lemma {:induction false} InsertElements(x: string, s: seq<string>)
    ensures multiset(Insert(x, s)) == multiset(s) + multiset{x}
  {
    if s != [] && !LexLe(x, s[0]) {
      InsertElements(x, s[1..]);
      assert s == [s[0]] + s[1..];
    }
  }

  /** Every element after the head of a sorted sequence is at least the head. */
  lemma HeadIsLeast(s: seq<string>, y: string)
    requires SortedNames(s) && s != [] && y in s
    ensures LexLe(s[0], y)
  {
    var k :| 0 <= k < |s| && s[k] == y;
    if k == 0 {
      LexLeReflexive(y);
    }
  }

  lemma {:induction false} InsertSorted(x: string, s: seq<string>)
    requires SortedNames(s)
    ensures SortedNames(Insert(x, s))
  {
    if s == [] {
    } else if LexLe(x, s[0]) {
      var r := [x] + s;
      forall i, j | 0 <= i < j < |r| ensures LexLe(r[i], r[j]) {
        if i == 0 && j > 1 {
          LexLeTransitive(x, s[0], s[j - 1]);
        }
      }
    } else {
      LexLeTotal(x, s[0]);
      InsertSorted(x, s[1..]);
      InsertElements(x, s[1..]);
      var t := Insert(x, s[1..]);
      forall y | y in t ensures LexLe(s[0], y) {
        assert y in multiset(t);
        if y != x {
          assert y in multiset(s[1..]);
          HeadIsLeast(s, y);
        }
      }
      var r := [s[0]] + t;
      forall i, j | 0 <= i < j < |r| ensures LexLe(r[i], r[j]) {
        if i == 0 {
          assert r[j] == t[j - 1] && r[j] in t;
        } else {
          assert r[i] == t[i - 1] && r[j] == t[j - 1];
        }
      }
    }
  }

  /** `sorted` returns the same names, in order. */
  lemma {:induction false} SortNamesCorrect(s: seq<string>)
    ensures SortedNames(SortNames(s))
    ensures multiset(SortNames(s)) == multiset(s)
  {
    if s != [] {
      SortNamesCorrect(s[1..]);
      InsertSorted(s[0], SortNames(s[1..]));
      InsertElements(s[0], SortNames(s[1..]));
      assert s == [s[0]] + s[1..];
    }
  }

  /**
   * What `get_shame_stats` returns once it has its listing and its names:
   * `total` marker names, the greatest of them if any, and the streak
   * from `today`, or the ValueError of `strptime`.
   */
  function StatsFrom(total: nat, greatest: Option<string>, today: Date): Result<Stats, StatsError>
    requires ValidDate(today)
  {
    match greatest
    case None => Ok(Stats(total, Never, PerfectDiscipline))
    case Some(name) =>
      var lastShame := ExtractDateText(name);
      match ParseIsoDate(lastShame)
      case None => Err(UnparsableDate(lastShame))
      case Some(lastDate) => Ok(Stats(total, On(lastShame), Days(Ordinal(today) - Ordinal(lastDate))))
  }

  /** The statistics once the greatest name's date text has parsed. */
  lemma StatsFromParsed(total: nat, name: string, lastDate: Date, today: Date)
    requires ValidDate(today)
    requires ParseIsoDate(ExtractDateText(name)) == Some(lastDate)
    ensures StatsFrom(total, Some(name), today)
            == Ok(Stats(total, On(ExtractDateText(name)), Days(Ordinal(today) - Ordinal(lastDate))))
  {
  }

  /** `get_shame_stats` over the entries `os.listdir` returned. */
  function StatsOfListing(listing: seq<string>, today: Date): Result<Stats, StatsError>
    requires ValidDate(today)
  {
    var shameFiles := SortNames(KeepShameNames(listing));
    StatsFrom(|shameFiles|, if shameFiles == [] then None else Some(shameFiles[|shameFiles| - 1]), today)
  }

  // ---------------------------------------------------------------------
  // The same statistics, stated over the ledger's set of names
  // ---------------------------------------------------------------------

  ghost function ShameNames(names: set<string>): set<string>
  {
    set x | x in names && IsShameName(x)
  }

  /** The lexicographically greatest name of a non-empty set. */
  ghost function Greatest(names: set<string>): (m: string)
    requires names != {}
    ensures m in names && forall x :: x in names ==> LexLe(x, m)
    decreases names
  {
    var x :| x in names;
    if names == {x} then
      LexLeReflexive(x);
      x
    else
      var m := Greatest(names - {x});
      if LexLe(x, m) then
        LexLeReflexive(m);
        m
      else
        LexLeTotal(x, m);
        UpperBoundRaised(names - {x}, m, x);
        LexLeReflexive(x);
        x
  }

  lemma UpperBoundRaised(names: set<string>, m: string, x: string)
    requires forall y :: y in names ==> LexLe(y, m)
    requires LexLe(m, x)
    ensures forall y :: y in names ==> LexLe(y, x)
  {
    forall y | y in names ensures LexLe(y, x) {
      LexLeTransitive(y, m, x);
    }
  }

  /** The statistics stated over the set of names: the count and the greatest marker name. */
  ghost function LedgerStats(names: set<string>, today: Date): Result<Stats, StatsError>
    requires ValidDate(today)
  {
    var markers := ShameNames(names);
    StatsFrom(|markers|, if markers == {} then None else Some(Greatest(markers)), today)
  }

  lemma {:induction false} DistinctCardinality(s: seq<string>)
    requires Distinct(s)
    ensures |set x | x in s| == |s|
  {
    if s != [] {
      DistinctCardinality(s[1..]);
      assert (set x | x in s) == {s[0]} + (set x | x in s[1..]);
      assert s[0] !in (set x | x in s[1..]);
    }
  }

  /**
   * However `os.listdir` orders the directory, `get_shame_stats` counts the
   * marker names and takes the greatest of them: no other entry and no
   * order affects what it returns.
   */
  lemma StatsOfListingIsLedgerStats(listing: seq<string>, today: Date)
    requires ValidDate(today) && Distinct(listing)
    ensures StatsOfListing(listing, today) == LedgerStats((set x | x in listing), today)
  {
    var kept := KeepShameNames(listing);
    var sorted := SortNames(kept);
    var markers := ShameNames(set x | x in listing);
    SortNamesCorrect(kept);
    KeepShameNamesDistinct(listing);
    DistinctCardinality(kept);
    assert (set x | x in kept) == markers;
    assert |sorted| == |multiset(sorted)| == |multiset(kept)| == |kept|;
    if sorted != [] {
      var last := sorted[|sorted| - 1];
      assert last in multiset(kept);
      forall x | x in markers ensures LexLe(x, last) {
        assert x in multiset(sorted);
        var i :| 0 <= i < |sorted| && sorted[i] == x;
        if i == |sorted| - 1 {
          LexLeReflexive(x);
        }
      }
      LexLeAntisymmetric(last, Greatest(markers));
    }
  }

  /** Two listings of the same directory give the same statistics. */
  lemma StatsIgnoreListingOrder(a: seq<string>, b: seq<string>, today: Date)
    requires ValidDate(today) && Distinct(a) && Distinct(b)
    requires forall x :: x in a <==> x in b
    ensures StatsOfListing(a, today) == StatsOfListing(b, today)
  {
    StatsOfListingIsLedgerStats(a, today);
    StatsOfListingIsLedgerStats(b, today);
    assert (set x | x in a) == (set x | x in b);
  }

  /** Entries that are not marker names change nothing. */
  lemma StatsIgnoreOtherNames(listing: seq<string>, others: seq<string>, today: Date)
    requires ValidDate(today)
    requires forall x :: x in others ==> !IsShameName(x)
    ensures StatsOfListing(listing + others, today) == StatsOfListing(listing, today)
  {
    KeepShameNamesAppend(listing, others);
    KeepShameNamesNone(others);
    assert KeepShameNames(listing) + [] == KeepShameNames(listing);
  }

  /**
   * When every marker name is one `create_shame_file` built, the last
   * shame is the chronologically latest marker date and the streak counts
   * the days from it to today.
   */
  lemma LatestMarkerStats(names: set<string>, latest: Date, today: Date)
    requires ValidDate(today) && ValidDate(latest)
    requires MarkerName(latest) in names
    requires forall x :: x in names && IsShameName(x) ==>
               exists d :: ValidDate(d) && x == MarkerName(d) && Ordinal(d) <= Ordinal(latest)
    ensures LedgerStats(names, today)
            == Ok(Stats(|ShameNames(names)|, On(IsoFormat(latest)), Days(Ordinal(today) - Ordinal(latest))))
  {
    var markers := ShameNames(names);
    assert MarkerName(latest) in markers by {
      MarkerNameKept(latest);
    }
    var g := Greatest(markers);
    assert g == MarkerName(latest) by {
      var d :| ValidDate(d) && g == MarkerName(d) && Ordinal(d) <= Ordinal(latest);
      MarkerOrder(d, latest);
      LexLeAntisymmetric(g, MarkerName(latest));
    }
    assert ParseIsoDate(ExtractDateText(g)) == Some(latest) && ExtractDateText(g) == IsoFormat(latest) by {
      MarkerNameRoundTrip(latest);
    }
    StatsFromParsed(|markers|, g, latest, today);
  }
}
