/**
 * `update_readme`: the fixed Markdown template with the three statistics
 * embedded in bold, and a reader that takes them back out of the text.
 */
module Report {
  import opened Wrappers
  import opened Text
  import opened ShameStats

  const Head := "# \U{1F9F1} Wall of Shame\n\nA repository that holds me accountable when I fail to push code daily.\n\n---\n\n## \U{1F614} Total Shameful Days: **"
  const LastShameLabel := "**\n## \U{1F5D3}\U{FE0F} Last Shame: **"
  const StreakLabel := "**\n## \U{1F525} Current Discipline Streak: **"
  const DaysUnit := " days"
  const Tail := "**" + "\n\n---\n\nIf you're reading this, I either:\n- Coded and pushed today \U{1F4AA}\n- Or... this repo is calling me out \U{1F624}\n"

  const NeverText := "Never"
  const PerfectDisciplineText := "\U{1F525} Perfect Discipline!"

  /** How `last_shame` is written: the sentinel string or the date text. */
  function LastShameText(l: LastShame): string
  {
    match l
    case Never => NeverText
    case On(t) => t
  }

  /** How `streak` is written: the sentinel string or `str` of the day count. */
  function StreakText(s: Streak): string
  {
    match s
    case PerfectDiscipline => PerfectDisciplineText
    case Days(n) => IntToString(n)
  }

  /** The template with its three bold fields filled in. */
  function Fill(total: string, lastShame: string, streak: string): string
  {
    Head + (total + (LastShameLabel + (lastShame + (StreakLabel + (streak + Tail)))))
  }

  /** The whole README that `update_readme` writes. */
  function Render(stats: Stats): string
  {
    Fill(NatToString(stats.total), LastShameText(stats.lastShame), StreakText(stats.streak) + DaysUnit)
  }

  // ---------------------------------------------------------------------
  // Reading the values back
  // ---------------------------------------------------------------------

  /** The position of the first `*` of `s`, or `|s|`. */
  function StarIndex(s: string): (i: nat)
    ensures i <= |s|
  {
    if s == [] || s[0] == '*' then 0 else 1 + StarIndex(s[1..])
  }

  lemma {:induction false} StarIndexAfter(f: string, t: string)
    requires '*' !in f && t != [] && t[0] == '*'
    ensures StarIndex(f + t) == |f|
  {
    if f == [] {
      assert f + t == t;
    } else {
      assert (f + t)[0] == f[0];
      assert (f + t)[1..] == f[1..] + t;
      StarIndexAfter(f[1..], t);
    }
  }

  /** The text up to the first `*`, provided `sep` stands there, and what follows `sep`. */
  function ReadField(s: string, sep: string): Option<(string, string)>
  {
    var i := StarIndex(s);
    if sep <= s[i..] then Some((s[..i], s[i + |sep|..])) else None
  }

  lemma ReadFieldOf(f: string, sep: string, rest: string)
    requires '*' !in f && sep != [] && sep[0] == '*'
    ensures ReadField(f + (sep + rest), sep) == Some((f, rest))
  {
    StarIndexAfter(f, sep + rest);
    var s := f + (sep + rest);
    assert s[..|f|] == f;
    assert s[|f|..] == sep + rest;
    assert s[|f| + |sep|..] == rest;
  }

  function ReadTotal(t: string): Option<nat>
  {
    match ParseInt(t)
    case Some(n) => if n >= 0 then Some(n) else None
    case None => None
  }

  function ReadLastShame(t: string): LastShame
  {
    if t == NeverText then Never else On(t)
  }

  function ReadStreak(t: string): Option<Streak>
  {
    if |t| < |DaysUnit| || t[|t| - |DaysUnit|..] != DaysUnit then None
    else
      var v := t[..|t| - |DaysUnit|];
      if v == PerfectDisciplineText then Some(PerfectDiscipline)
      else match ParseInt(v)
        case Some(n) => Some(Days(n))
        case None => None
  }

  /** Takes the three embedded values back out of a README in the template's shape. */
  function ReadReport(report: string): Option<Stats>
  {
    if Head <= report then ReadAfterHead(report[|Head|..]) else None
  }

  function ReadAfterHead(body: string): Option<Stats>
  {
    match ReadField(body, LastShameLabel)
    case None => None
    case Some((totalText, afterTotal)) =>
      match (ReadTotal(totalText), ReadAfterTotal(afterTotal))
      case (Some(total), Some((lastShame, streak))) => Some(Stats(total, lastShame, streak))
      case _ => None
  }

  function ReadAfterTotal(afterTotal: string): Option<(LastShame, Streak)>
  {
    match ReadField(afterTotal, StreakLabel)
    case None => None
    case Some((lastText, afterLast)) =>
      match ReadAfterLast(afterLast)
      case Some(streak) => Some((ReadLastShame(lastText), streak))
      case None => None
  }

  function ReadAfterLast(afterLast: string): Option<Streak>
  {
    match ReadField(afterLast, Tail)
    case Some((streakText, afterStreak)) => if afterStreak == [] then ReadStreak(streakText) else None
    case None => None
  }

  /** A last-shame text the template can carry unambiguously. */
  predicate Displayable(stats: Stats)
  {
    stats.lastShame.On? ==> '*' !in stats.lastShame.text && stats.lastShame.text != NeverText
  }

  lemma NoStarInDigits(s: string)
    requires AllDigits(s)
    ensures '*' !in s
  {
    assert forall i :: 0 <= i < |s| ==> s[i] != '*';
  }

  lemma StreakTextShape(s: Streak)
    ensures '*' !in StreakText(s)
    ensures s.Days? ==> StreakText(s) != PerfectDisciplineText
  {
    match s
    case PerfectDiscipline =>
    case Days(n) =>
      var t := StreakText(s);
      if n < 0 {
        NatToStringValue(-n);
        NoStarInDigits(NatToString(-n));
        assert t == "-" + NatToString(-n);
        assert t[0] == '-';
      } else {
        NatToStringValue(n);
        NoStarInDigits(NatToString(n));
        assert IsDigit(t[0]);
      }
  }

  lemma ReadAfterLastOf(streak: string)
    requires '*' !in streak
    ensures ReadAfterLast(streak + Tail) == ReadStreak(streak)
  {
    ReadFieldOf(streak, Tail, []);
    assert Tail + [] == Tail;
  }

  lemma ReadAfterTotalOf(lastShame: string, streak: string)
    requires '*' !in lastShame && '*' !in streak
    ensures ReadAfterTotal(lastShame + (StreakLabel + (streak + Tail)))
            == match ReadStreak(streak)
               case Some(k) => Some((ReadLastShame(lastShame), k))
               case None => None
  {
    ReadAfterLastOf(streak);
    ReadFieldOf(lastShame, StreakLabel, streak + Tail);
  }

  lemma ReadAfterHeadOf(total: string, afterTotal: string)
    requires '*' !in total
    ensures ReadAfterHead(total + (LastShameLabel + afterTotal))
            == match (ReadTotal(total), ReadAfterTotal(afterTotal))
               case (Some(n), Some((l, k))) => Some(Stats(n, l, k))
               case _ => None
  {
    ReadFieldOf(total, LastShameLabel, afterTotal);
  }

  /** The reader finds the three fields where `Fill` put them. */
  lemma ReadFill(total: string, lastShame: string, streak: string)
    requires '*' !in total && '*' !in lastShame && '*' !in streak
    ensures ReadReport(Fill(total, lastShame, streak))
            == match (ReadTotal(total), ReadStreak(streak))
               case (Some(n), Some(k)) => Some(Stats(n, ReadLastShame(lastShame), k))
               case _ => None
  {
    var afterTotal := lastShame + (StreakLabel + (streak + Tail));
    var body := total + (LastShameLabel + afterTotal);
    ReadAfterTotalOf(lastShame, streak);
    ReadAfterHeadOf(total, afterTotal);
    var report := Fill(total, lastShame, streak);
    assert report == Head + body;
    assert report[|Head|..] == body;
  }

  /** The README holds exactly the three values it was rendered from. */
  lemma ReportRoundTrip(stats: Stats)
    requires Displayable(stats)
    ensures ReadReport(Render(stats)) == Some(stats)
  {
    var totalText := NatToString(stats.total);
    var streakText := StreakText(stats.streak) + DaysUnit;
    NatToStringValue(stats.total);
    NoStarInDigits(totalText);
    StreakTextShape(stats.streak);
    assert '*' !in streakText;
    ReadFill(totalText, LastShameText(stats.lastShame), streakText);
    IntToStringRoundTrip(stats.total);
    assert ReadTotal(totalText) == Some(stats.total);
    assert streakText[..|streakText| - |DaysUnit|] == StreakText(stats.streak);
    assert streakText[|streakText| - |DaysUnit|..] == DaysUnit;
    if stats.streak.Days? {
      IntToStringRoundTrip(stats.streak.days);
    }
    assert ReadStreak(streakText) == Some(stats.streak);
  }

  /** Every statistic `get_shame_stats` returns can be carried by the template. */
  lemma StatsAreDisplayable(total: nat, greatest: Option<string>, today: Dates.Date)
    requires Dates.ValidDate(today)
    requires StatsFrom(total, greatest, today).Ok?
    ensures Displayable(StatsFrom(total, greatest, today).value)
  {
    var stats := StatsFrom(total, greatest, today).value;
    if stats.lastShame.On? {
      var t := stats.lastShame.text;
      assert Dates.ParseIsoDate(t).Some?;
      assert forall i :: 0 <= i < |t| ==> t[i] != '*';
      assert t[0] != 'N';
    }
  }
}
