/** src/plugin/ui/auth-menu.test.ts keeps its own copies of the menu
    helpers and asserts against those copies. The copies of
    formatRelativeTime, formatCountdown and formatRateLimitBadge are the
    same as the ones in auth-menu.ts, so the expectations below are stated
    against AuthMenu's functions; the copy of getStatusBadge differs (it
    has no verification-required case) and is modelled on its own. */
module AuthMenuTest {
  import opened Text
  import opened StringOrder
  import opened AuthMenu

  /** The test file's getStatusBadge: verification-required falls through
      to the default case. */
  function StatusBadgeCopy(status: Option<AccountStatus>, families: Option<seq<string>>,
                           resetIn: Option<map<string, int>>): string
  {
    match status
    case Some(Active) =>
      if NoFamilies(families) then ActiveBadge
      else ActiveBadge + " " + Join(Tags(Sort(families.value), resetIn), " ")
    case Some(RateLimited) => RateLimitBadge(families, resetIn)
    case Some(Expired) => ExpiredBadge
    case _ => ""
  }

  /** The copy agrees with the real getStatusBadge on every status except
      verification-required, where it gives "" instead of the red badge. */
  lemma StatusBadgeCopyAgrees(status: Option<AccountStatus>, families: Option<seq<string>>,
                              resetIn: Option<map<string, int>>)
    ensures status != Some(VerificationRequired) ==>
      StatusBadgeCopy(status, families, resetIn) == StatusBadge(status, families, resetIn)
    ensures status == Some(VerificationRequired) ==>
      StatusBadgeCopy(status, families, resetIn) == "" != StatusBadge(status, families, resetIn)
  {
  }

  // ---------------------------------------------------------------------
  // formatRelativeTime expectations, for any clock reading far enough
  // from the epoch that the timestamps involved are truthy.

  lemma RelativeTimeDays(now: int, ld: string)
    requires now > 60 * MsPerDay
    ensures FormatRelativeTime(None, now, ld) == "never"
    ensures FormatRelativeTime(Some(now), now, ld) == "today"
    ensures FormatRelativeTime(Some(now - 1000), now, ld) == "today"
    ensures FormatRelativeTime(Some(now - MsPerDay), now, ld) == "yesterday"
    ensures FormatRelativeTime(Some(now - 2 * MsPerDay), now, ld) == "2d ago"
    ensures FormatRelativeTime(Some(now - 6 * MsPerDay), now, ld) == "6d ago"
  {
    RelativeTimeBuckets(now, now, 0, ld);
    RelativeTimeBuckets(now - 1000, now, 0, ld);
    RelativeTimeBuckets(now - MsPerDay, now, 1, ld);
    RelativeTimeBuckets(now - 2 * MsPerDay, now, 2, ld);
    RelativeTimeBuckets(now - 6 * MsPerDay, now, 6, ld);
  }

  lemma RelativeTimeWeeks(now: int, ld: string)
    requires now > 60 * MsPerDay
    ensures FormatRelativeTime(Some(now - 7 * MsPerDay), now, ld) == "1w ago"
    ensures FormatRelativeTime(Some(now - 14 * MsPerDay), now, ld) == "2w ago"
    ensures FormatRelativeTime(Some(now - 28 * MsPerDay), now, ld) == "4w ago"
    ensures FormatRelativeTime(Some(now - 60 * MsPerDay), now, ld) == ld
  {
    RelativeTimeBuckets(now - 7 * MsPerDay, now, 7, ld);
    RelativeTimeBuckets(now - 14 * MsPerDay, now, 14, ld);
    RelativeTimeBuckets(now - 28 * MsPerDay, now, 28, ld);
    RelativeTimeBuckets(now - 60 * MsPerDay, now, 60, ld);
  }

  /** The 30-days-or-more test: given locale text that is neither "never"
      nor holds "ago", the result is neither. */
  lemma RelativeTimeOldDate(now: int, ld: string)
    requires now > 60 * MsPerDay && ld != "never" && !Contains(ld, "ago")
    ensures FormatRelativeTime(Some(now - 60 * MsPerDay), now, ld) != "never"
    ensures !Contains(FormatRelativeTime(Some(now - 60 * MsPerDay), now, ld), "ago")
  {
    RelativeTimeWeeks(now, ld);
  }

  /** The formatDate tests: undefined gives "unknown"; a present timestamp
      gives the locale text, which is not the word "unknown". */
  lemma FormatDateExpectations(now: int, ld: string)
    requires now != 0 && ld != "unknown"
    ensures FormatDate(None, ld) == "unknown"
    ensures FormatDate(Some(now), ld) != "unknown"
  {
  }

  // ---------------------------------------------------------------------
  // formatCountdown expectations, each through the decomposition of its
  // rounded-up seconds into hours, minutes and seconds.

  lemma CountdownExpectationsSeconds()
    ensures FormatCountdown(0) == "now" && FormatCountdown(-1000) == "now"
    ensures FormatCountdown(30000) == "30s" && FormatCountdown(1000) == "1s"
  {
    CountdownShape(30000, 30, 0, 0, 30);
    CountdownShape(1000, 1, 0, 0, 1);
  }

  lemma CountdownExpectationsMinutes()
    ensures FormatCountdown(60000) == "1m" && FormatCountdown(5 * 60 * 1000) == "5m"
    ensures FormatCountdown(59 * 60 * 1000) == "59m"
  {
    CountdownShape(60000, 60, 0, 1, 0);
    CountdownShape(5 * 60 * 1000, 300, 0, 5, 0);
    CountdownShape(59 * 60 * 1000, 3540, 0, 59, 0);
  }

  lemma CountdownExpectationsWholeHours()
    ensures FormatCountdown(3600000) == "1h" && FormatCountdown(2 * 3600000) == "2h"
  {
    CountdownShape(3600000, 3600, 1, 0, 0);
    CountdownShape(2 * 3600000, 7200, 2, 0, 0);
  }

  lemma CountdownExpectationsHoursMinutes()
    ensures FormatCountdown(2 * 3600000 + 30 * 60 * 1000) == "2h30m"
  {
    CountdownShape(2 * 3600000 + 30 * 60 * 1000, 9000, 2, 30, 0);
  }

  lemma CountdownExpectationsHourQuarter()
    ensures FormatCountdown(1 * 3600000 + 15 * 60 * 1000) == "1h15m"
  {
    CountdownShape(1 * 3600000 + 15 * 60 * 1000, 4500, 1, 15, 0);
  }

  /** One millisecond already shows as a whole second, and 1001 ms as two. */
  lemma CountdownRoundsUp()
    ensures FormatCountdown(1) == "1s" && FormatCountdown(1001) == "2s"
    ensures FormatCountdown(9000) == "9s"
  {
    CountdownShape(1, 1, 0, 0, 1);
    CountdownShape(1001, 2, 0, 0, 2);
    CountdownShape(9000, 9, 0, 0, 9);
  }

  /** 150 s show as "2m", the 30 s dropped, and 90 min as "1h30m". */
  lemma CountdownDropsSeconds()
    ensures FormatCountdown(150000) == "2m"
    ensures FormatCountdown(5400000) == "1h30m"
  {
    CountdownShape(150000, 150, 0, 2, 30);
    CountdownShape(5400000, 5400, 1, 30, 0);
  }

  // ---------------------------------------------------------------------
  // getStatusBadge expectations (against the test file's copy), one lemma
  // per test case.

  lemma SortTwo()
    ensures Sort(["claude", "gemini"]) == ["claude", "gemini"]
    ensures Sort(["gemini", "claude"]) == ["claude", "gemini"]
  {
    assert Below("claude", "gemini");
    assert !Below("gemini", "claude");
    assert ["claude", "gemini"][1..] == ["gemini"];
    assert ["gemini", "claude"][1..] == ["claude"];
    assert Sort(["gemini"]) == ["gemini"];
    assert Sort(["claude"]) == ["claude"];
  }

  lemma ActiveWithoutLimits()
    ensures StatusBadgeCopy(Some(Active), None, None) == Green + "[active]" + Reset
  {
  }

  /** An active account with one limited family whose reset time is known. */
  lemma ActiveOneFamily(f: string, ms: int, countdown: string)
    requires ms != 0 && FormatCountdown(ms) == countdown
    ensures StatusBadgeCopy(Some(Active), Some([f]), Some(map[f := ms]))
         == ActiveBadge + " " + Yellow + "[" + f + ": limited" + ", resets in " + countdown + "]" + Reset
  {
    var resets := Some(map[f := ms]);
    assert HasReset(resets, f) && resets.value[f] == ms;
    assert Sort([f]) == [f];
    assert Tags([f], resets) == [LimitedTag(f, resets)];
  }

  lemma ActiveClaudeCountdown()
    ensures StatusBadgeCopy(Some(Active), Some(["claude"]), Some(map["claude" := 2 * 3600000 + 30 * 60 * 1000]))
         == ActiveBadge + " " + Yellow + "[" + "claude" + ": limited" + ", resets in " + "2h30m" + "]" + Reset
  {
    CountdownShape(2 * 3600000 + 30 * 60 * 1000, 9000, 2, 30, 0);
    ActiveOneFamily("claude", 2 * 3600000 + 30 * 60 * 1000, "2h30m");
  }

  lemma ActiveGeminiCountdown()
    ensures StatusBadgeCopy(Some(Active), Some(["gemini"]), Some(map["gemini" := 45 * 60 * 1000]))
         == ActiveBadge + " " + Yellow + "[" + "gemini" + ": limited" + ", resets in " + "45m" + "]" + Reset
  {
    CountdownShape(45 * 60 * 1000, 2700, 0, 45, 0);
    ActiveOneFamily("gemini", 45 * 60 * 1000, "45m");
  }

  lemma ActiveWithoutResetIn()
    ensures StatusBadgeCopy(Some(Active), Some(["claude"]), None)
         == ActiveBadge + " " + Yellow + "[" + "claude" + ": limited" + "]" + Reset
  {
    assert Sort(["claude"]) == ["claude"];
    assert Tags(["claude"], None) == [LimitedTag("claude", None)];
  }

  /** Both families exhausted: the badge lists claude (30 min) then gemini (1 h). */
  lemma RateLimitedBothFamilies()
    ensures StatusBadgeCopy(Some(RateLimited), Some(["claude", "gemini"]),
                            Some(map["claude" := 1800000, "gemini" := 3600000]))
         == Yellow + "[rate-limited: " + ("claude" + " resets in " + "30m") + ", " + ("gemini" + " resets in " + "1h") + "]" + Reset
  {
    TwoFamilyNotes(["claude", "gemini"], map["claude" := 1800000, "gemini" := 3600000]);
  }

  lemma RateLimitedWithoutFamilies()
    ensures StatusBadgeCopy(Some(RateLimited), None, None) == Yellow + "[rate-limited]" + Reset
    ensures ':' !in StatusBadgeCopy(Some(RateLimited), None, None)
  {
  }

  /** An active account whose families sort to [f, g], both with a known
      reset time: the two tags in that order. */
  lemma ActiveTwoFamilies(fams: seq<string>, resets: map<string, int>, f: string, g: string, cf: string, cg: string)
    requires Sort(fams) == [f, g] && |fams| > 0
    requires f in resets && g in resets && resets[f] != 0 && resets[g] != 0
    requires FormatCountdown(resets[f]) == cf && FormatCountdown(resets[g]) == cg
    ensures StatusBadgeCopy(Some(Active), Some(fams), Some(resets))
         == ActiveBadge + " " + (Yellow + "[" + f + ": limited" + ", resets in " + cf + "]" + Reset)
            + " " + (Yellow + "[" + g + ": limited" + ", resets in " + cg + "]" + Reset)
  {
    var r := Some(resets);
    var tf, tg := LimitedTag(f, r), LimitedTag(g, r);
    var tags := Tags([f, g], r);
    assert tags == [tf, tg];
    assert tags[1..] == [tg];
    assert Join(tags, " ") == tf + " " + tg;
    TagText(f, cf, tf);
    TagText(g, cg, tg);
    Regroup3(ActiveBadge + " ", tf, " ", tg);
  }

  /** A tag with a countdown, regrouped as the tests write it. */
  lemma TagText(f: string, countdown: string, tag: string)
    requires tag == Yellow + "[" + f + ": limited" + (", resets in " + countdown) + "]" + Reset
    ensures tag == Yellow + "[" + f + ": limited" + ", resets in " + countdown + "]" + Reset
  {
    Regroup3(Yellow + "[" + f + ": limited", ", resets in ", countdown, "]" + Reset);
  }

  lemma Regroup3(a: string, b: string, c: string, d: string)
    ensures a + (b + c + d) == a + b + c + d
    ensures a + (b + c) + d == a + b + c + d
  {
  }

  /** Families given as ["gemini", "claude"] show claude's tag first. */
  lemma ActiveSortsFamilies()
    ensures StatusBadgeCopy(Some(Active), Some(["gemini", "claude"]), Some(map["gemini" := 60000, "claude" := 120000]))
         == ActiveBadge + " " + (Yellow + "[" + "claude" + ": limited" + ", resets in " + "2m" + "]" + Reset)
            + " " + (Yellow + "[" + "gemini" + ": limited" + ", resets in " + "1m" + "]" + Reset)
  {
    var resets := map["gemini" := 60000, "claude" := 120000];
    CountdownShape(60000, 60, 0, 1, 0);
    CountdownShape(120000, 120, 0, 2, 0);
    SortTwo();
    ActiveTwoFamilies(["gemini", "claude"], resets, "claude", "gemini", "2m", "1m");
  }

  lemma OtherStatuses()
    ensures StatusBadgeCopy(Some(Expired), None, None) == Red + "[expired]" + Reset
    ensures StatusBadgeCopy(Some(Unknown), None, None) == ""
    ensures StatusBadgeCopy(None, None, None) == ""
  {
  }

  // ---------------------------------------------------------------------
  // formatRateLimitBadge expectations.

  /** Rate-limited families that sort to [f, g], both with a known reset
      time: the two notes in that order. */
  lemma RateLimitedTwoFamilies(fams: seq<string>, resets: map<string, int>, f: string, g: string, cf: string, cg: string)
    requires Sort(fams) == [f, g] && |fams| > 0
    requires f in resets && g in resets && resets[f] != 0 && resets[g] != 0
    requires FormatCountdown(resets[f]) == cf && FormatCountdown(resets[g]) == cg
    ensures RateLimitBadge(Some(fams), Some(resets))
         == Yellow + "[rate-limited: " + (f + " resets in " + cf) + ", " + (g + " resets in " + cg) + "]" + Reset
  {
    var r := Some(resets);
    var nf, ng := FamilyNote(f, r), FamilyNote(g, r);
    var notes := Notes([f, g], r);
    assert notes == [nf, ng];
    assert notes[1..] == [ng];
    assert Join(notes, ", ") == nf + ", " + ng;
    Regroup3(Yellow + "[rate-limited: ", nf, ", ", ng);
    assert RateLimitBadge(Some(fams), r) == Yellow + "[rate-limited: " + (nf + ", " + ng) + "]" + Reset;
    Regroup3(Yellow + "[rate-limited: ", nf + ", " + ng, "]", Reset);
  }

  /** The notes for claude (30 min) and gemini (1 h), in whichever order the
      two families are given. */
  lemma TwoFamilyNotes(fams: seq<string>, resets: map<string, int>)
    requires fams == ["claude", "gemini"] || fams == ["gemini", "claude"]
    requires "claude" in resets && "gemini" in resets
    requires resets["claude"] == 1800000 && resets["gemini"] == 3600000
    ensures RateLimitBadge(Some(fams), Some(resets))
         == Yellow + "[rate-limited: " + ("claude" + " resets in " + "30m") + ", " + ("gemini" + " resets in " + "1h") + "]" + Reset
  {
    CountdownShape(1800000, 1800, 0, 30, 0);
    CountdownShape(3600000, 3600, 1, 0, 0);
    SortTwo();
    RateLimitedTwoFamilies(fams, resets, "claude", "gemini", "30m", "1h");
  }

  lemma GenericBadges()
    ensures RateLimitBadge(Some([]), None) == Yellow + "[rate-limited]" + Reset
    ensures RateLimitBadge(None, None) == Yellow + "[rate-limited]" + Reset
    ensures ':' !in GenericRateLimited
  {
  }

  /** One rate-limited family whose reset time is known. */
  lemma DetailedOneFamily(f: string, ms: int, countdown: string)
    requires ms != 0 && FormatCountdown(ms) == countdown
    ensures RateLimitBadge(Some([f]), Some(map[f := ms]))
         == Yellow + "[rate-limited: " + f + " resets in " + countdown + "]" + Reset
  {
    var resets := Some(map[f := ms]);
    assert HasReset(resets, f) && resets.value[f] == ms;
    assert Sort([f]) == [f];
    assert Notes([f], resets) == [FamilyNote(f, resets)];
  }

  lemma DetailedWithCountdown()
    ensures RateLimitBadge(Some(["claude"]), Some(map["claude" := 5400000]))
         == Yellow + "[rate-limited: " + "claude" + " resets in " + "1h30m" + "]" + Reset
  {
    CountdownShape(5400000, 5400, 1, 30, 0);
    DetailedOneFamily("claude", 5400000, "1h30m");
  }

  lemma DetailedWithoutCountdown()
    ensures RateLimitBadge(Some(["claude"]), None) == Yellow + "[rate-limited: " + "claude" + "]" + Reset
  {
    assert Sort(["claude"]) == ["claude"];
    assert Notes(["claude"], None) == ["claude"];
  }

  lemma DetailedSortedTwoFamilies()
    ensures RateLimitBadge(Some(["gemini", "claude"]), Some(map["gemini" := 3600000, "claude" := 1800000]))
         == Yellow + "[rate-limited: " + ("claude" + " resets in " + "30m") + ", " + ("gemini" + " resets in " + "1h") + "]" + Reset
  {
    TwoFamilyNotes(["gemini", "claude"], map["gemini" := 3600000, "claude" := 1800000]);
  }
}
