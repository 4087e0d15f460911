/** The account-menu presentation helpers of src/plugin/ui/auth-menu.ts:
    countdowns, relative times, status badges and the per-account menu
    entry. Clock and locale calls are parameters; the colour codes of the
    terminal module are fixed escape sequences. */
module AuthMenu {
  import opened Text
  import opened StringOrder

  // Colour codes. The terminal module that defines them is not part of this
  // model; they are taken to be the standard SGR sequences: fixed, distinct
  // strings that contain no ':'.
  const Green := "\U{1B}[32m"
  const Yellow := "\U{1B}[33m"
  const Red := "\U{1B}[31m"
  const Cyan := "\U{1B}[36m"
  const Reset := "\U{1B}[0m"

  datatype AccountStatus = Active | RateLimited | Expired | VerificationRequired | Unknown

  /** The account record the menu shows; an absent optional field is `None`. */
  datatype AccountInfo = AccountInfo(
    email: Option<string>,
    index: int,
    addedAt: Option<int>,
    lastUsed: Option<int>,
    status: Option<AccountStatus>,
    rateLimitedFamilies: Option<seq<string>>,
    rateLimitResetIn: Option<map<string, int>>,
    isCurrentAccount: Option<bool>,
    enabled: Option<bool>)

  /** One selectable account line of the menu. */
  datatype MenuEntry = MenuEntry(text: string, hint: string, account: AccountInfo)

  const MsPerDay := 86400000

  /** A timestamp is truthy when present and not zero. */
  predicate Truthy(t: Option<int>)
  {
    t.Some? && t.value != 0
  }

  // ---------------------------------------------------------------------
  // formatRelativeTime: `now` stands for Date.now(), `localeDate` for
  // new Date(timestamp).toLocaleDateString().

  function FormatRelativeTime(timestamp: Option<int>, now: int, localeDate: string): string
  {
    if !Truthy(timestamp) then "never"
    else
      // Math.floor of a quotient by a positive divisor is Euclidean division.
      var days := (now - timestamp.value) / MsPerDay;
      if days == 0 then "today"
      else if days == 1 then "yesterday"
      else if days < 7 then IntToString(days) + "d ago"
      else if days < 30 then IntToString(days / 7) + "w ago"
      else localeDate
  }

  /** `d` whole days have elapsed between `t` and `now` (rounded down). */
  predicate ElapsedDays(t: int, now: int, d: int)
  {
    d * MsPerDay <= now - t < (d + 1) * MsPerDay
  }

  lemma ElapsedDaysIsQuotient(t: int, now: int, d: int)
    requires ElapsedDays(t, now, d)
    ensures (now - t) / MsPerDay == d
  {
  }

  /** The day buckets of formatRelativeTime, stated by the elapsed time. */
  lemma RelativeTimeBuckets(t: int, now: int, d: int, localeDate: string)
    requires t != 0 && ElapsedDays(t, now, d)
    ensures d == 0 ==> FormatRelativeTime(Some(t), now, localeDate) == "today"
    ensures d == 1 ==> FormatRelativeTime(Some(t), now, localeDate) == "yesterday"
    ensures 2 <= d < 7 ==> FormatRelativeTime(Some(t), now, localeDate) == NatToString(d) + "d ago"
    ensures d < 0 ==> FormatRelativeTime(Some(t), now, localeDate) == "-" + NatToString(-d) + "d ago"
    ensures forall w :: 7 <= d < 30 && 7 * w <= d < 7 * w + 7 ==>
      FormatRelativeTime(Some(t), now, localeDate) == IntToString(w) + "w ago"
    ensures d >= 30 ==> FormatRelativeTime(Some(t), now, localeDate) == localeDate
  {
    ElapsedDaysIsQuotient(t, now, d);
  }

  lemma RelativeTimeNever(t: Option<int>, now: int, localeDate: string)
    ensures !Truthy(t) ==> FormatRelativeTime(t, now, localeDate) == "never"
    ensures Truthy(t) && 0 <= (now - t.value) / MsPerDay < 30 ==> FormatRelativeTime(t, now, localeDate) != "never"
  {
  }

  /** formatDate: "unknown" for a falsy timestamp, otherwise the locale
      date text, which stands in as `localeDate`. */
  function FormatDate(timestamp: Option<int>, localeDate: string): (r: string)
    ensures r == "unknown" <==> !Truthy(timestamp) || localeDate == "unknown"
  {
    if !Truthy(timestamp) then "unknown" else localeDate
  }

  // ---------------------------------------------------------------------
  // formatCountdown

  /** Math.ceil(ms / 1000) for a positive whole number of milliseconds. */
  function CeilSeconds(ms: int): (t: int)
    requires ms > 0
    ensures t >= 1 && (t - 1) * 1000 < ms <= t * 1000
  {
    (ms + 999) / 1000
  }

  function FormatCountdown(ms: int): (r: string)
    ensures r == "now" <==> ms <= 0
  {
    if ms <= 0 then "now"
    else
      var totalSeconds := CeilSeconds(ms);
      var hours := totalSeconds / 3600;
      var minutes := (totalSeconds % 3600) / 60;
      var r :=
        if hours > 0 && minutes > 0 then NatToString(hours) + "h" + NatToString(minutes) + "m"
        else if hours > 0 then NatToString(hours) + "h"
        else if minutes > 0 then NatToString(minutes) + "m"
        else NatToString(totalSeconds) + "s";
      assert r[|r| - 1] in "hms";
      r
  }

  /** The countdown's shape, stated through the unique decomposition
      t == 3600 * h + 60 * m + s of the rounded-up seconds `t`. */
  lemma CountdownShape(ms: int, t: nat, h: nat, m: nat, s: nat)
    requires (t - 1) * 1000 < ms <= t * 1000 && t >= 1
    requires t == 3600 * h + 60 * m + s && m < 60 && s < 60
    ensures t < 60 ==> FormatCountdown(ms) == NatToString(t) + "s"
    ensures t >= 60 && h > 0 && m > 0 ==> FormatCountdown(ms) == NatToString(h) + "h" + NatToString(m) + "m"
    ensures t >= 60 && h > 0 && m == 0 ==> FormatCountdown(ms) == NatToString(h) + "h"
    ensures t >= 60 && h == 0 ==> FormatCountdown(ms) == NatToString(m) + "m"
  {
    assert CeilSeconds(ms) == t;
    DecomposeUnique(t, h, m, s);
  }

  /** Reads a countdown back as the number of seconds it shows ("now" shows 0). */
  function ParseCountdown(r: string): Option<nat>
  {
    if r == "now" then Some(0)
    else if |r| == 0 then None
    else
      var body, unit := r[..|r| - 1], r[|r| - 1];
      if unit == 's' then ParseNat(body)
      else if unit == 'h' then Scale(ParseNat(body), 3600)
      else if unit == 'm' then
        match SplitOnce(body, 'h')
        case None => Scale(ParseNat(body), 60)
        case Some(p) =>
          match (ParseNat(p.0), ParseNat(p.1))
          case (Some(h), Some(m)) => Some(3600 * h + 60 * m)
          case _ => None
      else None
  }

  function Scale(n: Option<nat>, k: nat): Option<nat>
  {
    if n.Some? then Some(n.value * k) else None
  }

  /** The seconds a countdown shows: the rounded-up seconds below a minute,
      and from a minute on only its whole hours and minutes. */
  function ShownSeconds(ms: int): nat
  {
    if ms <= 0 then 0
    else
      var t := CeilSeconds(ms);
      if t < 60 then t else 3600 * (t / 3600) + 60 * ((t % 3600) / 60)
  }

  /** formatCountdown loses nothing but the dropped seconds: reading the
      string back gives exactly the seconds it is meant to show. */
  lemma CountdownRoundTrip(ms: int)
    ensures ParseCountdown(FormatCountdown(ms)) == Some(ShownSeconds(ms))
  {
    if ms > 0 {
      var t := CeilSeconds(ms);
      var h, m := t / 3600, (t % 3600) / 60;
      SecondsDecompose(t);
      CountdownShape(ms, t, h, m, (t % 3600) % 60);
      if t < 60 {
        ParseSeconds(t);
      } else if h > 0 && m > 0 {
        ParseHoursMinutes(h, m);
      } else if h > 0 {
        ParseHours(h);
      } else {
        ParseMinutes(m);
      }
    }
  }

  /** Hours, minutes and seconds of a whole number of seconds. */
  lemma SecondsDecompose(t: nat)
    ensures t == 3600 * (t / 3600) + 60 * ((t % 3600) / 60) + (t % 3600) % 60
    ensures (t % 3600) / 60 < 60 && (t % 3600) % 60 < 60
  {
    var r := t % 3600;
    assert t == 3600 * (t / 3600) + r;
    assert r == 60 * (r / 60) + r % 60;
  }

  /** The split is unique: any hours, minutes below 60 and seconds below 60
      that add up to t are the ones formatCountdown computes. */
  lemma DecomposeUnique(t: nat, h: nat, m: nat, s: nat)
    requires t == 3600 * h + 60 * m + s && m < 60 && s < 60
    ensures h == t / 3600 && m == (t % 3600) / 60 && s == (t % 3600) % 60
  {
    assert 60 * m + s < 3600;
    assert t % 3600 == 60 * m + s;
  }

  lemma ParseSeconds(t: nat)
    ensures ParseCountdown(NatToString(t) + "s") == Some(t)
  {
    var r := NatToString(t) + "s";
    assert r[..|r| - 1] == NatToString(t) && r[|r| - 1] == 's';
    ParseNatToString(t);
  }

  lemma ParseHours(h: nat)
    ensures ParseCountdown(NatToString(h) + "h") == Some(3600 * h)
  {
    var r := NatToString(h) + "h";
    assert r[..|r| - 1] == NatToString(h) && r[|r| - 1] == 'h';
    ParseNatToString(h);
  }

  lemma ParseMinutes(m: nat)
    ensures ParseCountdown(NatToString(m) + "m") == Some(60 * m)
  {
    var r := NatToString(m) + "m";
    var body := NatToString(m);
    assert r[..|r| - 1] == body && r[|r| - 1] == 'm';
    assert r != "now";
    assert 'h' !in body;
    ParseNatToString(m);
  }

  lemma ParseHoursMinutes(h: nat, m: nat)
    ensures ParseCountdown(NatToString(h) + "h" + NatToString(m) + "m") == Some(3600 * h + 60 * m)
  {
    var r := NatToString(h) + "h" + NatToString(m) + "m";
    var body := NatToString(h) + ['h'] + NatToString(m);
    assert r == body + ['m'];
    assert r[..|r| - 1] == body && r[|r| - 1] == 'm';
    assert r != "now";
    SplitAfterDigits(NatToString(h), 'h', NatToString(m));
    ParseNatToString(h);
    ParseNatToString(m);
  }

  // ---------------------------------------------------------------------
  // formatRateLimitBadge and getStatusBadge

  /** `resetIn?.[f]` is truthy: present and not zero. */
  predicate HasReset(resetIn: Option<map<string, int>>, f: string)
  {
    resetIn.Some? && f in resetIn.value && resetIn.value[f] != 0
  }

  /** One family inside the rate-limited badge. */
  function FamilyNote(f: string, resetIn: Option<map<string, int>>): string
  {
    if HasReset(resetIn, f) then f + " resets in " + FormatCountdown(resetIn.value[f]) else f
  }

  /** One family's tag after an active badge. */
  function LimitedTag(f: string, resetIn: Option<map<string, int>>): string
  {
    var countdown := if HasReset(resetIn, f) then ", resets in " + FormatCountdown(resetIn.value[f]) else "";
    Yellow + "[" + f + ": limited" + countdown + "]" + Reset
  }

  function Notes(families: seq<string>, resetIn: Option<map<string, int>>): seq<string>
  {
    seq(|families|, i requires 0 <= i < |families| => FamilyNote(families[i], resetIn))
  }

  function Tags(families: seq<string>, resetIn: Option<map<string, int>>): seq<string>
  {
    seq(|families|, i requires 0 <= i < |families| => LimitedTag(families[i], resetIn))
  }

  const GenericRateLimited := Yellow + "[rate-limited]" + Reset
  const ActiveBadge := Green + "[active]" + Reset
  const ExpiredBadge := Red + "[expired]" + Reset
  const NeedsVerificationBadge := Red + "[needs verification]" + Reset

  /** Absent or empty families. */
  predicate NoFamilies(families: Option<seq<string>>)
  {
    families.None? || |families.value| == 0
  }

  /** The value of formatRateLimitBadge, on the families as passed in. */
  function RateLimitBadge(families: Option<seq<string>>, resetIn: Option<map<string, int>>): string
  {
    if NoFamilies(families) then GenericRateLimited
    else Yellow + "[rate-limited: " + Join(Notes(Sort(families.value), resetIn), ", ") + "]" + Reset
  }

  /** The value of getStatusBadge, on the families as passed in. */
  function StatusBadge(status: Option<AccountStatus>, families: Option<seq<string>>,
                       resetIn: Option<map<string, int>>): string
  {
    match status
    case Some(Active) =>
      if NoFamilies(families) then ActiveBadge
      else ActiveBadge + " " + Join(Tags(Sort(families.value), resetIn), " ")
    case Some(RateLimited) => RateLimitBadge(families, resetIn)
    case Some(Expired) => ExpiredBadge
    case Some(VerificationRequired) => NeedsVerificationBadge
    case _ => ""
  }

  /** The generic rate-limited badge is given exactly when there are no
      families, and it is the only rate-limited badge without a ':'. */
  lemma RateLimitBadgeGeneric(families: Option<seq<string>>, resetIn: Option<map<string, int>>)
    ensures RateLimitBadge(families, resetIn) == GenericRateLimited <==> NoFamilies(families)
    ensures ':' !in GenericRateLimited
    ensures !NoFamilies(families) ==> ':' in RateLimitBadge(families, resetIn)
  {
    if !NoFamilies(families) {
      var r := RateLimitBadge(families, resetIn);
      assert r[|Yellow| + 13] == ':';
    }
  }

  /** The non-generic rate-limited badge lists one note per family, the
      families in sorted order and each kept as often as it was given. */
  lemma RateLimitBadgeListsSorted(fams: seq<string>, resetIn: Option<map<string, int>>)
    requires |fams| > 0
    ensures var sorted := Sort(fams);
      && Sorted(sorted) && multiset(sorted) == multiset(fams)
      && RateLimitBadge(Some(fams), resetIn)
         == Yellow + "[rate-limited: " + Join(Notes(sorted, resetIn), ", ") + "]" + Reset
      && |Notes(sorted, resetIn)| == |fams|
      && forall k :: 0 <= k < |fams| ==>
           Notes(sorted, resetIn)[k] == (if HasReset(resetIn, sorted[k])
             then sorted[k] + " resets in " + FormatCountdown(resetIn.value[sorted[k]])
             else sorted[k])
  {
    SortSpec(fams);
    assert |Sort(fams)| == |multiset(Sort(fams))| == |fams|;
  }

  /** An active account with rate-limited families gets one tag per family,
      in sorted order, after the green badge. */
  lemma ActiveBadgeListsSorted(fams: seq<string>, resetIn: Option<map<string, int>>)
    requires |fams| > 0
    ensures var sorted := Sort(fams);
      && Sorted(sorted) && multiset(sorted) == multiset(fams)
      && StatusBadge(Some(Active), Some(fams), resetIn)
         == ActiveBadge + " " + Join(Tags(sorted, resetIn), " ")
      && |Tags(sorted, resetIn)| == |fams|
      && forall k :: 0 <= k < |fams| ==>
           Tags(sorted, resetIn)[k] == Yellow + "[" + sorted[k] + ": limited"
             + (if HasReset(resetIn, sorted[k]) then ", resets in " + FormatCountdown(resetIn.value[sorted[k]]) else "")
             + "]" + Reset
  {
    SortSpec(fams);
    assert |Sort(fams)| == |multiset(Sort(fams))| == |fams|;
  }

  /** The badge is empty exactly for an unknown or absent status; each known
      status has its own badge. */
  lemma StatusBadgeCases(status: Option<AccountStatus>, families: Option<seq<string>>,
                         resetIn: Option<map<string, int>>)
    ensures StatusBadge(status, families, resetIn) == "" <==> status.None? || status == Some(Unknown)
    ensures status == Some(Active) && NoFamilies(families) ==> StatusBadge(status, families, resetIn) == ActiveBadge
    ensures status == Some(Active) ==> StartsWith(StatusBadge(status, families, resetIn), ActiveBadge)
    ensures status == Some(RateLimited) ==> StatusBadge(status, families, resetIn) == RateLimitBadge(families, resetIn)
    ensures status == Some(Expired) ==> StatusBadge(status, families, resetIn) == ExpiredBadge
    ensures status == Some(VerificationRequired) ==> StatusBadge(status, families, resetIn) == NeedsVerificationBadge
  {
    if status == Some(Active) && !NoFamilies(families) {
      var r := StatusBadge(status, families, resetIn);
      assert r[..|ActiveBadge|] == ActiveBadge;
    }
  }

  /** formatRateLimitBadge: sorts the caller's array in place (when it has
      elements) and returns the badge for the sorted families. */
  method FormatRateLimitBadge(families: array?<string>, resetIn: Option<map<string, int>>)
    returns (badge: string)
    modifies families
    ensures families != null ==> families[..] == Sort(old(families[..]))
    ensures badge == RateLimitBadge(if families == null then None else Some(old(families[..])), resetIn)
  {
    if families == null || families.Length == 0 {
      return GenericRateLimited;
    }
    SortInPlace(families);
    SortIdempotent(old(families[..]));
    badge := Yellow + "[rate-limited: " + Join(Notes(families[..], resetIn), ", ") + "]" + Reset;
  }

  /** getStatusBadge: the active and rate-limited cases sort the caller's
      families array in place; the others leave it as it was. */
  method GetStatusBadge(status: Option<AccountStatus>, families: array?<string>,
                        resetIn: Option<map<string, int>>)
    returns (badge: string)
    modifies families
    ensures families != null ==>
      families[..] == if status == Some(Active) || status == Some(RateLimited)
                      then Sort(old(families[..])) else old(families[..])
    ensures badge == StatusBadge(status, if families == null then None else Some(old(families[..])), resetIn)
  {
    match status {
      case Some(Active) =>
        if families != null && families.Length > 0 {
          SortInPlace(families);
          SortIdempotent(old(families[..]));
          badge := ActiveBadge + " " + Join(Tags(families[..], resetIn), " ");
        } else {
          badge := ActiveBadge;
        }
      case Some(RateLimited) =>
        badge := FormatRateLimitBadge(families, resetIn);
      case Some(Expired) =>
        badge := ExpiredBadge;
      case Some(VerificationRequired) =>
        badge := NeedsVerificationBadge;
      case _ =>
        badge := "";
    }
  }

  /** Sorting twice is sorting once: re-sorting an already sorted array does
      not change its badge. */
  lemma SortIdempotent(s: seq<string>)
    ensures Sort(Sort(s)) == Sort(s)
  {
    SortSpec(s);
    SortSpec(Sort(s));
    SortedUnique(Sort(Sort(s)), Sort(s));
  }

  // ---------------------------------------------------------------------
  // The account line built inside showAuthMenu.

  /** `account.email || "Account N"`: an empty email counts as absent. */
  function DisplayName(account: AccountInfo): string
  {
    if account.email.Some? && account.email.value != "" then account.email.value
    else "Account " + IntToString(account.index + 1)
  }

  function Numbered(account: AccountInfo): string
  {
    IntToString(account.index + 1) + ". " + DisplayName(account)
  }

  const CurrentBadge := " " + Cyan + "[current]" + Reset
  const DisabledBadge := " " + Red + "[disabled]" + Reset

  function CurrentPart(account: AccountInfo): string
  {
    if account.isCurrentAccount == Some(true) then CurrentBadge else ""
  }

  function StatusPart(account: AccountInfo): string
  {
    var badge := StatusBadge(account.status, account.rateLimitedFamilies, account.rateLimitResetIn);
    if badge != "" then " " + badge else ""
  }

  function DisabledPart(account: AccountInfo): string
  {
    if account.enabled == Some(false) then DisabledBadge else ""
  }

  /** The menu entry for one account; `lastUsedDate` stands for the locale
      date of `lastUsed`. The entry holds the account object itself, which
      getStatusBadge has just sorted in place. */
  function AccountEntry(account: AccountInfo, now: int, lastUsedDate: string): MenuEntry
  {
    MenuEntry(AccountLabel(account), AccountHint(account, now, lastUsedDate), AfterBadge(account))
  }

  /** The account as getStatusBadge leaves it: the active and rate-limited
      cases sort its families array in place. */
  function AfterBadge(account: AccountInfo): AccountInfo
  {
    if (account.status == Some(Active) || account.status == Some(RateLimited))
       && account.rateLimitedFamilies.Some?
    then account.(rateLimitedFamilies := Some(Sort(account.rateLimitedFamilies.value)))
    else account
  }

  function AccountLabel(account: AccountInfo): string
  {
    Numbered(account) + CurrentPart(account) + StatusPart(account) + DisabledPart(account)
  }

  function AccountHint(account: AccountInfo, now: int, lastUsedDate: string): string
  {
    if Truthy(account.lastUsed) then "used " + FormatRelativeTime(account.lastUsed, now, lastUsedDate) else ""
  }

  /** The line always starts "N. name", N being the one-based position, and
      without flags or status it is just that. */
  lemma AccountLabelNumbered(a: AccountInfo)
    ensures StartsWith(AccountLabel(a), IntToString(a.index + 1) + ". " + DisplayName(a))
    ensures a.isCurrentAccount != Some(true) && a.enabled != Some(false) && (a.status.None? || a.status == Some(Unknown))
      ==> AccountLabel(a) == Numbered(a)
  {
    var l := AccountLabel(a);
    assert l == Numbered(a) + l[|Numbered(a)|..];
  }

  /** Only `enabled === false` disables: an absent flag counts as enabled, and
      disabling appends the disabled badge and changes nothing else. */
  lemma AccountLabelDisabled(a: AccountInfo)
    ensures AccountLabel(a.(enabled := None)) == AccountLabel(a.(enabled := Some(true)))
    ensures AccountLabel(a.(enabled := Some(false)))
         == AccountLabel(a.(enabled := None)) + DisabledBadge
  {
    var b, c := a.(enabled := None), a.(enabled := Some(false));
    var n, cp, sp := Numbered(a), CurrentPart(a), StatusPart(a);
    assert Numbered(b) == n && Numbered(c) == n;
    assert CurrentPart(b) == cp && CurrentPart(c) == cp;
    assert StatusPart(b) == sp && StatusPart(c) == sp;
    var prefix := n + cp + sp;
    assert AccountLabel(b) == prefix + "" == prefix;
    assert AccountLabel(c) == prefix + DisabledBadge;
  }

  /** The flag is tested for truthiness: false reads as absent. Marking the
      account as current inserts the current badge right after the name and
      changes nothing else. */
  lemma AccountLabelCurrent(a: AccountInfo)
    ensures AccountLabel(a.(isCurrentAccount := Some(false))) == AccountLabel(a.(isCurrentAccount := None))
    ensures AccountLabel(a.(isCurrentAccount := Some(true)))
         == Numbered(a) + CurrentBadge + AccountLabel(a.(isCurrentAccount := None))[|Numbered(a)|..]
  {
    var b, c := a.(isCurrentAccount := None), a.(isCurrentAccount := Some(true));
    var n, sp, dp := Numbered(a), StatusPart(a), DisabledPart(a);
    assert Numbered(b) == n && Numbered(c) == n;
    assert StatusPart(b) == sp && StatusPart(c) == sp;
    assert DisabledPart(b) == dp && DisabledPart(c) == dp;
    assert CurrentPart(b) == "" && CurrentPart(c) == CurrentBadge;
    Regroup(n, "", sp, dp);
    Regroup(n, CurrentBadge, sp, dp);
  }

  /** Regrouping a four-part label around its first part. */
  lemma Regroup(n: string, x: string, y: string, z: string)
    ensures n + x + y + z == n + x + (y + z)
    ensures x == "" ==> (n + x + y + z)[|n|..] == y + z
  {
    if x == "" {
      assert n + x + y + z == n + (y + z);
    }
  }

  /** The entry's account holds the families in sorted order on the active
      and rate-limited paths and is otherwise untouched; only the families
      change, and the sort does not change the label the entry shows, so
      building the entry again from its own account gives the same entry. */
  lemma AccountEntrySortsFamilies(a: AccountInfo, now: int, date: string)
    ensures var e := AccountEntry(a, now, date);
      && e.text == AccountLabel(a)
      && e.account == a.(rateLimitedFamilies := e.account.rateLimitedFamilies)
      && (e.account.rateLimitedFamilies.Some? <==> a.rateLimitedFamilies.Some?)
      && ((a.status == Some(Active) || a.status == Some(RateLimited)) && a.rateLimitedFamilies.Some? ==>
            var fams := e.account.rateLimitedFamilies.value;
            Sorted(fams) && multiset(fams) == multiset(a.rateLimitedFamilies.value))
      && (a.status != Some(Active) && a.status != Some(RateLimited) ==> e.account == a)
      && AccountEntry(e.account, now, date) == e
  {
    var b := AfterBadge(a);
    if (a.status == Some(Active) || a.status == Some(RateLimited)) && a.rateLimitedFamilies.Some? {
      var f := a.rateLimitedFamilies.value;
      SortSpec(f);
      SortIdempotent(f);
      assert |Sort(f)| == |multiset(Sort(f))| == |f|;
      assert StatusBadge(b.status, b.rateLimitedFamilies, b.rateLimitResetIn)
          == StatusBadge(a.status, a.rateLimitedFamilies, a.rateLimitResetIn);
      assert StatusPart(b) == StatusPart(a);
      assert AccountLabel(b) == AccountLabel(a);
      assert AfterBadge(b) == b;
    }
  }

  /** The hint is empty exactly when lastUsed is falsy. */
  lemma AccountHintShown(a: AccountInfo, now: int, date: string)
    ensures AccountHint(a, now, date) == "" <==> !Truthy(a.lastUsed)
    ensures Truthy(a.lastUsed) ==>
      AccountHint(a, now, date) == "used " + FormatRelativeTime(a.lastUsed, now, date)
  {
  }
}
