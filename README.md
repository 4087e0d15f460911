# opencode-ag-auth helpers — a verified Dafny model

This project models the small pure transforms of the opencode-ag-auth plugin and proves their properties:

- **Account menu** (`src/plugin/ui/auth-menu.ts`):
  - how a reset countdown is shown (`formatCountdown`);
  - how the last use of an account is shown (`formatRelativeTime`);
  - the rate-limit and status badges (`formatRateLimitBadge`, `getStatusBadge`), which sort the caller's families array in place;
  - the menu line and hint built for each account inside `showAuthMenu`.
- **Test copies** (`src/plugin/ui/auth-menu.test.ts`): that test file keeps its own copies of the helpers. Its copy of `getStatusBadge` has no `verification-required` case. Each expectation on formatRelativeTime, formatDate, formatCountdown, getStatusBadge and formatRateLimitBadge is a lemma. Where a test asserts something about locale date text (that it is not "never" or "unknown" and holds no "ago"), the lemma takes that text as a parameter with exactly those properties.
- **Header-style rules** (`src/plugin/quota-fallback.test.ts`): the header style a Gemini or Claude request starts with, and the one a quota-exhausted request falls back to. Their implementations are not part of this model; the rules follow the cases the test file asserts. The model reproduces every asserted case, and the rules for untested branches are marked `ASSUMPTION` in `quota_fallback.dfy`.
- **Plugin-list update** (`update-config.cjs`): the script makes `config.plugin` an array, removes the published package names, and appends the local checkout's path if it is missing.
- **Typo rewrite** (`fix-typo.cjs`):
  - the replacement table and its split/join replace-all;
  - the directory skip list and the extension filter;
  - the recursive walk that writes changed files.

Modules:

| module | file | what it holds |
|---|---|---|
| `Text` | text.dfy | decimal rendering and parsing, `Join`, prefix/suffix/substring predicates |
| `StringOrder` | order.dfy | the default string order of JavaScript's `Array.prototype.sort`, a reference insertion sort, and an in-place sort of an array |
| `AuthMenu` | auth_menu.dfy | the menu helpers and the account line |
| `AuthMenuTest` | auth_menu_test.dfy | the test file's `getStatusBadge` copy and the test expectations |
| `QuotaFallback` | quota_fallback.dfy | the header-style decisions |
| `UpdateConfig` | update_config.dfy | the config object and the plugin-list update |
| `FixTypo` | fix_typo.dfy | replace-all, the table, the filters and the walk |

Inputs from outside the program become parameters:

- `Date.now()` is `now`.
- The locale date text is `localeDate`.
- A directory tree is a `Node` value, listed in the order `readdirSync` returns it.
- A config file is what reading and parsing it produced.

Each script's output is modelled as the sequence of writes it performs, or as the value it writes back.

## Model

| member | source | states |
|---|---|---|
| AuthMenu.FormatRelativeTime | src/plugin/ui/auth-menu.ts:44-52 | (function; its properties are the lemmas below) |
| AuthMenu.ElapsedDaysIsQuotient | src/plugin/ui/auth-menu.ts:46 | when d whole days (rounded down) separate t from now, floor((now - t) / 86400000) is d |
| AuthMenu.RelativeTimeBuckets | src/plugin/ui/auth-menu.ts:44-52 | with d whole days elapsed: 0 gives "today", 1 gives "yesterday", 2..6 give "{d}d ago", a negative d gives "-{-d}d ago", 7..29 give "{w}w ago" with w = d div 7, and 30 or more give the locale date |
| AuthMenu.RelativeTimeNever | src/plugin/ui/auth-menu.ts:45 | an absent or zero timestamp gives "never"; a truthy one within 0..29 days never does |
| AuthMenu.FormatDate | src/plugin/ui/auth-menu.ts:54-57 | the result is "unknown" exactly when the timestamp is falsy or the locale text itself is "unknown"; its test expectations are FormatDateExpectations |
| AuthMenu.CeilSeconds | src/plugin/ui/auth-menu.ts:61 | Math.ceil(ms/1000) for ms > 0: the least t >= 1 with ms <= 1000 t |
| AuthMenu.FormatCountdown | src/plugin/ui/auth-menu.ts:59-68 | the result is "now" exactly when ms <= 0 |
| AuthMenu.CountdownShape | src/plugin/ui/auth-menu.ts:61-67 | with t = 3600h + 60m + s the rounded-up seconds: "{t}s" below a minute, else "{h}h{m}m", "{h}h" or "{m}m" depending on which of h and m are non-zero; the seconds are dropped from a minute on |
| AuthMenu.CountdownRoundTrip | src/plugin/ui/auth-menu.ts:59-68 | reading the countdown back gives exactly the seconds it shows: the rounded-up seconds below a minute, otherwise their whole hours and minutes |
| AuthMenu.SecondsDecompose | src/plugin/ui/auth-menu.ts:62-63 | t/3600 hours, (t%3600)/60 minutes and (t%3600)%60 seconds add back up to t, with minutes and seconds in 0..59 |
| AuthMenu.DecomposeUnique | src/plugin/ui/auth-menu.ts:62-63 | the split is unique: any hours, minutes below 60 and seconds below 60 adding up to t are exactly the ones lines 62-63 compute |
| AuthMenu.ParseSeconds | src/plugin/ui/auth-menu.ts:67 | "{t}s" reads back as t seconds |
| AuthMenu.ParseHours | src/plugin/ui/auth-menu.ts:65 | "{h}h" reads back as 3600 h seconds |
| AuthMenu.ParseMinutes | src/plugin/ui/auth-menu.ts:66 | "{m}m" reads back as 60 m seconds |
| AuthMenu.ParseHoursMinutes | src/plugin/ui/auth-menu.ts:64 | "{h}h{m}m" reads back as 3600 h + 60 m seconds |
| AuthMenu.RateLimitBadgeGeneric | src/plugin/ui/auth-menu.ts:73-75 | the generic "[rate-limited]" badge is returned exactly when the families are absent or empty, and it is the only rate-limited badge without ':' |
| AuthMenu.RateLimitBadgeListsSorted | src/plugin/ui/auth-menu.ts:77-81 | otherwise the badge lists one note per family, sorted and with the same multiset of families; the note is "f resets in <countdown>" when resetIn[f] is present and non-zero, and "f" otherwise |
| AuthMenu.ActiveBadgeListsSorted | src/plugin/ui/auth-menu.ts:90-106 | an active account with families gets "[active]", a space, then one "[f: limited]" or "[f: limited, resets in X]" tag per family in sorted order, separated by spaces |
| AuthMenu.StatusBadgeCases | src/plugin/ui/auth-menu.ts:84-116 | the badge is "" exactly for an unknown or absent status; active without families is "[active]"; rate-limited is formatRateLimitBadge; expired and verification-required have their red badges |
| AuthMenu.RateLimitBadge | src/plugin/ui/auth-menu.ts:70-82 | (function; the value formatRateLimitBadge returns, whose properties are RateLimitBadgeGeneric and RateLimitBadgeListsSorted) |
| AuthMenu.StatusBadge | src/plugin/ui/auth-menu.ts:84-116 | (function; the value getStatusBadge returns, whose properties are ActiveBadgeListsSorted and StatusBadgeCases) |
| AuthMenu.FormatRateLimitBadge | src/plugin/ui/auth-menu.ts:70-82 | the caller's array ends sorted (a permutation of what it held) and the badge is the one for the families passed in |
| AuthMenu.GetStatusBadge | src/plugin/ui/auth-menu.ts:84-116 | active and rate-limited sort the caller's array in place, the other statuses leave it as it was; the badge is the one for the status and families passed in |
| AuthMenu.SortIdempotent | src/plugin/ui/auth-menu.ts:77 | sorting a sorted list changes nothing, so the badge text is the same whether computed before or after the in-place sort |
| AuthMenu.AccountLabelNumbered | src/plugin/ui/auth-menu.ts:152-154 | the line starts "{index+1}. {email, or Account {index+1} when the email is absent or empty}" and is just that when there are no flags and no badge |
| AuthMenu.AccountLabelDisabled | src/plugin/ui/auth-menu.ts:150-154 | only enabled === false disables: an absent flag reads as enabled, and disabling appends the disabled badge and changes nothing else |
| AuthMenu.AccountLabelCurrent | src/plugin/ui/auth-menu.ts:147-154 | the flag is tested for truthiness, so false gives the same label as an absent flag; marking the account current inserts the "[current]" badge right after the name and changes nothing else |
| AuthMenu.AccountHintShown | src/plugin/ui/auth-menu.ts:158-160 | the hint is empty exactly when lastUsed is falsy; otherwise it is "used " followed by the relative time |
| AuthMenu.AccountLabel | src/plugin/ui/auth-menu.ts:142-154 | (function; its properties are AccountLabelNumbered, AccountLabelDisabled and AccountLabelCurrent) |
| AuthMenu.AccountHint | src/plugin/ui/auth-menu.ts:158-160 | (function; its property is AccountHintShown) |
| AuthMenu.AccountEntry | src/plugin/ui/auth-menu.ts:141-162 | (function; its properties are AccountEntrySortsFamilies and the label and hint lemmas) |
| AuthMenu.AccountEntrySortsFamilies | src/plugin/ui/auth-menu.ts:141-162 | the entry shows the account's label and holds the account itself, whose families getStatusBadge has sorted in place (a sorted permutation) on the active and rate-limited paths; nothing else in the account changes, and the label is the same before and after the sort |
| AuthMenuTest.StatusBadgeCopy | src/plugin/ui/auth-menu.test.ts:46-76 | (function; its property is StatusBadgeCopyAgrees) |
| AuthMenuTest.StatusBadgeCopyAgrees | src/plugin/ui/auth-menu.test.ts:46-76 | the test file's copy agrees with getStatusBadge on every status except verification-required, where it gives "" |
| AuthMenuTest.RelativeTimeDays | src/plugin/ui/auth-menu.test.ts:80-98 | undefined gives "never", the same day "today", one day "yesterday", 2 and 6 days "2d ago" and "6d ago" |
| AuthMenuTest.RelativeTimeWeeks | src/plugin/ui/auth-menu.test.ts:99-110 | 7, 14 and 28 days give "1w ago", "2w ago" and "4w ago"; 60 days give the locale date |
| AuthMenuTest.RelativeTimeOldDate | src/plugin/ui/auth-menu.test.ts:105-110 | 60 days back gives the locale text, so (for locale text that is neither) the result is not "never" and holds no "ago" |
| AuthMenuTest.FormatDateExpectations | src/plugin/ui/auth-menu.test.ts:113-123 | undefined gives "unknown"; a present timestamp gives the locale text, which is not "unknown" |
| AuthMenuTest.CountdownExpectationsSeconds | src/plugin/ui/auth-menu.test.ts:126-135 | 0 and -1000 give "now", 30000 gives "30s", 1000 gives "1s" |
| AuthMenuTest.CountdownExpectationsMinutes | src/plugin/ui/auth-menu.test.ts:136-141 | 1, 5 and 59 minutes give "1m", "5m" and "59m" |
| AuthMenuTest.CountdownExpectationsWholeHours | src/plugin/ui/auth-menu.test.ts:142-146 | 1 and 2 hours give "1h" and "2h" |
| AuthMenuTest.CountdownExpectationsHoursMinutes | src/plugin/ui/auth-menu.test.ts:148 | 2h30m gives "2h30m" |
| AuthMenuTest.CountdownExpectationsHourQuarter | src/plugin/ui/auth-menu.test.ts:149 | 1h15m gives "1h15m" |
| AuthMenuTest.CountdownRoundsUp | src/plugin/ui/auth-menu.test.ts:23 | partial seconds round up: 1 ms gives "1s", 1001 ms "2s", 9000 ms "9s" |
| AuthMenuTest.CountdownDropsSeconds | src/plugin/ui/auth-menu.test.ts:23-29 | leftover seconds are dropped from a minute on: 150000 ms gives "2m", 5400000 ms "1h30m" |
| AuthMenuTest.SortTwo | src/plugin/ui/auth-menu.test.ts:202-210 | both orders of claude and gemini sort to [claude, gemini] |
| AuthMenuTest.ActiveWithoutLimits | src/plugin/ui/auth-menu.test.ts:154-159 | active with no families is exactly the green "[active]" badge |
| AuthMenuTest.ActiveOneFamily | src/plugin/ui/auth-menu.test.ts:161-177 | an active account with one family f and a non-zero reset shows "[active] [f: limited, resets in <countdown>]" |
| AuthMenuTest.ActiveClaudeCountdown | src/plugin/ui/auth-menu.test.ts:161-169 | claude with 2h30m left shows "[claude: limited, resets in 2h30m]" |
| AuthMenuTest.ActiveGeminiCountdown | src/plugin/ui/auth-menu.test.ts:171-177 | gemini with 45 minutes left shows "[gemini: limited, resets in 45m]" |
| AuthMenuTest.ActiveWithoutResetIn | src/plugin/ui/auth-menu.test.ts:179-184 | without resetIn the tag is "[claude: limited]", with no "resets in" |
| AuthMenuTest.RateLimitedBothFamilies | src/plugin/ui/auth-menu.test.ts:186-194 | both families exhausted gives "[rate-limited: claude resets in 30m, gemini resets in 1h]" |
| AuthMenuTest.RateLimitedWithoutFamilies | src/plugin/ui/auth-menu.test.ts:196-200 | rate-limited without families is the generic "[rate-limited]" badge, with no ':' |
| AuthMenuTest.ActiveTwoFamilies | src/plugin/ui/auth-menu.test.ts:202-210 | an active account whose families sort to [f, g] shows f's tag, then g's |
| AuthMenuTest.ActiveSortsFamilies | src/plugin/ui/auth-menu.test.ts:202-210 | families given as [gemini, claude] show claude's tag first |
| AuthMenuTest.OtherStatuses | src/plugin/ui/auth-menu.test.ts:212-221 | expired gives the red "[expired]" badge; unknown and undefined give "" |
| AuthMenuTest.RateLimitedTwoFamilies | src/plugin/ui/auth-menu.test.ts:248-255 | families that sort to [f, g] are listed as "f resets in cf, g resets in cg" |
| AuthMenuTest.TwoFamilyNotes | src/plugin/ui/auth-menu.test.ts:248-255 | claude (30 min) and gemini (1 h) are listed claude first, in either given order |
| AuthMenuTest.GenericBadges | src/plugin/ui/auth-menu.test.ts:225-235 | empty and undefined families both give the generic badge, which has no ':' |
| AuthMenuTest.DetailedOneFamily | src/plugin/ui/auth-menu.test.ts:237-240 | one family with a non-zero reset gives "[rate-limited: f resets in <countdown>]" |
| AuthMenuTest.DetailedWithCountdown | src/plugin/ui/auth-menu.test.ts:237-240 | claude with 5400000 ms gives "[rate-limited: claude resets in 1h30m]" |
| AuthMenuTest.DetailedWithoutCountdown | src/plugin/ui/auth-menu.test.ts:242-246 | without resetIn the badge is "[rate-limited: claude]" |
| AuthMenuTest.DetailedSortedTwoFamilies | src/plugin/ui/auth-menu.test.ts:248-255 | [gemini, claude] with 1 h and 30 min is listed claude first with both countdowns |
| QuotaFallback.Rank | src/plugin/quota-fallback.test.ts:37-74 | each style has one position in the preference order given by cliFirst |
| QuotaFallback.HeaderStyleFor | src/plugin/quota-fallback.test.ts:78-116 | (function; its properties are HeaderStyleRules and HeaderStyleCases) |
| QuotaFallback.ResolveQuotaFallback | src/plugin/quota-fallback.test.ts:37-74 | a fallback happens only with fallback on and no pinned quota; it is the given alternate style, differs from the current style and is the next style in the preference order |
| QuotaFallback.HeaderStyleRules | src/plugin/quota-fallback.test.ts:78-116 | the antigravity- prefix wins over every flag, Claude always uses antigravity, and an unprefixed Gemini model uses gemini-cli exactly when cliFirst is set |
| QuotaFallback.FallbackIffPreferred | src/plugin/quota-fallback.test.ts:37-74 | with fallback on, Gemini falls back to the other style exactly when its current style is the preferred one |
| QuotaFallback.FallbackNeverLoops | src/plugin/quota-fallback.test.ts:50-61 | after one fallback, falling back again towards the original style gives nothing |
| QuotaFallback.OneFallbackHop | src/plugin/quota-fallback.test.ts:37-96 | an unprefixed Gemini request starts in the preferred style, may fall back once to the other, and no further |
| QuotaFallback.FallbackCases | src/plugin/quota-fallback.test.ts:37-74 | the three asserted fallback cases: gemini-cli to antigravity, none from antigravity, antigravity to gemini-cli |
| QuotaFallback.HeaderStyleCases | src/plugin/quota-fallback.test.ts:78-116 | the four asserted header-style cases |
| UpdateConfig.WithoutPublished | update-config.cjs:33 | an entry is kept exactly when it was present and is not one of the two published names |
| UpdateConfig.UpdatedPlugins | update-config.cjs:28-38 | (function; its properties are UpdatedPluginsContents, UpdatedPluginsNoNewDuplicate and UpdateIdempotent) |
| UpdateConfig.Config.EnsureLocalPlugin | update-config.cjs:27-38 | only the plugin field changes, and it becomes the updated plugin list |
| UpdateConfig.RunUpdate | update-config.cjs:14-41 | a missing or unparseable file gives {"plugin": [path]}; an object gets its updated plugin list and keeps its other keys; an array is written back as it was; null and other primitives end in a TypeError |
| UpdateConfig.WithoutPublishedAppend | update-config.cjs:33 | the filter distributes over concatenation, so kept entries keep their relative order |
| UpdateConfig.WithoutPublishedCounts | update-config.cjs:33 | every copy of a published name is dropped and every copy of anything else is kept |
| UpdateConfig.UpdatedPluginsContents | update-config.cjs:28-38 | the path is present; no published name is left (unless the path is one); the kept entries come first in order, with at most the path appended; a missing or non-array field gives [path] |
| UpdateConfig.UpdatedPluginsNoNewDuplicate | update-config.cjs:35-38 | the path's count becomes 1 if it was 0 and otherwise stays the same, so no new duplicate is created |
| UpdateConfig.WithoutPublishedIdempotent | update-config.cjs:33 | filtering twice is filtering once |
| UpdateConfig.UpdateIdempotent | update-config.cjs:28-38 | updating the updated list gives the same list, for every path |
| UpdateConfig.RunTwiceSameList | update-config.cjs:28-41 | running the script on its own output writes the same config |
| UpdateConfig.PluginPathNotPublished | update-config.cjs:7 | the script's local path is not one of the published names |
| Text.ParseNatToString | src/plugin/ui/auth-menu.ts:64-67 | a decimal numeral reads back as its number |
| Text.SplitAfterDigits | src/plugin/ui/auth-menu.ts:64 | in "{h}h{m}", the first 'h' is the one after the hours |
| StringOrder.SortSpec | src/plugin/ui/auth-menu.ts:77 | the sort yields a sorted permutation of its input |
| StringOrder.SortedUnique | src/plugin/ui/auth-menu.ts:77 | two sorted permutations of the same list are equal |
| StringOrder.SortInPlace | src/plugin/ui/auth-menu.ts:77 | the array is left holding the sorted contents it had |
| FixTypo.ReplaceAllIsScan | fix-typo.cjs:24 | split(key).join(fix) equals a left-to-right scan that replaces each non-overlapping occurrence of the key |
| FixTypo.Split | fix-typo.cjs:24 | (function; its property is SplitJoinRoundTrip, and ReplaceAllIsScan through ReplaceAll) |
| FixTypo.ReplaceAll | fix-typo.cjs:24 | (function; its properties are ReplaceAllIsScan, ScanWithoutKey and ScanLeavesNoKey) |
| FixTypo.ApplyTable | fix-typo.cjs:23-25 | (function; its properties are ApplyTableWithoutKeys, RewriteRemovesTypo and RewriteIdempotent) |
| FixTypo.SplitJoinRoundTrip | fix-typo.cjs:24 | joining the pieces with the separator they were split on gives the original text |
| FixTypo.ScanSelf | fix-typo.cjs:24 | replacing a key by itself changes nothing |
| FixTypo.ScanWithoutKey | fix-typo.cjs:23-25 | text without the key is left unchanged |
| FixTypo.ScanLeavesNoKey | fix-typo.cjs:24 | when no key can straddle the replacement's boundary, no occurrence of the key is left |
| FixTypo.RewriteContent | fix-typo.cjs:21-25 | the content after the loop is each table entry applied in turn to the previous output |
| FixTypo.ApplyTableWithoutKeys | fix-typo.cjs:23-25 | content holding none of the table's keys comes out unchanged |
| FixTypo.TypoTableNoNewKey | fix-typo.cjs:4-6 | the replacement "gemini-3.1-pro" cannot recreate "gemini-3-1-pro" across its boundary |
| FixTypo.RewriteRemovesTypo | fix-typo.cjs:4-6 | after the rewrite no "gemini-3-1-pro" is left |
| FixTypo.RewriteIdempotent | fix-typo.cjs:23-30 | rewriting rewritten content changes nothing, so a second run writes no file |
| FixTypo.MjsOnlyByItsOwnTest | fix-typo.cjs:19 | a .mjs path passes the filter through the .mjs test alone, since it ends in none of the other four extensions |
| FixTypo.Skipped | fix-typo.cjs:11 | (predicate; its role in the walk is stated by FilesSound and FilesComplete) |
| FixTypo.Rewritable | fix-typo.cjs:19 | (predicate; its role in the walk is stated by RewritesMembership, WalkWritesSound and WalkWritesComplete) |
| FixTypo.RewritesUnder | fix-typo.cjs:13-17 | the writes in a subdirectory are the writes of walking it from its joined path |
| FixTypo.WalkDir | fix-typo.cjs:8-34 | the walk performs, in order, the writes of the reference description of the visited files |
| FixTypo.FilesSound | fix-typo.cjs:10-17 | every visited file is reachable in the tree through no skipped name |
| FixTypo.FilesComplete | fix-typo.cjs:10-17 | every file reachable through no skipped name is visited |
| FixTypo.RewritesMembership | fix-typo.cjs:19-30 | a (path, content) pair is written exactly when a visited file has a rewritable path and the table changes its content into that content |
| FixTypo.WalkWritesSound | fix-typo.cjs:8-36 | every write is for a reachable, unskipped, rewritable file whose content changed; the written content holds no typo and rewriting it again changes nothing |
| FixTypo.WalkWritesComplete | fix-typo.cjs:8-36 | every reachable, unskipped, rewritable file whose content the table changes is written with the rewritten content |

## Left out

- The interactive loops of `showAuthMenu` and `showAccountDetails` (src/plugin/ui/auth-menu.ts:175-192, 195-253) are left out. They await `select` and `confirm` prompts from a terminal library that is not part of this model. Only the account entries of `showAuthMenu` (src/plugin/ui/auth-menu.ts:141-162) are modelled. Its fixed menu items (121-137, 165-173) are left out, and so is everything `showAccountDetails` builds (198-233).
- AuthMenu.AccountEntry: the sorted families are returned in the entry's account value. That this is the same object as the caller's `accounts` element, which therefore changes too, is aliasing the value model does not capture.
- The terminal colour module is not part of this model. Its codes are taken to be the standard SGR escape sequences.
- The locale text of `toLocaleDateString` is left out because it is locale library output. formatDate and the 30-days-or-more branch of formatRelativeTime return it as a `localeDate` parameter, and `Date.now()` is the `now` parameter.
- AuthMenu.FormatRelativeTime, AuthMenu.FormatCountdown: JavaScript numbers are modelled as integers. Fractional, NaN and infinite timestamps or durations are not modelled. Integers are also unbounded, whereas JavaScript numbers lose integer precision above 2^53 and `${n}` switches to exponent notation from 1e21; both are far beyond any timestamp or duration in milliseconds.
- The implementations of `getHeaderStyleFromUrl` and `resolveQuotaFallbackHeaderStyle` are not part of this model, and neither is their URL parsing. The model takes the URL's model id as input. QuotaFallback.HeaderStyleFor and QuotaFallback.ResolveQuotaFallback agree with every asserted case, but their untested branches are assumptions.
- The module mocking in src/plugin/quota-fallback.test.ts:22-34 is test set-up and is left out.
- test-payload.ts is a demo that calls a request transformer which is not part of this model.
- File reading and writing, `os.homedir`, `JSON.parse`/`JSON.stringify` text and console output in both scripts are left out. Reading a config file is the `ConfigFile` input, and a walk is a `Node` tree listed in `readdirSync` order.
- UpdateConfig.Json: JSON numbers are integers, and object key order is not kept.
- StringOrder.Below: the default sort compares UTF-16 code units. The model compares `char` values, which agree with it on code points below U+10000.
- AuthMenu.HasReset: `resetIn[f]` on a family named like an `Object.prototype` member (e.g. "constructor") is not modelled.
- FixTypo.JoinPath: `path.join` normalisation is modelled only for the starting directory "." and for names read from a directory. Symbolic links, special files and read errors are not modelled.
- Concurrency is not modelled: two runs of a script against the same files are out of scope.
