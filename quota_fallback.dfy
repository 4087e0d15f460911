/** The two header-style decisions whose input/output contracts are pinned
    by src/plugin/quota-fallback.test.ts: the style a request starts with
    (getHeaderStyleFromUrl) and the style a quota-exhausted request falls
    back to (resolveQuotaFallbackHeaderStyle). Their implementations are
    not part of this model. The rules below reproduce every case the tests
    assert; each rule for a branch the tests leave open is marked
    ASSUMPTION. The model-id segment of the URL is taken as input instead
    of being parsed out of the URL. */
module QuotaFallback {
  import opened Text

  datatype HeaderStyle = Antigravity | GeminiCli
  datatype ModelFamily = Gemini | Claude

  /** The model-id prefix that pins the antigravity dialect. */
  const ExplicitPrefix := "antigravity-"

  function Other(style: HeaderStyle): HeaderStyle
  {
    if style == Antigravity then GeminiCli else Antigravity
  }

  /** getHeaderStyleFromUrl on the model id of the URL.
      ASSUMPTION: an absent cliFirst behaves as false; the tests always pass
      it explicitly. */
  function HeaderStyleFor(modelId: string, family: ModelFamily, cliFirst: bool): HeaderStyle
  {
    if StartsWith(modelId, ExplicitPrefix) then Antigravity
    // ASSUMPTION: the tests only show Claude with cliFirst set; Claude is
    // taken to have no gemini-cli dialect at all.
    else if family == Gemini && cliFirst then GeminiCli
    else Antigravity
  }

  /** The order in which styles are tried: gemini-cli first when cliFirst. */
  function Preference(cliFirst: bool): seq<HeaderStyle>
  {
    if cliFirst then [GeminiCli, Antigravity] else [Antigravity, GeminiCli]
  }

  /** The position of `style` in the preference order. */
  function Rank(style: HeaderStyle, cliFirst: bool): (k: nat)
    ensures k < 2 && Preference(cliFirst)[k] == style
  {
    match (style, cliFirst)
    case (GeminiCli, true) => 0
    case (Antigravity, true) => 1
    case (Antigravity, false) => 0
    case (GeminiCli, false) => 1
  }

  /** resolveQuotaFallbackHeaderStyle: the style to retry with, or None when
      the call should not fall back. */
  function ResolveQuotaFallback(quotaFallback: bool, cliFirst: bool, explicitQuota: bool,
                                family: ModelFamily, headerStyle: HeaderStyle,
                                alternateStyle: Option<HeaderStyle>): (r: Option<HeaderStyle>)
    ensures r.Some? ==> quotaFallback && !explicitQuota && r == alternateStyle && r.value != headerStyle
    ensures r.Some? ==> Rank(r.value, cliFirst) == Rank(headerStyle, cliFirst) + 1
  {
    // ASSUMPTION: fallback switched off, a pinned dialect or no alternate
    // style never falls back; the tests only exercise the other branch.
    if !quotaFallback || explicitQuota || alternateStyle.None? then None
    // ASSUMPTION: a family without a gemini-cli dialect does not fall back.
    else if family == Claude then None
    // Fallback moves one step down the preference order, never back up.
    // ASSUMPTION: the tests show this only for cliFirst with antigravity as
    // the current style; Gemini with cliFirst unset and gemini-cli current
    // is taken to give null as well, and so is an alternate style equal to
    // the current one.
    else if Rank(headerStyle, cliFirst) == 0 && alternateStyle.value != headerStyle then alternateStyle
    else None
  }

  // ---------------------------------------------------------------------
  // General properties.

  /** An explicit antigravity- prefix wins over every flag, Claude always
      uses antigravity, and an unprefixed Gemini model uses gemini-cli
      exactly when cliFirst is set. */
  lemma HeaderStyleRules(modelId: string, family: ModelFamily, cliFirst: bool)
    ensures StartsWith(modelId, ExplicitPrefix) ==> HeaderStyleFor(modelId, family, cliFirst) == Antigravity
    ensures family == Claude ==> HeaderStyleFor(modelId, family, cliFirst) == Antigravity
    ensures family == Gemini && !StartsWith(modelId, ExplicitPrefix) ==>
      (HeaderStyleFor(modelId, family, cliFirst) == GeminiCli <==> cliFirst)
  {
  }

  /** For Gemini with fallback enabled and not pinned, a fallback to the
      other style happens exactly when the current style is the preferred one. */
  lemma FallbackIffPreferred(cliFirst: bool, headerStyle: HeaderStyle)
    ensures ResolveQuotaFallback(true, cliFirst, false, Gemini, headerStyle, Some(Other(headerStyle))).Some?
        <==> headerStyle == Preference(cliFirst)[0]
  {
  }

  /** Fallback never cycles: after falling back, falling back again (with the
      original style as the alternate) gives nothing. */
  lemma FallbackNeverLoops(quotaFallback: bool, cliFirst: bool, explicitQuota: bool,
                           family: ModelFamily, headerStyle: HeaderStyle,
                           alternateStyle: Option<HeaderStyle>)
    ensures var r := ResolveQuotaFallback(quotaFallback, cliFirst, explicitQuota, family, headerStyle, alternateStyle);
      r.Some? ==> ResolveQuotaFallback(quotaFallback, cliFirst, explicitQuota, family, r.value, Some(headerStyle)).None?
  {
    var r := ResolveQuotaFallback(quotaFallback, cliFirst, explicitQuota, family, headerStyle, alternateStyle);
    if r.Some? {
      assert Rank(r.value, cliFirst) == 1;
    }
  }

  /** A Gemini request without an explicit prefix starts in the preferred
      style, may fall back once to the other one, and no further. */
  lemma OneFallbackHop(modelId: string, cliFirst: bool)
    requires !StartsWith(modelId, ExplicitPrefix)
    ensures var first := HeaderStyleFor(modelId, Gemini, cliFirst);
      && first == Preference(cliFirst)[0]
      && ResolveQuotaFallback(true, cliFirst, false, Gemini, first, Some(Other(first))) == Some(Other(first))
      && ResolveQuotaFallback(true, cliFirst, false, Gemini, Other(first), Some(first)).None?
  {
  }

  // ---------------------------------------------------------------------
  // The asserted cases.

  lemma FallbackCases()
    ensures ResolveQuotaFallback(true, true, false, Gemini, GeminiCli, Some(Antigravity)) == Some(Antigravity)
    ensures ResolveQuotaFallback(true, true, false, Gemini, Antigravity, Some(GeminiCli)) == None
    ensures ResolveQuotaFallback(true, false, false, Gemini, Antigravity, Some(GeminiCli)) == Some(GeminiCli)
  {
  }

  lemma HeaderStyleCases()
    ensures HeaderStyleFor("gemini-3-flash", Gemini, true) == GeminiCli
    ensures HeaderStyleFor("gemini-3-flash", Gemini, false) == Antigravity
    ensures HeaderStyleFor("antigravity-gemini-3-flash", Gemini, true) == Antigravity
    ensures HeaderStyleFor("claude-sonnet-4-5-thinking", Claude, true) == Antigravity
  {
    assert "gemini-3-flash"[..|ExplicitPrefix|] != ExplicitPrefix by {
      assert "gemini-3-flash"[0] != ExplicitPrefix[0];
    }
    assert "antigravity-gemini-3-flash"[..|ExplicitPrefix|] == ExplicitPrefix;
  }
}
