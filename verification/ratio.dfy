/** `applyRatio` of the container directive: resolves the `vjs-ratio`
    attribute to a `w/h` pair, parses it into a `padding-top` percentage, and
    stamps a generated id on the directive element so the injected style rule
    applies to this instance only. */
module Ratio {
  import opened Outcomes
  import opened Dom
  import opened Decimal
  import Text

  const WideRatio: string := "16/9"
  const StandardRatio: string := "4/3"

  /** Class of the element video.js renders for the playback technology. */
  const TechClass: string := "vjs-tech"
  const ContainerIdPrefix: string := "vjs-container-"

  /** What the injected style rule says: `#<containerId> .video-js` gets
      `padding-top: <paddingTop>%` (and `.vjs-fullscreen` gets none). */
  datatype StyleRule = StyleRule(containerId: string, paddingTop: real)

  /** A missing or empty ratio means wide screen; `wide` and `standard` are
      aliases; anything else is passed on to the parser unchanged. */
  function ResolveRatio(ratio: Option<string>): (r: string)
    ensures ratio in {None, Some(""), Some("wide")} ==> r == WideRatio
    ensures ratio == Some("standard") ==> r == StandardRatio
    ensures ratio.Some? && ratio.value !in {"", "wide", "standard"} ==> r == ratio.value
  {
    var given := if ratio.None? || ratio.value == "" then WideRatio else ratio.value;
    if given == "wide" then WideRatio
    else if given == "standard" then StandardRatio
    else given
  }

  /** `parseRatio`: split on `/`; reject a token count other than 2, then a
      non-numeric token (same error), then a zero token (its own error);
      otherwise `(h / w) * 100`. */
  function ParseRatio(r: string): (p: Result<real>)
    ensures p.Err? ==> p.error in {RatioFormat, RatioZero}
    ensures p.Ok? ==> p.value != 0.0
  {
    var tokens := Text.Split(r, '/');
    if |tokens| != 2 then Err(RatioFormat)
    else if !IsNumericToken(tokens[0]) || !IsNumericToken(tokens[1]) then Err(RatioFormat)
    else if TokenValue(tokens[0]) == 0.0 || TokenValue(tokens[1]) == 0.0 then Err(RatioZero)
    else
      var w, h := TokenValue(tokens[0]), TokenValue(tokens[1]);
      NonZeroPercentage(h, w);
      Ok((h / w) * 100.0)
  }

  lemma NonZeroPercentage(h: real, w: real)
    requires h != 0.0 && w != 0.0
    ensures (h / w) * 100.0 != 0.0
  {
    assert (h / w) * w == h;
  }

  /** `r` is `w/h` with the lone `/` at `k` and two numeric tokens. */
  ghost predicate WellFormedAt(r: string, k: int) {
    Text.LoneSeparatorAt(r, '/', k) && IsNumericToken(r[..k]) && IsNumericToken(r[k + 1..])
  }

  /** The format error is raised exactly when `r` is not a single `/`
      between two numeric tokens. */
  lemma ParseRatioFormatIff(r: string)
    ensures ParseRatio(r) == Err(RatioFormat) <==> !exists k :: WellFormedAt(r, k)
  {
    Text.TwoPieces(r, '/');
    var tokens := Text.Split(r, '/');
    if exists k :: WellFormedAt(r, k) {
      var k :| WellFormedAt(r, k);
      assert tokens == [r[..k], r[k + 1..]];
    }
    if ParseRatio(r) != Err(RatioFormat) {
      var k :| Text.LoneSeparatorAt(r, '/', k);
      assert tokens == [r[..k], r[k + 1..]];
      assert WellFormedAt(r, k);
    }
  }

  /** The zero error is raised exactly when `r` is well formed and one of
      its tokens has only zero digits; well-formedness is checked first. */
  lemma ParseRatioZeroIff(r: string)
    ensures ParseRatio(r) == Err(RatioZero) <==>
            exists k :: WellFormedAt(r, k) && (AllZeroDigits(r[..k]) || AllZeroDigits(r[k + 1..]))
  {
    Text.TwoPieces(r, '/');
    if exists k :: WellFormedAt(r, k) {
      var k :| WellFormedAt(r, k);
      assert Text.Split(r, '/') == [r[..k], r[k + 1..]];
      ZeroIff(r[..k]);
      ZeroIff(r[k + 1..]);
    } else {
      ParseRatioFormatIff(r);
    }
  }

  /** A well-formed ratio with non-zero tokens parses to height over width
      times 100; it is positive when neither token carries a minus sign. */
  lemma ParseRatioValue(r: string, k: int)
    requires WellFormedAt(r, k)
    requires !AllZeroDigits(r[..k]) && !AllZeroDigits(r[k + 1..])
    ensures TokenValue(r[..k]) != 0.0 && TokenValue(r[k + 1..]) != 0.0
    ensures ParseRatio(r) == Ok((TokenValue(r[k + 1..]) / TokenValue(r[..k])) * 100.0)
    ensures !IsNegative(r[..k]) && !IsNegative(r[k + 1..]) ==> ParseRatio(r).value > 0.0
  {
    var wt, ht := r[..k], r[k + 1..];
    Text.TwoPieces(r, '/');
    assert Text.Split(r, '/') == [wt, ht];
    ZeroIff(wt);
    ZeroIff(ht);
    ParseRatioOfTokens(r, wt, ht);
    if !IsNegative(wt) && !IsNegative(ht) {
      PositiveIff(wt);
      PositiveIff(ht);
      PositiveQuotient(TokenValue(ht), TokenValue(wt));
    }
  }

  lemma ParseRatioOfTokens(r: string, wt: string, ht: string)
    requires Text.Split(r, '/') == [wt, ht]
    requires IsNumericToken(wt) && IsNumericToken(ht)
    requires TokenValue(wt) != 0.0 && TokenValue(ht) != 0.0
    ensures ParseRatio(r) == Ok((TokenValue(ht) / TokenValue(wt)) * 100.0)
  {
  }

  lemma PositiveQuotient(h: real, w: real)
    requires h > 0.0 && w > 0.0
    ensures (h / w) * 100.0 > 0.0
  {
    assert h / w > 0.0;
  }

  /** Rendering two positive whole numbers as `w/h` and parsing the result
      gives back `h / w * 100`. */
  lemma ParseRatioRoundTrip(w: nat, h: nat)
    requires w > 0 && h > 0
    ensures ParseRatio(NatToString(w) + "/" + NatToString(h)) == Ok((h as real / w as real) * 100.0)
  {
    var a, b := NatToString(w), NatToString(h);
    var r := a + "/" + b;
    NatTokenRoundTrip(w);
    NatTokenRoundTrip(h);
    SlashFree(a);
    SlashFree(b);
    JoinedAtSlash(a, b);
    ZeroIff(a);
    ZeroIff(b);
    ParseRatioValue(r, |a|);
  }

  /** `a + "/" + b` with slash-free `a`, `b` has its lone `/` right after `a`. */
  lemma JoinedAtSlash(a: string, b: string)
    requires '/' !in a && '/' !in b
    ensures Text.LoneSeparatorAt(a + "/" + b, '/', |a|)
    ensures (a + "/" + b)[..|a|] == a && (a + "/" + b)[|a| + 1..] == b
  {
    var r := a + "/" + b;
    assert r[..|a|] == a;
    assert r[|a| + 1..] == b;
  }

  lemma SlashFree(s: string)
    requires AllDigits(s)
    ensures '/' !in s
  {
  }

  lemma WideIs5625()
    ensures ParseRatio(WideRatio) == Ok(56.25)
  {
    WideRendered();
    ParsesRendered(WideRatio, 16, 9, 56.25);
  }

  lemma ParsesRendered(r: string, w: nat, h: nat, p: real)
    requires w > 0 && h > 0 && r == NatToString(w) + "/" + NatToString(h)
    requires p * w as real == 100.0 * h as real
    ensures ParseRatio(r) == Ok(p)
  {
    ParseRatioRoundTrip(w, h);
    PercentageOf(h, w, p);
  }

  lemma PercentageOf(h: nat, w: nat, p: real)
    requires w > 0 && p * w as real == 100.0 * h as real
    ensures (h as real / w as real) * 100.0 == p
  {
    var hr, wr := h as real, w as real;
    var q := hr / wr;
    assert q * wr == hr;
    assert (q * 100.0) * wr == 100.0 * (q * wr);
    Cancel(q * 100.0, p, wr);
  }

  lemma Cancel(a: real, b: real, c: real)
    requires c > 0.0 && a * c == b * c
    ensures a == b
  {
  }

  lemma WideRendered()
    ensures NatToString(16) + "/" + NatToString(9) == WideRatio
  {
    SixteenRendered();
    assert NatToString(9) == ['9'];
  }

  lemma SixteenRendered()
    ensures NatToString(16) == ['1', '6']
  {
    assert 16 / 10 == 1 && 16 % 10 == 6;
    assert DigitChar(1) == '1' && DigitChar(6) == '6';
    assert NatToString(1) == ['1'];
  }

  lemma StandardIs75()
    ensures ParseRatio(StandardRatio) == Ok(75.0)
  {
    StandardRendered();
    ParsesRendered(StandardRatio, 4, 3, 75.0);
  }

  lemma StandardRendered()
    ensures NatToString(4) + "/" + NatToString(3) == StandardRatio
  {
    assert NatToString(4) == ['4'];
    assert NatToString(3) == ['3'];
  }

  /** A missing or empty ratio, `wide` and `16/9` give the same padding,
      56.25%; `standard` and `4/3` give the same padding, 75%. */
  lemma AliasesAgree()
    ensures ParseRatio(ResolveRatio(None)) == Ok(56.25)
    ensures ParseRatio(ResolveRatio(Some(""))) == Ok(56.25)
    ensures ParseRatio(ResolveRatio(Some("wide"))) == Ok(56.25)
    ensures ParseRatio(ResolveRatio(Some("16/9"))) == Ok(56.25)
    ensures ParseRatio(ResolveRatio(Some("standard"))) == Ok(75.0)
    ensures ParseRatio(ResolveRatio(Some("4/3"))) == Ok(75.0)
  {
    assert ResolveRatio(None) == WideRatio;
    assert ResolveRatio(Some("")) == WideRatio;
    assert ResolveRatio(Some("wide")) == WideRatio;
    assert ResolveRatio(Some("16/9")) == WideRatio;
    assert ResolveRatio(Some("standard")) == StandardRatio;
    assert ResolveRatio(Some("4/3")) == StandardRatio;
    WideIs5625();
    StandardIs75();
  }

  /** `container.getAttribute('id')` concatenated to a string: a missing id
      reads as `null`. */
  function IdText(id: Option<string>): string {
    match id
    case Some(s) => s
    case None => "null"
  }

  /** `genContainerId`: the id derived from the first `.vjs-tech` element
      below `el`, or the error when video.js has not rendered one yet. */
  function GenContainerId(el: Element): (r: Result<string>)
    ensures r.Err? <==> forall d :: d in Descendants(el) ==> !HasClass(d, TechClass)
    ensures r.Err? ==> r.error == NoTechElement
    ensures r.Ok? ==> |r.value| >= |ContainerIdPrefix|
    ensures r.Ok? ==>
              exists i :: 0 <= i < |Descendants(el)| && HasClass(Descendants(el)[i], TechClass) &&
                (forall j :: 0 <= j < i ==> !HasClass(Descendants(el)[j], TechClass)) &&
                r.value[..|ContainerIdPrefix|] == ContainerIdPrefix &&
                r.value[|ContainerIdPrefix|..] == IdText(Descendants(el)[i].id)
  {
    match QueryClass(el, TechClass)
    case None =>
      Err(NoTechElement)
    case Some(tech) =>
      var id := ContainerIdPrefix + IdText(tech.id);
      assert id[..|ContainerIdPrefix|] == ContainerIdPrefix;
      assert id[|ContainerIdPrefix|..] == IdText(tech.id);
      Ok(id)
  }

  /** The directive element afterwards (it carries the generated id once one
      was generated, even if the ratio then fails) and the rule or error. */
  datatype RatioOutcome = RatioOutcome(element: Element, rule: Result<StyleRule>)

  /** `applyRatio`: the container id is generated before the ratio is parsed,
      so a missing `.vjs-tech` element is reported whatever the ratio. */
  function ApplyRatio(el: Element, ratio: Option<string>): (r: RatioOutcome)
    ensures GenContainerId(el).Err? ==> r == RatioOutcome(el, Err(NoTechElement))
    ensures GenContainerId(el).Ok? ==> r.element == el.(id := Some(GenContainerId(el).value))
    ensures r.rule.Ok? <==> GenContainerId(el).Ok? && ParseRatio(ResolveRatio(ratio)).Ok?
    ensures r.rule.Ok? ==>
              r.rule.value == StyleRule(GenContainerId(el).value, ParseRatio(ResolveRatio(ratio)).value)
    ensures GenContainerId(el).Ok? && r.rule.Err? ==> r.rule.error == ParseRatio(ResolveRatio(ratio)).error
  {
    match GenContainerId(el)
    case Err(e) => RatioOutcome(el, Err(e))
    case Ok(containerId) =>
      var stamped := el.(id := Some(containerId));
      match ParseRatio(ResolveRatio(ratio))
      case Err(e) => RatioOutcome(stamped, Err(e))
      case Ok(percentage) => RatioOutcome(stamped, Ok(StyleRule(containerId, percentage)))
  }
}
