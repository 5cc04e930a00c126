/** What happens around a displayed message: which action a click dispatches
    and whether the message is reported consumed. */
module InAppActions {
  import opened InAppMessages

  /** Click data with this prefix names a custom action. */
  const CustomActionScheme := "itbl://"

  /** The action a click dispatches, with the in-app message as its source. */
  datatype Action = CustomAction(name: string) | OpenUrl(url: Option<string>)

  function ClickAction(data: Option<string>): (a: Action)
    ensures a.CustomAction? <==> data.Some? && |data.value| >= 7 && data.value[..7] == "itbl://"
    ensures a.CustomAction? ==> a.name == data.value
    ensures a.OpenUrl? ==> a.url == data
  {
    if data.Some? && CustomActionScheme <= data.value then CustomAction(data.value) else OpenUrl(data)
  }

  /** Data without the prefix, including none at all, opens a URL. */
  lemma ClickWithoutSchemeOpensUrl(data: Option<string>)
    requires data.None? || !(CustomActionScheme <= data.value)
    ensures ClickAction(data) == OpenUrl(data)
  {
  }

  /** The consume rule as the code is written: `consume` is not consulted, so a
      display that succeeded is always reported consumed. */
  function ConsumesAsWritten(consume: bool, hasActivity: bool, displayed: bool): bool
  {
    hasActivity && displayed
  }

  /** Asking not to consume still consumes under the rule as written. */
  lemma ConsumeFlagIgnored()
    ensures ConsumesAsWritten(false, true, true)
  {
  }

  /** The consume rule as intended: the rule as written, but only when the
      caller asked to consume. */
  function Consumes(consume: bool, hasActivity: bool, displayed: bool): (r: bool)
    ensures r <==> consume && ConsumesAsWritten(consume, hasActivity, displayed)
  {
    consume && hasActivity && displayed
  }

  /** Under the intended rule, asking not to consume is never reported consumed;
      when consuming is asked for, which the one-argument `showMessage` does,
      the intended rule and the rule as written agree. */
  lemma ConsumeRule(consume: bool, hasActivity: bool, displayed: bool)
    ensures !consume ==> !Consumes(consume, hasActivity, displayed)
    ensures Consumes(true, hasActivity, displayed) == ConsumesAsWritten(true, hasActivity, displayed)
  {
  }
}
