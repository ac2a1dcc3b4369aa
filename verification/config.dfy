/**
 * Configuration validation: the create_user_for_contacts transition needs
 * token login enabled and a non-empty `app_url`; when an enabled transition's
 * precondition fails, a configuration error is reported for it and
 * transitions stay disabled until the configuration is fixed.
 */
module Config {
  import opened Model

  const TransitionName: string := "create_user_for_contacts"

  datatype ConfigError = TokenLoginDisabled | AppUrlMissing

  /** The configuration errors the settings produce, in reporting order. */
  function ConfigErrors(s: Settings): (errs: seq<ConfigError>)
    ensures TokenLoginDisabled in errs <==> s.createUserForContacts && !s.tokenLoginEnabled
    ensures AppUrlMissing in errs <==> s.createUserForContacts && s.appUrl == ""
    ensures forall i, j :: 0 <= i < j < |errs| ==> errs[i] != errs[j]
  {
    if !s.createUserForContacts then []
    else
      (if s.tokenLoginEnabled then [] else [TokenLoginDisabled])
      + (if s.appUrl == "" then [AppUrlMissing] else [])
  }

  /** Whether the transition runs at all under these settings. */
  predicate TransitionActive(s: Settings) {
    s.createUserForContacts && ConfigErrors(s) == []
  }

  /** The transition is active exactly when it is enabled and both of its preconditions hold. */
  lemma ActiveIffEnabledAndValid(s: Settings)
    ensures TransitionActive(s) <==> s.createUserForContacts && s.tokenLoginEnabled && s.appUrl != ""
  {
    if s.createUserForContacts && !TransitionActive(s) {
      assert ConfigErrors(s) != [];
      var e := ConfigErrors(s)[0];
      assert e in ConfigErrors(s);
    }
  }
}
