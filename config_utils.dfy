// The deployment environment, named by the last dotted part of the Django settings module
// ("config.settings.prod" is "prod"). The environment variable is a parameter: None when it is unset.

module ConfigUtils {
  import opened Wrappers
  import opened Text

  /** `get_env`: the text after the last "." of DJANGO_SETTINGS_MODULE, all of it without a ".", "" when unset. */
  function GetEnv(settingsModule: Option<string>): (env: string)
    ensures settingsModule.None? ==> env == ""
    ensures settingsModule.Some? ==> EndsWith(settingsModule.value, env) && Free(env, '.')
    ensures settingsModule.Some? && Free(settingsModule.value, '.') ==> env == settingsModule.value
  {
    AfterLast(settingsModule.GetOr(""), '.')
  }

  /** A settings module path whose last part is `env` gives that environment. */
  lemma {:induction false} GetEnvOfPath(path: string, env: string)
    requires Free(env, '.')
    ensures GetEnv(Some(path + "." + env)) == env
  {
    RSplitOnceAt(path, '.', env);
  }

  predicate RunningDev(settingsModule: Option<string>) { GetEnv(settingsModule) == "dev" }
  predicate RunningProd(settingsModule: Option<string>) { GetEnv(settingsModule) == "prod" }
  predicate RunningStage(settingsModule: Option<string>) { GetEnv(settingsModule) == "stage" }

  /** At most one of dev, prod and stage is the running environment. */
  lemma AtMostOneEnvironment(settingsModule: Option<string>)
    ensures !(RunningDev(settingsModule) && RunningProd(settingsModule))
    ensures !(RunningDev(settingsModule) && RunningStage(settingsModule))
    ensures !(RunningProd(settingsModule) && RunningStage(settingsModule))
  {
  }

  /** "config.settings.prod" runs production, and "config.settings.dev" development. */
  lemma NamedEnvironments()
    ensures RunningProd(Some("config.settings.prod")) && !RunningDev(Some("config.settings.prod"))
    ensures RunningDev(Some("config.settings.dev")) && !RunningStage(Some("config.settings.dev"))
    ensures !RunningDev(None) && !RunningProd(None) && !RunningStage(None)
  {
    GetEnvOfPath("config.settings", "prod");
    assert "config.settings.prod" == "config.settings" + "." + "prod";
    GetEnvOfPath("config.settings", "dev");
    assert "config.settings.dev" == "config.settings" + "." + "dev";
  }
}
