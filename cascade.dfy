/**
 * getLazyValue: the one precedence rule every field handler defers to.
 * A CLI option wins; in lazy mode the lazy-defaults table comes next; the
 * caller's fallback comes last.
 */
module Cascade {
  import opened Values

  /**
   * What getLazyValue reads from the command object: the lazy flag (set
   * once from --lazy), the CLI options (an undefined option makes the
   * console library throw, which getLazyValue catches as null, so a name
   * missing from the map reads as Null) and the lazyDefaults table.
   */
  datatype Config = Config(lazy: bool, options: map<string, Value>, lazyDefaults: map<string, Value>)

  /** The installer's built-in lazyDefaults table. */
  const LazyDefaults: map<string, Value> := map[
    "debug" := Bool(false),
    "download_processwire" := Bool(true),
    "processwire_version" := Str("dev"),
    "download_rockfrontend" := Bool(false),
    "profile" := Str("site-blank"),
    "dbName" := Str("db"),
    "dbUser" := Str("db"),
    "dbPass" := Str("db"),
    "dbHost" := Str("db"),
    "dbCon" := Str("Hostname"),
    "dbPort" := Num(3306),
    "dbCharset" := Str("utf8mb4"),
    "dbEngine" := Str("InnoDB"),
    "dbTablesAction" := Str("remove"),
    "admin_name" := Str("adm"),
    "username" := Str("ddevadmin"),
    "userpass" := Str("ddevadmin"),
    "userpass_confirm" := Str("ddevadmin"),
    "useremail" := Str("admin@example.com"),
    "timezone" := Str("America/Bogota"),
    "debugMode" := Num(1)
  ]

  /** The value of a CLI option as option() reports it; Null when undefined. */
  function CliOption(c: Config, key: string): Value {
    if key in c.options then c.options[key] else Null
  }

  /** An option counts as given unless it is null or false. */
  predicate Given(v: Value) {
    v != Null && v != Bool(false)
  }

  /** getLazyValue($key, $default). */
  function LazyValue(c: Config, key: string, default: Value): (r: Value)
    ensures Given(CliOption(c, key)) ==> r == CliOption(c, key)
    ensures !Given(CliOption(c, key)) && c.lazy && key in c.lazyDefaults ==> r == c.lazyDefaults[key]
    ensures !Given(CliOption(c, key)) && !(c.lazy && key in c.lazyDefaults) ==> r == default
  {
    var cli := CliOption(c, key);
    if Given(cli) then cli
    else if c.lazy && key in c.lazyDefaults then c.lazyDefaults[key]
    else default
  }

  /** Outside lazy mode the table is never consulted. */
  lemma InteractiveIgnoresTable(c: Config, table: map<string, Value>, key: string, default: Value)
    requires !c.lazy
    ensures LazyValue(c, key, default) == LazyValue(c.(lazyDefaults := table), key, default)
  {
  }

  /** The result is always one of the three sources, never anything else. */
  lemma ValueComesFromASource(c: Config, key: string, default: Value)
    ensures var r := LazyValue(c, key, default);
            r == CliOption(c, key) || (key in c.lazyDefaults && r == c.lazyDefaults[key]) || r == default
  {
  }

  /**
   * Feeding the result back in as the fallback changes nothing, so the
   * second lookup the userpass handler makes is a no-op.
   */
  lemma LazyValueAbsorbs(c: Config, key: string, default: Value)
    ensures LazyValue(c, key, LazyValue(c, key, default)) == LazyValue(c, key, default)
  {
  }
}
