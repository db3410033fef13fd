/** The database connection string read once at start-up: a missing or empty
    `DATABASE_URL` falls back to a local SQLite file, and the legacy
    `postgres://` scheme is rewritten to the `postgresql://` spelling the
    SQL toolkit expects. */
module Config {
  import opened Nullable
  import opened Text

  const DefaultDatabaseUrl: string := "sqlite:///webread.db"
  const LegacyScheme: string := "postgres://"
  const ModernScheme: string := "postgresql://"

  /** The connection string used for a given value of `DATABASE_URL`
      (`None` when the variable is unset). */
  function DatabaseUrl(env: Option<string>): (r: string)
    ensures env.None? || env.value == "" ==> r == DefaultDatabaseUrl
    ensures env.Some? && StartsWith(env.value, LegacyScheme) ==>
              r == ModernScheme + env.value[|LegacyScheme|..]
    ensures env.Some? && env.value != "" && !StartsWith(env.value, LegacyScheme) ==>
              r == env.value
    ensures !StartsWith(r, LegacyScheme)
  {
    var url := if env.None? || env.value == "" then DefaultDatabaseUrl else env.value;
    assert DefaultDatabaseUrl[0] != LegacyScheme[0];
    if StartsWith(url, LegacyScheme) then
      assert OccursAt(url, LegacyScheme, 0);
      assert FirstOccurrence(url, LegacyScheme, 0);
      var r := ReplaceFirst(url, LegacyScheme, ModernScheme);
      // "postgresql://" and "postgres://" part ways at the ninth character.
      assert r[8] == ModernScheme[8] != LegacyScheme[8];
      r
    else
      url
  }

  /** Normalising twice changes nothing: the result is already in the form
      the start-up code produces. */
  lemma DatabaseUrlIdempotent(env: Option<string>)
    ensures DatabaseUrl(Some(DatabaseUrl(env))) == DatabaseUrl(env)
  {
    var r := DatabaseUrl(env);
    assert r != "" by {
      if env.Some? && StartsWith(env.value, LegacyScheme) {
        assert |r| >= |ModernScheme|;
      }
    }
  }
}
