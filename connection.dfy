/**
  The one piece of `get_connection` that is not environment or driver glue:
  a database URL with the legacy `postgres://` scheme is rewritten to the
  `postgresql://` scheme before it is handed to the driver.
*/
module Connection {
  import opened Strings

  const LegacyScheme: string := "postgres://"
  const Scheme: string := "postgresql://"

  /** `url.replace("postgres://", "postgresql://", 1)` when `url.startswith("postgres://")`. */
  function FixScheme(url: string): string {
    if StartsWith(url, LegacyScheme) then ReplaceFirst(url, LegacyScheme, Scheme) else url
  }

  /**
    A URL with the legacy scheme gets the new scheme followed by the rest of
    the URL unchanged; every other URL is returned as it is.
  */
  lemma FixSchemeResult(url: string)
    ensures StartsWith(url, LegacyScheme) ==> FixScheme(url) == Scheme + url[|LegacyScheme|..]
    ensures !StartsWith(url, LegacyScheme) ==> FixScheme(url) == url
  {
    if StartsWith(url, LegacyScheme) {
      ReplaceFirstAtFirstOccurrence(url, LegacyScheme, Scheme, 0);
    }
  }

  /** The result always carries the new scheme when the input carried either scheme. */
  lemma FixSchemeYieldsScheme(url: string)
    requires StartsWith(url, LegacyScheme) || StartsWith(url, Scheme)
    ensures StartsWith(FixScheme(url), Scheme)
  {
    FixSchemeResult(url);
    if StartsWith(url, LegacyScheme) {
      var r := Scheme + url[|LegacyScheme|..];
      assert r[..|Scheme|] == Scheme;
    }
  }

  /** A URL that already has the `postgresql://` scheme is left alone. */
  lemma FixSchemeKeepsScheme(url: string)
    requires StartsWith(url, Scheme)
    ensures FixScheme(url) == url
  {
    assert url[..|Scheme|][8] == 'q';
  }

  /** Rewriting twice gives the same URL as rewriting once. */
  lemma FixSchemeIdempotent(url: string)
    ensures FixScheme(FixScheme(url)) == FixScheme(url)
  {
    FixSchemeResult(url);
    if StartsWith(url, LegacyScheme) {
      FixSchemeYieldsScheme(url);
      FixSchemeKeepsScheme(FixScheme(url));
    }
  }
}
