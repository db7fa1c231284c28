/** The settings every service of the `us_libraries` package is built with. */
module Configuration {

  const DefaultCacheDir := "cache"
  const DefaultDataDir := "data"

  /** The frozen `Config` record; `Defaults(year)` is `Config(year)` with every
      other field left at its default. */
  datatype Config = Config(year: int, cacheDir: string, dataDir: string, shouldOverwriteCachedUrls: bool)

  function Defaults(year: int): Config
  {
    Config(year, DefaultCacheDir, DefaultDataDir, false)
  }
}
