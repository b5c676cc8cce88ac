/** The catalog (the JSON database) as plain maps from identifier to value. */
module Database {

  /** An amiibo entry: its display name and release dates by region. */
  datatype Amiibo = Amiibo(name: string, release: map<string, string>)

  /** The five collections of the catalog, each keyed by a "0x"-prefixed identifier. */
  datatype Catalog = Catalog(
    amiiboSeries: map<string, string>,
    amiibos: map<string, Amiibo>,
    characters: map<string, string>,
    gameSeries: map<string, string>,
    types: map<string, string>)
}
