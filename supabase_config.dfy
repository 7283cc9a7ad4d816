/** The configuration check that decides whether the browser-side database client is created. */
module SupabaseConfig {
  import opened Wrappers
  import opened JsSemantics

  const HttpsPrefix := "https://"
  const MinKeyLengthExclusive := 20

  /**
   * `Boolean(url?.startsWith("https://") && key && key.length > 20)`, over the two
   * environment values (`None` when unset).
   */
  function IsConfigured(url: Option<string>, key: Option<string>): (b: bool)
    ensures b <==> url.Some? && StartsWith(url.value, HttpsPrefix) && key.Some? && |key.value| > MinKeyLengthExclusive
  {
    var urlOk := url.Some? && StartsWith(url.value, HttpsPrefix);
    urlOk && key.Some? && key.value != "" && |key.value| > MinKeyLengthExclusive
  }

  /** An unset URL, or one that is not `https://`, leaves the app unconfigured. */
  lemma UrlMustBeHttps(url: Option<string>, key: Option<string>)
    requires url.None? || !StartsWith(url.value, HttpsPrefix)
    ensures !IsConfigured(url, key)
  {
  }

  /** A plain `http://` address is refused whatever the key. */
  lemma PlainHttpRefused(url: string, key: Option<string>)
    requires StartsWith(url, "http://")
    ensures !IsConfigured(Some(url), key)
  {
    assert url[4] == "http://"[4] == ':';
    assert HttpsPrefix[4] == 's';
  }

  /** A missing key, or one of at most 20 characters, is refused: the length must be strictly above 20. */
  lemma KeyMustBeLongerThanTwenty(url: Option<string>, key: Option<string>)
    requires key.None? || |key.value| <= MinKeyLengthExclusive
    ensures !IsConfigured(url, key)
  {
  }

  /** The arguments `createClient(url!, key!)` receives. */
  datatype Client = Client(url: string, key: string)

  /** The exported client: created from the two values when configured, else null. */
  function ExportedClient(url: Option<string>, key: Option<string>): (c: Option<Client>)
    ensures c.None? <==> !IsConfigured(url, key)
    ensures c.Some? ==> c.value == Client(url.value, key.value)
  {
    if IsConfigured(url, key) then Some(Client(url.value, key.value)) else None
  }
}
