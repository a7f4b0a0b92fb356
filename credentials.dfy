/**
 * The start-up sequence of bot.js (lines 34-45): read the credentials file and
 * the proxy file, then refuse to go on unless both credentials are present.
 */
module Credentials {
  import opened Wrappers
  import opened Config

  /** What the rest of the program reads from the two files. */
  datatype Settings = Settings(idToken: string, userEmail: string, proxyUrl: Option<string>)

  /** Each start-up failure ends the process with exit status 1. */
  datatype StartupError =
    | TokenFileInvalid(cause: ConfigError)   // readConfig('token.txt') failed (bot.js:34)
    | ProxyFileInvalid(cause: ConfigError)   // readConfig('proxy.txt') failed (bot.js:35)
    | MissingCredentials                     // ID_TOKEN or USER_EMAIL missing or empty (bot.js:42-45)

  /** JavaScript's `!!config[key]` for a map of strings: the key is there and its value is not `""`. */
  predicate Present(config: map<string, string>, key: string)
  {
    key in config && config[key] != []
  }

  /**
   * Lines 34-45: both files are read first, in this order, then the two
   * credentials are checked. Start-up succeeds exactly when both files parse and
   * both credentials are present and non-empty; a bad credentials file is
   * reported before anything else.
   */
  function LoadSettings(tokenText: string, proxyText: string): (r: Result<Settings, StartupError>)
    ensures r.Ok? <==>
      && ParseConfig(tokenText).Ok? && ParseConfig(proxyText).Ok?
      && Present(ParseConfig(tokenText).value, "ID_TOKEN")
      && Present(ParseConfig(tokenText).value, "USER_EMAIL")
    ensures ParseConfig(tokenText).Err? ==> r == Err(TokenFileInvalid(ParseConfig(tokenText).error))
    ensures r.Ok? ==>
      && r.value.idToken == ParseConfig(tokenText).value["ID_TOKEN"] != []
      && r.value.userEmail == ParseConfig(tokenText).value["USER_EMAIL"] != []
      && r.value.proxyUrl == Get(ParseConfig(proxyText).value, "PROXY_URL")
  {
    match ParseConfig(tokenText)
    case Err(e) => Err(TokenFileInvalid(e))
    case Ok(config) =>
      match ParseConfig(proxyText)
      case Err(e) => Err(ProxyFileInvalid(e))
      case Ok(proxyConfig) =>
        if !Present(config, "ID_TOKEN") || !Present(config, "USER_EMAIL") then Err(MissingCredentials)
        else Ok(Settings(config["ID_TOKEN"], config["USER_EMAIL"], Get(proxyConfig, "PROXY_URL")))
  }

  /** A value given by the last line carrying the key, and not empty after trimming. */
  predicate LastValueNonEmpty(entries: seq<Entry>, key: string)
  {
    Lookup(entries, key).Some? && Lookup(entries, key).value != []
  }

  /**
   * Once both files parse, start-up goes on exactly when the last `ID_TOKEN` line
   * and the last `USER_EMAIL` line of the credentials file have values that are
   * not blank; a missing key, or a value of only whitespace, stops it.
   */
  lemma CredentialsGate(tokenText: string, proxyText: string)
    requires ParseConfig(tokenText).Ok? && ParseConfig(proxyText).Ok?
    ensures LoadSettings(tokenText, proxyText).Ok? <==>
      LastValueNonEmpty(TextEntries(tokenText), "ID_TOKEN") && LastValueNonEmpty(TextEntries(tokenText), "USER_EMAIL")
    ensures LoadSettings(tokenText, proxyText).Err? ==> LoadSettings(tokenText, proxyText).error == MissingCredentials
  {
    var config := ParseConfig(tokenText).value;
    assert LoadSettings(tokenText, proxyText).Ok? <==> Present(config, "ID_TOKEN") && Present(config, "USER_EMAIL");
    PresentIsLastValueNonEmpty(tokenText, "ID_TOKEN");
    PresentIsLastValueNonEmpty(tokenText, "USER_EMAIL");
  }

  lemma PresentIsLastValueNonEmpty(text: string, key: string)
    requires ParseConfig(text).Ok?
    ensures Present(ParseConfig(text).value, key) <==> LastValueNonEmpty(TextEntries(text), key)
  {
    ParseConfigLastLineWins(text, key);
  }

  /**
   * The settings the network phase gets: both credentials non-empty, each the
   * trimmed value of the last line with its key; the proxy URL likewise from the
   * proxy file, absent when no line names `PROXY_URL`.
   */
  lemma SettingsComeFromLastLines(tokenText: string, proxyText: string)
    requires LoadSettings(tokenText, proxyText).Ok?
    ensures ParseConfig(tokenText).Ok? && ParseConfig(proxyText).Ok?
    ensures var s := LoadSettings(tokenText, proxyText).value;
      && s.idToken != [] && s.userEmail != []
      && Lookup(TextEntries(tokenText), "ID_TOKEN") == Some(s.idToken)
      && Lookup(TextEntries(tokenText), "USER_EMAIL") == Some(s.userEmail)
      && Lookup(TextEntries(proxyText), "PROXY_URL") == s.proxyUrl
  {
    ParseConfigLastLineWins(tokenText, "ID_TOKEN");
    ParseConfigLastLineWins(tokenText, "USER_EMAIL");
    ParseConfigLastLineWins(proxyText, "PROXY_URL");
  }

  /** The proxy file must parse even when no proxy will be used: its failure also stops start-up. */
  lemma ProxyFileAlwaysRequired(tokenText: string, proxyText: string)
    requires ParseConfig(proxyText).Err?
    ensures LoadSettings(tokenText, proxyText).Err?
    ensures ParseConfig(tokenText).Ok? ==>
      LoadSettings(tokenText, proxyText) == Err(ProxyFileInvalid(ParseConfig(proxyText).error))
  {
  }

  /** A credentials file ending in a newline never gets past start-up: reading it fails. */
  lemma TrailingNewlineStopsStartup(tokenText: string, proxyText: string)
    requires |tokenText| > 0 && tokenText[|tokenText| - 1] == '\n'
    ensures LoadSettings(tokenText, proxyText).Err?
    ensures LoadSettings(tokenText, proxyText).error.TokenFileInvalid?
  {
    TrailingNewlineRejected(tokenText);
  }
}
