/** The configuration the cleaner runs with: the four Twitter credentials and
    MaxAge, in hours.

    With `-writeconfig` the configuration is built from the command-line flags
    alone (and written as JSON); otherwise the JSON file is decoded and every
    flag that was given a value overrides the stored field: a credential when
    it is non-empty, MaxAge when it is non-zero. The `-maxage` flag defaults to
    48, so unless `-maxage=0` is passed the stored MaxAge is always replaced.
    Flag parsing, JSON and file I/O are outside the model: the flags and the
    decoded file are given as values. */
module Config {
  import opened GoTypes

  /** `Configuration`, as stored in the JSON file. */
  datatype Configuration = Configuration(key: string, secret: string, token: string, tokenSecret: string, maxAge: int64)

  /** The values of the command-line flags that feed the configuration. */
  datatype Flags = Flags(consumerKey: string, consumerSecret: string, accessToken: string,
                         accessTokenSecret: string, maxAge: int64)

  /** The default of `-maxage`. */
  const DefaultMaxAge: int64 := 48

  /** The flags of a command line that sets none of them. */
  function DefaultFlags(): Flags
  {
    Flags("", "", "", "", DefaultMaxAge)
  }

  /** `-writeconfig`: the configuration made of the flags alone. */
  function FromFlags(f: Flags): Configuration
  {
    Configuration(f.consumerKey, f.consumerSecret, f.accessToken, f.accessTokenSecret, f.maxAge)
  }

  /** The stored configuration with the flags that were given a value on top. */
  function Merge(stored: Configuration, f: Flags): Configuration
  {
    Configuration(
      if f.consumerKey != "" then f.consumerKey else stored.key,
      if f.consumerSecret != "" then f.consumerSecret else stored.secret,
      if f.accessToken != "" then f.accessToken else stored.token,
      if f.accessTokenSecret != "" then f.accessTokenSecret else stored.tokenSecret,
      if f.maxAge != 0 then f.maxAge else stored.maxAge)
  }

  /** The override block: one conditional assignment per field, in order. */
  method OverrideFromFlags(stored: Configuration, f: Flags) returns (config: Configuration)
    ensures config == Merge(stored, f)
  {
    config := stored;
    if f.consumerKey != "" {
      config := config.(key := f.consumerKey);
    }
    if f.consumerSecret != "" {
      config := config.(secret := f.consumerSecret);
    }
    if f.accessToken != "" {
      config := config.(token := f.accessToken);
    }
    if f.accessTokenSecret != "" {
      config := config.(tokenSecret := f.accessTokenSecret);
    }
    if f.maxAge != 0 {
      config := config.(maxAge := f.maxAge);
    }
  }

  /** The configuration `main` runs with: from the flags alone with
      `-writeconfig`, otherwise the decoded file with the flags on top. */
  method LoadConfiguration(writeConfig: bool, decoded: Configuration, f: Flags) returns (config: Configuration)
    ensures writeConfig ==> config == FromFlags(f)
    ensures !writeConfig ==> config == Merge(decoded, f)
  {
    config := Configuration("", "", "", "", 0);
    if writeConfig {
      config := config.(key := f.consumerKey, secret := f.consumerSecret, token := f.accessToken,
                        tokenSecret := f.accessTokenSecret, maxAge := f.maxAge);
    } else {
      config := decoded;
      config := OverrideFromFlags(config, f);
    }
  }

  /** Each credential becomes the flag's value exactly when that value is
      non-empty and otherwise keeps the stored value; MaxAge likewise when the
      flag is non-zero. */
  lemma MergeFieldwise(stored: Configuration, f: Flags)
    ensures Merge(stored, f).key == f.consumerKey <==> f.consumerKey != "" || stored.key == ""
    ensures Merge(stored, f).secret == f.consumerSecret <==> f.consumerSecret != "" || stored.secret == ""
    ensures Merge(stored, f).token == f.accessToken <==> f.accessToken != "" || stored.token == ""
    ensures Merge(stored, f).tokenSecret == f.accessTokenSecret <==> f.accessTokenSecret != "" || stored.tokenSecret == ""
    ensures Merge(stored, f).maxAge == f.maxAge <==> f.maxAge != 0 || stored.maxAge == 0
    ensures f.consumerKey == "" ==> Merge(stored, f).key == stored.key
    ensures f.consumerSecret == "" ==> Merge(stored, f).secret == stored.secret
    ensures f.accessToken == "" ==> Merge(stored, f).token == stored.token
    ensures f.accessTokenSecret == "" ==> Merge(stored, f).tokenSecret == stored.tokenSecret
    ensures f.maxAge == 0 ==> Merge(stored, f).maxAge == stored.maxAge
  {
  }

  /** Applying the same flags twice changes nothing more. */
  lemma MergeIdempotent(stored: Configuration, f: Flags)
    ensures Merge(Merge(stored, f), f) == Merge(stored, f)
  {
  }

  /** Flags that carry no value leave the stored configuration as it is. */
  lemma MergeNoFlags(stored: Configuration)
    ensures Merge(stored, Flags("", "", "", "", 0)) == stored
  {
  }

  /** Flags that all carry a value replace the stored configuration entirely. */
  lemma MergeAllFlags(stored: Configuration, f: Flags)
    requires f.consumerKey != "" && f.consumerSecret != "" && f.accessToken != ""
    requires f.accessTokenSecret != "" && f.maxAge != 0
    ensures Merge(stored, f) == FromFlags(f)
  {
  }

  /** Without `-maxage` on the command line, its default of 48 replaces any
      stored MaxAge, while the stored credentials are kept. */
  lemma DefaultMaxAgeOverridesStored(stored: Configuration)
    ensures Merge(stored, DefaultFlags()).maxAge == 48
    ensures Merge(stored, DefaultFlags()) == stored.(maxAge := 48)
  {
  }

  /** Reading back, with the same flags, a file written by `-writeconfig`
      gives the configuration that was written. */
  lemma WrittenConfigReadsBack(f: Flags)
    ensures Merge(FromFlags(f), f) == FromFlags(f)
  {
  }

  /** Later flags win: merging `f` then `g` is merging once with `g` laid over `f`. */
  lemma MergeCompose(stored: Configuration, f: Flags, g: Flags)
    ensures Merge(Merge(stored, f), g) ==
            Merge(stored, Flags(if g.consumerKey != "" then g.consumerKey else f.consumerKey,
                                if g.consumerSecret != "" then g.consumerSecret else f.consumerSecret,
                                if g.accessToken != "" then g.accessToken else f.accessToken,
                                if g.accessTokenSecret != "" then g.accessTokenSecret else f.accessTokenSecret,
                                if g.maxAge != 0 then g.maxAge else f.maxAge))
  {
  }
}
