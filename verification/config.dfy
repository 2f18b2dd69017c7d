/** The proxy's two allow-lists, read once at start-up from the environment
    (gitops/cors-proxy-server-app/app.py, lines 11 and 16) and never changed
    afterwards. The environment lookup itself is a parameter: `None` when the
    variable is unset. */
module Config {
  import opened Strings

  /** The list entry that lifts a restriction. */
  const Wildcard := "*"

  const ListSeparator := ','

  datatype Config = Config(allowedOrigins: seq<string>, allowedTargetHosts: seq<string>)

  /** A list lifts its restriction when the wildcard is one of its entries,
      wherever it stands. */
  predicate Unrestricted(list: seq<string>) {
    Wildcard in list
  }

  /** `os.environ.get(name, '*').split(',')`: the comma-separated entries of
      the variable, or the wildcard alone when it is unset. Entries are taken
      verbatim: no trimming, and empty entries are kept. */
  function ParseAllowList(env: Option<string>): (entries: seq<string>)
    ensures |entries| >= 1
    ensures forall i :: 0 <= i < |entries| ==> ListSeparator !in entries[i]
    ensures env.None? ==> entries == [Wildcard]
    ensures env.Some? ==> Join(entries, ListSeparator) == env.value
  {
    match env
    case None =>
      SplitWithoutSep(Wildcard, ListSeparator);
      Split(Wildcard, ListSeparator)
    case Some(s) =>
      JoinSplit(s, ListSeparator);
      Split(s, ListSeparator)
  }

  /** Both lists, each from its own variable. An unset variable lifts the
      restriction; a set one is read as its comma-free entries, which written
      back out with commas give the variable's text. */
  function Load(originsEnv: Option<string>, targetHostsEnv: Option<string>): (c: Config)
    ensures originsEnv.None? ==> Unrestricted(c.allowedOrigins)
    ensures targetHostsEnv.None? ==> Unrestricted(c.allowedTargetHosts)
    ensures originsEnv.Some? ==> Join(c.allowedOrigins, ListSeparator) == originsEnv.value
    ensures targetHostsEnv.Some? ==> Join(c.allowedTargetHosts, ListSeparator) == targetHostsEnv.value
    ensures |c.allowedOrigins| >= 1 && |c.allowedTargetHosts| >= 1
    ensures forall i :: 0 <= i < |c.allowedOrigins| ==> ListSeparator !in c.allowedOrigins[i]
    ensures forall i :: 0 <= i < |c.allowedTargetHosts| ==> ListSeparator !in c.allowedTargetHosts[i]
  {
    Config(ParseAllowList(originsEnv), ParseAllowList(targetHostsEnv))
  }

  /** Any list of comma-free entries, written out with commas, is read back
      exactly: the parser is the inverse of writing the variable. */
  lemma ParseWrittenList(entries: seq<string>)
    requires |entries| >= 1
    requires forall i :: 0 <= i < |entries| ==> ListSeparator !in entries[i]
    ensures ParseAllowList(Some(Join(entries, ListSeparator))) == entries
  {
    SplitJoin(entries, ListSeparator);
  }

  /** A variable set to the empty string yields one empty entry, which no
      target host or origin can match usefully. */
  lemma ParseEmptyVariable()
    ensures ParseAllowList(Some("")) == [""]
  {
  }
}
