/** The news allow-rule shared by the playlist parser and the channel-list filter. */
module News {
  import opened Text

  /** The networks whose news channels are kept (`allowed_news`). */
  const AllowedNews: set<string> := {"MSNBC", "CNN", "BBC", "CBC News", "CTV News"}

  /** `any(n in name for n in allowed_news)`: the name mentions an allowed network. */
  predicate NamesAllowedNetwork(name: string)
  {
    exists n :: n in AllowedNews && Contains(name, n)
  }

  /** The allow-rule spelled out network by network. */
  lemma NetworksListed(name: string)
    ensures NamesAllowedNetwork(name) <==>
              || Contains(name, "MSNBC") || Contains(name, "CNN") || Contains(name, "BBC")
              || Contains(name, "CBC News") || Contains(name, "CTV News")
  {
  }
}
