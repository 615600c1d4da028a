/** The crawl controller's states that the components below test for. */
module CrawlStates {
  /** `Other` stands for every state of the crawl controller not named here, such as
      running or stopping; it is one value, so it never coincides with a named state. */
  datatype CrawlState = Nascent | Preparing | Paused | Finished | Other
}
