/** The numeric and colour constants of js/config.js that the modelled code reads. */
module Config {
  const MinNodeSize: int := 10
  const MaxNodeSize: int := 90
  const BaseSizePerConnection: int := 10

  const MinNodeLabelSize: int := 20
  const MaxNodeLabelSize: int := 44
  const NodeLabelDegreeScaleFactor: int := 5

  const SentimentPositive: string := "#2ca02c"
  const SentimentNegative: string := "#d62728"
  const SentimentComplicated: string := "#ff7f0e"
  const SentimentNeutral: string := "#7f7f7f"

  /** Maximum characters for context lookaround in plot highlighting. */
  const PlotHighlightMaxLookaround: nat := 200
}
