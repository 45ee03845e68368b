/** Display labels of graph elements (index.mjs, `shortenLabel`). */
module Labels {

  /** Longest text drawn on the canvas (`maxLength`). */
  const MaxLength: nat := 50

  /** Characters kept from the start of a long text (`maxLength - 6`). */
  const HeadLength: nat := MaxLength - 6

  /** Characters kept from the end of a long text. */
  const TailLength: nat := 5

  /** The single horizontal-ellipsis character that joins head and tail. */
  const Ellipsis: char := '\U{2026}'

  /**
   * The short label of a node or edge: a label that fits is kept as it is,
   * a long label becomes its first 44 characters, an ellipsis and its last 5.
   */
  function ShortenLabel(text: string): (short: string)
    ensures |short| <= MaxLength
    ensures short == text <==> |text| <= MaxLength
    ensures |text| > MaxLength ==>
      && |short| == MaxLength
      && short[..HeadLength] == text[..HeadLength]
      && short[HeadLength] == Ellipsis
      && short[HeadLength + 1..] == text[|text| - TailLength..]
  {
    if |text| <= MaxLength then text
    else text[..HeadLength] + [Ellipsis] + text[|text| - TailLength..]
  }

  /** Shortening a short label again changes nothing. */
  lemma ShortenLabelIdempotent(text: string)
    ensures ShortenLabel(ShortenLabel(text)) == ShortenLabel(text)
  {
  }
}
