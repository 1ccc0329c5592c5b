/** The record that describes one output variant of the favicon collection. */
module ImageDefinitions {

  /**
   * One output variant: a square image of `size` pixels, whose background
   * stays transparent or is filled, whose corners are rounded or not, and
   * whose file name starts with `outputFilenamePrefix`. The record is
   * immutable: its fields are fixed when it is constructed.
   */
  datatype ImageDefinition = ImageDefinition(
    size: int,
    transparentBackground: bool,
    roundEdges: bool,
    outputFilenamePrefix: string)
  {
    function GetSize(): int { size }

    predicate HasTransparentBackground() { transparentBackground }

    predicate HasRoundEdges() { roundEdges }

    function GetOutputFilenamePrefix(): string { outputFilenamePrefix }
  }

  /** Each accessor gives back exactly the argument the record was built with. */
  lemma AccessorsReturnConstructorArguments(size: int, transparent: bool, round: bool, prefix: string)
    ensures var d := ImageDefinition(size, transparent, round, prefix);
      && d.GetSize() == size
      && d.HasTransparentBackground() == transparent
      && d.HasRoundEdges() == round
      && d.GetOutputFilenamePrefix() == prefix
  {
  }

  /**
   * The four accessors are a complete view of a record: two records agree on
   * every accessor exactly when they are equal, so records built from equal
   * arguments cannot be told apart.
   */
  lemma AccessorsDetermineDefinition(d1: ImageDefinition, d2: ImageDefinition)
    ensures d1 == d2 <==>
      && d1.GetSize() == d2.GetSize()
      && d1.HasTransparentBackground() == d2.HasTransparentBackground()
      && d1.HasRoundEdges() == d2.HasRoundEdges()
      && d1.GetOutputFilenamePrefix() == d2.GetOutputFilenamePrefix()
  {
  }
}
