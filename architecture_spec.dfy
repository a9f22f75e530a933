/** The canonical request spec that generation works from. */
module Schemas {

  /**
   * `ArchitectureSpec`: the five request fields and whether they were
   * inferred by the language model from a free-form prompt.
   */
  datatype ArchitectureSpec = ArchitectureSpec(
    projectName: string,
    description: string,
    useCase: string,
    requirements: seq<string>,
    techStack: seq<string>,
    inferred: bool)
}
