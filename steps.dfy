/** Step definitions: a deferred unit of work a generator hands to an
    action, bound to its operation and to argument values captured when the
    definition is built. */
module Steps {

  /** The operations the generator binds, with their captured arguments.
      Being values, the arguments cannot change between construction and
      execution. */
  datatype Operation =
    | GenerateConfig(cwd: string, rootNamespace: string, includeRules: seq<string>, tempDocsPath: string)
    | RenameFile(oldPath: string, newPath: string)

  /** `ownedByGenerator` says whether the operation is bound to the
      generator instance (`this`) or is a free function (`null`). */
  datatype StepDefinition = StepDefinition(ownedByGenerator: bool, description: string, operation: Operation)
}
