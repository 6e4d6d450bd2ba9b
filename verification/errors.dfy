/** The failures the overlay reports. */
module Errors {
  import opened Schema

  /** Why an index could not be found. */
  datatype IndexNotFoundReason =
    | NoIndexWasFound                                   // the NO_INDEX reference was passed
    | DroppedInThisTransaction(dropped: SchemaDescriptor)
    | NoIndexForSchema(missing: SchemaDescriptor)       // storage has no index for the schema
    | NoProxyForSchema(unloaded: SchemaDescriptor)      // the indexing runtime has no index for the schema

  /** The category of operation an access check guards. */
  datatype Operation = ReadOperation | WriteOperation | SchemaOperation

  datatype KernelError =
    | NotInTransaction
    | IndexNotFound(reason: IndexNotFoundReason)
    | SchemaRuleNotFound
    | MoreThanOneElement
    | AccessViolation(operation: Operation, subject: string)
    | NoSuchElement
}
