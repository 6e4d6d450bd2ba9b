/** Schema descriptors, index descriptors and references, and constraint descriptors. */
module Schema {
  import opened Wrappers

  /** The token id the token layer hands out for a name it does not know. */
  const NO_TOKEN: int := -1

  datatype EntityKind = NodeLabel | RelationshipType

  /** What an index or constraint is on: one labelId or relationship type, and a list of property keys. */
  datatype SchemaDescriptor = SchemaDescriptor(kind: EntityKind, entityToken: int, properties: seq<int>)

  /** Builds the schema of a labelId index; an unknown labelId or property token is rejected. */
  function ForLabel(labelId: int, properties: seq<int>): (r: Option<SchemaDescriptor>)
    ensures r.None? <==> labelId == NO_TOKEN || NO_TOKEN in properties
    ensures r.Some? ==> r.value.kind == NodeLabel && r.value.entityToken == labelId && r.value.properties == properties
  {
    if labelId == NO_TOKEN || NO_TOKEN in properties then None
    else Some(SchemaDescriptor(NodeLabel, labelId, properties))
  }

  /** The slice of the schema a query is about. */
  datatype Scope =
    | Everything
    | OnSchema(schema: SchemaDescriptor)
    | OnLabel(labelId: int)
    | OnRelationshipType(relType: int)

  predicate InScope(scope: Scope, s: SchemaDescriptor)
  {
    match scope
    case Everything => true
    case OnSchema(schema) => s == schema
    case OnLabel(labelId) => s.kind == NodeLabel && s.entityToken == labelId
    case OnRelationshipType(relType) => s.kind == RelationshipType && s.entityToken == relType
  }

  /** An index as storage records it once committed: it has a storage-assigned id. */
  datatype StoreIndex = StoreIndex(id: int, schema: SchemaDescriptor, provider: int)

  /** An index descriptor is either committed (backed by storage) or pending (created in this
      transaction and not yet given a storage id). */
  datatype IndexDescriptor =
    | Committed(index: StoreIndex)
    | Pending(pendingSchema: SchemaDescriptor, pendingProvider: int)
  {
    function Schema(): SchemaDescriptor
    {
      match this
      case Committed(index) => index.schema
      case Pending(schema, _) => schema
    }
  }

  /** What the kernel hands to its callers: no index at all, or a resolved descriptor. */
  datatype IndexRef = NoIndex | Ref(descriptor: IndexDescriptor)

  datatype ConstraintKind = Uniqueness | NodeKey | PropertyExistence

  datatype ConstraintDescriptor = ConstraintDescriptor(constraintKind: ConstraintKind, schema: SchemaDescriptor)
}
