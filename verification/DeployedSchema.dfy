/**
 The part of the repository's schema (`config/graphql/schema.graphql`) that the tables of the source
 list: the types its fields lead to, sorted by how many further listed fields can follow.
 */
module DeployedSchema {
  import opened Numbers
  import opened GraphQL
  import opened Fragments
  import opened AutomationCredentials
  import opened Automation
  import opened Footprint
  import opened OperationSafety
  import opened CheckCost
  import opened DeployedPolicy

  /** Named types by parent and field. */
  type Edges = map<string, map<string, string>>

  const QUERY_FIELDS: map<string, string> := map[
    "corpus" := "CorpusType",
    "corpuses" := "CorpusTypeConnection",
    "adminDocumentIngestion" := "AdminDocumentIngestionPageType",
    "adminWorkerUploads" := "AdminWorkerUploadPageType",
    "adminCorpusImports" := "AdminCorpusImportPageType",
    "adminBulkImportSessions" := "AdminBulkImportSessionPageType",
    "authorityPacks" := "AuthorityPack",
    "authorityPackPreflight" := "AuthorityPack",
    "authorityNamespaces" := "AuthorityNamespaceNodeConnection",
    "authorityKeyEquivalences" := "AuthorityKeyEquivalenceNodeConnection",
    "authorityFrontier" := "AuthorityFrontierNodeConnection",
    "pipelineSettings" := "PipelineSettingsType",
    "pipelineComponents" := "PipelineComponentsType",
    "supportedMimeTypes" := "SupportedMimeTypeType",
    "convertibleExtensions" := "String"
  ]

  const MUTATION_FIELDS: map<string, string> := map[
    "createCorpus" := "CreateCorpusMutation",
    "updateCorpus" := "UpdateCorpusMutation",
    "updateCorpusDescription" := "UpdateCorpusDescription",
    "setCorpusVisibility" := "SetCorpusVisibility",
    "reEmbedCorpus" := "ReEmbedCorpus",
    "retryDocumentProcessing" := "RetryDocumentProcessing",
    "installAuthorityPack" := "InstallAuthorityPackMutation",
    "createAuthorityNamespace" := "CreateAuthorityNamespaceMutation",
    "updateAuthorityNamespace" := "UpdateAuthorityNamespaceMutation",
    "setAuthorityNamespaceAliases" := "SetAuthorityNamespaceAliasesMutation",
    "deleteAuthorityNamespace" := "DeleteAuthorityNamespaceMutation",
    "createAuthorityKeyEquivalence" := "CreateAuthorityKeyEquivalenceMutation",
    "updateAuthorityKeyEquivalence" := "UpdateAuthorityKeyEquivalenceMutation",
    "deleteAuthorityKeyEquivalence" := "DeleteAuthorityKeyEquivalenceMutation",
    "requeueAuthorityFrontier" := "RequeueAuthorityFrontierMutation",
    "resetAuthorityFrontier" := "ResetAuthorityFrontierMutation",
    "rerouteAuthorityFrontier" := "RerouteAuthorityFrontierMutation",
    "approveAuthorityFrontier" := "ApproveAuthorityFrontierMutation",
    "deleteAuthorityFrontier" := "DeleteAuthorityFrontierMutation",
    "runAuthorityDiscovery" := "RunAuthorityDiscoveryMutation",
    "updatePipelineSettings" := "UpdatePipelineSettingsMutation"
  ]

  const ROOT_FIELDS: Edges := map["Query" := QUERY_FIELDS, "Mutation" := MUTATION_FIELDS]

  /** Edges whose types have listed edges themselves. */
  const UPPER_EDGES: Edges := map[
    "CorpusTypeConnection" := map["edges" := "CorpusTypeEdge", "pageInfo" := "PageInfo"],
    "InstallAuthorityPackMutation" := map["pack" := "AuthorityPack"],
    "AuthorityNamespaceNodeConnection" := map["edges" := "AuthorityNamespaceNodeEdge", "pageInfo" := "PageInfo"],
    "AuthorityKeyEquivalenceNodeConnection" :=
      map["edges" := "AuthorityKeyEquivalenceNodeEdge", "pageInfo" := "PageInfo"],
    "AuthorityFrontierNodeConnection" := map["edges" := "AuthorityFrontierNodeEdge", "pageInfo" := "PageInfo"],
    "PipelineComponentsType" := map[
      "parsers" := "PipelineComponentType", "embedders" := "PipelineComponentType",
      "thumbnailers" := "PipelineComponentType", "postProcessors" := "PipelineComponentType",
      "rerankers" := "PipelineComponentType", "enrichers" := "PipelineComponentType",
      "llmProviders" := "PipelineComponentType", "fileConverters" := "PipelineComponentType"]
  ]

  /** Edges whose types have none. */
  const LOWER_EDGES: Edges := map[
    "CorpusTypeEdge" := map["node" := "CorpusType"],
    "UpdateCorpusDescription" := map["obj" := "CorpusType"],
    "AuthorityPack" := map["corpora" := "AuthorityPackCorpus"],
    "AuthorityNamespaceNodeEdge" := map["node" := "AuthorityNamespaceNode"],
    "AuthorityKeyEquivalenceNodeEdge" := map["node" := "AuthorityKeyEquivalenceNode"],
    "AuthorityFrontierNodeEdge" := map["node" := "AuthorityFrontierNode"],
    "CreateAuthorityNamespaceMutation" := map["obj" := "AuthorityNamespaceNode"],
    "UpdateAuthorityNamespaceMutation" := map["obj" := "AuthorityNamespaceNode"],
    "SetAuthorityNamespaceAliasesMutation" := map["obj" := "AuthorityNamespaceNode"],
    "CreateAuthorityKeyEquivalenceMutation" := map["obj" := "AuthorityKeyEquivalenceNode"],
    "UpdateAuthorityKeyEquivalenceMutation" := map["obj" := "AuthorityKeyEquivalenceNode"],
    "AdminDocumentIngestionPageType" := map["items" := "AdminDocumentIngestionType"],
    "AdminWorkerUploadPageType" := map["items" := "AdminWorkerUploadType"],
    "AdminCorpusImportPageType" := map["items" := "AdminCorpusImportType"],
    "AdminBulkImportSessionPageType" := map["items" := "AdminBulkImportSessionType"],
    "PipelineComponentType" := map["settingsSchema" := "ComponentSettingSchemaType"],
    "SupportedMimeTypeType" := map["stageCoverage" := "StageCoverageType"],
    "UpdatePipelineSettingsMutation" := map["pipelineSettings" := "PipelineSettingsType"]
  ]

  /** The only listed field that is a leaf. */
  const LEAF_TYPE := "String"

  function EdgesOf(parent: string): map<string, string> {
    if parent in UPPER_EDGES then UPPER_EDGES[parent]
    else if parent in LOWER_EDGES then LOWER_EDGES[parent]
    else map[]
  }

  /** How many listed edges can follow below a type. */
  function Level(typeName: string): nat {
    if typeName in UPPER_EDGES then 2 else if typeName in LOWER_EDGES then 1 else 0
  }

  /** The listed fields have these types, and the types are object types. */
  predicate AgreesOn(schema: Schema, edges: Edges) {
    forall parent, name | parent in edges && name in edges[parent] && name in schema.FieldsOf(parent) ::
      && schema.FieldsOf(parent)[name].typeName == edges[parent][name]
      && (schema.IsObject(edges[parent][name]) || edges[parent][name] == LEAF_TYPE)
  }

  predicate Agrees(schema: Schema) {
    && AgreesOn(schema, ROOT_FIELDS) && AgreesOn(schema, UPPER_EDGES) && AgreesOn(schema, LOWER_EDGES)
    && !schema.IsComposite(LEAF_TYPE)
  }

  /* ---------- What the tables list ---------- */

  lemma QueriesAreListed()
    ensures QUERY_FIELDS.Keys == QUERIES.Keys
  {
  }

  lemma MutationsAreListed()
    ensures MUTATION_FIELDS.Keys == MUTATIONS.Keys
  {
  }

  lemma RootsAreListed(parent: string, name: string)
    requires parent in TABLES.operations && name in TABLES.operations[parent]
    ensures parent in ROOT_FIELDS && name in ROOT_FIELDS[parent]
  {
    QueriesAreListed();
    MutationsAreListed();
  }

  lemma ParentsAreListed(parent: string)
    requires parent in OBJECT_FIELDS
    ensures parent in UPPER_EDGES || parent in LOWER_EDGES
  {
  }

  lemma UpperIsListed(parent: string)
    requires parent in OBJECT_FIELDS && parent in UPPER_EDGES
    ensures OBJECT_FIELDS[parent] == UPPER_EDGES[parent].Keys
  {
  }

  lemma LowerIsListed(parent: string)
    requires parent in OBJECT_FIELDS && parent in LOWER_EDGES
    ensures OBJECT_FIELDS[parent] == LOWER_EDGES[parent].Keys
  {
  }

  /* ---------- Listed edges lead down ---------- */

  /* The types behind the lower edges. */

  const CONTENT_TYPES: set<string> := {"CorpusType", "ComponentSettingSchemaType", "StageCoverageType",
    "PipelineSettingsType"}

  const AUTHORITY_TYPES: set<string> := {"AuthorityPackCorpus", "AuthorityNamespaceNode",
    "AuthorityKeyEquivalenceNode", "AuthorityFrontierNode"}

  const ADMIN_TYPES: set<string> := {"AdminDocumentIngestionType", "AdminWorkerUploadType", "AdminCorpusImportType",
    "AdminBulkImportSessionType"}

  lemma UpperFalls(parent: string, name: string)
    requires parent in UPPER_EDGES && name in UPPER_EDGES[parent]
    ensures UPPER_EDGES[parent][name] !in UPPER_EDGES
  {
  }

  lemma LowerFalls(parent: string, name: string)
    requires parent in LOWER_EDGES && name in LOWER_EDGES[parent]
    ensures LOWER_EDGES[parent][name] in CONTENT_TYPES + AUTHORITY_TYPES + ADMIN_TYPES
  {
  }

  lemma ContentHasNoEdges(t: string)
    requires t in CONTENT_TYPES
    ensures t !in LOWER_EDGES
  {
  }

  lemma AuthoritiesHaveNoEdges(t: string)
    requires t in AUTHORITY_TYPES
    ensures t !in LOWER_EDGES
  {
  }

  lemma AdminHasNoEdges(t: string)
    requires t in ADMIN_TYPES
    ensures t !in LOWER_EDGES
  {
  }

  lemma LowerIsNotUpper(t: string)
    requires t in CONTENT_TYPES + AUTHORITY_TYPES + ADMIN_TYPES
    ensures t !in UPPER_EDGES
  {
  }

  lemma EdgesAreListed(parent: string, name: string)
    requires parent in OBJECT_FIELDS && name in OBJECT_FIELDS[parent]
    ensures name in EdgesOf(parent)
  {
    ParentsAreListed(parent);
    if parent in UPPER_EDGES {
      UpperIsListed(parent);
    } else {
      LowerIsListed(parent);
    }
  }

  lemma LevelsFall(parent: string, name: string)
    requires name in EdgesOf(parent)
    ensures Level(EdgesOf(parent)[name]) < Level(parent)
  {
    if parent in UPPER_EDGES {
      UpperFalls(parent, name);
    } else {
      var t := LOWER_EDGES[parent][name];
      LowerFalls(parent, name);
      LowerIsNotUpper(t);
      if t in CONTENT_TYPES {
        ContentHasNoEdges(t);
      } else if t in AUTHORITY_TYPES {
        AuthoritiesHaveNoEdges(t);
      } else {
        AdminHasNoEdges(t);
      }
    }
  }

  /* ---------- The policy of the source on the schema of the source ---------- */

  /** Every listed field of the source leads to an object type or a leaf. */
  lemma EdgesAreConcrete(decode: RelayDecoder, schema: Schema)
    requires Agrees(schema)
    ensures ConcreteEdges(Gate(TABLES, decode), schema)
  {
    forall parent, name |
      && parent in schema.types && name in schema.FieldsOf(parent)
      && (EdgeAllowed(Gate(TABLES, decode), parent, name) ||
          (parent in TABLES.operations && name in TABLES.operations[parent]))
      && schema.IsComposite(schema.FieldsOf(parent)[name].typeName)
      ensures schema.IsObject(schema.FieldsOf(parent)[name].typeName)
    {
      if EdgeAllowed(Gate(TABLES, decode), parent, name) {
        EdgesAreListed(parent, name);
      } else {
        RootsAreListed(parent, name);
      }
    }
  }

  /** So, in an operation of the source, acceptance is permission of everything that execution can reach. */
  lemma DeployedPolicyIsExact(decode: RelayDecoder, user: User, schema: Schema, document: Document,
                              operation: Operation, variables: map<string, Value>)
    requires Agrees(schema) && ValidOperation(schema, document, operation, variables)
    requires !HasFragmentVariables(FragmentMap(document.fragments)) && operation.kind in schema.roots
    ensures CheckOperation(Gate(TABLES, decode), user, schema, document, operation, variables) <==>
            OnlyPermittedCalls(Gate(TABLES, decode), user, schema, document, operation, variables)
  {
    EdgesAreConcrete(decode, schema);
    PolicyIsExact(Gate(TABLES, decode), user, schema, document, operation, variables);
  }

  lemma EdgeFalls(decode: RelayDecoder, schema: Schema, parent: string, name: string)
    requires Agrees(schema) && Follows(Gate(TABLES, decode), schema, parent, name, false)
    ensures Level(schema.FieldsOf(parent)[name].typeName) < Level(parent)
  {
    EdgesAreListed(parent, name);
    LevelsFall(parent, name);
  }

  /** A root field and two edges: no chain of listed fields is longer. */
  lemma ChainsAreShort(decode: RelayDecoder, schema: Schema, parent: string)
    requires Agrees(schema)
    ensures !HasChain(Gate(TABLES, decode), schema, parent, true, 4)
  {
    forall parent, name | Follows(Gate(TABLES, decode), schema, parent, name, false)
      ensures Level(schema.FieldsOf(parent)[name].typeName) < Level(parent)
    {
      EdgeFalls(decode, schema, parent, name);
    }
    RootChainFalls(Gate(TABLES, decode), schema, Level, parent, 3);
  }

  /**
   Checking an operation with the tables of the source looks at no more selections than the size of
   the document times the third power of the size of its fragments (and two).
   */
  lemma DeployedWalkIsPolynomial(decode: RelayDecoder, user: User, c: Context, definitions: seq<Fragment>,
                                 parent: string, selections: seq<Selection>)
    requires Agrees(c.schema) && c.fragments == FragmentMap(definitions) && Acyclic(c.fragments)
    ensures Walked(Gate(TABLES, decode), user, c, parent, selections, true)
         <= Power(WrittenIn(definitions) + 2, 3) * DocumentSize(definitions, selections)
  {
    ChainsAreShort(decode, c.schema, parent);
    WalkIsPolynomial(Gate(TABLES, decode), user, c, definitions, parent, selections, true, 3);
  }
}
