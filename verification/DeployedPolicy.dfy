/** The tables in the source, and what they mean for read-only credentials. */
module DeployedPolicy {
  import opened Wrappers
  import opened GraphQL
  import opened AutomationCredentials
  import opened Automation
  import opened Footprint

  const QUERIES: map<string, Policy> := map[
    "corpus" := Policy(CorpusRead, Some("id")),
    "corpuses" := Policy(CorpusRead, Some("id")),
    "adminDocumentIngestion" := Policy(IngestionRead, None),
    "adminWorkerUploads" := Policy(IngestionRead, None),
    "adminCorpusImports" := Policy(IngestionRead, None),
    "adminBulkImportSessions" := Policy(IngestionRead, None),
    "authorityPacks" := Policy(AuthorityAdmin, None),
    "authorityPackPreflight" := Policy(AuthorityAdmin, None),
    "authorityNamespaces" := Policy(AuthorityAdmin, None),
    "authorityKeyEquivalences" := Policy(AuthorityAdmin, None),
    "authorityFrontier" := Policy(AuthorityAdmin, None),
    "pipelineSettings" := Policy(PipelineRead, None),
    "pipelineComponents" := Policy(PipelineRead, None),
    "supportedMimeTypes" := Policy(PipelineRead, None),
    "convertibleExtensions" := Policy(PipelineRead, None)
  ]

  const MUTATIONS: map<string, Policy> := map[
    "createCorpus" := Policy(CorpusCreate, None),
    "updateCorpus" := Policy(CorpusConfigure, Some("id")),
    "updateCorpusDescription" := Policy(CorpusConfigure, Some("corpusId")),
    "setCorpusVisibility" := Policy(CorpusPublish, Some("corpusId")),
    "reEmbedCorpus" := Policy(IngestionRepair, Some("corpusId")),
    "retryDocumentProcessing" := Policy(IngestionRepair, None),
    "installAuthorityPack" := Policy(AuthorityAdmin, None),
    "createAuthorityNamespace" := Policy(AuthorityAdmin, None),
    "updateAuthorityNamespace" := Policy(AuthorityAdmin, None),
    "setAuthorityNamespaceAliases" := Policy(AuthorityAdmin, None),
    "deleteAuthorityNamespace" := Policy(AuthorityAdmin, None),
    "createAuthorityKeyEquivalence" := Policy(AuthorityAdmin, None),
    "updateAuthorityKeyEquivalence" := Policy(AuthorityAdmin, None),
    "deleteAuthorityKeyEquivalence" := Policy(AuthorityAdmin, None),
    "requeueAuthorityFrontier" := Policy(AuthorityAdmin, None),
    "resetAuthorityFrontier" := Policy(AuthorityAdmin, None),
    "rerouteAuthorityFrontier" := Policy(AuthorityAdmin, None),
    "approveAuthorityFrontier" := Policy(AuthorityAdmin, None),
    "deleteAuthorityFrontier" := Policy(AuthorityAdmin, None),
    "runAuthorityDiscovery" := Policy(AuthorityAdmin, None),
    "updatePipelineSettings" := Policy(PipelineConfigure, None)
  ]

  const CORPUS_FIELDS: set<string> := {
    "id", "title", "slug", "description", "created", "modified", "isPublic", "backendLock",
    "preferredEmbedder", "preferredLlm", "license", "licenseLink",
    "corpusAgentInstructions", "documentAgentInstructions", "myPermissions"
  }

  const OBJECT_FIELDS: map<string, set<string>> := map[
    "CorpusTypeConnection" := {"edges", "pageInfo"},
    "CorpusTypeEdge" := {"node"},
    "UpdateCorpusDescription" := {"obj"},
    "AuthorityPack" := {"corpora"},
    "InstallAuthorityPackMutation" := {"pack"},
    "AuthorityNamespaceNodeConnection" := {"edges", "pageInfo"},
    "AuthorityNamespaceNodeEdge" := {"node"},
    "AuthorityKeyEquivalenceNodeConnection" := {"edges", "pageInfo"},
    "AuthorityKeyEquivalenceNodeEdge" := {"node"},
    "AuthorityFrontierNodeConnection" := {"edges", "pageInfo"},
    "AuthorityFrontierNodeEdge" := {"node"},
    "CreateAuthorityNamespaceMutation" := {"obj"},
    "UpdateAuthorityNamespaceMutation" := {"obj"},
    "SetAuthorityNamespaceAliasesMutation" := {"obj"},
    "CreateAuthorityKeyEquivalenceMutation" := {"obj"},
    "UpdateAuthorityKeyEquivalenceMutation" := {"obj"},
    "AdminDocumentIngestionPageType" := {"items"},
    "AdminWorkerUploadPageType" := {"items"},
    "AdminCorpusImportPageType" := {"items"},
    "AdminBulkImportSessionPageType" := {"items"},
    "PipelineComponentsType" := {"parsers", "embedders", "thumbnailers", "postProcessors", "rerankers", "enrichers",
      "llmProviders", "fileConverters"},
    "PipelineComponentType" := {"settingsSchema"},
    "SupportedMimeTypeType" := {"stageCoverage"},
    "UpdatePipelineSettingsMutation" := {"pipelineSettings"}
  ]

  const TABLES := Tables(map["Query" := QUERIES, "Mutation" := MUTATIONS], CORPUS_FIELDS, OBJECT_FIELDS)

  const READ_SCOPES: set<Scope> := {CorpusRead, IngestionRead, PipelineRead}

  /** The corpus type has no object-valued edges at all. */
  lemma CorpusHasNoEdges(decode: RelayDecoder, name: string)
    ensures !EdgeAllowed(Gate(TABLES, decode), "CorpusType", name)
  {
  }

  lemma MutationsNeedMore(name: string)
    requires name in MUTATIONS
    ensures MUTATIONS[name].scope !in READ_SCOPES
  {
  }

  /** With read scopes only, no mutation is ever permitted. */
  lemma ReadersNeverMutate(decode: RelayDecoder, user: User, schema: Schema, call: Call)
    requires user.credential.Some? && user.credential.value.scopes <= READ_SCOPES
    requires call.root && Permitted(Gate(TABLES, decode), user, schema, call)
    ensures call.parent != "Mutation"
  {
    if call.parent == "Mutation" {
      assert TABLES.operations["Mutation"] == MUTATIONS;
      MutationsNeedMore(call.name);
    }
  }
}
