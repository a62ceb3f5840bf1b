# A verified model of lotus-risk's governance code

lotus-risk is a risk-analytics service. Around its engines it carries code that decides
things: which schema paths exist, what a cleaner may delete, which capability a write request
needs, whether weights and coverage ratios reconcile, whether runtime evidence is genuine,
what an audit log may reveal, whether CI evaluated a commit, whether a branch is protected as
declared, and who closes the HTTP pools. This project models that code in Dafny, one module
per source file or concern, and proves properties that span its functions.

`dafny verify dfyconfig.toml` checks everything.

## How the model is laid out

| module | what it models |
|---|---|
| `PathSearch`, `SchemaPaths` | the dotted-path search through OpenAPI schemas and the declared-metadata check |
| `VocabularyInventory`, `VocabularyTerms` | flattening schemas into fields, the attribute catalog, the naming rule, and the validation of the inventory |
| `ArtifactCleaner` | the four deletion phases over a tree of files |
| `CapabilityRules` | rule matching, loading, the startup check, and the authorization of writes |
| `ScenarioInputs`, `CoverageEvidence` | reconciling weights and ratios under tolerances |
| `OpportunityEvidence` | the builder and the validator of runtime evidence |
| `AuditRedaction` | redaction of audit payloads |
| `ActionReferences` | the resolver of pinned GitHub action references |
| `GateCoverageAudit` | the audit of main-branch commits |
| `BranchProtection` | the policy document check, the live comparison, and the gate |
| `AppLifespan` | ownership of the downstream HTTP pools |
| `Values`, `Graphs`, `Ordering` | JSON values and string operations, finite graphs, sorting |

Code that works by changing things is imperative here too: the cleaner, the application and
the API client are classes, and the loops of the checks and audits are loops with invariants.
Each of them is proved against a function of its inputs or of the old state, and the theorems
are about that function. Code made of expressions and calls is functions and lemmas.

Two conventions need a word. A recursion over documents that may be cyclic takes the number
of calls left before Python raises `RecursionError` as its parameter `depth`; the results say
for which documents some depth is always enough, and for which none is. Floats are exact
reals, so the tolerance results hold of the formulas and not of IEEE rounding.

## What the proofs turned up

* `scripts/clean_generated_artifacts.py:1` promises removal "without touching source truth",
  but a protected name is protected only up to the first artifact directory above it:
  `build/.git` goes with `build`. `ArtifactCleaner.ProtectedSurvivesExactly` gives the exact
  condition.
* `docs/configuration.md:94-96` describes rule paths as absolute path prefixes. They are, except
  for a rule path of slashes alone (`/`, `//` and so on): such a rule is loaded, but it is no
  catch-all and reaches only `/` itself and paths that begin `//`
  (`CapabilityRules.PrefixRuleExactly`, `RootRuleReachesOnlyRoot`).
* The evidence validator compares the status code with `==`, so it accepts `200.0`. Equal
  summaries therefore do not force equal executions; equal summaries and equal spellings of
  the status code do, exactly (`OpportunityEvidence.AcceptedExecutionsAgree`,
  `StatusSpellingNotForced`).
* The evidence validator looks at three keys of the portfolio binding and accepts any others, and
  it accepts 0 and 0.0 for the claims that are false (`OpportunityEvidence.BindingForced`,
  `BindingKeysNotForced`, `ClaimsForced`).
* An accepted coverage ratio determines the returned count for up to and including 10^8
  requests and not beyond; a ratio of 1 means that nothing is missing exactly below 2 * 10^8.
* The comment at `src/app/app_lifecycle.py:50-51` asks for an attempt to close both clients
  whatever the type of one's failure. A cancellation, and an attribute that the body removed,
  end the loop early (`AppLifespan.AllClosedExactly`). A pool whose adapter constructor
  raises is never recorded, so it is never closed (`FailedPoolNeverClosed`,
  `PoolsLeakedExactly`).
* The offline policy check promises a document complete enough to gate against, but lets three
  kinds of document through that can agree with no live protection: a bypass list of
  something other than strings, and a further bypass category, if the review block is declared
  present; and a presence of null, `""`, `[]` or `{}`, which switches all review checks off and
  then equals neither presence nor absence. `BranchProtection.SomeLiveAgreesExactly` says
  exactly which complete documents can agree.
* The offline policy check asks that the review authority be documented. Because it looks at the
  value's string, null and anything else but blank text passes
  (`BranchProtection.OnlyBlankAuthorityRefused`).
* Flattened field names can collide. Two sibling properties can be given nested ones that
  collide exactly when one sibling reads as a nested name of the other, as `a.b` and `a[].b` do
  beside `a`, or when one of them is the empty name and no prefix comes before it
  (`VocabularyInventory.SiblingsSafeExactly`).
* The inventory builder's fallback example for an undocumented list, `["VALUE"]`, is one of the
  placeholders that the inventory's own validator refuses
  (`VocabularyTerms.FallbackPlaceholderExactly`).
* Both schema recursions have cyclic inputs on which no recursion limit is enough; the exact
  conditions are `SchemaPaths.SearchAnswersExactly` and
  `VocabularyInventory.WalkTerminatesExactly`.
* A commit that an annotated tag reaches only through a tenth tag object is not resolved
  although that object is fetched: the loop ends before it looks at the tenth target
  (`ActionReferences.PeelExactly` with ten rounds).

## Model

| member | source | states |
|---|---|---|
| PathSearch.HasPathExact | scripts/domain_data_product_contract_check.py:150-184 | whenever the search answers, it answers whether a finite trail of union and token steps uses up the path |
| PathSearch.AnyHasPathExact | scripts/domain_data_product_contract_check.py:156-163 | trying union members left to right finds a hit exactly when some member has the path |
| PathSearch.PathExistsUnfolds | scripts/domain_data_product_contract_check.py:155-184 | a trail ends here, enters a member, or goes down the first token, and nothing else |
| PathSearch.HasPathTerminates | scripts/domain_data_product_contract_check.py:150-184 | without a cycle of union steps every query is answered within (tokens + 1) times the number of schemas nested calls, whatever cycles the properties form |
| PathSearch.HasPathDecides | scripts/domain_data_product_contract_check.py:150-184 | on such graphs the search equals path existence |
| PathSearch.AnswersAllExactly | scripts/domain_data_product_contract_check.py:150-184 | every query has a deep enough recursion limit if and only if no chain of unions comes back to where it started |
| PathSearch.CycleNeverAnswers | scripts/domain_data_product_contract_check.py:156-163 | around a union cycle, wherever among the members it lies, a token that names nothing exhausts every recursion limit |
| PathSearch.FirstMemberCycleNeverAnswers | scripts/domain_data_product_contract_check.py:156-163 | schemas whose first members form a cycle exhaust every recursion limit even for paths that exist, the empty one included |
| SchemaPaths.ResolveSchemaRef | scripts/domain_data_product_contract_check.py:130-139 | the loop over the segments ends at what the schema stands for: the object its reference leads to, or the schema itself |
| SchemaPaths.ResolvedExactly | scripts/domain_data_product_contract_check.py:130-139 | one hop, exactly: a local reference stands for the object at the end of its segments, read as keys from the root, and any other schema for itself |
| SchemaPaths.UnionMembersExactly | scripts/domain_data_product_contract_check.py:156-163 | the members entered are exactly the objects in the three union lists |
| SchemaPaths.ChildExactly | scripts/domain_data_product_contract_check.py:168-182 | one token leads exactly to the named property, or for `*` to the additional properties and only without them to the items |
| SchemaPaths.DocumentPathExactly | scripts/domain_data_product_contract_check.py:150-184 | path existence in the search graph is path existence in the JSON document, by trails of reference, union, property, `*` and items steps |
| SchemaPaths.DocumentClosed | scripts/domain_data_product_contract_check.py:130-184 | references, unions, properties, `*` and items never leave the finite set of objects of the document |
| SchemaPaths.SearchAnswersExactly | scripts/domain_data_product_contract_check.py:130-184 | termination, exactly: all searches in an OpenAPI document are answered, given a deep enough recursion limit, if and only if its reference-and-union steps are acyclic |
| SchemaPaths.SearchDecides | scripts/domain_data_product_contract_check.py:130-184 | on such a document the search decides path existence |
| SchemaPaths.SearchFindsDocumentPaths | scripts/domain_data_product_contract_check.py:142-184 | whenever it is answered, a search says whether the path exists in the document |
| SchemaPaths.AnyGovernedPathExact | scripts/domain_data_product_contract_check.py:222-225 | a field is found exactly when one of its governed paths exists |
| SchemaPaths.FieldsClean | scripts/domain_data_product_contract_check.py:212-229 | no issue for a route's fields exactly when each has a governed path that exists |
| SchemaPaths.RoutesClean | scripts/domain_data_product_contract_check.py:205-229 | no issue for a product's routes exactly when each has a JSON 200 schema with every required field |
| SchemaPaths.ProductsClean | scripts/domain_data_product_contract_check.py:197-229 | no issue for the products exactly when every declared route of each holds |
| SchemaPaths.ValidateFields | scripts/domain_data_product_contract_check.py:212-229 | the field loop reports, in order, what each field alone gives |
| SchemaPaths.ValidateRoutes | scripts/domain_data_product_contract_check.py:205-229 | the route loop reports, in order, what each route alone gives |
| SchemaPaths.SchemaInside | scripts/domain_data_product_contract_check.py:111-127 | a response schema that is found is an object of the document |
| SchemaPaths.ResponseSchemaExactly | scripts/domain_data_product_contract_check.py:111-127 | the response schema found is exactly the object at the end of the keys from paths to schema |
| SchemaPaths.ReportExact | scripts/domain_data_product_contract_check.py:187-230 | a report is empty exactly when every declared route exposes every required field by an existing path |
| SchemaPaths.ReportNames | scripts/domain_data_product_contract_check.py:197-229 | a report names exactly the true issues: the routes without schema, the fields without governed path, and those of which no governed path exists |
| SchemaPaths.ReportGiven | scripts/domain_data_product_contract_check.py:187-230 | the check gives a report whenever the document is free of union cycles, the recursion limit deep enough, and no declared route behind a value that is no object |
| SchemaPaths.DeepEnoughExists | scripts/domain_data_product_contract_check.py:55-77 | for every document some recursion limit, and each greater one, is deep enough for all governed paths |
| SchemaPaths.ValidateProducts | scripts/domain_data_product_contract_check.py:197-229 | the product loop reports, in order, what each product alone gives |
| SchemaPaths.ValidateDeclaredRouteResponseMetadata | scripts/domain_data_product_contract_check.py:187-230 | on such inputs the check answers, and reports nothing exactly when every declaration holds; a payload without a product list is reported as that |
| VocabularyInventory.ExtractFieldsInto | scripts/api_vocabulary_inventory.py:169-234 | the accumulating walk gives exactly the fields that occur below the schema, in the order of the recursive definition, or runs out of recursion exactly when it does |
| VocabularyInventory.ExtractPropertyInto | scripts/api_vocabulary_inventory.py:185-233 | one property gives its own field, then the fields nested in it |
| VocabularyInventory.EmittedExactly | scripts/api_vocabulary_inventory.py:169-234 | completeness: a walk that returns has emitted exactly the fields of the properties at the end of some way down through references, objects and list items, each with its own name, required flag, type, id, description and example |
| VocabularyInventory.ExtractReturnsExactly | scripts/api_vocabulary_inventory.py:169-234 | the walk returns exactly when no chain of nested schemas is longer than the calls left |
| VocabularyInventory.AcyclicSchemasReturn | scripts/api_vocabulary_inventory.py:169-234 | when no schema is nested in itself the walk returns, given as many calls as there are schemas |
| VocabularyInventory.WalkTerminatesExactly | scripts/api_vocabulary_inventory.py:169-234 | termination, exactly: some recursion limit is deep enough if and only if no cycle of nested schemas can be reached from the schema |
| VocabularyInventory.FieldNamesDistinct | scripts/api_vocabulary_inventory.py:169-234 | when in each schema no property name reads as a nested name of a sibling, and no outermost name is empty unless a prefix comes before it, all emitted field names are pairwise distinct, at every depth |
| VocabularyInventory.SiblingsCollide | scripts/api_vocabulary_inventory.py:189-232 | for all names and prefixes that leave no field name empty: a property that reads as a nested name of its sibling, directly or through a list, collides with it for some nested property |
| VocabularyInventory.EmptyNameCollides | scripts/api_vocabulary_inventory.py:189 | with no prefix, what an empty property nests collides with a sibling of the same name |
| VocabularyInventory.SiblingsSafeExactly | scripts/api_vocabulary_inventory.py:189-232 | the condition is exact, for every prefix and any two names: siblings give distinct field names for all nested schemas if and only if neither reads as a nested name of the other and, where there is no prefix, neither is empty |
| VocabularyInventory.CatalogStep | scripts/api_vocabulary_inventory.py:336-361 | one more field updates the incremental catalog exactly as it changes the group-by |
| VocabularyInventory.AddFields | scripts/api_vocabulary_inventory.py:336-361 | the field loop carries the group-by from the fields before to the fields after |
| VocabularyInventory.BuildAttributeCatalog | scripts/api_vocabulary_inventory.py:317-361 | the incremental catalog is the plain group-by of all request and response fields: type, description and example of the first field, and first-occurrence lists of locations, types and paths |
| VocabularyInventory.FirstOccurrencesInOrder | scripts/api_vocabulary_inventory.py:354-361 | the collected lists hold each value once, in the order of first occurrence |
| VocabularyInventory.EveryFieldCatalogued | scripts/api_vocabulary_inventory.py:336-361 | no field's id, name, location or type is missing from the catalog |
| VocabularyInventory.FirstFieldGoverns | scripts/api_vocabulary_inventory.py:339-352 | the first field with an id gives its attribute the type, the description or its fallback, and the example |
| VocabularyInventory.AllFieldsExactly | scripts/api_vocabulary_inventory.py:332-336 | the fields catalogued are exactly those of some request or response |
| VocabularyInventory.SortedAttributes | scripts/api_vocabulary_inventory.py:410 | the written catalog holds every attribute, strictly sorted by semantic id |
| VocabularyTerms.SnakeCaseExactly | scripts/api_vocabulary_inventory.py:64-68 | a name becomes a term that the validator's pattern accepts exactly when it holds only ASCII letters, digits and separators and a letter comes first after leading separators |
| VocabularyTerms.LettersKept | scripts/api_vocabulary_inventory.py:64-68 | a term keeps the letters and digits of its name, in order and lower case |
| VocabularyTerms.TermsStay | scripts/api_vocabulary_inventory.py:64-68 | a snake-case term is its own term |
| VocabularyTerms.HumpsBreak | scripts/api_vocabulary_inventory.py:65 | a capital after a lower-case letter or a digit begins a new word |
| VocabularyTerms.CanonicalTermOfPath | scripts/api_vocabulary_inventory.py:71-73 | the canonical term of a path is that of its last segment without list brackets: the segment in snake case, but for the two legacy terms |
| VocabularyTerms.ContextualExactly | scripts/api_vocabulary_inventory.py:87-106 | an ambiguous leaf gets the term of the first path row that applies, then of its schema row, then its own; any other leaf its own |
| VocabularyTerms.CanonicalIsModern | scripts/api_vocabulary_inventory.py:71-73 | no name canonicalizes to a legacy term |
| VocabularyTerms.NamedIsModern | scripts/api_vocabulary_inventory.py:76-119 | no field gets an empty id or one with a legacy term, whatever its name and context |
| VocabularyTerms.BodyFieldsNamed | scripts/api_vocabulary_inventory.py:109-115 | every field the walk emits carries an id of the naming rule |
| VocabularyTerms.ValidateEntries | scripts/api_vocabulary_inventory.py:431-461 | the entry loop with its growing set of seen ids reports each entry against exactly the ids before it |
| VocabularyTerms.ValidateField | scripts/api_vocabulary_inventory.py:467-480 | the errors of one endpoint field, key by key |
| VocabularyTerms.ValidateFields | scripts/api_vocabulary_inventory.py:463-480 | the endpoint loop reports the fields in order |
| VocabularyTerms.CleanCatalogExactly | scripts/api_vocabulary_inventory.py:431-461 | any catalog passes exactly when its ids are distinct and each entry has an id, one modern snake-case term, no ambiguous spread and no placeholder |
| VocabularyTerms.CleanEndpointsExactly | scripts/api_vocabulary_inventory.py:463-480 | any endpoint fields pass exactly when each refers to its attribute and repeats none of its metadata |
| VocabularyTerms.ValidateInventory | scripts/api_vocabulary_inventory.py:428-482 | an inventory, built or not, is reported clean exactly when its catalog and its endpoints are |
| VocabularyTerms.FallbackPlaceholderExactly | scripts/api_vocabulary_inventory.py:141-166 | the builder's fallback example is one the validator refuses exactly for a list with no enumeration, no date format and no telling name, or an enumeration that begins with a placeholder |
| VocabularyTerms.CatalogErrorsExactly | scripts/api_vocabulary_inventory.py:431-461 | well-built entries with distinct ids give no error exactly when each one alone gives none, and never one of the other kinds |
| VocabularyTerms.EndpointsFine | scripts/api_vocabulary_inventory.py:363-384 | the endpoint fields of a built inventory never give an error |
| VocabularyTerms.OnePathExactly | scripts/api_vocabulary_inventory.py:450-459 | an id has at most one field path exactly when all fields with that id share one name |
| VocabularyTerms.BuiltInventoryPassesExactly | scripts/api_vocabulary_inventory.py:317-482 | builder against validator: seven of the ten kinds of error cannot occur, and there is none exactly when every field has a snake-case term, one name per ambiguous term, and no placeholder as the first example of its id |
| VocabularyTerms.BuildAndValidate | scripts/api_vocabulary_inventory.py:497-498 | building an inventory and validating it has that outcome |
| ArtifactCleaner.Workspace.RemovePath | scripts/clean_generated_artifacts.py:37-46 | removes an existing unprotected path with everything below it, nothing else, and nothing in a dry run |
| ArtifactCleaner.Workspace.RemoveEach | scripts/clean_generated_artifacts.py:53-69 | one phase: the new tree and the report are those of trying the candidates in order |
| ArtifactCleaner.Workspace.CleanGeneratedArtifacts | scripts/clean_generated_artifacts.py:49-71 | the four phases in order, each globbing the tree the phases before it left |
| ArtifactCleaner.ListedByPhase | scripts/clean_generated_artifacts.py:49-71 | the dry run leaves the tree alone and lists, phase by phase, what exists and is unprotected |
| ArtifactCleaner.RealRunRefinesDryRun | scripts/clean_generated_artifacts.py:49-71 | the real run leaves the tree minus all that is at or below a listed path, and reports the listed paths that no earlier listed one lies at or above |
| ArtifactCleaner.RemovedExactly | scripts/clean_generated_artifacts.py:29-71 | a path is removed exactly when it or a directory above it is an unprotected artifact |
| ArtifactCleaner.ArtifactNameExactly | scripts/clean_generated_artifacts.py:53-69 | the names the four phases look for are the root artifacts, `.coverage.` with anything after it at the root, `__pycache__` and anything before `.egg-info` at any depth |
| ArtifactCleaner.NestedCacheRemoved | scripts/clean_generated_artifacts.py:67-69 | a `__pycache__` at any depth goes with all below it, unless a protected part is above it |
| ArtifactCleaner.NestedEggInfoRemoved | scripts/clean_generated_artifacts.py:58-60 | package metadata at any depth goes with all below it, unless a protected part is above it |
| ArtifactCleaner.FoundSorted | scripts/clean_generated_artifacts.py:58-69 | what a glob finds comes in path order, each path once |
| ArtifactCleaner.SecondCleanFindsNothing | scripts/clean_generated_artifacts.py:49-71 | a second clean lists and removes nothing |
| ArtifactCleaner.FreshAccounts | scripts/clean_generated_artifacts.py:49-71 | the real report is contained in the dry report and accounts for all of it |
| ArtifactCleaner.ProtectedSurvivesExactly | scripts/clean_generated_artifacts.py:29-34 | a protected path survives exactly when no directory up to its first protected part has an artifact name |
| ArtifactCleaner.RootArtifactRemovedWhole | scripts/clean_generated_artifacts.py:42-43 | everything under a root artifact goes with it, protected names included |
| ArtifactCleaner.WithoutWellFormed | scripts/clean_generated_artifacts.py:42-43 | deleting a subtree leaves a tree in which every parent is still a directory |
| ArtifactCleaner.FileHasNoChildren | scripts/clean_generated_artifacts.py:44-45 | unlinking a file removes what deleting its subtree would |
| CapabilityRules.Best | src/app/enterprise_authorization.py:77-79 | the first maximum of the scores, or none when no rule applies |
| CapabilityRules.FirstMaximum | src/app/enterprise_authorization.py:79 | the first of the most specific candidates |
| CapabilityRules.RequiredCapabilityFromRules | src/app/enterprise_authorization.py:64-79 | collecting candidates and taking their maximum gives the capability of the first most specific rule that applies |
| CapabilityRules.AppliesExactly | src/app/enterprise_authorization.py:72-76 | a rule applies exactly when its key is the method in any case, a space, and a path whose segments begin the request path |
| CapabilityRules.RequiredExactly | src/app/enterprise_authorization.py:64-79 | the required capability is that of the first rule naming the most of the request, and there is none exactly when no rule names it |
| CapabilityRules.AtOrBelowIsSegmentPrefix | src/app/enterprise_authorization.py:59-61 | string matching is matching of whole path segments |
| CapabilityRules.EqualSpecificitySamePath | src/app/enterprise_authorization.py:64-79 | two rules of equal specificity for one request name the same normalized path |
| CapabilityRules.OrderIrrelevant | src/app/enterprise_authorization.py:64-79 | the order of the rules matters only among rules for the same method and path |
| CapabilityRules.TrimmedAwayExactly | src/app/enterprise_authorization.py:60 | nothing is left of a rule path exactly when it is of slashes alone |
| CapabilityRules.RootRuleReachesOnlyRoot | src/app/enterprise_authorization.py:59-61 | every rule path of slashes alone reaches exactly `/` and paths that begin `//` |
| CapabilityRules.PrefixRuleExactly | src/app/enterprise_authorization.py:59-61 | a rule path reaches, of the absolute paths, exactly those at or below it if and only if it is not of slashes alone |
| CapabilityRules.SlashRuleIsValid | src/app/enterprise_authorization.py:50-56 | rules of slashes alone are loaded like any other |
| CapabilityRules.LoadRules | src/app/enterprise_authorization.py:45-56 | exactly the well-formed entries are kept |
| CapabilityRules.ValidRuleExactly | src/app/enterprise_authorization.py:50-56 | a rule is loaded exactly when it is written as a write method in any case, a space and an absolute path, with a capability, and no spaces around either text |
| CapabilityRules.SliceIsPartition | src/app/enterprise_authorization.py:50-56 | the partition used when loading and the prefix slice used at request time (lines 72-75) yield the same method and path |
| CapabilityRules.MissingRoutesAmong | src/app/enterprise_authorization.py:91-99 | reports exactly the routes for which no rule applies |
| CapabilityRules.AppendRuleIssues | src/app/enterprise_readiness.py:105-106 | one issue per missing route, in order |
| CapabilityRules.EnterpriseBankConfigIssues | src/app/enterprise_readiness.py:85-112 | nothing is reported exactly when the other checks find nothing, rules exist and every supported write route has one; a route is reported exactly when it has none |
| CapabilityRules.ValidateEnterpriseRuntimeConfig | src/app/enterprise_readiness.py:58-66 | startup goes through exactly when it is not enforced or there is nothing to report, every supported write route having a rule; each issue is listed, and once |
| CapabilityRules.EnforcedStartupExactly | src/app/enterprise_readiness.py:58-66 | an enforced startup goes through exactly when there is nothing else to report, rules exist, and each supported write route has one |
| CapabilityRules.CoverageReachesBelow | src/app/enterprise_authorization.py:59-79 | a rule that covers a route covers every path below it, for every spelling of the method |
| CapabilityRules.StartupCoversWriteRoutes | src/app/enterprise_authorization.py:128-159 | after a successful enforced startup no request to a supported write route or below is denied for want of a rule |
| CapabilityRules.DecisionExactly | src/app/enterprise_authorization.py:141-159 | every decision is the true one: each denial names what is missing first, the headers in sorted order |
| CapabilityRules.AdmittedExactly | src/app/enterprise_authorization.py:128-159 | a checked request is admitted exactly when each required header has a non-empty last value, an identity is there, a rule governs, and its capability is empty or a trimmed comma part of the last capabilities header |
| CapabilityRules.MoreCapabilitiesAdmitMore | src/app/enterprise_authorization.py:120-138 | one more listed capability never turns an admission into a denial, and admits the caller whom only that one was missing |
| ScenarioInputs.SumWeights | src/app/contracts/scenario_inputs.py:18-19 | the total weight |
| ScenarioInputs.ComponentTotals | src/app/contracts/scenario_inputs.py:123-126 | the accumulated totals are, for exactly the component buckets, the weights of the components in each |
| ScenarioInputs.ExposureByBucket | src/app/contracts/scenario_inputs.py:120-122 | each distinct bucket maps to its own exposure weight |
| ScenarioInputs.ValidateComponents | src/app/contracts/scenario_inputs.py:119-146 | components are accepted exactly when they are known, reconciled bucket by bucket and a full allocation; a refusal names the offending buckets or total, and all checks before it pass |
| ScenarioInputs.ValidateExposures | src/app/contracts/scenario_inputs.py:104-147 | a request is accepted exactly when it is acceptable; a refusal holds of the request, and all checks before it pass |
| ScenarioInputs.VerdictDetermined | src/app/contracts/scenario_inputs.py:104-147 | these statements are exclusive: a request has one true verdict, so none can stand for another |
| ScenarioInputs.GroupedMoves | src/app/contracts/scenario_inputs.py:123-126 | adding up bucket by bucket is adding up component by component, for every linear move |
| ScenarioInputs.UncoveredWeightBound | src/app/contracts/scenario_inputs.py:104-147 | exposure buckets without a component carry at most (k + 2) tolerances of weight |
| ScenarioInputs.ShockedTotalsAgree | src/app/contracts/scenario_inputs.py:104-147 | shocks of magnitude at most 1 separate the two views by at most (2k + 2) tolerances |
| ScenarioInputs.BoundsAttained | src/app/contracts/scenario_inputs.py:12-147 | both bounds are attained by an accepted request, for every number of component buckets that leaves room for one without |
| CoverageEvidence.AcceptedRatioIsClose | src/app/contracts/stateful_returns_source_evidence.py:72-83 | an accepted ratio is within 5e-9 of returned over requested |
| CoverageEvidence.AcceptedExactly | src/app/contracts/stateful_returns_source_evidence.py:69-83 | evidence is accepted exactly when its counts add up and its ratio is the exact one within 1e-12 or that one rounded to eight decimals, half to even; with no requests, when it is 1 within 1e-12 |
| CoverageEvidence.RatioDeterminesCountExactly | src/app/contracts/stateful_returns_source_evidence.py:69-83 | an accepted ratio determines the returned count exactly for at most 10^8 requests |
| CoverageEvidence.FullRatioMeansCompleteExactly | src/app/contracts/stateful_returns_source_evidence.py:69-83 | a ratio of 1 means that nothing is missing exactly below 2 * 10^8 requests |
| CoverageEvidence.GridPointsClimb | src/app/contracts/stateful_returns_source_evidence.py:80-82 | if counts never shared a rounded ratio, the n-th would be at least n grid steps up |
| CoverageEvidence.OneMissingRoundsToOne | src/app/contracts/stateful_returns_source_evidence.py:80-82 | from 2 * 10^8 requests on, one missing point still rounds to 1 |
| OpportunityEvidence.BuiltExecutionValidExactly | src/app/evidence/idea_opportunity_runtime.py:173-198 | a built execution passes the execution check (lines 343-386) exactly when its reply has status 200, state ready, freshness current and a valid summary |
| OpportunityEvidence.SummaryReadsReply | src/app/evidence/idea_opportunity_runtime.py:255-309 | every built summary holds, under each name, the value at its documented place in the reply |
| OpportunityEvidence.SummaryDetermined | src/app/evidence/idea_opportunity_runtime.py:255-309 | a reply is summarized only as what is read from it |
| OpportunityEvidence.MetricsRoundTrip | src/app/evidence/idea_opportunity_runtime.py:255-264 | the reply that carries the values of a risk-metrics summary is summarized as exactly that summary |
| OpportunityEvidence.ConcentrationRoundTrip | src/app/evidence/idea_opportunity_runtime.py:279-298 | the same for concentration |
| OpportunityEvidence.DrawdownRoundTrip | src/app/evidence/idea_opportunity_runtime.py:267-276 | the same for drawdown, with as many episodes |
| OpportunityEvidence.GoodReplyExactly | src/app/evidence/idea_opportunity_summary_contract.py:24-67 | a reply is good evidence exactly when its status, state, freshness and the values at their places are in the required ranges, without the summary in between |
| OpportunityEvidence.BuildOutcome | src/app/evidence/idea_opportunity_runtime.py:52-98 | why a build fails, in the order of the checks, and otherwise the three executions in order |
| OpportunityEvidence.CollectedPassExactly | src/app/evidence/idea_opportunity_runtime.py:162-168 | the three collected executions pass exactly when all three proofs are ready |
| OpportunityEvidence.BuiltEvidenceValidExactly | src/app/evidence/idea_opportunity_runtime.py:45-170 | builder against validator: what was built passes exactly when its timestamp parses and all three replies are good evidence |
| OpportunityEvidence.AcceptedExecutionForced | src/app/evidence/idea_opportunity_runtime.py:343-386 | an execution is accepted exactly when it is the canonical one for its proof, a valid summary and a spelling of 200 |
| OpportunityEvidence.EachProofOnce | src/app/evidence/idea_opportunity_runtime.py:162-168 | in accepted evidence each expected proof appears exactly once |
| OpportunityEvidence.AcceptedExecutionsAgree | src/app/evidence/idea_opportunity_runtime.py:117-170 | two accepted artifacts hold the same executions exactly when they agree, proof by proof, on summary and spelling of the status code |
| OpportunityEvidence.BindingForced | src/app/evidence/idea_opportunity_runtime.py:328-334 | a portfolio binding is accepted exactly when it extends the built one: its three values are forced, further keys are not |
| OpportunityEvidence.BindingKeysNotForced | src/app/evidence/idea_opportunity_runtime.py:117-170 | accepted evidence stays accepted with any further key in its binding and the digest renewed |
| OpportunityEvidence.ClaimsForced | src/app/evidence/idea_opportunity_runtime.py:337-340 | the claims are accepted exactly when they are the built ones, each disclaimed one spelled false, 0 or 0.0 |
| OpportunityEvidence.SpellingsOf200 | src/app/evidence/idea_opportunity_runtime.py:352 | exactly 200 and 200.0 pass the status comparison |
| OpportunityEvidence.StatusSpellingNotForced | src/app/evidence/idea_opportunity_runtime.py:352 | summaries alone do not force the executions: two different accepted ones for every valid summary |
| OpportunityEvidence.NamesRoundTrip | src/app/evidence/idea_opportunity_runtime.py:366-383 | a proof is recovered from its name, and from no other |
| AuditRedaction.RedactSensitive | src/app/enterprise_audit.py:27-38 | the recursion gives the redacted value |
| AuditRedaction.RedactDict | src/app/enterprise_audit.py:28-35 | filling the output key by key, in any order, gives the redacted object |
| AuditRedaction.RedactList | src/app/enterprise_audit.py:36-37 | items are redacted one by one, in place and order |
| AuditRedaction.SensitiveExactly | src/app/enterprise_audit.py:10-32 | a key is sensitive exactly when it spells a listed name, whatever the case of its letters |
| AuditRedaction.RedactionKernel | src/app/enterprise_audit.py:10-38 | non-interference, exactly: two values redact alike if and only if they agree on every path that passes no sensitive key |
| AuditRedaction.RedactHidesSecrets | src/app/enterprise_audit.py:27-38 | at a sensitive key only the marker is seen, and nothing below it |
| AuditRedaction.RedactKeepsOpenSights | src/app/enterprise_audit.py:27-38 | nothing changes along a path without sensitive keys |
| AuditRedaction.RedactIdempotent | src/app/enterprise_audit.py:27-38 | redacting twice is redacting once |
| ActionReferences.ApiClient.Get | scripts/resolve_github_action_references.py:56-57 | one logged request, answered by the server |
| ActionReferences.PeelLoop | scripts/resolve_github_action_references.py:140-157 | the bounded loop finds what the bounded recursion finds and requests the same tag objects in the same order |
| ActionReferences.ResolveSha | scripts/resolve_github_action_references.py:122-157 | the result for a commit reference, a lightweight tag or a chain of annotated tags, and the requests it takes |
| ActionReferences.PeelExactly | scripts/resolve_github_action_references.py:140-157 | peeling yields a commit exactly when the chain of tags reaches it within the rounds: with ten, after at most nine tag objects |
| ActionReferences.PeelRequestsBounded | scripts/resolve_github_action_references.py:140-157 | at most one request per round on any chain, cyclic ones included |
| ActionReferences.GroupReferences | scripts/resolve_github_action_references.py:161-163 | each key maps to exactly its references, in order |
| ActionReferences.ResolveReference | scripts/resolve_github_action_references.py:190-202 | one reference resolved in a readable repository, without asking for a repository again |
| ActionReferences.ResolveKey | scripts/resolve_github_action_references.py:168-202 | the memoised turn of the loop gives the unmemoised result, and asks for a repository only when it is new |
| ActionReferences.ResolveReferences | scripts/resolve_github_action_references.py:160-203 | keys strictly sorted and complete, results equal to the unmemoised ones, every repository asked for exactly once |
| ActionReferences.ResolutionsPartition | scripts/resolve_github_action_references.py:161-168 | over distinct keys that cover the references, every reference is counted exactly as often as it occurs |
| ActionReferences.SortedKeysPartition | scripts/resolve_github_action_references.py:160-203 | the returned resolutions partition the references |
| ActionReferences.OutcomeResolvedExactly | scripts/resolve_github_action_references.py:206-213 | the outcome is "resolved" exactly when there are references and each resolves on its own |
| ActionReferences.ResolveExactly | scripts/resolve_github_action_references.py:171-202 | in terms of the server's replies: a key resolves to the commit that its reply or a chain of at most nine annotated tags leads to, is missing exactly when the repository is there and the reference gets a 404, and is inconclusive otherwise |
| ActionReferences.OutcomeExactly | scripts/resolve_github_action_references.py:206-213 | the outcome is missing exactly when there are no references or one is missing, and resolved exactly when there are some and each resolves to a commit |
| ActionReferences.KeyLessStrictTotal | scripts/resolve_github_action_references.py:167 | the order of (slug, ref) pairs is strict and total |
| GateCoverageAudit.Classify | scripts/audit_main_gate_coverage.py:124-150 | the loop puts each commit, in order, into the class its runs give it |
| GateCoverageAudit.ClassesExactly | scripts/audit_main_gate_coverage.py:66-68 | in terms of the runs: passing with a success, failing with a failure and no success, ungated with no run at all, unknown otherwise; a run without conclusion counts by its status |
| GateCoverageAudit.Audit | scripts/audit_main_gate_coverage.py:71-182 | the exit code is what the audit promises, and the report accounts for each examined commit once |
| GateCoverageAudit.EndingIsAuditEnding | scripts/audit_main_gate_coverage.py:112-182 | under --fail-on-gap success means that the whole window, not the probed prefix, fits the limit and every commit in it has a verdict |
| GateCoverageAudit.NoGapsExactly | scripts/audit_main_gate_coverage.py:129-150 | no commit is unknown or ungated exactly when each has a run that reached a verdict |
| GateCoverageAudit.EvaluatedIsNoGap | scripts/audit_main_gate_coverage.py:136-142 | a commit is in no gap class exactly when one of its runs succeeded or failed |
| GateCoverageAudit.ClassesSum | scripts/audit_main_gate_coverage.py:124-150 | the four classes sum to the examined commits |
| GateCoverageAudit.CappedIsPrefix | scripts/audit_main_gate_coverage.py:112-123 | probing one past the cap and cutting it off examines the capped window and detects every truncation |
| BranchProtection.FlagKeys | scripts/check_branch_protection_policy.py:162-164 | a loop over required keys reports exactly the bad ones, in order |
| BranchProtection.TopSection | scripts/check_branch_protection_policy.py:149-160 | no issue exactly when all top-level keys are there, the repository is not blank and the review authority is documented |
| BranchProtection.ExpectedSection | scripts/check_branch_protection_policy.py:161-184 | no issue exactly when every setting is there and boolean, and the status checks are there, typed and not empty |
| BranchProtection.ReviewSection | scripts/check_branch_protection_policy.py:185-212 | no issue exactly when the review block declares its presence and, if that is truthy, is complete |
| BranchProtection.NoReviewIssues | scripts/check_branch_protection_policy.py:188-212 | a block declared present has no issue exactly when its settings, its count and its three bypass lists are there and typed |
| BranchProtection.ExceptionSection | scripts/check_branch_protection_policy.py:213-224 | no issue exactly when every documented exception is complete and zero approvals are documented |
| BranchProtection.ValidatePolicyDocument | scripts/check_branch_protection_policy.py:142-225 | the offline check reports all issues in order, and none exactly on the complete documents |
| BranchProtection.NoIssuesExactly | scripts/check_branch_protection_policy.py:142-225 | the list of issues is empty exactly when every key is there, typed and documented |
| BranchProtection.IssuesAreTrue | scripts/check_branch_protection_policy.py:142-225 | each of the twenty-two kinds of issue is reported exactly when what it says is true of the document |
| BranchProtection.CompareSettings | scripts/check_branch_protection_policy.py:261-272 | exactly the scalar settings that differ are reported |
| BranchProtection.SettingAgreesExactly | scripts/check_branch_protection_policy.py:253-272 | a live setting agrees exactly when it is, or is an object whose `enabled` is, a value equal to the declared flag |
| BranchProtection.CompareChecks | scripts/check_branch_protection_policy.py:274-282 | contexts compared as sorted lists differ exactly when they differ as multisets |
| BranchProtection.CompareReviewSettings | scripts/check_branch_protection_policy.py:293-303 | exactly the review settings that differ are reported |
| BranchProtection.CompareBypass | scripts/check_branch_protection_policy.py:304-315 | bypass lists agree exactly when the categories are the three and each list agrees as a multiset |
| BranchProtection.CompareReviews | scripts/check_branch_protection_policy.py:284-315 | on a complete document no missing key is read, and the differences are the true ones |
| BranchProtection.CompareLiveToPolicy | scripts/check_branch_protection_policy.py:257-324 | on a complete document the comparison reads no missing key and reports exactly the true differences |
| BranchProtection.NoDifferenceExactly | scripts/check_branch_protection_policy.py:257-324 | nothing is reported exactly when every compared field agrees |
| BranchProtection.LiveGate | scripts/check_branch_protection_policy.py:349-351 | after the offline check the live half passes exactly on agreement |
| BranchProtection.Gate | scripts/check_branch_protection_policy.py:327-360 | the gate passes exactly for a complete document of this repository that, unless offline, agrees with the live protection |
| BranchProtection.SomeLiveAgreesExactly | scripts/check_branch_protection_policy.py:142-324 | exactly which documents that pass the offline check can pass the live one: the review block is declared absent in a value equal to false, or present with just the three bypass categories, each a list of strings |
| BranchProtection.OnlyBlankAuthorityRefused | scripts/check_branch_protection_policy.py:157-160 | of the values of a review authority exactly blank text is refused: null and every other value that is no text pass as documented |
| BranchProtection.UnknownCategoryPassesOffline | scripts/check_branch_protection_policy.py:201-212 | a further bypass category passes the offline check, and some live protection can then agree exactly if the block is declared absent |
| BranchProtection.FalsyPresencePassesOffline | scripts/check_branch_protection_policy.py:188 | every falsy presence passes the offline check, and some live protection can then agree exactly if it is a boolean or a number: never for null, an empty string, list or object |
| AppLifespan.Application.AcquireClient | src/app/app_lifecycle.py:23-36 | an injected client is kept; otherwise the client is built, stored and recorded as owned, or building raises |
| AppLifespan.StartProvidesClients | src/app/app_lifecycle.py:23-36 | startup raises exactly when a build it reaches fails; otherwise the body sees both clients, the injected one or one over the pool just made, and exactly the others are owned, in order |
| AppLifespan.BothClosedInReverse | src/app/app_lifecycle.py:43-58 | with nothing injected and both attributes left in place, the performance pool and then the core pool are attempted and both attributes removed |
| AppLifespan.ClosesDownTo | src/app/app_lifecycle.py:43-58 | where a client stops the loop, exactly the pools down to it are attempted and their attributes removed |
| AppLifespan.Application.ApplicationLifespan | src/app/app_lifecycle.py:17-40 | on every way out draining is set, the state and the closes are those of closing what startup owns, and the ending says whether anything raised |
| AppLifespan.Application.CloseOwnedHttpClients | src/app/app_lifecycle.py:43-58 | the reverse loop gives the specified state, close attempts and abort |
| AppLifespan.CloseAttempts | src/app/app_lifecycle.py:43-58 | the attempts are a prefix of the owned pools in reverse order |
| AppLifespan.AllClosedExactly | src/app/app_lifecycle.py:43-58 | every owned pool is attempted once, in reverse, exactly when no cancellation and no missing attribute stops the loop before its last client |
| AppLifespan.CloseRemovesOwned | src/app/app_lifecycle.py:57-58 | if nothing stops the loop the owned attributes are gone and the rest is as the body left it |
| AppLifespan.StartOwnsOnlyItsOwn | src/app/app_lifecycle.py:23-36 | startup owns distinct attributes, none of them injected, and keeps what was injected |
| AppLifespan.LifespanReleasesOwned | src/app/app_lifecycle.py:17-58 | on normal exit, a body exception or a failed build, every owned pool is attempted once in reverse and every other attribute is left alone |
| AppLifespan.FailedStartRestoresState | src/app/app_lifecycle.py:22-40 | a failed build leaves the state as it was before the lifespan |
| AppLifespan.CreatedPoolsOwnedExactly | src/app/app_lifecycle.py:24-36 | startup owns the created pools in order, and all of them exactly when no adapter constructor raises |
| AppLifespan.FailedPoolNeverClosed | src/app/app_lifecycle.py:17-58 | a pool on which an adapter constructor raised is never closed, however the close begins and ends |
| AppLifespan.PoolsLeakedExactly | src/app/app_lifecycle.py:17-58 | with the owned attributes in place and no cancellation, some created pool stays unclosed if and only if an adapter constructor raised on it |

## Left out

- IEEE rounding: floats are exact reals; NaN and the infinities are one JSON value that no result distinguishes further.
- Letter case beyond ASCII, and the wider Python notions of white space.
- SHA-256 and canonical JSON: one arbitrary function per kind of document; the results hold for every choice.
- Symbolic links, failing deletions and concurrent changes of the file tree; the tree is kept in path order, which is the order `sorted` gives.
- The wording of messages: issues and details are values that carry what the message names, and messages of one kind are one value.
- Process calls, the network, argument parsing, printing and report files: parameters and outcomes.
- The GitHub server answers a path the same way every time; URL quoting is a structured path.
- Environment variables: the other startup issues are the parameters `base`, `before` and `after`.
- The admission of verified principals and the request middleware: not part of this model.
- Datetime formatting and parsing: the formatted timestamp and the set of texts that parse as aware timestamps are parameters.
- The control catalog and the endpoint headings of the inventory, and its canonical and preferred names as separate columns: both are the id without its prefix.
- Selecting a request body, parameters and response from an operation: an operation is its two lists of fields, and a parameter is a field named by the rule.
- A `$ref` that is no string, and malformed `required` lists, in the schemas of the inventory.
- OpportunityEvidence: a blocker list or the provenance is the expected one or a different one, so what else `tuple` makes equal to a blocker list is not modelled; a payload, execution, receipt or summary without its exact keys is one rejected value.
- BranchProtection: the policy document has objects where the code reads keys, and Python's `str` of a repository that is no text is the parameter `show`; reports of the live comparison are given as a set of differences, not in their order.
- BranchProtection.Gate: a bypass value that is no list of strings makes Python raise or report a difference, depending on how its elements compare; both are one failing outcome.
- GateCoverageAudit.Audit: a window is a parameter; a negative commit count is rejected by git.
- The platform's own contract validator, whose code is not in the repository, and the remaining scripts, whose checks do not depend on one another.
- The analytics engines, scenario jobs and HTTP clients: their code is not part of this model.
