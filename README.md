# Component Registry (corgi) — a Dafny model of its core

Component Registry ("corgi") records which software components make up which Red Hat products. It collects
build and content data from several systems, then stores products, components and the relations between them:

- Brew/Koji builds, RPMs, modules, container images and their bundled or Go dependencies;
- Errata Tool advisories and product versions;
- Pulp repositories, Pyxis container manifests and Yum/DNF repository metadata;
- RHEL compose metadata, product definitions, the app-interface service list and Syft scans.

It serves that data through a REST API with serializers, filters, views and a tagging mixin. It listens to the
message bus (UMB), and runs its collection work as Celery tasks. Its database holds a stored procedure that
compares RPM versions (`rpmvercmp`) and finds the latest component of a name within a product.

This project models the core of that system in Dafny and proves properties of the model. It is split into
Dafny modules, one per `.dfy` file, that follow the source's structure. A module mostly models one source file,
though a large file is shared by several modules (corgi/core/models.py by `ComponentModel`, `LatestNevra` and
`Provenance`; the 0091 migration by `RpmVersion`, `RpmVersionOrder` and `LatestComponent`), and `Text` and
`Wrappers` model no source file of their own. The table under "## Model" names the source lines behind each member:

- Parsing and shaping code that works by expression is written as functions. Lemmas state what it promises.
- Code that loops and updates variables is written as methods with loop invariants. Each method is proved
  against a specification function, and the properties are proved about that function.
- Objects the source updates in place are classes with `modifies` frames: the tag store, the relation table,
  the user and token stores, the task results table, the component's links and the message receiver.
- Database tables are maps and sets. A database NULL is `None`, and a raised exception is an `Err`.
- Network responses, subprocess output, the clock and the settings environment are parameters.
- `wrappers.dfy` holds `Option` and `Result`. `text.dfy` holds the Python string operations the source relies
  on: split, rsplit, partition, replace, strip, lower/upper, and code-point string comparison.

## Model

| member | source | states |
|---|---|---|
| AppInterface.AssignOrgItems | corgi/collectors/app_interface.py:67-69 | the loop over an organisation's items leaves the table its "org/name" assignments describe |
| AppInterface.AppSubcomponents | corgi/collectors/app_interface.py:54-79 | the subcomponent list is the table built from the quay.io repositories and then the code components |
| AppInterface.ApplyHoldsLast | corgi/collectors/app_interface.py:54-74 | a subcomponent is in the table iff some assignment names it, and holds the last Quay and Git value assigned to it |
| AppInterface.QuayUpdatesFromQuayIo | corgi/collectors/app_interface.py:58-69 | Quay repo names are assigned exactly for the items of quay.io organisations, as "org/name"; other registries are skipped |
| AppInterface.SubcomponentsSound | corgi/collectors/app_interface.py:54-79 | subcomponent names are distinct; a quay_repo_name is "org/name" of a quay.io organisation listing it; a git_repo_url is that of a code component of that name |
| AppInterface.SubcomponentsComplete | corgi/collectors/app_interface.py:58-79 | every item of a quay.io organisation and every code component appears as a subcomponent |
| AppInterface.FetchComponentMap | corgi/collectors/app_interface.py:51-80 | the loop builds the app-name to subcomponents map of the specification function |
| AppInterface.ComponentMapLastWins | corgi/collectors/app_interface.py:80 | the last app of a name decides that name's subcomponents |
| AppInterface.ExpandAppend | corgi/collectors/app_interface.py:84-96 | expanding a concatenation is the concatenation of the expansions |
| AppInterface.ExpandNoApps | corgi/collectors/app_interface.py:95-96 | components naming no app are kept as defined, in order |
| AppInterface.ExpandComponents | corgi/collectors/app_interface.py:84-96 | the loop over a service's components keeps unnamed ones, extends by a known app's subcomponents, and skips unknown apps |
| AppInterface.FetchServiceMetadata | corgi/collectors/app_interface.py:82-100 | each service maps to its expanded component list |
| AppInterface.ServiceMetadataHoldsEach | corgi/collectors/app_interface.py:98 | the last service of an id is mapped to its own expansion |
| AppInterface.ServiceMetadataKeys | corgi/collectors/app_interface.py:82-98 | the metadata has exactly the given services as keys |
| AppInterface.LastComesFrom | corgi/collectors/app_interface.py:54-74 | a Quay or Git value recorded for a subcomponent was assigned to it, and none is recorded iff none was assigned |
| AppInterface.LastNoneIfUnassigned | corgi/collectors/app_interface.py:54-74 | a subcomponent never assigned has neither a Quay repository nor a Git url |
| Authentication.FilterUsersByClaims | corgi/core/authentication.py:23-39 | claims without a UUID, or with one no profile holds, match no user; otherwise exactly the profile's user |
| Authentication.CreateUser | corgi/core/authentication.py:41-56 | claims without "rhatUUID" fail authentication; otherwise the profile holds the UUID, groups and full name, the last two "" when absent |
| Authentication.UpdateUser | corgi/core/authentication.py:58-65 | the profile takes the claimed UUID, its roles are the "groups" claim ("" when absent) and its full name the "cn" claim ("" when absent); the profile's user is kept; a missing UUID is the KeyError "rhatUUID" |
| Authentication.UpdateAsCreate | corgi/core/authentication.py:43-65 | with a UUID claim, updating a profile gives the same profile fields as creating one for its user |
| Authentication.VerifiedClaimsCreateFindableUser | corgi/core/authentication.py:17-56 | claims that pass `verify_claims` always create a user, and the same claims then find that user |
| Authentication.VerifyClaimsGuards | corgi/core/authentication.py:15-19 | `verify_claims` holds iff the library's own check passes and `create_user` can make a user from the claims; claims refused for want of "rhatUUID" neither create nor find a user |
| Authentication.UpdateAfterCreate | corgi/core/authentication.py:41-65 | updating a profile with the claims that created it changes nothing |
| Authentication.Roles | corgi/core/authentication.py:83 | the roles are the raw roles with "[" and "]" stripped from both ends, split at ", ": they join back to the stripped text |
| Authentication.HasPermission | corgi/core/authentication.py:74-84 | a view without permitted roles is a ValueError; a user without a profile is denied; otherwise access iff some role is permitted |
| Authentication.RolesOfGroupList | corgi/core/authentication.py:83 | a bracketed ", "-separated list of roles reads back as that list |
| Authentication.GroupListPermission | corgi/core/authentication.py:74-84 | a user listing a permitted role is admitted; one whose roles are all unlisted is not |
| Authentication.NoRoles | corgi/core/authentication.py:83-84 | a profile with no roles holds the single role "", so it is admitted only where "" is permitted |
| BrewCollector.SplitNvr | corgi/collectors/brew.py:296-304 | the parts found join back with "-" into the NVR, the version and release hold no "-", and fewer than two "-" is a ValueError |
| BrewCollector.SplitNvrRoundTrip | corgi/collectors/brew.py:296-304 | splitting an NVR whose version and release hold no "-" gives back its name (which may hold "-"), version and release |
| BrewCollector.SplitNvrNeedsTwoDashes | corgi/collectors/brew.py:298-300 | a string with fewer than two "-" is refused |
| BrewCollector.SansEpoch | corgi/collectors/brew.py:849-855 | fails (ValueError) exactly when the NVR cannot be split, and returns the NVR unchanged when its version holds no ":" |
| BrewCollector.SansEpochDropsEpoch | corgi/collectors/brew.py:849-855 | "name-E:V-R" loses its epoch, and an NVR without one is unchanged |
| BrewCollector.SansEpochKeeps | corgi/collectors/brew.py:849-855 | an NVR whose version holds no ":" is returned unchanged |
| BrewCollector.ModuleKeyToNvr | corgi/collectors/brew.py:857-861 | a key with fewer than three ":" (fewer than four parts) raises IndexError, and every other key gives an NVR |
| BrewCollector.ModuleKeyToNvrParts | corgi/collectors/brew.py:857-861 | "n:s:v:c" with colon-free parts becomes "n-s-v.c" |
| BrewCollector.BundledOf | corgi/collectors/brew.py:120-167 | at most one entry per provide |
| BrewCollector.ExtractBundledProvides | corgi/collectors/brew.py:120-167 | the loop keeps, in order, the entries of the specification function |
| BrewCollector.BundledOfOrigins | corgi/collectors/brew.py:124-133 | every entry carries the version of a provide marked "bundled(" or "golang("; without such a provide there are no entries |
| BrewCollector.UnknownPrefixKeepsName | corgi/collectors/brew.py:158-164 | "bundled(p-rest)" with an unknown prefix p is a GENERIC component named "p-rest" |
| BrewCollector.UnknownPrefixClassified | corgi/collectors/brew.py:158-164 | a name whose first separator is "-" after an unknown prefix is GENERIC under its whole name |
| BrewCollector.GolangProvide | corgi/collectors/brew.py:129-155 | "golang(x)" is a GOLANG component x with the provide's version, and is skipped when x names a Go architecture |
| BrewCollector.GolangClassified | corgi/collectors/brew.py:137-155 | after "golang(" the type is GOLANG, except the four architecture names, which are dropped |
| BrewCollector.OfTypeMembers | corgi/collectors/brew.py:655-658 | a dependency is kept iff it is in the input and its type matches (or, for the remainder, does not) |
| BrewCollector.FilterByType | corgi/collectors/brew.py:649-659 | removing each match from a copy leaves exactly the non-matching dependencies in order, beside the matching ones in order |
| BrewCollector.FilterIsSplit | corgi/collectors/brew.py:649-659 | the two lists together hold each dependency exactly as often as the input |
| BrewCollector.ModuleFor | corgi/collectors/brew.py:603-616 | the first module whose name prefixes the package name; None iff no module does |
| BrewCollector.ModuleKeys | corgi/collectors/brew.py:593-594 | the dictionary's keys: exactly the (name, version) of the modules, without repeats |
| BrewCollector.FindModule | corgi/collectors/brew.py:603-616 | the inner loop with its break finds the module of the specification function |
| BrewCollector.CollectModuleKeys | corgi/collectors/brew.py:591-594 | the first loop gives the distinct module keys, each with an empty package list |
| BrewCollector.NestPackages | corgi/collectors/brew.py:597-629 | the second loop gives the direct dependants and each module's nested packages of the specification functions |
| BrewCollector.NestPackage | corgi/collectors/brew.py:598-629 | one package extends exactly one of the direct list or its module's list |
| BrewCollector.AppendModules | corgi/collectors/brew.py:631-646 | the last loop appends one module entry per key after the direct dependants |
| BrewCollector.ExtractGolang | corgi/collectors/brew.py:584-647 | the dependants of the specification function, and the input without its gomod and go-package entries |
| BrewCollector.PackagePlacement | corgi/collectors/brew.py:597-629 | a package lands under the first module prefixing its name without "vendor/", and is a direct dependant under its full name when none does |
| BrewCollector.DirectAreUnmatched | corgi/collectors/brew.py:617-629 | every direct dependant is a go-package of the input that no module name prefixes |
| BrewCollector.ModuleEntriesShape | corgi/collectors/brew.py:634-646 | one gomod entry per key, in order, with "components" iff some package nested under it |
| BrewCollector.LeadingDigits | corgi/collectors/brew.py:22 | the longest run of at most max digits at the front |
| BrewCollector.AdvisoryMatch | corgi/collectors/brew.py:22 | a match is a prefix of the tag: the advisory head and four to six digits |
| BrewCollector.AdvisoryMatchLongest | corgi/collectors/brew.py:22 | the match is greedy: a digit may follow it only after six digits |
| BrewCollector.AdvisoryMatchIff | corgi/collectors/brew.py:22 | a tag matches iff it starts with the head and at least four digits |
| BrewCollector.ExtractAdvisoryIds | corgi/collectors/brew.py:677-684 | the set of the matches of the tags |
| BrewCollector.CreateImageComponent | corgi/collectors/brew.py:261-294 | given name, version and release are kept; if one is empty they come from the NVR, whose split failure propagates; a repository url iff a name label is given; the url is the container repository, "/" and the label; a name from the label iff the label holds a "/", and then it is slash-free, ends the label and follows a "/" there, so it is the text after the last "/" |
| BrewCollector.ImageLabelNames | corgi/collectors/brew.py:288-293 | a label "namespace/repo" with a slash-free repo gives the name "repo" and the url of the whole label |
| BrewTasks.MapComponentType | corgi/tasks/brew.py:264-273 | a type is refused with ValueError iff it is neither a Go type, a Cachito type, nor a Corgi type once upper-cased; a Go component type is recorded iff the type is go-package or gomod |
| BrewTasks.MapComponentTypeSound | corgi/tasks/brew.py:264-273 | an accepted type is saved as a Corgi type when the Cachito mapping names only Corgi types |
| BrewTasks.MapComponentTypeKeeps | corgi/tasks/brew.py:270-271 | a Corgi type that no Cachito key claims maps to itself |
| BrewTasks.MapComponentTypeLower | corgi/tasks/brew.py:270-271 | the lower-case spelling of a Corgi type is accepted and upper-cased unless claimed by a Go or Cachito key |
| BrewTasks.NodeTypeFor | corgi/tasks/brew.py:260-262 | PROVIDES_DEV exactly for dev dependencies, so only queries including dev dependencies see them |
| BrewTasks.SavedNevraIsNevra | corgi/tasks/brew.py:294-302 | with a non-empty arch the saved NEVRA is the component's own NEVRA of the saved fields |
| BrewTasks.SavedNevraShape | corgi/tasks/brew.py:294-302 | the NEVRA always ends ".arch" and starts "name-version" when the epoch is zero |
| BrewTasks.SaveComponentFields | corgi/tasks/brew.py:255-309 | fails iff the type is refused; arch defaults to noarch and epoch to 0; the NEVRA ends in the arch; dev decides PROVIDES_DEV; the related url is the url, else the repository url |
| BrewTasks.HandleDashUnderscore | corgi/tasks/brew.py:378-458 | a resolved NEVRA is the dash or underscore variant and has exactly one match; a name with neither separator fails with ValueError |
| BrewTasks.VariantsDiffer | corgi/tasks/brew.py:388-391 | for a name with both separators occurring in the NEVRA the two variants differ |
| BrewTasks.BothSpellingsFound | corgi/tasks/brew.py:404-408 | when both spellings have matches the union holds two or more rows and the lookup fails |
| BrewTasks.OneSeparatorResolves | corgi/tasks/brew.py:425-456 | a name with one kind of separator resolves to the other spelling iff that has exactly one match |
| BrewTasks.BrewBuild.constructor | corgi/tasks/brew.py:946 | a build holds its tags and the advisory ids extracted from them |
| BrewTasks.UpdateBrewTags | corgi/tasks/brew.py:907-951 | no tag is a ValueError; an unknown build changes nothing; an added tag leaves the tags sorted and distinct; a removed tag drops one occurrence; a missing removed tag asks for a refresh and changes nothing; advisory ids are recomputed on update |
| BrewTasks.AddTagSortedSet | corgi/tasks/brew.py:924-926 | after adding, the tags are strictly sorted and are the old tags plus the new one |
| BrewTasks.AddTagIdempotent | corgi/tasks/brew.py:924-926 | adding the same tag twice, or a tag already in a sorted list, changes nothing |
| BrewTasks.RemoveTagOnce | corgi/tasks/brew.py:935 | removing a present tag drops exactly one occurrence of it |
| BrewTasks.TagSet | corgi/tasks/brew.py:795 | the distinct tags of the build |
| BrewTasks.AddStreamRelations | corgi/tasks/brew.py:800-815 | the inner loop adds one relation per shared tag and counts the new ones |
| BrewTasks.UpdateOrCreate | corgi/tasks/brew.py:804-815 | one relation is present afterwards, counted iff it did not exist |
| BrewTasks.LoadBrewTags | corgi/tasks/brew.py:790-816 | afterwards the relations are the existing ones plus one per stream and tag shared with the build, and the count is the number that did not exist |
| BrewTasks.CreatedOnlyForSharedTags | corgi/tasks/brew.py:796-808 | every wanted relation joins the build to a stream through a tag both carry |
| LatestNevra.LabelCompare | corgi/core/models.py:871-877 | the comparison of (epoch, version, release) answers -1, 0 or 1 |
| LatestNevra.LabelReflexive | corgi/core/models.py:871-877 | every label compares equal to itself |
| LatestNevra.LabelAntisymmetric | corgi/core/models.py:871-877 | swapping the labels negates the answer |
| LatestNevra.LabelTransitive | corgi/core/models.py:871-877 | "not greater" is transitive, so sorting by the comparison is well defined |
| LatestNevra.LabelPreorder | corgi/core/models.py:904 | the comparison is a total preorder, as sorting with it needs |
| LatestNevra.LatestMatch | corgi/core/models.py:899-904 | a chosen row matches the namespace, name and arch |
| LatestNevra.LatestMatchNone | corgi/core/models.py:902-907 | nothing is chosen iff no row matches |
| LatestNevra.LatestMatchIsLastGreatest | corgi/core/models.py:904 | the chosen row is greatest among the matches and every later match is strictly smaller, which is the last element of a stable sort |
| LatestNevra.FilterLatestNevra | corgi/core/models.py:894-907 | the running maximum loop returns the NEVRA of the specification function |
| LatestNevra.FilterLatestNevraChoice | corgi/core/models.py:894-907 | "" when no row matches; otherwise the NEVRA of a matching row that no matching row exceeds, a falsy epoch compared as "0" |
| LatestNevra.KeepIf | corgi/core/models.py:928-936 | keeps, in order, exactly the rows whose NEVRA is (or is not) in the latest set |
| LatestNevra.SeenStep | corgi/core/models.py:914-918 | one more row adds its own (namespace, name, arch) triple |
| LatestNevra.LatestComponents | corgi/core/models.py:909-936 | the loop over the distinct triples returns the rows of the specification function |
| LatestNevra.LatestComponentsPartition | corgi/core/models.py:922-936 | with no latest NEVRA the latest view is empty and the other is everything; each row is in exactly one of the two views, and both hold only rows of the queryset |
| LatestNevra.LatestRowIncluded | corgi/core/models.py:918-928 | a row whose non-empty NEVRA is the latest of its triple is in the latest view |
| ComponentModel.ProductOfuri | corgi/core/models.py:531-536 | the ofuri is "o:redhat:" followed by the product name, which removing the prefix gives back |
| ComponentModel.TrimVersion | corgi/core/models.py:573 | removing the version (and a separator before it) from the end leaves a prefix of the name |
| ComponentModel.ProductVersionOfuri | corgi/core/models.py:568-575 | the ofuri starts "o:redhat:", ends with ":" and the version, and between them holds a prefix of the version's name |
| ComponentModel.ProductStreamOfuri | corgi/core/models.py:615-624 | a stream's ofuri is built exactly as a version's from its name and version: "o:redhat:", a prefix of the name, ":" and the version |
| ComponentModel.ProductVariantOfuri | corgi/core/models.py:696-701 | the ofuri is the stream's ofuri, ":" and the variant name lower-cased |
| ComponentModel.MatchesItself | corgi/core/models.py:573 | a version used as a pattern matches its own text |
| ComponentModel.TrimVersionDropsVersion | corgi/core/models.py:568-574 | a name made of a base, an optional "-" or "_", and the version loses exactly separator and version, so the ofuri is "o:redhat:base:version" |
| ComponentModel.TrimVersionKeepsOtherNames | corgi/core/models.py:615-623 | a name not ending in something the version pattern matches keeps its whole name |
| ComponentModel.GetNvr | corgi/core/models.py:1502-1504 | the NVR starts with name, "-" and version, and goes on with "-" and the release exactly when the release is not empty |
| ComponentModel.GetNevra | corgi/core/models.py:1506-1511 | the NEVRA starts with the name, ":epoch" when the epoch is truthy, "-" and the version, and ends with "-release" when there is a release and ".arch" when there is an arch |
| ComponentModel.NevraExtendsNvr | corgi/core/models.py:1502-1511 | the NEVRA is the NVR with ":epoch" after the name when the epoch is truthy and ".arch" appended when the arch is not empty |
| ComponentModel.NevraWithoutEpoch | corgi/core/models.py:1502-1511 | with a falsy epoch the NEVRA is the NVR followed by ".arch" when there is an arch, and is the NVR without an arch |
| ComponentModel.EnsureEpoch | corgi/core/models.py:879-892 | the epoch text is never empty: "0" for a falsy epoch (absent, 0 or ""), otherwise the epoch rendered as text |
| ComponentModel.EnsureEpochReadsBack | corgi/core/models.py:879-892 | the normalised epoch is never empty and reads back as 0 for a falsy epoch and as the stored number for a non-negative integer epoch |
| ComponentModel.LicenseGroups | corgi/core/models.py:1798-1800 | at least one AND group, each with at least one OR part |
| ComponentModel.LicenseList | corgi/core/models.py:1792-1802 | never empty, since splitting keeps a string without the separator whole |
| ComponentModel.LicenseListSingle | corgi/core/models.py:1792-1802 | an expression with neither operator is one licence with its parentheses stripped |
| ComponentModel.LicenseGroupsRejoin | corgi/core/models.py:1798-1800 | rejoining the groups with " OR " and " AND " gives back the expression |
| ComponentModel.DigestFrom | corgi/core/models.py:1235-1239 | a given digest is the first format in order with a given value; none is given iff no format has one |
| ComponentModel.GetPurl | corgi/core/models.py:1162-1187 | the purl type is the lower-cased component type, and a Red Hat component's namespace starts "redhat/" |
| ComponentModel.PurlNamespace | corgi/core/models.py:1162-1187 | the purl type is the lower-cased component type; a Red Hat component's namespace is "redhat/" followed by the builder's namespace (the Maven group id); version-release for the generic types |
| ComponentModel.ModulePurlRoundTrip | corgi/core/models.py:1209-1217 | the module version is "stream:version:context", and splitting it at ":" gives the three parts back |
| ComponentModel.ModulePurlNoContext | corgi/core/models.py:1212 | a release without "." is the version and the context is empty |
| ComponentModel.ContainerPurlShape | corgi/core/models.py:1233-1263 | name_from_label overrides the name; the tag qualifier comes first; arch iff not noarch; repository_url iff given; the version is the first given digest, or "" without digests |
| ComponentModel.RpmPurlShape | corgi/core/models.py:1219-1231 | version-release as version, the arch qualifier always, the epoch qualifier iff the epoch is truthy |
| ComponentModel.StripNamespace | corgi/core/models.py:1265-1270 | a purl is unchanged unless the component is a Red Hat one and the purl holds "/redhat/"; it never grows |
| ComponentModel.StripRelease | corgi/core/models.py:1272-1280 | a version is unchanged when the release is empty or "-release" does not occur in it; it never grows |
| ComponentModel.StripNamespaceUndoesRedHat | corgi/core/models.py:1265-1270 | for a Red Hat component the first "/redhat/" after a slash-free type becomes "/"; other namespaces are left alone |
| ComponentModel.StripReleaseUndoesSuffix | corgi/core/models.py:1272-1280 | stripping undoes the appended release when the version holds no "-" |
| ComponentModel.ComponentLinks.SaveProductTaxonomy | corgi/core/models.py:1595-1619 | a missing or empty mapping is a ValueError and changes nothing; otherwise each relation in turn only gains its key's ids, and a missing key is a KeyError after the earlier relations were extended |
| ConfigUtils.GetEnv | config/utils.py:4-6 | "" when unset; otherwise a dot-free suffix of the settings module, the whole value when it has no "." |
| ConfigUtils.GetEnvOfPath | config/utils.py:4-6 | a settings path ending ".env" with a dot-free env gives exactly env |
| ConfigUtils.AtMostOneEnvironment | config/utils.py:9-18 | no two of dev, prod and stage are running at once |
| ConfigUtils.NamedEnvironments | config/utils.py:4-18 | "config.settings.prod" runs prod and not dev, "config.settings.dev" runs dev and not stage, and an unset variable runs none |
| Consumer.TopicOf | corgi/monitor/consumer.py:224-238 | the topic named by an address suffix, unique because the suffixes are distinct |
| Consumer.TopicAt | corgi/monitor/consumer.py:81 | the topic listened on at an address: some t exactly when the address is t's `Consumer.<name>.VirtualTopic.eng.<suffix>` |
| Consumer.Route | corgi/monitor/consumer.py:76-90 | after "topic://" is rewritten, routing succeeds iff the address is a listened one; an empty address is the "had no address!" ValueError |
| Consumer.RoutesTopicAddress | corgi/monitor/consumer.py:76-81 | `topic://r` routes to t exactly when r is `VirtualTopic.eng.<suffix of t>` |
| Consumer.AddressParts | corgi/monitor/consumer.py:224-238 | a topic's address is the consumer part followed by the general topic name |
| Consumer.FirstMissing | corgi/monitor/consumer.py:107-108 | None iff the body holds every field read; otherwise a field read and absent, where `message[key]` raises |
| Consumer.FieldsPresent | corgi/monitor/consumer.py:103-218 | when no read field is missing the body has all fields the handler needs |
| Consumer.BrewTagsRequest | corgi/monitor/consumer.py:122-136 | the request updates the build; the tag is added iff the address ends ".tag" and removed otherwise, never both |
| Consumer.Request | corgi/monitor/consumer.py:103-218 | each handler's scheduled task and arguments; shipped errata go to the PNC task iff the product is an SBOMer one |
| Consumer.TagAndUntag | corgi/monitor/consumer.py:122-136 | a message on the tag topic adds the tag and one on the untag topic removes it |
| Consumer.Handle | corgi/monitor/consumer.py:103-218 | a missing field is a KeyError for brew/errata handlers and False for SBOMer/Pyxis ones; otherwise the result is whether scheduling succeeded |
| Consumer.HandlerFalseIffNotScheduled | corgi/monitor/consumer.py:110-120 | a handler returns False exactly when scheduling failed, or a field was missing inside its try |
| Consumer.ReceiverHandler.OnMessage | corgi/monitor/consumer.py:72-98 | an unroutable message raises and settles nothing; True accepts the message; False releases it as delivered |
| Consumer.Selector | corgi/monitor/consumer.py:239-243 | the selector is non-empty only for the errata status topic |
| Consumer.ReceiverOptions | corgi/monitor/consumer.py:61-70 | at most one option: the selector, present iff the topic is errata status |
| ErrataTool.StripCandidateSuffixes | corgi/collectors/errata_tool.py:103-105 | one tag per tag, each with one trailing "-candidate" removed and otherwise unchanged |
| ErrataTool.StripRemovesOneSuffix | corgi/collectors/errata_tool.py:105 | only one suffix is removed, and a tag without it is kept as is |
| ErrataTool.StripExample | corgi/collectors/errata_tool.py:103-105 | ["some-tag", "other-tag-candidate"] becomes ["some-tag", "other-tag"] |
| ErrataTool.FirstEmptyPage | corgi/collectors/errata_tool.py:51-58 | the first page from `page` on with empty data: where the loop breaks |
| ErrataTool.PagedIsConcat | corgi/collectors/errata_tool.py:45-59 | the paged result is the data of the pages before the first empty one, in order, or the error of a failed request |
| ErrataTool.GetPaged | corgi/collectors/errata_tool.py:45-59 | the loop from page 1 gives the paged result of the specification function |
| ErrataTool.ErrataKeyDetails | corgi/collectors/errata_tool.py:254-263 | a ValueError iff there is not exactly one type key; otherwise its id, shipped iff its status is "SHIPPED_LIVE" |
| ErrataTool.AllFiles | corgi/collectors/errata_tool.py:208-214 | the variant's components are exactly the files of all its arches |
| ErrataTool.StripRpms | corgi/collectors/errata_tool.py:280-284 | exactly the ".rpm" files with that suffix removed |
| ErrataTool.ModularRpmsFrom | corgi/collectors/errata_tool.py:274-285 | a modular rpm comes from a ".rpm" file of an arch other than "SRPMS", suffix removed |
| ErrataTool.VariantEntries | corgi/collectors/errata_tool.py:202-291 | a plain build adds one entry with all the files; a module adds one entry per persisted build id, in the order the persisting step returns them, each with the modular rpms |
| ErrataTool.AddVariantsEntries | corgi/collectors/errata_tool.py:208-291 | a variant is in the map iff it was before or gets entries; its list is the old list followed by the new entries |
| ErrataTool.VariantMapEntries | corgi/collectors/errata_tool.py:196-216 | a variant is a key iff some build gives it entries, and its list is those entries in build order |
| ErrataTool.CollectVariantFiles | corgi/collectors/errata_tool.py:209-213 | the loop gathers the files of all arches |
| ErrataTool.CollectModularRpms | corgi/collectors/errata_tool.py:275-285 | the loop gathers the modular rpms |
| ErrataTool.ParseModule | corgi/collectors/errata_tool.py:265-291 | `_parse_module` adds the entries of each variant of a modular build |
| ErrataTool.AddBuildComponents | corgi/collectors/errata_tool.py:207-214 | a plain build adds one entry per variant |
| ErrataTool.GetErratumComponents | corgi/collectors/errata_tool.py:155-216 | the loops build the variant map of the specification function |
| ErrataTool.LoadRelease | corgi/collectors/errata_tool.py:107-129 | the row has the release's id and name, the stripped tags, and is linked exactly to its product versions that exist |
| ErrataTool.StoredCpe | corgi/collectors/errata_tool.py:142-145 | a missing, null or empty cpe is stored as "", any other as given |
| ErrataTool.LoadVariants | corgi/collectors/errata_tool.py:131-153 | one row per variant in order, with its id, name and stored cpe, linked to its product version iff that exists |
| Filters.Where | corgi/api/filters.py:137-143 | queryset filtering keeps exactly the admitted rows, in order, never more |
| Filters.ParseTerm | corgi/api/filters.py:129-137 | "!" prefix excludes; a term with ":" is split at its first ":" into name and value, else it is the name alone |
| Filters.Terms | corgi/api/filters.py:126-128 | an empty value has no terms; otherwise one term per comma-separated part |
| Filters.TagFilter | corgi/api/filters.py:123-143 | the loop's result is the rows the terms leave when applied in order, an excluding term dropping rows and a plain term joining the tag table |
| Filters.Matches | corgi/api/filters.py:134-138 | a plain term's number of matching tags is positive iff the term admits the tags |
| Filters.Weight | corgi/api/filters.py:139-142 | a term passes a row on at all iff it admits the row's tags |
| Filters.JoinTagsCount | corgi/api/filters.py:141-142 | a `filter` across the tag relation holds each row as often as the input, times its number of matching tags |
| Filters.WhereCount | corgi/api/filters.py:139-140 | an `exclude` keeps each admitted row exactly as often as the input holds it, and drops the others |
| Filters.StepCount | corgi/api/filters.py:139-142 | one term passes each row on as often as it comes, times the term's weight for it |
| Filters.ApplyTermsCount | corgi/api/filters.py:128-143 | a row comes out as often as it comes in, times the product of the terms' weights for it |
| Filters.MultiplicityPositive | corgi/api/filters.py:128-143 | that product is positive iff every term admits the row |
| Filters.ApplyTermsMembers | corgi/api/filters.py:128-143 | terms are ANDed: a row remains iff it is an input row admitted by every term |
| Filters.TagDuplicatesExample | corgi/api/filters.py:141-142 | an object tagged "n:a" and "n:b" comes out twice for the term "n" |
| Filters.DistinctTagFilterOnce | corgi/api/filters.py:128-143 | with `distinct()`, each row comes out as often as the input holds it when every term admits it and never otherwise, and the same rows as without it |
| Filters.TermMeaning | corgi/api/filters.py:129-143 | "name" keeps objects with such a tag, "!name" those without, "name:value" those with that exact tag |
| Filters.PreprocessFields | corgi/api/filters.py:28-36 | the parts join back with "," to the value with dots replaced by "__"; no part holds a dot or comma |
| Filters.DotsReplaced | corgi/api/filters.py:36 | no dot survives the replacement |
| Filters.FilterFields | corgi/api/filters.py:38-66 | relations go to prefetch, concrete fields to the valid set, anything else is dropped |
| Filters.IncludeFieldsFilter | corgi/api/filters.py:68-101 | prefetch = the traversed relations plus relation fields; only() = the concrete plain fields, with software_build for Component |
| Filters.TraversalPrefetched | corgi/api/filters.py:83-86 | "a__b__c" prefetches "a__b" (the text before the last "__") |
| Filters.EmptyStringFilter | corgi/api/filters.py:107-119 | no value returns the input; else empty-field rows kept iff exclude differs from the value, others iff it does not |
| Filters.GomodComponents | corgi/api/filters.py:251-268 | no value returns the input; else only GOLANG rows, Go modules iff the value is true |
| Filters.OfuriOrName | corgi/api/filters.py:271-284 | a value starting "o:redhat:" matches related products by ofuri, any other by name |
| Filters.SortFields | corgi/api/filters.py:82-89 | the loop sends each "__" field's prefix before its last "__" to prefetch and keeps the other fields for only() |
| Fixups.CpeLookup | corgi/core/fixups.py:94-96 | a listed stream yields exactly the CPEs of its entry, as a set; an unlisted stream yields the empty set |
| Fixups.AsSetBound | corgi/core/fixups.py:96 | the set built from a list has at most as many elements as the list: duplicates collapse |
| Fixups.AsSetDistinct | corgi/core/fixups.py:96 | a list without repeats keeps all its entries in the set |
| Fixups.LookupBound | corgi/core/fixups.py:4-96 | a lookup returns at most as many CPEs as the stream's entry lists |
| Fixups.RhelComposeStreams | corgi/core/fixups.py:56-84 | "rhel-8.8.0" and "rhel-9.2.0" each map to twelve distinct CPEs |
| LatestComponent.LatestIndex | corgi/core/migrations/0099_add_type_arch_stored_proc_filter.py:91-100 | the latest state is the initial NULL state or the uuid and EVR of one fetched row |
| LatestComponent.FoldLatest | corgi/core/migrations/0099_add_type_arch_stored_proc_filter.py:129-142 | the FETCH loop returns the uuid of the running-latest fold |
| LatestComponent.LatestNullIff | corgi/core/migrations/0091_install_stored_proc.py:76-82 | the result is NULL exactly when every fetched row has a negative epoch (none fetched included), since the NULL initial state coalesces to epoch 0 |
| LatestComponent.LatestIsFetched | corgi/core/migrations/0099_add_type_arch_stored_proc_filter.py:130-142 | a non-NULL result is the uuid of a fetched row |
| LatestComponent.CmpReflexive | corgi/core/migrations/0091_install_stored_proc.py:69-84 | a row with non-empty version and release segments compares equal to itself |
| LatestComponent.BelowNewLatest | corgi/core/migrations/0091_install_stored_proc.py:69-84 | a row not above the current latest is not above a row that replaces it |
| LatestComponent.AcceptKeepsLastMaximal | corgi/core/migrations/0099_add_type_arch_stored_proc_filter.py:133-138 | after one more row the latest is still a greatest row that every later row is strictly below |
| LatestComponent.LatestIsLastMaximal | corgi/core/migrations/0099_add_type_arch_stored_proc_filter.py:129-142 | for comparable rows some row is chosen iff any is fetched, and the chosen row is greatest, later ties losing to it never (the last greatest wins) |
| LatestComponent.Where | corgi/core/migrations/0099_add_type_arch_stored_proc_filter.py:46-61 | the selected rows are exactly the components of the links that satisfy the WHERE clause, in order |
| LatestComponent.WhereNothing | corgi/core/migrations/0091_install_stored_proc.py:169-176 | a WHERE clause no link satisfies selects nothing |
| LatestComponent.GetLatestComponent0091 | corgi/core/migrations/0091_install_stored_proc.py:86-188 | the function as written returns the fold over the rows its model_type branch selects |
| LatestComponent.Stream0091IgnoresInactiveFlag | corgi/core/migrations/0091_install_stored_proc.py:171 | as written, with include_inactive_streams true the stream branch selects nothing and returns NULL |
| LatestComponent.StreamCursor0099 | corgi/core/migrations/0099_add_type_arch_stored_proc_filter.py:46-61 | the corrected stream cursor admits a link with the requested name, namespace, type, arch, ofuri and root kind when its stream is active or inactive streams are included, and admits nothing else |
| LatestComponent.InactiveOnlyWhenIncluded | corgi/core/migrations/0099_add_type_arch_stored_proc_filter.py:56 | without include_inactive_streams every selected row comes from an active stream |
| LatestComponent.GetLatestComponent0099 | corgi/core/migrations/0099_add_type_arch_stored_proc_filter.py:10-143 | the product, version and variant branches fail on the unjoined core_productstream; the stream branch returns the fold over the stream cursor |
| ManifestHints.NonEmpty | corgi/collectors/manifest_hints_parser.py:196 | `filter(None, …)` keeps the non-empty lines, never adds any |
| ManifestHints.LoadManifestHints | corgi/collectors/manifest_hints_parser.py:193-196 | an HTTP error status fails; otherwise non-empty lines with no newline |
| ManifestHints.ConcatNonEmpty | corgi/collectors/manifest_hints_parser.py:196 | dropping empty lines loses no text |
| ManifestHints.ConcatSplitLines | corgi/collectors/manifest_hints_parser.py:196 | the lines split at "\n" hold all the text but the newlines |
| ManifestHints.LoadKeepsText | corgi/collectors/manifest_hints_parser.py:193-196 | the loaded lines concatenated are the response text without its newlines |
| ManifestHints.FirstMatch | corgi/collectors/manifest_hints_parser.py:208-214 | the loop gives the first pattern's match, as the specification function |
| ManifestHints.MatchFirstWins | corgi/collectors/manifest_hints_parser.py:209-213 | the first matching pattern decides, whatever later ones match |
| ManifestHints.ExtractFromAnnotation | corgi/collectors/manifest_hints_parser.py:198-214 | the groups of the first matching annotation pattern, or an empty dict |
| ManifestHints.ParseHints | corgi/collectors/manifest_hints_parser.py:216-274 | the loop appends the entry of each line, in order |
| ManifestHints.ParseOneLine | corgi/collectors/manifest_hints_parser.py:220-272 | one iteration's statements give that line's entry, if any |
| ManifestHints.ParseLineOriginal | corgi/collectors/manifest_hints_parser.py:219-272 | blank and comment lines give nothing; every entry records the right-stripped line as "original"; an entry is unprocessed iff the line is in no category |
| ManifestHints.ParseLineUsesOneCategory | corgi/collectors/manifest_hints_parser.py:226-269 | only the patterns of the line's category (embedded, "=", ":", "(") and the annotation patterns matter |
| ManifestHints.ParseAppend | corgi/collectors/manifest_hints_parser.py:219 | lines parse independently: entries of a split file are the concatenation |
| ManifestHints.ParseLength | corgi/collectors/manifest_hints_parser.py:219-272 | at most one entry per line |
| Mixins.ValidateTag | corgi/api/serializers.py:285-287 | an accepted tag has a trimmed non-empty slug name and a trimmed value of at most 1024 characters, "" when absent; a body is refused iff its name is missing or the trimmed tag is not valid |
| Mixins.CreatedMessage | corgi/api/mixins.py:42-45 | the message starts "Created tag <name>" and goes on with ": <value>" exactly when the value is not empty |
| Mixins.Doomed | corgi/api/mixins.py:55-60 | an empty body names every tag; a rejected body names nothing; otherwise only the held tag equal to the validated one |
| Mixins.TaggedObject.AddTag | corgi/api/mixins.py:24-48 | a rejected body changes nothing; a tag already held gives 400 "Tag already exists."; a new tag is added with 201 and the created message; stored tags stay valid |
| Mixins.TaggedObject.DeleteTags | corgi/api/mixins.py:51-69 | the named tags are removed, the count is their number, and the status is 404 iff nothing was deleted, 200 otherwise |
| Mixins.DeleteNamedAtMostOne | corgi/api/mixins.py:57-60 | a delete with a body removes at most one tag, exactly one iff the object holds it, and only that one |
| Mixins.AddThenDelete | corgi/api/mixins.py:24-69 | adding a new tag and deleting it with the same body restores the tags held before |
| Mixins.EmptyNameRefused | corgi/core/models.py:244 | a name that is empty once trimmed is refused, as the database constraint requires |
| Mixins.TagString | corgi/core/models.py:250-253 | the string starts with the name; it is the name alone when the value is empty, otherwise the name, '=' and the value |
| Mixins.TagStringPartition | corgi/core/models.py:250-253 | for a slug name, splitting the string at its first '=' gives back the name, whether a value is present, and the value, even when the value holds '=' |
| Mixins.TagStringInjective | corgi/core/models.py:250-253 | two tags with slug names have the same string form iff they are the same tag |
| Monitoring.UpsertIntervalTask | corgi/tasks/monitoring.py:29-43 | a ValueError naming the task iff neither hours nor minutes is truthy; otherwise the task is registered under its name and dotted path, every other task is kept, and a new one gets the hours interval if given, else the minutes one |
| Monitoring.UpsertIdempotent | corgi/tasks/monitoring.py:41-43 | registering the same task twice gives the same schedule as once (get_or_create) |
| Monitoring.Threshold | corgi/tasks/monitoring.py:92-96 | the report threshold is the later of the refresh time and now minus 3 days |
| Monitoring.FailedRows | corgi/tasks/monitoring.py:99-102 | a result is selected iff it is in the table, failed or awaits retry, and finished at or after the threshold |
| Monitoring.OrderByNameDate | corgi/tasks/monitoring.py:103 | the ordering is a permutation of its input, sorted by task name and then by finishing time |
| Monitoring.FailedSince | corgi/tasks/monitoring.py:98-105 | a permutation of exactly the results that failed or await retry since the threshold, ordered by task name (code-point order) and then by finishing time, so the results of one task are in date order |
| Monitoring.SortedNamesDedup | corgi/tasks/monitoring.py:103-123 | over results ordered by task name, the task names in order of first appearance are strictly increasing |
| Monitoring.SectionsFollowTaskNames | corgi/tasks/monitoring.py:98-136 | with failures, the report is the header followed by one section per task, the section task names are strictly increasing and are exactly the names of the failed results, and each task's results are in date order |
| Monitoring.FailedTasksEmail | corgi/tasks/monitoring.py:93-114 | the subject counts the failed results since the threshold, and the body is the no-failure message or the per-task sections over them |
| Monitoring.Dedup | corgi/tasks/monitoring.py:118-123 | the keys of a dict filled in order: every element exactly once |
| Monitoring.ErrorsOf | corgi/tasks/monitoring.py:119-121 | a task's error list has one entry per failed result of that task |
| Monitoring.CountsAddUp | corgi/tasks/monitoring.py:126-127 | the counts of the distinct errors add up to the number of errors |
| Monitoring.InsertKeepsDescending | corgi/tasks/monitoring.py:130 | inserting by count into a list ordered by descending count keeps it ordered |
| Monitoring.SortByCount | corgi/tasks/monitoring.py:130 | the sorted errors are a permutation of the distinct errors, in non-increasing count order |
| Monitoring.SortByCountStable | corgi/tasks/monitoring.py:130 | the sort is stable: the errors of any one count stay in their order of first appearance |
| Monitoring.GroupByTask | corgi/tasks/monitoring.py:118-121 | the task names in order of first appearance, each mapped to the error triples of its failed results in order |
| Monitoring.AppendTaskSection | corgi/tasks/monitoring.py:126-136 | appends exactly the task's section: header with total, one line per distinct error by count, closing rule |
| Monitoring.AppendTaskSections | corgi/tasks/monitoring.py:123-136 | the loop appends the sections of the grouped tasks in their order |
| Monitoring.TaskResults.EmailFailedTasks | corgi/tasks/monitoring.py:84-143 | no mail iff running dev; otherwise the mail is the subject and report on the failures since the threshold |
| Monitoring.TaskResults.ExpireTaskResults | corgi/tasks/monitoring.py:146-158 | the table keeps exactly the results done at or after now minus 30 days, and the message names how many were removed |
| Monitoring.Unexpired | corgi/tasks/monitoring.py:154-155 | a result is kept iff it is in the table and finished at or after the cutoff |
| Monitoring.ExpirySplits | corgi/tasks/monitoring.py:154-158 | kept and removed results together are the table, so the reported count is exactly the results older than the cutoff |
| Monitoring.ExpiryIdempotent | corgi/tasks/monitoring.py:154-155 | expiring again at the same cutoff removes nothing more |
| Monitoring.DevSendsNothing | corgi/tasks/monitoring.py:88-90 | "config.settings.dev" is the development environment, where no mail is built |
| Monitoring.NoFailuresReport | corgi/tasks/monitoring.py:107-114 | with no failures the body is the header followed by "No failed tasks! Hooray!" and the subject counts 0 |
| Monitoring.GroupTotal | corgi/tasks/monitoring.py:126-127 | a section's total equals the number of failed results of that task |
| Monitoring.GroupsCoverFailures | corgi/tasks/monitoring.py:117-136 | the sections together account for every failure exactly once |
| Monitoring.SectionOrder | corgi/tasks/monitoring.py:126-135 | a section lists each distinct error once, most frequent first, errors of equal count in order of first appearance, and its counts add up to the total |
| Monitoring.ExpiredMembers | corgi/tasks/monitoring.py:154-155 | a result is deleted iff it is in the table and finished before the cutoff |
| Monitoring.NoneFailed | corgi/tasks/monitoring.py:98-105 | without a failed result since the threshold the report lists no failure |
| Monitoring.GroupSizesTotal | corgi/tasks/monitoring.py:117-127 | the section totals add up to the number of failed results |
| ProdDefs.LoadProducts | corgi/collectors/prod_defs.py:27-40 | the loop keeps the products `Products` selects, each with its key as id, in document order |
| ProdDefs.Products | corgi/collectors/prod_defs.py:27-40 | the selection is no longer than the document's product list |
| ProdDefs.ProductsMembers | corgi/collectors/prod_defs.py:30-38 | a product is kept iff it is in the document and is Community in community mode, non-Community otherwise |
| ProdDefs.ProductsPartition | corgi/collectors/prod_defs.py:31-36 | the community and enterprise selections together hold every product exactly once |
| ProdDefs.ShapeStreams | corgi/collectors/prod_defs.py:62-69 | the stream loop gives each listed stream with its id and this visit's activity, or fails at a missing stream; the shared activity table ends with one write per listed stream, the last one winning |
| ProdDefs.ShapeVersions | corgi/collectors/prod_defs.py:56-70 | the module loop gives each listed module with its streams, or fails at a missing reference; the activity table ends with the writes of every visited module in order |
| ProdDefs.ShapeProducts | corgi/collectors/prod_defs.py:54-71 | the product loop gives each selected product with its versions, or fails at a missing reference; the activity table ends with the writes of every module of every product in order |
| ProdDefs.LoadProductDefinitions | corgi/collectors/prod_defs.py:42-73 | a fetched document is shaped, and because every occurrence of a stream is the same dict, each occurrence carries the activity its last visiting module gave it; the document is the one `SourceDocument` chooses: only Python's built-in ConnectionError falls back to the bundled document, and only in community mode; any other error is raised |
| ProdDefs.SourceDocument | corgi/collectors/prod_defs.py:44-50 | a fetched document is used; an error is raised unless it is the built-in ConnectionError in community mode, which gives the bundled document |
| ProdDefs.RequestsFailureNotCaught | corgi/collectors/prod_defs.py:44-50 | in community mode a requests connection failure is raised, while the corrected handler returns the bundled document |
| ProdDefs.FixedDocumentFallsBack | corgi/collectors/prod_defs.py:44-50 | with both connection-error classes caught, an error is raised iff it is not a connection failure in community mode; it agrees with the code wherever the code succeeds |
| ProdDefs.ShapedTree | corgi/collectors/prod_defs.py:54-73 | versions follow "ps_modules" order, streams follow "ps_update_streams" order, and every occurrence of a stream is active iff the last module visited that lists it lists it as active |
| ProdDefs.RawShapedTree | corgi/collectors/prod_defs.py:54-71 | before the shared dicts are taken into account, each visit's stream is active iff the module being visited lists it as active |
| ProdDefs.LastListing | corgi/collectors/prod_defs.py:62-68 | the last visited module that lists a stream, and none iff no visited module lists it |
| ProdDefs.ModuleWritesLast | corgi/collectors/prod_defs.py:62-68 | after all visits the table holds a flag for a stream iff some visited module lists it, and the flag is that of the last such module |
| ProdDefs.SharedStreamTakesLastFlag | corgi/collectors/prod_defs.py:56-71 | a stream listed by an active module and then by a module where it is inactive ends inactive in both places |
| ProdDefs.VersionOfFails | corgi/collectors/prod_defs.py:57-63 | a module fails to shape iff it or one of its streams is missing from the document (KeyError) |
| ProdDefs.ProductOfFails | corgi/collectors/prod_defs.py:54-71 | a product fails iff one of its modules has a missing reference |
| ProdDefs.ShapeFails | corgi/collectors/prod_defs.py:52-73 | `Shape`, the whole load, fails iff some selected product names a module with a missing reference |
| ProdDefs.VersionStart | corgi/tasks/prod_defs.py:22 | the leftmost position from p where a digit followed only by digits, "z", "." and "-" to the end begins, if any |
| ProdDefs.VersionLike | corgi/tasks/prod_defs.py:108-109 | the version is always a suffix of the name ("" when nothing matches) |
| ProdDefs.VersionLikeIsLongestSuffix | corgi/tasks/prod_defs.py:22 | "" iff no such position exists; otherwise the suffix starting at the leftmost one |
| ProdDefs.VersionLikeExamples | corgi/tasks/prod_defs.py:20-22 | "rhel-8.6.0" gives "8.6.0", "openshift-4.10.z" gives "4.10.z", "rhel-br-8" gives "8" and "rhacm" gives "" |
| ProdDefs.VersionLikeAfter | corgi/tasks/prod_defs.py:22 | a digit-free prefix followed by a version-like tail gives that tail |
| ProdDefs.NoDigitNoVersion | corgi/tasks/prod_defs.py:22 | a name without digits has version "" |
| ProdDefs.BrewTagsDictLastWins | corgi/tasks/prod_defs.py:99-101 | in `BrewTagsDict`, each tag maps to the inherit flag of its last entry |
| ProdDefs.BrewTagsDictKeys | corgi/tasks/prod_defs.py:99-101 | the keys are exactly the listed tags |
| ProdDefs.ComposesDictLastWins | corgi/tasks/prod_defs.py:103-105 | in `ComposesDict`, each url maps to the variants of its last entry |
| ProdDefs.ComposesDictKeys | corgi/tasks/prod_defs.py:103-105 | the keys are exactly the listed urls |
| ProdDefs.PvNames | corgi/tasks/prod_defs.py:182-184 | the names of the product versions, one per version, in order |
| ProdDefs.EtProductVersionsCount | corgi/tasks/prod_defs.py:178-184 | in `EtProductVersions`, one more errata product adds exactly its product version names, in order |
| ProdDefs.EtMatchTagTrims | corgi/tasks/prod_defs.py:140 | one trailing "-released" is removed and nothing else changes |
| ProdDefs.StreamRecordOf | corgi/tasks/prod_defs.py:92-184 | a stream is saved with its id, version-like suffix, activity, tag and compose dicts and yum repositories, and its errata product versions are the stored list followed by this run's names |
| ProdDefs.SavedStreamRecord | corgi/tasks/prod_defs.py:111-184 | the stored errata product versions are kept as a prefix and this run's names are appended after them |
| ProdDefs.RerunDuplicates | corgi/tasks/prod_defs.py:111-184 | saving the same stream twice leaves the stored list followed by this run's names twice |
| ProdDefs.RerunDuplicatesExample | corgi/tasks/prod_defs.py:111-184 | a stream already stored with ["RHEL-8"] whose errata info names RHEL-8 is saved with ["RHEL-8", "RHEL-8"] |
| ProdDefs.FixedStreamRecord | corgi/tasks/prod_defs.py:111-184 | the corrected record is the saved one with the errata product versions replaced by this run's names alone |
| Provenance.Ancestors | corgi/core/models.py:1883 | proper ancestors are nodes of the forest and include the parent |
| Provenance.AncestorsAbove | corgi/core/models.py:1883 | every proper ancestor sits at a strictly smaller level, so no node is its own ancestor or descendant |
| Provenance.ProvidesBelowStep | corgi/core/models.py:1831-1838 | one more node adds its provides descendants' components when it is a node of the component |
| Provenance.ProvidesBelowCovered | corgi/core/models.py:1831-1838 | what one more node adds comes from the earlier nodes or from its own provides descendants |
| Provenance.ProvidesBelowGrows | corgi/core/models.py:1831-1838 | the result only grows node by node, by the node's provides descendants when it is the component's |
| Provenance.SourcesBelowStep | corgi/core/models.py:1881-1887 | one more node adds its ancestors' components when it is a provides-typed node of the component |
| Provenance.GetProvidesNodes | corgi/core/models.py:1821-1839 | the loop gives the components of the provides-typed proper descendants of any node of the component |
| Provenance.GetSourcesNodes | corgi/core/models.py:1870-1888 | the loop gives the components of the proper ancestors of any provides-typed node of the component |
| Provenance.ProvidesSourcesInverse | corgi/core/models.py:1878-1880 | sources are the inverse of provides: y is provided by x iff x is a source of y |
| Provenance.DevWidens | corgi/core/models.py:1826-1830 | leaving out dev dependencies only shrinks the provided set |
| Pulp.GetActiveRepositories | corgi/collectors/pulp.py:38-59 | an HTTP error status raises; otherwise the repositories are stored and the created count returned |
| Pulp.StoreRepos | corgi/collectors/pulp.py:51-59 | the loop stores each repository's content set by id and counts the created rows |
| Pulp.CreatedCountIsNewIds | corgi/collectors/pulp.py:50-59 | the count is the number of distinct repository ids not stored before |
| Pulp.StoredReposLastWins | corgi/collectors/pulp.py:52-55 | a repository's stored content set is that of its last entry, "" without one |
| Pulp.StoredReposKeys | corgi/collectors/pulp.py:53-55 | the stored ids are the old ones plus the listed ones |
| Pulp.UnitData | corgi/collectors/pulp.py:100-108 | 404 gives no units; another error status raises; any other status gives the units |
| Pulp.ModuleKeyStream | corgi/collectors/pulp.py:69-74 | the key starts "name-stream-" with every "-" of the stream turned into "_" |
| Pulp.ModuleKeyConflatesSeparators | corgi/collectors/pulp.py:71 | streams differing only in "-" against "_" give the same key |
| Pulp.ModuleData | corgi/collectors/pulp.py:65-76 | the keys are exactly the module keys of the entries |
| Pulp.GetModuleData | corgi/collectors/pulp.py:65-76 | a failed request fails; otherwise the module-key map of the units |
| Pulp.ModuleDataLastWins | corgi/collectors/pulp.py:75 | the last entry of a key decides its artifacts |
| Pulp.FilesFrom | corgi/collectors/pulp.py:90-95 | the files of a source rpm, never more than the units |
| Pulp.GroupRpmsIsFiles | corgi/collectors/pulp.py:90-95 | a source rpm is a key iff some non-".src" unit names it (".src.rpm" removed), and its list is its files in order |
| Pulp.PageCriteria | corgi/collectors/pulp.py:85-87 | page n asks for filename and sourcerpm of rpm units, 500 at a time, skipping 500·n |
| Pulp.UnitsFromAnyLast | corgi/collectors/pulp.py:86-97 | the result depends only on the pages read, not on the page chosen as known last |
| Pulp.UnitsFromFullPages | corgi/collectors/pulp.py:96-97 | every page before the last read was full |
| Pulp.FirstLastPage | corgi/collectors/pulp.py:96-97 | the first short page from `page` on: where the loop breaks |
| Pulp.AppendPage | corgi/collectors/pulp.py:90-95 | adding a page's units to the grouping gives the grouping of all units so far |
| Pulp.GetRpmData | corgi/collectors/pulp.py:82-98 | the paging loop gives the grouped rpms of the specification function |
| PyxisCollector.FinalPage | corgi/collectors/pyxis.py:127-140 | the first page from `page` on whose batch is shorter than the page size: the page the loop stops after |
| PyxisCollector.PagesUpTo | corgi/collectors/pyxis.py:124-140 | the pages 0, 1, 2, … requested in order |
| PyxisCollector.GetManifestData | corgi/collectors/pyxis.py:106-143 | an unset URL, cert or key is a ValueError before any request; otherwise pages 0..final are requested and the result is the paged manifest |
| PyxisCollector.ReadPages | corgi/collectors/pyxis.py:123-143 | the loop requests pages 0, 1, … up to the first short batch and returns the paged manifest |
| PyxisCollector.PagesFromConcatenates | corgi/collectors/pyxis.py:135-142 | the result is the last page's manifest with its components replaced by every batch in order, a null batch counting as empty |
| PyxisCollector.FullPagesBeforeLast | corgi/collectors/pyxis.py:137-139 | every page before the last was full, so the result holds at least page size times that many components |
| PyxisTasks.FindRelatedUrl | corgi/tasks/pyxis.py:228-236 | the loop with `break`/`else` gives the related url of the specification function |
| PyxisTasks.RelatedUrlPrefersWebsite | corgi/tasks/pyxis.py:228-236 | the first "website" reference's url if any; else the first reference's url; else "" |
| PyxisTasks.FindRelease | corgi/tasks/pyxis.py:243-248 | the value of the last "syft:metadata:release" property, "" without one |
| PyxisTasks.FindEpoch | corgi/tasks/pyxis.py:250-255 | the loop gives the epoch of the specification function, failing at a non-integer epoch property |
| PyxisTasks.EpochFails | corgi/tasks/pyxis.py:253-255 | the epoch fails iff some epoch property, not only the last, is not an integer |
| PyxisTasks.EpochIsLast | corgi/tasks/pyxis.py:252-255 | 0 without an epoch property, otherwise the last one's integer value |
| PyxisTasks.LastPropertyIsLast | corgi/tasks/pyxis.py:245-248 | no value iff no property has the name; otherwise the value of a property with it that no later one has |
| PyxisTasks.SaveManifestComponent | corgi/tasks/pyxis.py:209-298 | the statements of `save_component` up to the ORM write give the fields of the specification function |
| PyxisTasks.SaveComponent | corgi/tasks/pyxis.py:209-265 | nothing is saved iff the purl is missing or empty; a purl not starting "pkg:" fails; a saved type is the upper-cased text before the first "/" and a Corgi type; no query string means "noarch" |
| PyxisTasks.ImageRepository | corgi/tasks/pyxis.py:58-68 | no cached repository or force: the lookup decides; more than one cached: ValueError; else the cached one |
| PyxisTasks.RepositoryName | corgi/tasks/pyxis.py:77-78 | the name is slash-free, ends the repository name and is all of it or follows a "/"; the url is the container registry, "/" and the repository name |
| PyxisTasks.RepositoryNameIsRSplit | corgi/tasks/pyxis.py:77 | the name is the right part of a split at the last "/", or the whole name when it has none |
| PyxisTasks.RepositoryNameOfPath | corgi/tasks/pyxis.py:77 | "namespace/name" with a slash-free name gives "name" |
| PyxisTasks.UpdateContainerNames | corgi/tasks/pyxis.py:71-91 | False and nothing changed for an empty repository name; otherwise exactly the selected containers whose name or urls differ are renamed and saved, the others untouched |
| PyxisTasks.RenameIdempotent | corgi/tasks/pyxis.py:82-90 | a renamed container is no longer stale, so a second run saves nothing |
| PyxisTasks.CompletionTime | corgi/tasks/pyxis.py:109-118 | an empty creation date is the "No completion_time" ValueError; otherwise the time parsed from the text before the first "." is returned, and an unparsable one is the "Could not parse completion_time" ValueError |
| PyxisTasks.CompletionTimeDropsFraction | corgi/tasks/pyxis.py:109-118 | a date with a fractional part is parsed without it: "date.fraction" gives what the date alone parses to, or the parse error |
| PyxisTasks.RepositoryComponent | corgi/tasks/pyxis.py:105-106 | the component name is slash-free, ends the repository and is all of it or follows a "/" (the last element of `split("/")`); the url is registry, "/" and repository |
| PyxisTasks.RepositoryComponentIsRepositoryName | corgi/tasks/pyxis.py:105 | the last element of a split on "/" is the same name as the right part of the split at the last "/" |
| RhelCompose.FetchRhelModule | corgi/collectors/rhel_compose.py:20-64 | the loop gives the module of the specification function: {} for an unknown build, else the module's NVR parts, one component per RPM and the set of source builds |
| RhelCompose.NestedBuildsAreSources | corgi/collectors/rhel_compose.py:40-63 | the nested builds are exactly the source builds of the module's RPMs |
| RhelCompose.RpmStepDescribes | corgi/collectors/rhel_compose.py:45-60 | a component has the RPM's name, version, release without its last "." part, that part as arch, and the source build id |
| RhelCompose.ComponentsDescribe | corgi/collectors/rhel_compose.py:42-61 | one component per RPM, in order, each describing its RPM; a release without "." keeps the previous RPM's arch |
| RhelCompose.RpmStepErr | corgi/collectors/rhel_compose.py:45-57 | an RPM fails iff its NVRA does not split or its release has no "." and no arch was set before (the unbound `arch`) |
| RhelCompose.ComponentsErr | corgi/collectors/rhel_compose.py:42-61 | the module fails iff some NVRA does not split or the RPMs up to the first arch-less release set no arch |
| RhelCompose.ComponentsErrStays | corgi/collectors/rhel_compose.py:42-61 | once a prefix of the RPMs fails, the loop fails with that error |
| RhelCompose.ReleaseWithArch | corgi/collectors/rhel_compose.py:45-58 | an NVRA "name-version-release.arch" gives exactly those parts |
| RhelCompose.MetadataUrl | corgi/collectors/rhel_compose.py:75 | the url is the compose url with its trailing slashes removed, then "/metadata/"; only slashes were removed, and the base does not end in "/" |
| RhelCompose.MetadataUrlTrailingSlash | corgi/collectors/rhel_compose.py:75 | a compose url with or without a trailing slash names the same directory |
| RhelCompose.ImageNvr | corgi/collectors/rhel_compose.py:100 | an image's NVR is its name, version and release joined by "-" |
| RhelCompose.FetchContainerImages | corgi/collectors/rhel_compose.py:93-103 | the loop gives the images of the specification function, none when the request fails |
| RhelCompose.ContainerImagesNone | corgi/collectors/rhel_compose.py:95-103 | no requested variant gives no images |
| RhelCompose.ContainerImagesOfLastVariant | corgi/collectors/rhel_compose.py:96-103 | each requested variant overwrites the list, so the last requested variant's images are kept |
| RhelCompose.ImageSetMembers | corgi/collectors/rhel_compose.py:97-102 | a variant's images are the NVRs of the images of all its arches |
| RhelCompose.Basename | corgi/collectors/rhel_compose.py:159 | the base name is slash-free, ends the path and is all of it or follows a "/" |
| RhelCompose.BasenameOfPath | corgi/collectors/rhel_compose.py:159 | "dir/file" with a slash-free file name gives "file" |
| RhelCompose.GroupRpmFilenames | corgi/collectors/rhel_compose.py:150-159 | an ok response is grouped by the loop as the specification function does; a failed response gives no groups |
| RhelCompose.GroupSrpmsIsFiles | corgi/collectors/rhel_compose.py:150-159 | grouping fails iff a requested variant's source RPM does not split; otherwise each key holds the basenames of its files in order |
| RhelCompose.SrpmBuild | corgi/collectors/rhel_compose.py:163-186 | the NVR lookup's build when truthy; else the first file Brew knows as an RPM; else the falsy lookup answer |
| RhelCompose.FindBuildId | corgi/collectors/rhel_compose.py:164-186 | the loop with `continue`/`break` gives the build of the specification function |
| RhelCompose.SrpmBuilds | corgi/collectors/rhel_compose.py:161-186 | one build per source RPM key; a truthy NVR lookup is used as is; a falsy one is replaced by the build of the first file name koji knows, and stays when none is known |
| RhelCompose.SansEpochAll | corgi/collectors/rhel_compose.py:119-121 | the comprehension gives the RPMs without epochs, or the first split failure |
| RhelCompose.FetchModuleRpms | corgi/collectors/rhel_compose.py:109-122 | the loop gives the modules of the specification function, none when the request fails |
| RhelCompose.RhelModulesErrStays | corgi/collectors/rhel_compose.py:115-122 | once a prefix of the modules fails, the loop fails with that error |
| RhelCompose.RhelModulesLastWins | corgi/collectors/rhel_compose.py:122 | a module's NVR maps to the epoch-free RPMs of its last listing |
| RhelCompose.RhelModulesKeys | corgi/collectors/rhel_compose.py:115-122 | the keys are exactly the NVRs of the modules of requested variants |
| RpmVersion.DigitRun | corgi/core/migrations/0091_install_stored_proc.py:21 | the longest run of digits at the front of the string |
| RpmVersion.LetterRun | corgi/core/migrations/0091_install_stored_proc.py:21 | the longest run of ASCII letters at the front of the string |
| RpmVersion.Segments | corgi/core/migrations/0091_install_stored_proc.py:21-22 | every segment is a whole digit run, a whole letter run, or a single "~" or "^" |
| RpmVersion.SegmentsAroundSeparator | corgi/core/migrations/0091_install_stored_proc.py:21-22 | a character outside the pattern ends every run, so the segments on its two sides are independent |
| RpmVersion.Elem | corgi/core/migrations/0091_install_stored_proc.py:26-27 | reading the array at a NULL or out-of-range index gives NULL; otherwise the 1-based element |
| RpmVersion.TailCompare | corgi/core/migrations/0091_install_stored_proc.py:55-57 | unequal segments decide with -1 or 1 |
| RpmVersion.Step | corgi/core/migrations/0091_install_stored_proc.py:26-57 | the loop body either returns -1 or 1 or goes on |
| RpmVersion.AfterLoop | corgi/core/migrations/0091_install_stored_proc.py:59-65 | the statements after the loop answer -1, 0 or 1 |
| RpmVersion.RpmVerCmp | corgi/core/migrations/0091_install_stored_proc.py:10-66 | the installed comparator answers -1, 0 or 1, and 0 for equal non-NULL arguments |
| RpmVersion.RpmVerCmpFixed | corgi/core/migrations/0091_install_stored_proc.py:23-24 | the corrected comparator, with a segment-free version's length coalesced to 0, answers -1, 0 or 1 |
| RpmVersion.RpmVerCmpProc | corgi/core/migrations/0091_install_stored_proc.py:10-66 | the PL/pgSQL function with its segment arrays and loop returns the value of the specification function |
| RpmVersion.CompareLoop | corgi/core/migrations/0091_install_stored_proc.py:25-65 | the FOR loop with its early RETURNs and the tests after it computes the specification function |
| RpmVersion.RpmVerCmpEpoch | corgi/core/migrations/0091_install_stored_proc.py:69-84 | rpmvercmp_epoch answers -1, 0 or 1: NULL epochs as 0, then version, then release |
| RpmVersion.RpmVerCmpEpochFixed | corgi/core/migrations/0091_install_stored_proc.py:69-84 | the same comparison on the corrected comparator answers -1, 0 or 1 |
| RpmVersionOrder.TrimZerosValue | corgi/core/migrations/0091_install_stored_proc.py:30-31 | ltrim of "0" keeps a digit string and its value |
| RpmVersionOrder.EqualLengthOrder | corgi/core/migrations/0091_install_stored_proc.py:35 | for digit strings of equal length, string order is numeric order |
| RpmVersionOrder.LongerIsLarger | corgi/core/migrations/0091_install_stored_proc.py:33-34 | without leading zeros the longer digit string has the larger value |
| RpmVersionOrder.DigitStep | corgi/core/migrations/0091_install_stored_proc.py:28-36 | two digit segments decide by numeric value, leading zeros ignored, and go on when equal |
| RpmVersionOrder.TokenCmpZero | corgi/core/migrations/0091_install_stored_proc.py:28-57 | two segment meanings compare equal iff they are the same |
| RpmVersionOrder.TokenCmpAntisymmetric | corgi/core/migrations/0091_install_stored_proc.py:28-57 | swapping two segment meanings negates their order |
| RpmVersionOrder.TokenCmpTransitive | corgi/core/migrations/0091_install_stored_proc.py:28-57 | the order of segment meanings is transitive, strictly so when a step is strict |
| RpmVersionOrder.LexCmpZero | corgi/core/migrations/0091_install_stored_proc.py:25-65 | two token sequences compare equal iff they are equal |
| RpmVersionOrder.LexCmpAntisymmetric | corgi/core/migrations/0091_install_stored_proc.py:25-65 | swapping two token sequences negates their order |
| RpmVersionOrder.LexCmpTransitive | corgi/core/migrations/0091_install_stored_proc.py:25-65 | the lexicographic token order is transitive |
| RpmVersionOrder.StepBoth | corgi/core/migrations/0091_install_stored_proc.py:28-57 | on two segments the loop body decides exactly when their meanings differ, and by their order |
| RpmVersionOrder.StepEndFirst | corgi/core/migrations/0091_install_stored_proc.py:26-54 | with the first version ended the body decides at once except on a letter run |
| RpmVersionOrder.StepEndSecond | corgi/core/migrations/0091_install_stored_proc.py:26-39 | with the second version ended the body decides at once only on a digit run, and then for the first version |
| RpmVersionOrder.LoopIsLex | corgi/core/migrations/0091_install_stored_proc.py:25-65 | from any counter value on, the loop and the tests after it compute the token order of the remaining segments |
| RpmVersionOrder.FixedIsTokenOrder | corgi/core/migrations/0091_install_stored_proc.py:10-66 | the corrected comparator is the lexicographic order of the versions' segment meanings |
| RpmVersionOrder.FixedAntisymmetric | corgi/core/migrations/0091_install_stored_proc.py:10-66 | the corrected comparator is antisymmetric on versions |
| RpmVersionOrder.FixedTransitive | corgi/core/migrations/0091_install_stored_proc.py:10-66 | the corrected comparator is transitive, strictly so when either step is strict |
| RpmVersionOrder.FixedZeroIffSameTokens | corgi/core/migrations/0091_install_stored_proc.py:10-66 | two versions compare equal iff their segments mean the same tokens |
| RpmVersionOrder.AsWrittenAgreesWithFixed | corgi/core/migrations/0091_install_stored_proc.py:10-66 | the installed comparator agrees with the corrected one whenever both versions have a segment |
| RpmVersionOrder.NumericOrder | corgi/core/migrations/0091_install_stored_proc.py:28-36 | digit strings compare by value: "9" < "10" and "010" = "10" |
| RpmVersionOrder.EndOfVersion | corgi/core/migrations/0091_install_stored_proc.py:59-64 | when one version's segments continue another's, the longer is greater unless its first extra segment is "~"; the order is antisymmetric there |
| RpmVersionOrder.SameSegmentsEqual | corgi/core/migrations/0091_install_stored_proc.py:20-65 | versions with the same segments compare equal |
| RpmVersionOrder.SeparatorsInterchangeable | corgi/core/migrations/0091_install_stored_proc.py:21-22 | which separator stands between two segments does not matter ("1.0" = "1_0") |
| RpmVersionOrder.AgainstNull | corgi/core/migrations/0091_install_stored_proc.py:25-65 | any version compares at least equal to NULL, with either comparator |
| RpmVersionOrder.FirstCandidateAccepted | corgi/core/migrations/0091_install_stored_proc.py:76-82 | against the all-NULL start a candidate is accepted iff its epoch is not negative |
| RpmVersionOrder.EpochFixedAntisymmetric | corgi/core/migrations/0091_install_stored_proc.py:69-84 | the corrected epoch comparison is antisymmetric on stored rows |
| RpmVersionOrder.EpochFixedTransitive | corgi/core/migrations/0091_install_stored_proc.py:69-84 | the corrected epoch comparison is transitive on stored rows |
| RpmVersionOrder.EpochAsWrittenAgrees | corgi/core/migrations/0091_install_stored_proc.py:69-84 | the installed epoch comparison agrees with the corrected one when every version and release has a segment |
| RpmVersionOrder.EmptyVersionAsymmetry | corgi/core/migrations/0091_install_stored_proc.py:23-25 | as written "" is above "~" while "~" equals "", and "~1" is above ""; the corrected comparator puts "~" first |
| Serializers.ParseFields | corgi/api/serializers.py:165-193 | the loop's result is the levels of the fields added in order |
| Serializers.LevelledCurrent | corgi/api/serializers.py:181-188 | a field is at this level iff it is listed and dot-free |
| Serializers.LevelledNext | corgi/api/serializers.py:181-193 | r is below a iff "a.r" is listed; every related key has a remainder and no dot |
| Serializers.ParseFieldsExample | corgi/api/serializers.py:166-178 | the documented example's shape: plain fields at this level, dotted ones grouped under their first part |
| Serializers.IsFieldVisible | corgi/api/serializers.py:249-269 | next-level includes always visible; current includes keep only themselves and beat excludes; nested includes alone hide the rest; otherwise only excludes hide |
| Serializers.ParamFields | corgi/api/serializers.py:226-230 | missing or empty parameter gives no fields; otherwise the comma-free parts that join back to the parameter |
| Serializers.Visible | corgi/api/serializers.py:242-247 | a field is kept iff it is declared and visible |
| Serializers.IncludeExcludeSerializer.constructor | corgi/api/serializers.py:214-247 | both lists parsed from the request or the context; the fields are the visible declared ones in order |
| Serializers.NestedIncludeOnly | corgi/api/serializers.py:254-266 | including only "a.r" shows exactly the field a, whatever is excluded |
| Serializers.OfuriLink | corgi/api/serializers.py:49-66 | the link is the list URL with the ofuri and each given filter joined by "&" in order |
| Serializers.OfuriLinkQuery | corgi/api/serializers.py:49-66 | splitting the query at "&" gives back exactly the given parameters, in order |
| Serializers.IdLink | corgi/api/serializers.py:110-117 | the link starts with the API root and "/"; with slash-free model and id, the rest splits at "/" into exactly the model, the id, and "manifest?format=json" iff a manifest link is asked for |
| Serializers.WebUrl | corgi/api/serializers.py:306-313 | "" iff the build has no build system page; otherwise the system's root and buildinfo?buildID= the id |
| Serializers.OfuriType | corgi/api/serializers.py:69-98 | 2 colons give Product, 4 ProductVariant, 3 a matching stream else version else nothing; "" names carry no row |
| Serializers.OfuriTypeFourParts | corgi/api/serializers.py:88-98 | a four-part ofuri names the matching stream, else the version, else nothing |
| Serializers.OfuriBuildersKinds | corgi/api/serializers.py:69-98 | with colon-free names, the ofuris the product models build have 2, 3, 3 and 4 colons, so a product's ofuri is looked up as a Product, a version's or stream's among streams then versions, and a variant's as a ProductVariant |
| Syft.SyftType | corgi/collectors/syft.py:24-32 | the mapping gives one of the seven Corgi types it lists, or none for an unknown Syft type |
| Syft.ParseComponents | corgi/collectors/syft.py:183-214 | the loop gives no components without "artifacts", else the converted known-type artifacts in order; the source is returned as read |
| Syft.Kept | corgi/collectors/syft.py:190-195 | the increasing positions of exactly the artifacts of a known type |
| Syft.ComponentsAreKept | corgi/collectors/syft.py:190-213 | one component per kept artifact, in order, each converted from it |
| Syft.ConvertFields | corgi/collectors/syft.py:197-211 | a component has the stripped name and the "syft-<version>" source; "gomod" iff GOLANG, a group id iff MAVEN |
| Syft.SyftVersionDefault | corgi/collectors/syft.py:186-188 | "" without a descriptor; otherwise the descriptor's version |
| Syft.CloneUrlRewritesPrefix | corgi/collectors/syft.py:146-149 | https and http GitHub urls become "git@github.com:" urls, others are unchanged, and the rewrite is idempotent |
| Syft.QuayRepoVersion | corgi/collectors/syft.py:106-132 | an HTTP error status raises; otherwise the first tag, or "latest" without tags |
| Syft.ScanRepoImage | corgi/collectors/syft.py:81-103 | the registry target is scanned; only a failed scan of an untagged image with a known tag retries once with ":<tag>"; otherwise the first result or the tag error |
| TasksCommon.FatalCode | corgi/tasks/common.py:31-40 | no response gives None; with one, fatal iff 400 <= status < 500 and status != 408 |
| TasksCommon.RetriedStatuses | corgi/tasks/common.py:39-40 | server errors, successes and 408 are not fatal |
| TasksCommon.LastSuccess | corgi/tasks/common.py:53-58 | None iff no scheduled success (empty kwargs, SUCCESS) of the task exists; otherwise the greatest `date_done` among them |
| TasksCommon.RefreshSince | corgi/tasks/common.py:43-61 | the last scheduled success minus 30 minutes, or now minus 3 days when there is none |
| TasksCommon.RefreshOverlapsSuccesses | corgi/tasks/common.py:53-61 | with a recorded success the refresh starts before the latest one and no earlier than 30 minutes before any of them |
| TasksCommon.NewBuildsBound | corgi/tasks/common.py:64-75 | a run never creates more relations than it is given build ids |
| TasksCommon.RelationTable.CreateRelations | corgi/tasks/common.py:64-75 | the count is the number of build ids without a relation before; those relations are added with the given type and existing ones are untouched |
| UserTokens.TokensOfOthers | corgi/core/management/commands/create_user_with_token.py:76 | the tokens left after deleting the user's: exactly the tokens owned by other users |
| UserTokens.Accounts.Handle | corgi/core/management/commands/create_user_with_token.py:33-87 | the result and both tables after a run are those of `Provision` on the tables before it: an empty new username is refused, and a new user is stored with the normalised address |
| UserTokens.NormalizeEmailDomain | corgi/core/management/commands/create_user_with_token.py:56 | `create_user` lower-cases the domain after the last "@" and keeps the local part |
| UserTokens.NormalizeEmailNoAt | corgi/core/management/commands/create_user_with_token.py:56 | an address without "@" is stored as given |
| UserTokens.NormalizeEmailIdempotent | corgi/core/management/commands/create_user_with_token.py:56 | normalising a normalised address changes nothing |
| UserTokens.NormalizeEmailExample | corgi/core/management/commands/create_user_with_token.py:56 | "a@EX.com" is stored as "a@ex.com" |
| UserTokens.EmptyUsernameRefused | corgi/core/management/commands/create_user_with_token.py:56 | a new user with an empty username raises ValueError and changes nothing |
| UserTokens.RerunWithUnnormalisedEmail | corgi/core/management/commands/create_user_with_token.py:42-57 | a user created with a mixed-case domain gets the lower-cased address, so running the same command again without --update fails as an address change, with no change |
| UserTokens.Accounts.GrantToken | corgi/core/management/commands/create_user_with_token.py:59-87 | once the user exists, the token steps leave the result and tables `GiveToken` describes |
| UserTokens.ProvisionConsistent | corgi/core/management/commands/create_user_with_token.py:33-87 | whatever a run answers, every token keeps belonging to an existing user and no user holds two tokens |
| UserTokens.NewTokenConsistent | corgi/core/management/commands/create_user_with_token.py:72-82 | replacing a user's token by a fresh one keeps the tables consistent |
| UserTokens.EmailClashChangesNothing | corgi/core/management/commands/create_user_with_token.py:35-40 | an address held by another user raises CommandError before any change |
| UserTokens.ChangedEmailNeedsUpdate | corgi/core/management/commands/create_user_with_token.py:42-54 | another address without --update fails with no change; with --update the address is changed whatever the token steps do |
| UserTokens.TokenAlreadySet | corgi/core/management/commands/create_user_with_token.py:63-66 | a token the user already owns answers "Token already set" and leaves the token table unchanged |
| UserTokens.TokenOfAnotherUser | corgi/core/management/commands/create_user_with_token.py:67-70 | a token of another user raises CommandError, and a user created by the run is deleted again |
| UserTokens.SuccessGivesToken | corgi/core/management/commands/create_user_with_token.py:82-87 | on success the token is the user's only token, the others keep theirs, and the answer is "User created" iff the user was new, else "Token updated" |
| UserTokens.ExistingTokenNeedsUpdate | corgi/core/management/commands/create_user_with_token.py:72-80 | an existing token without --update raises an error with the token table unchanged |
| Views.ComponentNodeToDict | corgi/api/views.py:167-181 | node fields appear iff the node's type is listed; there is one dependency entry per child, whatever the type |
| Views.DepsAreChildren | corgi/api/views.py:178-180 | the i-th dependency is the dict of the i-th child |
| Views.ShownIsListed | corgi/api/views.py:167-181 | the nodes shown anywhere in the dict are exactly the listed-type nodes of the tree |
| Views.ShownAllIsListedAll | corgi/api/views.py:178 | the same for a list of child dicts |
| Views.ProductType | corgi/api/views.py:185-200 | levels 0..4 name products, versions, streams, variants and channels; deeper levels name nothing |
| Views.ChildProductType | corgi/api/views.py:186-198 | a node's child key is the name of the next level; level 4 and deeper have none |
| Views.ProductNodeToDict | corgi/api/views.py:184-210 | the dict carries the node's ofuri, name and typed ofuri link, and one child dict per child with that child's ofuri |
| Views.ChildrenUnderTheirKind | corgi/api/views.py:206-209 | in a well-levelled tree, the children are listed under the key of the next level |
| Views.OfuriList | corgi/api/views.py:236-246 | no ofuri lists; an unknown ofuri is 404; a known one redirects to the first object with it |
| Views.OfuriListRedirectsToObject | corgi/api/views.py:241-246 | a found ofuri redirects to `/api/<version>/<model>/<uuid>` of that object |
| Views.ComponentList | corgi/api/views.py:398-417 | view=summary or no purl lists; otherwise the re-encoded purl finds a component (302 to it) or 404 |
| Views.ComponentListByEncoding | corgi/api/views.py:409-412 | two purls with the same encoding get the same answer |
| Views.ScanResults.constructor | corgi/api/views.py:447-454 | a component's scan fields hold the values it is made with |
| Views.Uploaded | corgi/api/views.py:445-454 | each field given (even "") overwrites; a field not given keeps its value |
| Views.UploadIdempotent | corgi/api/views.py:445-454 | uploading the same values twice is the same as once |
| Views.FullUploadReplaces | corgi/api/views.py:445-454 | an upload giving every field makes the result independent of the old values |
| Views.OlcsTest | corgi/api/views.py:420-458 | 403 iff prod; 404 iff the component is missing; 400 iff all four inputs are falsy; otherwise 302 to the component with the uploaded values; other answers change nothing |
| Views.UploadMayClear | corgi/api/views.py:436-454 | an accepted upload may set a field to "", which clears it |
| Yum.RepoArgs | corgi/collectors/yum.py:27-31 | two options per repo |
| Yum.RepoArgsAt | corgi/collectors/yum.py:27-31 | the k-th repo is selected by options 2k and 2k+1, numbered k+1 |
| Yum.FilterByRepos | corgi/collectors/yum.py:24-32 | the command is kept and the repo options of all repos follow it, in order |
| Yum.FirstEmpty | corgi/collectors/yum.py:46-49 | the position of the first empty line; None iff no line is empty |
| Yum.BlocksAt | corgi/collectors/yum.py:46-49 | the first block is the lines before the first empty line, and the rest is split the same way |
| Yum.BlocksNone | corgi/collectors/yum.py:46-49 | an output without an empty line gives no block |
| Yum.BlocksHaveNoEmptyLine | corgi/collectors/yum.py:46-49 | no block holds an empty line |
| Yum.BlocksCount | corgi/collectors/yum.py:46-49 | there is one block per empty line |
| Yum.BlocksPrefix | corgi/collectors/yum.py:44-51 | the blocks written back with their empty lines are the output up to its last empty line, and what follows holds no empty line |
| Yum.BlocksUnique | corgi/collectors/yum.py:44-51 | blocks without empty lines that write back to a prefix of the output with no empty line after it are the blocks of the output |
| Yum.SplitBlocks | corgi/collectors/yum.py:44-49 | the block loop gives the blocks of the specification function |
| Yum.FindModuleNames | corgi/collectors/yum.py:53-85 | a blank non-empty line is an IndexError; otherwise the sorted distinct names of the listing |
| Yum.ListModulesErrSticks | corgi/collectors/yum.py:65-82 | once the loop raises, longer outputs raise the same error |
| Yum.ListedNamesFromLines | corgi/collectors/yum.py:65-82 | every listed name is the first column of a line that is not the column header, and is not "Hint:" |
| Yum.ListModulesNames | corgi/collectors/yum.py:63-82 | the loop's names are exactly the first columns, in order, of the non-empty lines that do not start a block and are neither the column header nor a hint; a block starts exactly after an empty line |
| Yum.ListedNamesComplete | corgi/collectors/yum.py:63-82 | every such line's first column is listed, and a block's first line adds no name |
| Yum.ArtifactLines | corgi/collectors/yum.py:108-111 | at most one artifact per line |
| Yum.CollectArtifacts | corgi/collectors/yum.py:108-111 | the artifact loop gives the second column of every ": x" line, failing on a blank line |
| Yum.ArtifactLinesErrSticks | corgi/collectors/yum.py:108-111 | once the artifact loop raises, longer inputs raise the same error |
| Yum.ParseModuleLines | corgi/collectors/yum.py:89-116 | the loop, which stops after the artifacts, gives the module of the specification function |
| Yum.ParseFromKeys | corgi/collectors/yum.py:96-101 | the metadata keys are the lower-cased Name, Stream, Version and Context, and artifacts are only added |
| Yum.InfoKeysLower | corgi/collectors/yum.py:101 | each info key in lower case is a metadata key |
| Yum.NoArtifactsLine | corgi/collectors/yum.py:102-113 | without an "Artifacts" line the artifacts list stays empty |
| Yum.ArtifactsAt | corgi/collectors/yum.py:102-113 | the first "Artifacts" line from a position on, or the end, with no "Artifacts" line before it |
| Yum.ParseFromLastKey | corgi/collectors/yum.py:96-101 | the value under a lower-cased key is the third column of the last line with that key before the "Artifacts" line |
| Yum.ParseFromKeyKept | corgi/collectors/yum.py:96-101 | with no line of that key before the "Artifacts" line, the value under it is left as it was, present or absent |
| Yum.InfoKeysDistinct | corgi/collectors/yum.py:101 | distinct info keys are stored under distinct metadata keys |
| Yum.RepoqueryCommand | corgi/collectors/yum.py:122-131 | eight words of query, then "--latest-limit=1" iff latest is asked for, then the repo options |
| Yum.GroupMapIsGrouping | corgi/collectors/yum.py:138-151 | a key is in the mapping iff some pair has it, and holds the rpms of its pairs in order |
| Yum.GetNevras | corgi/collectors/yum.py:118-152 | a line without exactly two columns is a ValueError; otherwise the pairs grouped by key |
| Yum.PairsErrSticks | corgi/collectors/yum.py:139-140 | once a line fails to unpack, longer outputs fail the same way |
| Yum.IgnoreSourceSkipsSrc | corgi/collectors/yum.py:141-144 | with ignore_source no rpm ending ".src" is recorded |

## Left out

- Django ORM and MPTT internals are not modelled: get/update_or_create, querysets, transactions and
  `get_descendants`. Tables are maps and sets, and the node forest is a parent map.
- Celery is not modelled: `.delay`/`apply_async`, singleton locks and retries. Scheduling appears, at most, as
  a request the handler returns.
- Network and subprocess I/O is not modelled. This covers koji sessions and multicalls, and HTTP to Errata Tool,
  Pulp, Pyxis, app-interface, product definitions and SPDX. It also covers the `syft`, `go list` and yum
  subprocesses and the AMQP container loop. Their responses are parameters of the model.
- corgi/core/graph.py is not part of this model; it only issues graph-database queries.
- PackageURL serialisation, `purl2url`, URL parsing and quoting, JSON encoding and Django templates are
  libraries whose behaviour is not modelled. Where the core needs their result, it is a parameter.
  `PackageURL.from_string` raises on a malformed purl, which `Views.ComponentList` would answer with a 500;
  the model's re-encoding is a total parameter, so that error is not modelled.
- rpm.labelCompare (corgi/core/models.py:877) is a foreign C library. `LatestNevra.LabelCompare` stands in
  for it: it compares epoch, version and release with the stored procedure's corrected
  `RpmVersion.RpmVerCmpFixed`. `LatestMatch` and `FilterLatestNevra` use it directly. Only the lemmas about a
  running maximum take a comparator as a parameter.
- `EL_MATCH_RE`, `RELEASE_VERSION_DELIM_RE`, `ROOT_COMPONENTS_CONDITION`, `SRPM_CONDITION` and `EPOCH_TYPE` are
  not part of this model: corgi/core/constants.py does not define them. So `Component.save()`'s
  `version_arr`/`el_match` step (corgi/core/models.py:1580-1591) is not modelled.
- `Brew.CACHITO_PKG_TYPE_MAPPING`, `check_red_hat_namespace` and `parse_advisory_ids` are not part of this
  model. The mapping is a parameter, and the other two are left out.
- The Postgres regular-expression engine is not modelled. The stored procedure's segmentation of a version
  into letter and digit runs is defined directly as a function.
- Postgres collation is not modelled: letter segments compare by code point, as under the C collation.
  In that order `^` sorts above letters, unlike RPM's own C code; the model follows the stored procedure.
- The Product, ProductVersion and ProductVariant cursors of 0099_add_type_arch_stored_proc_filter.py refer to
  `core_productstream.active` without joining that table. They are modelled as a failing query (`Err`), and
  only the stream cursor is modelled in full.
- corgi/core/migrations/0075_install_stored_proc.py is not modelled: it is an older `rpmvercmp` that
  0091_install_stored_proc.py replaces, and it uses `INSTR`, which Postgres lacks.
- One-shot data-repair migrations are not modelled; schema-only migrations hold no logic.
- The orchestration-only task modules are not modelled. These are the managed-services, SCA, errata, yum,
  compose, pulp, tagging, lifecycle, licence and manifest tasks, the load/tag/report management commands and the
  API pagination row estimates.
- `get_srpms_from_yum_repos` (corgi/collectors/yum.py:154-159) is not modelled: it looks each source RPM up in
  Brew over the network.
- `get_provides_nodes_queryset` (corgi/core/models.py:1841-1868) is not modelled: it only orders and filters a
  queryset.
- Paging loops (Pulp, Pyxis, Errata Tool) take the page sequence as a parameter. The page that ends the loop
  is given by the caller, because whether a remote service ever returns a short page cannot be shown here.
- `update_products` (corgi/tasks/prod_defs.py:25-215) is modelled one stream at a time (`ProdDefs.StreamRecordOf`),
  not as the loop over the whole tree that saves products, versions and streams. That loop pops "id" and
  "active" from the shared stream dicts, so a stream reached a second time would raise KeyError there; this
  database-writing pass is not modelled. The module dicts are shared in the same way, but each visit rebuilds
  the same stream list, so that sharing cannot be observed in the shaped tree.
- Where a test expects something the code does not do, the model follows the code. Examples: Maven bundled
  provides, `_parse_remote_source_url` returning a tuple, removal of a missing tag, and `cpe_lookup("rhui-4")`.
- Datetimes are whole seconds. The completion percentage in corgi/tasks/errata_tool.py:105 is a float and is
  not modelled.
- Letter case and white space are ASCII only; white space includes the separators U+001C to U+001F. Unicode case
  folding and non-ASCII white space (such as U+0085 and U+00A0) are not modelled. Digits are ASCII too:
  `Text.ParseInt` accepts surrounding white space, an optional sign and ASCII digits, while Python's `int()` also accepts "_" between
  digits and non-ASCII decimal digits such as "٣".
- BrewCollector.AdvisoryMatch: `\w` and `\d` are ASCII word characters and ASCII digits in the model, while Python's
  `re` on `str` also matches non-ASCII letters and digits, so a tag such as "RH١A-2023:1234" matches in the code
  but not in the model. The lemmas beside it hold for the ASCII classes only.
- ProdDefs.VersionLike: `\d` is an ASCII digit in the model, and `$` matches only at the very end, while Python's
  `$` also matches before a final "\n" ("rhel-8\n" gives "8" in the code and "" in the model). The lemmas
  beside it hold for the model's pattern.
- ComponentModel.TrimVersion: the version is put into the pattern unescaped, and the model treats only "." as a
  metacharacter (matching any character, "\n" included, where Python's "." excludes "\n"). Other
  metacharacters, `$` before a final "\n" and the `re.error` that a version such as "(" raises are not
  modelled. For example, the code leaves "rhel-1+" whole for version "1+" (it matches "1", "11", ...) and
  trims "rhel-11" to "rhel", while the model does the opposite.
- ComponentModel.TrimVersionDropsVersion: holds for the model's pattern only; with a version holding other
  metacharacters, such as "1+", the code does not drop the version ("rhel-1+" stays whole).
- ComponentModel.TrimVersionKeepsOtherNames: holds for the model's pattern only; with version "1+", the name
  "rhel-11" has no suffix that the model's pattern matches, yet the code trims it to "rhel".
- Monitoring.UpsertIntervalTask: `PeriodicTask.name` is unique, so in the code the same name registered with a
  different task path raises IntegrityError on create. The model keys the tasks by name and task path, so such
  a name becomes a second entry there; that failure is not modelled.
- RhelCompose.SrpmBuilds: the code yields build ids in the order Brew's lookup returns the source RPMs, and the
  model gives a map from source RPM to build id, so that order is not modelled.
- ManifestHints: the hint regular expressions are parameters of type `Matcher`, because Python's `re` engine is
  not modelled. So no line format of corgi/collectors/manifest_hints_parser.py:11-69 is stated for a concrete
  pattern. The lemmas hold for any matcher: which category a line falls in, the first matching pattern
  deciding, and one entry per line.
- UserTokens.Accounts.Handle: `create_user` also applies NFKC normalisation to the username, which is not
  modelled. Its address normalisation is modelled with ASCII white space and ASCII lower-casing only.
- Filters.TagFilter: SQL does not fix the order of a joined queryset, and the model keeps the input order with
  a row's copies next to each other. `Filters.ApplyTermsMembers` therefore promises the rows and
  `Filters.ApplyTermsCount` their number of copies, but not their order. Because of the copies, the result can
  be longer than the input, so no length bound is stated.
- Settings, gunicorn/wsgi, web templates, scripts and performance tooling are not modelled.

## Findings

| source | as written | input that shows it | evidently intended | confidence | as-written member | corrected member |
|---|---|---|---|---|---|---|
| corgi/core/migrations/0091_install_stored_proc.py:23-64 | when one version has no segments, `array_length` is NULL. `least()` ignores NULL, so the loop still runs over the other version's segments, with NULL reads on the empty side. For `('', '~')` the test `b_seg = '~'` returns 1 at i = 1. For `('~', '')` every comparison with NULL is NULL, so no branch returns; after the loop the array reads at a NULL index and the length tests against NULL are NULL too, and the result is 0 | `rpmvercmp('', '~')` is 1 while `rpmvercmp('~', '')` is 0, and `rpmvercmp('~1', '')` is 1 | an antisymmetric RPM order in which `~` sorts below the end of the version, with the empty array counted as length 0 | not executed | RpmVersionOrder.EmptyVersionAsymmetry | RpmVersion.RpmVerCmpFixed |
| corgi/core/migrations/0091_install_stored_proc.py:171 | the stream branch filters `not(include_inactive_streams) AND active` | `include_inactive_streams = true`: no stream is admitted, active or not, so the latest component is NULL | `(include_inactive_streams OR active)`, as in 0099_add_type_arch_stored_proc_filter.py:56 | not executed | LatestComponent.Stream0091IgnoresInactiveFlag | LatestComponent.InactiveOnlyWhenIncluded |
| corgi/api/filters.py:141-142 | each plain term is a `filter` across the many-valued tag relation, with no `distinct()`. The join yields one row per matching tag | an object tagged "team:a" and "team:b" with `?tags=team` comes out twice | `distinct()`, as the relation filters at corgi/api/filters.py:184-202 have | not executed | Filters.TagDuplicatesExample | Filters.DistinctTagFilterOnce |
| corgi/tasks/prod_defs.py:111-184 | `update_or_create` does not name `et_product_versions` among its defaults, so a stream already stored keeps its list, and each run appends this run's errata product version names to it | a stream stored with `et_product_versions = ["RHEL-8"]` whose errata info names product version RHEL-8 is saved with `["RHEL-8", "RHEL-8"]`, and every further run adds another copy | the list holds this run's names, reset on each run | not executed | ProdDefs.RerunDuplicatesExample | ProdDefs.FixedStreamRecord |
| corgi/collectors/prod_defs.py:44-50 | `except ConnectionError` names Python's built-in class, but the fetch goes through `requests`, whose `requests.exceptions.ConnectionError` derives from `IOError`, not from the built-in `ConnectionError`, so it is not caught | community mode with the product-definitions service unreachable: the requests error is raised instead of the bundled community document being loaded | catch `requests.exceptions.ConnectionError` (or both classes) so community mode falls back to the bundled document | not executed | ProdDefs.RequestsFailureNotCaught | ProdDefs.FixedDocumentFallsBack |
