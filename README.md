# dot-diagram in Dafny

A verified model of the core of *dot-diagram*, a small Java library that
builds a tree of UML-like boxes and arrows in memory and serializes it to
Graphviz DOT text.

The model has two halves, as the library does.

- **The graph** (`dot_graph.dfy`, module `DotGraph`).
  - A `NodeRegistry` hands every application key a stable id `"c" + counter`.
  - A tree of containers sits under one digraph: the digraph holds clusters and nodes, and clusters hold clusters and nodes. Each container creates its children on first reference.
  - Each container keeps a set of `Association`s (directed edges). Equality of associations is by endpoints only.
  - `Render` functions walk the tree read-only and produce the DOT document. Each container lists its children sorted by their `toString`. A cluster's comment is stored but never rendered, as in the Java code; only nodes and edges print their comments.
  - The registry, the containers and the associations are classes whose methods update their fields in place.
  - The graph object owns a ghost footprint of all its elements and edges. Its invariant `Valid` says that:
    - ids are unique and all issued by the registry;
    - children have a higher rank than their parent, so the tree is acyclic;
    - no container holds two equal associations or two equal stereotypes.
- **The renderer** (`dot_renderer.dfy`, module `DotRenderer`).
  - Pure functions build the DOT fragments: header, title, defaults, cluster open/close, node declaration, edge statement, stereotype, font options.
  - Two loop methods are proved against specification functions:
    - `ToLines` joins record cells with `\n `;
    - `WrapText` inserts `\l` line-break markers into long labels.
- **Support.**
  - `strings.dfy` (module `Strings`) holds the lexicographic order used by `String.compareTo`, a selection sort of map keys by that order, and decimal rendering of integers with its round trip.
  - `graph_properties.dfy` (module `GraphProperties`) holds the lemmas about rendered output and child order.
  - `wrappers.dfy` holds `Option`, which stands for a Java reference that may be `null`.

Java's `"…" + null` prints `null`; the model reproduces this with
`DotRenderer.Text`. The platform line separator is the constant `"\n"`.

## Model

Source paths are relative to the repository root.

| member | source | states |
|---|---|---|
| DotGraph.NodeRegistry.constructor | dot-diagram/src/main/java/org/livingdocumentation/dotdiagram/DotGraph.java:61-65 | a new registry is empty, its counter is 0, and it satisfies the unique-id invariant |
| DotGraph.NodeRegistry.ExistingUniqueId | dot-diagram/src/main/java/org/livingdocumentation/dotdiagram/DotGraph.java:67-69 | lookup only, reading the registry: absent exactly when the key was never registered, otherwise the stored id |
| DotGraph.NodeRegistry.NodeUniqueId | dot-diagram/src/main/java/org/livingdocumentation/dotdiagram/DotGraph.java:71-79 | idempotent for a known key (same id, map and counter unchanged); a fresh key gets `"c" + count`, an id no key had, the map gains exactly that key and the counter rises by one; the invariant (every stored id was issued, no two keys share an id) is preserved |
| DotGraph.NodeRegistry.FreshIdUnused | dot-diagram/src/main/java/org/livingdocumentation/dotdiagram/DotGraph.java:76-77 | under the invariant, the next id `"c" + count` is not yet stored for any key |
| DotGraph.NodeIdInjective | dot-diagram/src/main/java/org/livingdocumentation/dotdiagram/DotGraph.java:76 | two counter values give the same id only if they are equal, so distinct keys get distinct ids |
| DotGraph.NodeRegistry.NodeUniqueIds | dot-diagram/src/main/java/org/livingdocumentation/dotdiagram/DotGraph.java:192-193 | registering a source and a target key, the source first: both are registered afterwards, no other key is added, existing ids are kept, the invariant holds; a new source key gets `"c" + count`, a new distinct target key the next counter value after it, and the counter rises by the number of new distinct keys |
| DotGraph.PairAssignedStep | dot-diagram/src/main/java/org/livingdocumentation/dotdiagram/DotGraph.java:192-193 | two lookup-or-assign steps in a row, for a source and then a target key, add no other key, keep every known id, give new keys the next counter values in order and raise the counter by the number of new distinct keys |
| DotGraph.Association.constructor | dot-diagram/src/main/java/org/livingdocumentation/dotdiagram/DotGraph.java:481-483 | an association has the given endpoints and no label, comment or options |
| DotGraph.Association.SetLabel | dot-diagram/src/main/java/org/livingdocumentation/dotdiagram/DotGraph.java:427-432 | a missing or empty label leaves the old label; any other label replaces it |
| DotGraph.Association.SetComment | dot-diagram/src/main/java/org/livingdocumentation/dotdiagram/DotGraph.java:438-441 | the comment is replaced (also by a missing one) |
| DotGraph.Association.SetOptions | dot-diagram/src/main/java/org/livingdocumentation/dotdiagram/DotGraph.java:447-450 | the options are replaced (also by missing ones) |
| DotGraph.Association.SetGiven | dot-diagram/src/main/java/org/livingdocumentation/dotdiagram/DotGraph.java:177-185 | each of label, comment and options is set only when given, the label only when also non-empty |
| DotGraph.Association.Render | dot-diagram/src/main/java/org/livingdocumentation/dotdiagram/DotGraph.java:485-490 | the edge starts with the comment line and `source -> target [` and ends with `];`; with a label, `label="<label>"  , ` follows the bracket; with options, they stand just before `];`; its exact length counts only those parts, so nothing else is printed |
| DotGraph.Association.Equals | dot-diagram/src/main/java/org/livingdocumentation/dotdiagram/DotGraph.java:459-468 | two associations are equal exactly when they have the same source and the same target; label, comment and options are ignored (this is the equality `WithAssociation` deduplicates by) |
| DotGraph.WithAssociation | dot-diagram/src/main/java/org/livingdocumentation/dotdiagram/DotGraph.java:459-472 | set insertion under endpoint equality: afterwards an equal association is present; the set is unchanged exactly when one was already there (the first is kept); otherwise the new one is appended; at most one association per ordered endpoint pair is preserved |
| DotGraph.AbstractNode.constructor | dot-diagram/src/main/java/org/livingdocumentation/dotdiagram/DotGraph.java:107-110 | a new element has the given registry, id and kind, and nothing set or added |
| DotGraph.AbstractNode.SetComment | dot-diagram/src/main/java/org/livingdocumentation/dotdiagram/DotGraph.java:116-119 | the comment is replaced and the graph stays well formed |
| DotGraph.AbstractNode.SetLabel | dot-diagram/src/main/java/org/livingdocumentation/dotdiagram/DotGraph.java:206-209 | the label is replaced (unlike an association's, also by a missing one) and the graph stays well formed |
| DotGraph.AbstractNode.SetOptions | dot-diagram/src/main/java/org/livingdocumentation/dotdiagram/DotGraph.java:215-218 | the options are replaced and the graph stays well formed |
| DotGraph.AbstractNode.AddStereotype | dot-diagram/src/main/java/org/livingdocumentation/dotdiagram/DotGraph.java:154-157 | the decorated stereotype `\<\<s\>\>` (with `null` for a missing one) is added unless already present, so the stereotypes stay a set |
| DotGraph.AbstractNode.ChildFor | dot-diagram/src/main/java/org/livingdocumentation/dotdiagram/DotGraph.java:126-130 | lookup-or-create in this container only: an existing child is returned and nothing changes; otherwise a fresh blank child of the requested kind is added under that id |
| DotGraph.AbstractNode.AddPossibleNode | dot-diagram/src/main/java/org/livingdocumentation/dotdiagram/DotGraph.java:121-132 | absent, with no change, exactly when the key was never registered; for a registered key, the existing node child, or else a new node child created in this container; the registry never changes |
| DotGraph.AbstractNode.AddNode | dot-diagram/src/main/java/org/livingdocumentation/dotdiagram/DotGraph.java:134-142 | registers the key (growing the registry by at most that key), then returns the existing node child with that id or adds a fresh one, so a repeated call returns the same child |
| DotGraph.AbstractNode.AddCluster | dot-diagram/src/main/java/org/livingdocumentation/dotdiagram/DotGraph.java:144-152 | as `AddNode`, for a cluster child |
| DotGraph.AbstractNode.Associate | dot-diagram/src/main/java/org/livingdocumentation/dotdiagram/DotGraph.java:164 | the association set gains the association under endpoint equality, keeping the graph well formed |
| DotGraph.AbstractNode.AddExistingAssociation | dot-diagram/src/main/java/org/livingdocumentation/dotdiagram/DotGraph.java:159-168 | absent exactly when either key is unregistered, and then the associations, the registry and the whole rendered document are unchanged; otherwise a fresh blank association between the two stored ids is returned and set-inserted |
| DotGraph.AbstractNode.AddExistingAssociationWith | dot-diagram/src/main/java/org/livingdocumentation/dotdiagram/DotGraph.java:170-189 | as above, and the returned association carries the given label (if non-empty), comment and options, even when an equal association was already kept in the set |
| DotGraph.AbstractNode.AddAssociation | dot-diagram/src/main/java/org/livingdocumentation/dotdiagram/DotGraph.java:191-200 | always returns an association; both keys are registered afterwards, no other key is added, existing ids are kept, and new keys get the next counter values in order source then target, the counter rising by the number of new distinct keys; no child is created; the returned association is fresh and blank with the two ids as endpoints, and the set gains it under endpoint equality |
| DotGraph.AbstractNode.ToString | dot-diagram/src/main/java/org/livingdocumentation/dotdiagram/DotGraph.java:317-319 | the `toString` of a node is `Node` followed by its id; that of a digraph (lines 350-352) and of a cluster (lines 396-398) is an 8-character prefix followed by the id; the first character tells the kind (`N`, `C`, `D`) and the id is recoverable from the text |
| DotGraph.AbstractNode.DisplaysInjective | dot-diagram/src/main/java/org/livingdocumentation/dotdiagram/DotGraph.java:317-319 | no two children of a container share a `toString` (`"Node"+id` or `"Cluster "+id`), so sorting by it is well defined |
| DotGraph.AbstractNode.ChildOrder | dot-diagram/src/main/java/org/livingdocumentation/dotdiagram/DotGraph.java:240-248 | the sorted list of children mentions exactly the children of the container |
| DotGraph.DotGraph.constructor | dot-diagram/src/main/java/org/livingdocumentation/dotdiagram/DotGraph.java:34-40 | a new graph has an empty registry with counter 0 and an empty digraph whose id is the title (the text `null` for none), whose label is the title, which keeps the direction hint and which has no comment, options or stereotypes |
| DotGraph.DotGraph.GetDigraph | dot-diagram/src/main/java/org/livingdocumentation/dotdiagram/DotGraph.java:42-44 | the root is the digraph of this graph and is part of it |
| DotGraph.DotGraph.PreloadNode | dot-diagram/src/main/java/org/livingdocumentation/dotdiagram/DotGraph.java:46-48 | registers a key ahead of use exactly as `NodeUniqueId` does, keeping the graph well formed |
| DotGraph.AbstractNode.NewChildKeepsValid | dot-diagram/src/main/java/org/livingdocumentation/dotdiagram/DotGraph.java:126-130 | hanging a fresh blank child under a registered id in one container, with nothing else changed, keeps the graph's invariant |
| DotGraph.DotGraph.RegistryGrowthKeepsValid | dot-diagram/src/main/java/org/livingdocumentation/dotdiagram/DotGraph.java:71-79 | registering more keys never breaks the graph's invariant |
| DotGraph.DotGraph.Render | dot-diagram/src/main/java/org/livingdocumentation/dotdiagram/DotGraph.java:50-52 | the document is the graph header for the digraph's label, then the root's children rendered in sort order right after the header, then the root's associations and the closing brace with its line end; exact length, so nothing else is printed |
| DotGraph.AbstractNode.Render | dot-diagram/src/main/java/org/livingdocumentation/dotdiagram/DotGraph.java:289-293 | a node renders to `""` if and only if it has no label |
| DotGraph.AbstractNode.RenderCluster | dot-diagram/src/main/java/org/livingdocumentation/dotdiagram/DotGraph.java:377-394 | a cluster's output is `subgraph cluster_<id> {` and its heading of label and stereotypes, then its children rendered in sort order right after that heading, then its associations and `}`; exact length, so nothing else is printed |
| DotGraph.AbstractNode.RenderDigraph | dot-diagram/src/main/java/org/livingdocumentation/dotdiagram/DotGraph.java:339-348 | the document is the graph header for the digraph's label, then its children rendered in sort order right after the header, then the root's associations and the closing brace; exact length, so nothing else is printed |
| GraphProperties.NodeRenderShape | dot-diagram/src/main/java/org/livingdocumentation/dotdiagram/DotGraph.java:289-315 | a node renders to `""` if and only if it has no label; otherwise its output is its comment line, then `node(id, wrapText(toLines([label]+stereotypes), 20), options)`, then its associations; exact length, so nothing else is printed |
| DotGraph.AbstractNode.RenderChildren | dot-diagram/src/main/java/org/livingdocumentation/dotdiagram/DotGraph.java:240-254 | `renderNodes` after the sort: the output is empty exactly when none of the listed children renders anything (an unlabelled node prints nothing); its order and composition are stated by the two lemmas below |
| GraphProperties.RenderChildrenConcat | dot-diagram/src/main/java/org/livingdocumentation/dotdiagram/DotGraph.java:240-254 | rendering children for a list of ids split in two is rendering the two parts one after the other |
| GraphProperties.RenderChildrenInOrder | dot-diagram/src/main/java/org/livingdocumentation/dotdiagram/DotGraph.java:240-254 | the children are rendered in the given order: the output is the children before position k, then the k-th child's own output, then the children after it |
| DotGraph.RenderEdges | dot-diagram/src/main/java/org/livingdocumentation/dotdiagram/DotGraph.java:232-238 | `renderAssociations`: the associations render to nothing exactly when there are none, since every edge statement is printed (how the output splits over the associations is stated by the two lemmas below) |
| GraphProperties.RenderEdgesConcat | dot-diagram/src/main/java/org/livingdocumentation/dotdiagram/DotGraph.java:232-238 | rendering associations split in two is rendering the two parts one after the other |
| GraphProperties.RenderEdgesAppend | dot-diagram/src/main/java/org/livingdocumentation/dotdiagram/DotGraph.java:232-238 | an association added at the end of the kept ones (as `WithAssociation` does for a new one) appends exactly its own edge statement to the output |
| GraphProperties.ChildOrderSorted | dot-diagram/src/main/java/org/livingdocumentation/dotdiagram/DotGraph.java:240-254 | children are rendered once each, in strictly increasing `toString` order |
| GraphProperties.ClustersFirst | dot-diagram/src/main/java/org/livingdocumentation/dotdiagram/DotGraph.java:240-254 | in every container all clusters are rendered before all nodes, since `Cluster …` sorts before `Node…` |
| Strings.SortedKeysSpec | dot-diagram/src/main/java/org/livingdocumentation/dotdiagram/DotGraph.java:241-248 | sorting lists every key exactly once and in strictly increasing order of display |
| Strings.LeTotal | dot-diagram/src/main/java/org/livingdocumentation/dotdiagram/DotGraph.java:244-246 | the string order of `compareTo` is total |
| Strings.LeTransitive | dot-diagram/src/main/java/org/livingdocumentation/dotdiagram/DotGraph.java:244-246 | the string order of `compareTo` is transitive |
| Strings.LeAntisymmetric | dot-diagram/src/main/java/org/livingdocumentation/dotdiagram/DotGraph.java:244-246 | the string order of `compareTo` is antisymmetric |
| Strings.FirstCharDecides | dot-diagram/src/main/java/org/livingdocumentation/dotdiagram/DotGraph.java:244-246 | strings that differ in their first character are ordered by that character |
| Strings.NatToStringRoundTrip | dot-diagram/src/main/java/org/livingdocumentation/dotdiagram/DotGraph.java:76 | the decimal form of the counter is a non-empty digit string that parses back to it |
| Strings.NatToStringInjective | dot-diagram/src/main/java/org/livingdocumentation/dotdiagram/DotGraph.java:76 | distinct counters have distinct decimal forms |
| Strings.NatToStringCanonical | dot-diagram/src/main/java/org/livingdocumentation/dotdiagram/DotRenderer.java:26-28 | the decimal form of a natural number has no leading zero (unless it is `0`) |
| Strings.IntToStringCanonical | dot-diagram/src/main/java/org/livingdocumentation/dotdiagram/DotRenderer.java:26-28 | the decimal form of any int is a canonical numeral: an optional `-`, then digits without a leading zero, never `-0` |
| Strings.CanonicalDigitsUnique | dot-diagram/src/main/java/org/livingdocumentation/dotdiagram/DotRenderer.java:26-28 | a digit string without a leading zero is the decimal form of the number it denotes |
| Strings.CanonicalIntUnique | dot-diagram/src/main/java/org/livingdocumentation/dotdiagram/DotRenderer.java:26-28 | a canonical numeral is the decimal form of the number it denotes, so the numeral printed for an int is the only canonical one that parses to it |
| Strings.IntToStringRoundTrip | dot-diagram/src/main/java/org/livingdocumentation/dotdiagram/DotRenderer.java:26-28 | the decimal form of any int, negative included, parses back to it |
| DotRenderer.Fontname | dot-diagram/src/main/java/org/livingdocumentation/dotdiagram/DotRenderer.java:22-24 | `fontname="…"` with the name recoverable between the quotes |
| DotRenderer.Fontsize | dot-diagram/src/main/java/org/livingdocumentation/dotdiagram/DotRenderer.java:26-28 | `fontsize=` followed by the canonical decimal numeral of the size (no leading zero, no `-0`, at least one digit), which parses back to it; by `Strings.CanonicalIntUnique` no other text has both properties |
| DotRenderer.Options | dot-diagram/src/main/java/org/livingdocumentation/dotdiagram/DotRenderer.java:30-32 | the font attribute, a comma, then the size attribute |
| DotRenderer.OptionsFor | dot-diagram/src/main/java/org/livingdocumentation/dotdiagram/DotRenderer.java:34-36 | `fontname="Verdana-Italic", ` for an abstract class and `fontname="Verdana", ` otherwise, the italic font for nothing else; then size 9; exact length, so nothing else is printed |
| DotRenderer.Stereotype | dot-diagram/src/main/java/org/livingdocumentation/dotdiagram/DotRenderer.java:38-40 | `\<\<` + tag + `\>\>`, the tag recoverable unchanged |
| DotRenderer.GraphTitle | dot-diagram/src/main/java/org/livingdocumentation/dotdiagram/DotRenderer.java:78-93 | starts with the `graph [labelloc=top,label="<title>",` line and ends with the Verdana 12 options and `];`; exact length, so nothing lies between them |
| DotRenderer.OpenGraph | dot-diagram/src/main/java/org/livingdocumentation/dotdiagram/DotRenderer.java:42-56 | begins `# Class diagram <title>` NEWLINE `digraph G {`; the graph title follows exactly when there is a title; ends with the edge defaults then the node defaults; exact length |
| DotRenderer.CloseGraph | dot-diagram/src/main/java/org/livingdocumentation/dotdiagram/DotRenderer.java:58-60 | the cluster closing brace followed by a line end |
| DotRenderer.CloseCluster | dot-diagram/src/main/java/org/livingdocumentation/dotdiagram/DotRenderer.java:70-72 | NEWLINE and `}`, nothing else |
| DotRenderer.OptionsNode | dot-diagram/src/main/java/org/livingdocumentation/dotdiagram/DotRenderer.java:95-110 | NEWLINE TAB `node [`, the Verdana 9 options, then `,shape=record];`; exact length |
| DotRenderer.OptionsEdge | dot-diagram/src/main/java/org/livingdocumentation/dotdiagram/DotRenderer.java:112-130 | NEWLINE TAB `edge [`, the Verdana 9 options, then `,labelfontname="Verdana",labelfontsize=9];`; exact length |
| DotRenderer.OpenCluster | dot-diagram/src/main/java/org/livingdocumentation/dotdiagram/DotRenderer.java:62-64 | NEWLINE `subgraph ` id ` {`, the id recoverable |
| DotRenderer.Cluster | dot-diagram/src/main/java/org/livingdocumentation/dotdiagram/DotRenderer.java:66-68 | NEWLINE `label = "` content `";`, the content recoverable |
| DotRenderer.WithDotNewLine | dot-diagram/src/main/java/org/livingdocumentation/dotdiagram/DotRenderer.java:74-76 | NEWLINE `//` followed by exactly the comment |
| DotRenderer.Node | dot-diagram/src/main/java/org/livingdocumentation/dotdiagram/DotRenderer.java:197-213 | NEWLINE TAB id ` [label="` label `"`, then `, options` only when there are options, then `]`; exact length |
| DotRenderer.Edge | dot-diagram/src/main/java/org/livingdocumentation/dotdiagram/DotRenderer.java:132-160 | `""` when an endpoint is missing; otherwise the comment line (with `null` for no comment), `from -> to [`, the labels and `  , ` only when there are labels, the style just before `];` only when there is one; exact length |
| DotRenderer.JoinCells | dot-diagram/src/main/java/org/livingdocumentation/dotdiagram/DotRenderer.java:166-179 | the loop yields every cell followed by the postfix, with the prefix between neighbours, and `""` for no cells |
| DotRenderer.ToLines | dot-diagram/src/main/java/org/livingdocumentation/dotdiagram/DotRenderer.java:162-164 | the cells joined by `\n ` |
| DotRenderer.ToLinesShape | dot-diagram/src/main/java/org/livingdocumentation/dotdiagram/DotRenderer.java:162-179 | no cells give `""`, one cell gives itself, n cells give exactly n−1 separators around the unchanged cells, and the output splits at every cell boundary |
| DotRenderer.JoinLength | dot-diagram/src/main/java/org/livingdocumentation/dotdiagram/DotRenderer.java:171-177 | a join of n cells is as long as the cells plus n−1 separators |
| DotRenderer.JoinSplit | dot-diagram/src/main/java/org/livingdocumentation/dotdiagram/DotRenderer.java:171-177 | a join splits into the joins of any two non-empty halves around one separator |
| DotRenderer.Tokens | dot-diagram/src/main/java/org/livingdocumentation/dotdiagram/DotRenderer.java:183 | no tokens exactly for empty text, never more tokens than characters, and no token is empty |
| DotRenderer.TokensSpec | dot-diagram/src/main/java/org/livingdocumentation/dotdiagram/DotRenderer.java:183 | the tokens of `" \t\n"` with delimiters returned concatenate to the text; each is a maximal word or a single delimiter |
| DotRenderer.TokensConcat | dot-diagram/src/main/java/org/livingdocumentation/dotdiagram/DotRenderer.java:183 | the tokens concatenate to the text |
| DotRenderer.TokensKinds | dot-diagram/src/main/java/org/livingdocumentation/dotdiagram/DotRenderer.java:183 | every token is a single delimiter or a non-empty run of non-delimiters |
| DotRenderer.TokensAlternate | dot-diagram/src/main/java/org/livingdocumentation/dotdiagram/DotRenderer.java:183 | a word token is always followed by a delimiter token, so words are maximal |
| DotRenderer.GroupsFlatten | dot-diagram/src/main/java/org/livingdocumentation/dotdiagram/DotRenderer.java:184-192 | grouping the tokens into lines keeps every token, in order |
| DotRenderer.WrapStep | dot-diagram/src/main/java/org/livingdocumentation/dotdiagram/DotRenderer.java:186-192 | one more token: a marker and a count restarting at the token's length when the line is longer than `length`, else the token joins the line and the count grows by its length |
| DotRenderer.WrapText | dot-diagram/src/main/java/org/livingdocumentation/dotdiagram/DotRenderer.java:181-195 | the loop's output is the wrapped text: the token lines joined by `\l` |
| DotRenderer.WrapRoundTrip | dot-diagram/src/main/java/org/livingdocumentation/dotdiagram/DotRenderer.java:181-195 | removing the markers gives the text back, and the output is longer by one marker per break |
| DotRenderer.GroupsBreakWhenLong | dot-diagram/src/main/java/org/livingdocumentation/dotdiagram/DotRenderer.java:184-192 | every line but the last is longer than `length`, no proper prefix of a line is, and the first line is empty exactly when there are no tokens or `length` is negative |
| DotRenderer.WrapBreaks | dot-diagram/src/main/java/org/livingdocumentation/dotdiagram/DotRenderer.java:181-195 | the lines hold all tokens in order and obey the break rule; with `length >= 0` no marker precedes the first token; with a negative `length`, non-empty text starts with a marker |

## Left out

- Writing `.dot` files, running the `dot` executable and fetching images over HTTP (`AbstractDotWriter`, `GraphvizDotWriter`, `GoogleChartDotWriter`) are I/O. They are not modelled.
- The style strings of `DotStyles` come from a resource bundle. Options and styles are opaque inputs here.
- `Renderable` is a one-method interface. It is modelled as the `Render` functions.
- `Digraph.findNode` is not modelled. It ignores its argument and registers the digraph's title as a side effect.
- The `toString` of `DotGraph`, `NodeRegistry` and `Association` is debugging text and is not modelled. The `toString` of the containers is modelled as `ToString`, which the child sort uses.
- The getters are not modelled: the fields are readable directly.
- The `equals`/`hashCode` of containers is not modelled: children are kept in a map keyed by id.
- The setters of containers and associations return nothing; Java's `return this` only serves call chaining.
- Java `HashSet` iteration order is unspecified: Java promises only which associations and stereotypes are kept, not the order in which they are printed. The model keeps them in insertion order, and these members state that order, which Java does not promise: DotGraph.WithAssociation, DotGraph.AbstractNode.Associate, DotGraph.AbstractNode.AddExistingAssociation, DotGraph.AbstractNode.AddExistingAssociationWith, DotGraph.AbstractNode.AddAssociation, DotGraph.AbstractNode.AddStereotype, DotGraph.AbstractNode.NodeLabel, GraphProperties.NodeRenderShape, DotGraph.AbstractNode.RenderCluster, DotGraph.AbstractNode.RenderDigraph, GraphProperties.RenderEdgesConcat and GraphProperties.RenderEdgesAppend. Their statements about which elements are kept hold for any order.
- DotGraph.AbstractNode.AddNode: requires that an existing child under the key's id is a node. Java throws `ClassCastException` there; the same holds for `AddCluster` and `AddPossibleNode`.
- Java `int` overflow of the registry counter, of `wrapText`'s running length and of font sizes is not modelled. Integers are unbounded.
- `String.compareTo` compares UTF-16 code units. The model compares Dafny characters, which agrees for the ASCII prefixes `Node` and `Cluster ` that decide the order.
- `Digraph.render` calls a two-argument `openGraph(label, dir)` that does not exist in `DotRenderer.java`. DotGraph.AbstractNode.RenderDigraph uses the one-argument header, so the direction hint is stored on the digraph but never rendered.
- A `null` title gives a digraph whose Java id is `null`. The model uses the text `null` as its id, which is what Java prints for it.
- `wrapText` and `toLines` on a `null` argument throw in Java. Their arguments are never missing here.
- The Java `addAssociation` guards `uid != null && uid2 != null`, which always holds, so the model has no such branch.
- `AddExistingAssociationWith` sets the label, comment and options before the association joins the set, not after. The association is fresh, so nothing can observe the difference.
- DotRenderer.WrapText: the running line length counts characters (Unicode scalar values). Java's `String.length()` counts UTF-16 code units, so a label with characters outside the Basic Multilingual Plane may break at different tokens.
