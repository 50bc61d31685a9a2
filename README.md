# dynalist-path in Dafny

A model of the core of `dynalist-path`, a small Python tool that turns a
readable path into a node of a hosted outliner (Dynalist). A path has two parts:
a *document path* of folder and document titles, and a *node path* of
outline-node contents. The text form is `doc/seg/...:node/seg/...`.

The model has four modules:

- `Wrappers` (`wrappers.dfy`): `Option` stands for Python's `None`, and `Result` with `Error` stands for the
  `TypeError` and the "document must be a last element" exception the code raises.
- `Segments` (`segments.dfy`): the string operations that `append_or_extend` and `__str__` use.
  These are `str.strip('/')` (`LStrip`, `RStrip`, `Strip`), `str.split('/')` (`Split`, which keeps empty
  pieces) and `'/'.join` (`Join`). It also holds their round trips.
- `DynaPaths` (`dynapath.dfy`): the `DynaPath` class. It has two `seq<string>` fields that its methods
  reassign in place. `__truediv__` (`Div`) returns the same object. The methods are proved
  against value-level specification functions: `Extended` (`append_or_extend`), `AppendedNode`,
  `AppendedDocument`, `Appended` and `Created` (the constructor). The properties are proved as
  lemmas about those functions. The argument union `Union[str, list, DynaPath]` and every other
  Python object are the datatype `Arg` (`Str | List | Path | Other`). `Other` carries the
  argument's truthiness, so `None` is `Other(false)`. `__str__` is `ToString`, through `Render`.
- `Resolver` (`resolver.dfy`): `dict(map(lambda itm: (itm['id'], itm), ...))` (`IndexById`), and the
  loops of `get_document` and `get_node` (`GetDocument`, `GetNode`). These run on the listing and
  outline already fetched, passed in as maps from id to record. Each loop is
  proved equal to a fold over the segments (`ResolveDocument`, `ResolveNode`). Lemmas then
  characterise those folds.

Behaviour of the code worth stating plainly, since the model follows it as written:

- A `DynaPath` passed to the constructor has its document segments copied to the document
  path and its node segments copied to the node path (main.py:16-17 via `append`). It is not
  flattened into the document path.
- The inner scan of `get_node` is a true first-match linear search. Its `break` (main.py:100)
  sits inside the match branch. It does not stop after one comparison.
- Empty segments are kept: `"a//b"` gives `["a", "", "b"]`, and `"/"` gives `[""]`.
- With the root's children reset on a folder match (main.py:118), a document inside a folder
  is never found. See Findings.
- `get_node` only prints its target (main.py:101). `GetNode` returns it.

## Model

| member | source | states |
|---|---|---|
| Segments.LStrip | main.py:72 | the result is the suffix of `s` left after every leading `/` is removed: only `/` is dropped, and the result does not start with `/` |
| Segments.RStrip | main.py:72 | the result is the prefix of `s` left after every trailing `/` is removed: only `/` is dropped, and the result does not end with `/` |
| Segments.Strip | main.py:72 | `strip('/')` leaves no `/` at either end |
| Segments.StripIdempotent | main.py:72 | stripping twice is stripping once |
| Segments.Split | main.py:72 | `split('/')` yields at least one piece, and no piece contains `/` |
| Segments.SegmentsOf | main.py:72 | a string always contributes at least one segment |
| Segments.JoinSplit | main.py:72 | `'/'.join(s.split('/')) == s` for every `s` |
| Segments.Join | main.py:35 | no contract of its own: `'/'.join`, characterised by `JoinSplit`, `SplitJoin` and `JoinSegmentsOf` |
| Segments.SplitJoin | main.py:35 | splitting the `/`-join of a non-empty list of `/`-free segments gives back that list |
| Segments.SplitPiece | main.py:72 | a string without `/` splits into itself alone |
| Segments.SplitConcat | main.py:72 | `(a + "/" + b).split('/')` is `a.split('/')` followed by `b.split('/')` |
| Segments.JoinSegmentsOf | main.py:72 | joining the segments a string contributes gives the string stripped of leading and trailing `/` |
| Segments.SegmentsOfBlank | main.py:72 | a string made only of `/` (or empty) contributes exactly one empty segment |
| Segments.StripBare | main.py:72 | a non-empty string with no `/` at either end is left unchanged by `strip('/')` |
| Segments.SegmentsOfConcat | main.py:72 | two non-empty strings with no `/` at either end contribute the same segments as the one string joining them with `/` |
| DynaPaths.Truthy | main.py:23 | no contract of its own: the truthiness test on `node_path` (empty str or list and `None` are falsy, a DynaPath is truthy); what it decides is stated by `Created` and `CreatedCases` |
| DynaPaths.Extended | main.py:68-76 | `append_or_extend` succeeds exactly for a str or list tail and otherwise raises the `TypeError` with the source's message; the old list is kept as a prefix, and what follows it is exactly the str's segments or the list's items |
| DynaPaths.ExtendedCases | main.py:68-76 | a str tail gives `head` followed by its segments, a list tail gives `head` followed by its items, anything else raises the `tail` TypeError |
| DynaPaths.AppendedNode | main.py:46-47 | `append_node_path` succeeds exactly for a str or list tail, never changes the document path, and keeps the old node path as a prefix |
| DynaPaths.AppendedNodeCases | main.py:46-47 | on any path, a str tail adds its segments to the node path, a list tail adds its items, anything else raises the `tail` TypeError; the document path is untouched |
| DynaPaths.AppendedDocument | main.py:49-50 | `append_document_path` succeeds exactly for a str or list tail, never changes the node path, and keeps the old document path as a prefix |
| DynaPaths.AppendedDocumentCases | main.py:49-50 | on any path, a str tail adds its segments to the document path, a list tail adds its items, anything else raises the `tail` TypeError; the node path is untouched |
| DynaPaths.Appended | main.py:37-44 | `append` raises exactly for a tail that is not a str, list or DynaPath; otherwise both old lists are prefixes of the new ones |
| DynaPaths.Created | main.py:12-27 | the constructor succeeds exactly when `document_path` is a str, list or DynaPath and `node_path` is falsy or a str or list |
| DynaPaths.AppendedCases | main.py:37-44 | a DynaPath tail concatenates document to document and node to node; a str tail adds its segments to the node path only; a list tail adds its items verbatim to the node path only; anything else raises the `tail` TypeError |
| DynaPaths.AppendedListsCompose | main.py:73-74 | appending list `x` and then list `y` equals appending `x + y` once (so `[a, b]` twice equals `[a, b, a, b]`) |
| DynaPaths.AppendedStr | main.py:71-72 | appending a str adds exactly its segments to the node path and leaves the document path |
| DynaPaths.AppendedStringsCompose | main.py:71-72 | `p / a / b` equals `p / (a + "/" + b)` for non-empty `a` and `b` with no `/` at either end |
| DynaPaths.CreatedCases | main.py:12-27 | a non-str/list/DynaPath `document_path` raises; with a falsy `node_path`, a DynaPath is copied field by field, a str gives its segments and a list its items, with an empty node path; a truthy `node_path` that is not a str or list raises; a truthy str or list is appended to the node path |
| DynaPaths.Render | main.py:34-35 | no contract of its own: the `__str__` text of a path value, characterised by `RenderCreatedFromString` and `RenderRecoversSegments` |
| DynaPaths.RenderCreatedFromString | main.py:34-35 | `str(DynaPath(s))` is `s` stripped of leading and trailing `/`, followed by `:` |
| DynaPaths.RenderRecoversSegments | main.py:34-35 | the rendering has a `:` just after the joined document path; splitting each side on `/` gives back the document and node segments |
| DynaPaths.DynaPath.Empty | main.py:13-14 | a new path starts with both lists empty |
| DynaPaths.DynaPath.Create | main.py:12-27 | returns a fresh path holding exactly `Created(...)`, or raises the same error |
| DynaPaths.DynaPath.Append | main.py:37-44 | the new state is `Appended(old state, tail)`; on a raise nothing changes |
| DynaPaths.DynaPath.AppendNodePath | main.py:46-47 | the new state is `AppendedNode(old state, tail)`; on a raise nothing changes |
| DynaPaths.DynaPath.AppendDocumentPath | main.py:49-50 | the new state is `AppendedDocument(old state, tail)`; on a raise nothing changes |
| DynaPaths.DynaPath.Div | main.py:52-54 | `p / x` changes `p` exactly as `p.append(x)` and returns `p` itself |
| DynaPaths.DynaPath.ToString | main.py:34-35 | no contract of its own: `__str__` is `Render` of the current state |
| DynaPaths.DynaPath.Iter | main.py:56-57 | iterating a path yields exactly its node path, in order |
| DynaPaths.DynaPath.NodePathElements | main.py:59-61 | yields exactly the node path, in order |
| DynaPaths.DynaPath.DocumentPathElements | main.py:63-65 | yields exactly the document path, in order |
| Resolver.IndexById | main.py:108 | the index has exactly the ids of the items as keys |
| Resolver.IndexByIdLastWins | main.py:108 | an item whose id no later item repeats is the entry stored for that id |
| Resolver.FirstWhere | main.py:114-121 | the inner scan's match is the first index whose element matches; with no match, no element matches |
| Resolver.FirstWhereAt | main.py:114-121 | a matching index with no match before it is the one the scan finds |
| Resolver.MatchedFile | main.py:114-116 | the matched child is a listed file carrying the segment as title |
| Resolver.DocStep | main.py:114-121 | one pass of the inner scan either keeps the target or makes it a root child titled with the segment that is not a folder |
| Resolver.DocStepAt | main.py:114-121 | the first root child titled with the segment decides the step: a folder keeps the target, any other kind becomes the target |
| Resolver.DocStepNone | main.py:114-121 | when no root child carries the segment as title, the target is unchanged |
| Resolver.DocWalk | main.py:111-121 | the outer loop raises only the not-last-element error, and a target it returns other than the one it started with is a root child that is a listed file and not a folder |
| Resolver.ResolveDocument | main.py:109-123 | `get_document` raises only the not-last-element error, and an id it returns is a root child that is a listed file and not a folder |
| Resolver.DocWalkClosedForm | main.py:109-123 | `get_document` raises exactly when some segment before the last hits a non-folder root child. Otherwise it returns what the last segment hits, or `None` for an empty path. |
| Resolver.ResolvedDocument | main.py:111-123 | a returned id belongs to the first root child titled with the last segment; that child is not a folder, and no earlier segment hit a document |
| Resolver.ResolveDocumentRaises | main.py:111-113 | the raise happens exactly when an earlier segment matched a document. The error is the not-last-element one. An empty path returns `None`. |
| Resolver.GetDocument | main.py:107-123 | the loops return exactly `ResolveDocument`; the candidate list stays the root's children throughout |
| Resolver.DescendingDocWalk | main.py:111-121 | with folder descent, the walk raises only the not-last-element error, and a new target is a listed file that is not a folder |
| Resolver.ResolveDocumentDescending | main.py:109-123 | `get_document` with folder descent raises only the not-last-element error and returns only ids of listed non-folder files |
| Resolver.DescendingFollowsFolders | main.py:117-118 | with folder descent, a path of first-match titles through folders to a document resolves to that document |
| Resolver.NestedDocumentMissed | main.py:117-118 | as written, root → folder "Tasks" → document "Today" with path `Tasks/Today` returns `None`; with descent it returns "Today"'s id |
| Resolver.DocumentNotTerminalExample | main.py:112-113 | a segment after a matched document `DocA` raises |
| Resolver.ChildrenOf | main.py:98 | no contract of its own: `node.get('children', [])`, used by `NodeStepAt`, `NodeStep` and `ChildrenListed` |
| Resolver.NodeStep | main.py:95-100 | one pass of the inner scan either changes nothing or moves to a node of the outline whose content is the segment, with that node's children as the new candidates |
| Resolver.NodeStepAt | main.py:95-100 | the first candidate whose content is the segment becomes the target, and its children (or none) become the candidates |
| Resolver.NodeStepNone | main.py:95-100 | when no candidate's content is the segment, target and candidates are unchanged |
| Resolver.NodeWalk | main.py:94-100 | no contract of its own: the outer loop of `get_node`, characterised by `NodeWalkConcat`, `NodeWalkTarget` and `NodeWalkUnmatched` |
| Resolver.ResolveNode | main.py:92-100 | no contract of its own: the target `get_node` ends with, characterised by `ResolvedNode` |
| Resolver.NodeWalkConcat | main.py:94-100 | walking `a + b` is walking `b` from where walking `a` ended |
| Resolver.NodeWalkTarget | main.py:94-100 | the target either stays as it was, or becomes a node of the outline whose content is one of the segments |
| Resolver.NodeWalkUnmatched | main.py:94-100 | starting without a target, the walk ends without one exactly when no segment is the content of a starting candidate; it then has not moved |
| Resolver.ResolvedNode | main.py:92-101 | `get_node`'s target is `None` for an empty path. It is `None` exactly when no segment names a root child. Otherwise it is a node of the outline whose content is one of the segments. |
| Resolver.GetNode | main.py:92-100 | the loops over the segments of `path` end with exactly `ResolveNode` |
| Resolver.NodePathExample | main.py:94-100 | root → "Today" → "Test" with path `Today/Test` ends at the "Test" node |

## Left out

- The HTTP calls to `file/list` and `doc/read`, the JSON decoding, the URLs and the `token` global (main.py:5-7, 87-89, 105-106) are network I/O. The fetched listing or outline is a parameter. Its `root_file_id` is a parameter too, and the outline root is the constant `"root"`.
- `read_item`, `main` and the `async`/`await`/`asyncio.run` plumbing (main.py:79-84, 126-131) are control flow with no logic of their own.
- The `print` calls are output only. `get_node` prints its target; `GetNode` returns it instead.
- The `PathLike` base and `__fspath__` (main.py:10, 31-32) are OS integration; `__fspath__` only returns `__str__`.
- Generators are modelled as methods returning the sequence they yield.
- `KeyError` on a missing id or a missing `children`/`root` key (main.py:92, 96, 109, 115) is not modelled. Each becomes a precondition: `RootListed` plus "root children are listed" for `GetDocument`, and `HasRoot` plus `Closed` for `GetNode`.
- `file_id`, the first parameter of `get_node`, is used only for the fetch, so `GetNode` does not take it. Its `path` parameter is annotated `list` in the source. `read_item` passes a `DynaPath` there, and iterating one yields its node path (`DynaPath.Iter`). `GetNode` takes that sequence.
- The `head` type check of `append_or_extend` (main.py:69-70) cannot fail: `head` is always one of the path's own lists. `Extended` works on values, and the calling method reassigns the field that Python extends in place.
- List elements are strings. A list holding non-strings, and the `TypeError` that `'/'.join` would raise on it, are not modelled.
- A `DynaPath` argument is passed as the value of its two lists. This matches Python even for `p.append(p)`: `document_path` is extended before `node_path` is read, and `list.extend` with itself doubles the list.
- DynaPaths.DynaPath.ToString and DynaPaths.Render carry no contract of their own. What `__str__` promises is stated by `RenderCreatedFromString` and `RenderRecoversSegments`.

## Findings

| source | as written | input that shows it | evidently intended | confidence | as-written member | corrected member |
|---|---|---|---|---|---|---|
| main.py:118 | a folder match resets `children_ids` to the root's children, so the next segment is looked up at the top level again | a listing root → folder "Tasks" → document "Today", path `Tasks/Today`: `get_document` returns `None` | descend into the matched folder's own `children` | high (the assignment rewrites the value the list already has); not executed | Resolver.NestedDocumentMissed | Resolver.DescendingFollowsFolders |

`GetDocument` keeps the as-written behaviour, because that is what callers of the program
observe. The descending walk (`DescendingDocWalk`, `ResolveDocumentDescending`) sits beside it.
