/** The two tree walks of the resolver: the file listing walked by the
    document path (`get_document`) and a document's outline walked by the
    node path (`get_node`), on the listings already fetched. */
module Resolver {
  import opened Wrappers

  /** An entry of the file listing. `children` is absent on documents. */
  datatype FileItem = FileItem(id: string, title: string, kind: string, children: Option<seq<string>>)

  /** An outline node of a document. `children` is absent on leaves. */
  datatype NodeItem = NodeItem(id: string, content: string, children: Option<seq<string>>)

  const FolderKind: string := "folder"
  const RootNodeId: string := "root"

  /** `dict(map(lambda itm: (itm['id'], itm), items))`: a later item replaces an
      earlier one with the same id. */
  function IndexById<T>(items: seq<T>, id: T -> string): (m: map<string, T>)
    ensures m.Keys == set k | 0 <= k < |items| :: id(items[k])
    decreases |items|
  {
    if items == [] then map[]
    else
      var last := items[|items| - 1];
      IndexById(items[..|items| - 1], id)[id(last) := last]
  }

  /** An item that no later item shares its id with is what the index holds for that id. */
  lemma {:induction false} IndexByIdLastWins<T>(items: seq<T>, id: T -> string, k: nat)
    requires k < |items|
    requires forall j :: k < j < |items| ==> id(items[j]) != id(items[k])
    ensures id(items[k]) in IndexById(items, id)
    ensures IndexById(items, id)[id(items[k])] == items[k]
    decreases |items|
  {
    var n := |items|;
    if k < n - 1 {
      var front := items[..n - 1];
      assert front[k] == items[k];
      forall j | k < j < |front| ensures id(front[j]) != id(front[k]) {
        assert front[j] == items[j];
      }
      IndexByIdLastWins(front, id, k);
    }
  }

  /** Every id in `ids` is a key of `m`. */
  predicate Listed<T>(m: map<string, T>, ids: seq<string>) {
    forall k :: 0 <= k < |ids| ==> ids[k] in m
  }

  /** The first index of `xs` whose element satisfies `p`. */
  function FirstWhere<T>(xs: seq<T>, p: T -> bool): (r: Option<nat>)
    ensures r.Some? ==> r.value < |xs| && p(xs[r.value]) && forall k :: 0 <= k < r.value ==> !p(xs[k])
    ensures r.None? ==> forall k :: 0 <= k < |xs| ==> !p(xs[k])
    decreases |xs|
  {
    if xs == [] then None
    else if p(xs[0]) then Some(0)
    else
      match FirstWhere(xs[1..], p)
      case None => None
      case Some(j) => Some(j + 1)
  }

  /** An index whose element satisfies `p` while the earlier ones do not is the first one. */
  lemma FirstWhereAt<T>(xs: seq<T>, p: T -> bool, j: nat)
    requires j < |xs| && p(xs[j])
    requires forall k :: 0 <= k < j ==> !p(xs[k])
    ensures FirstWhere(xs, p) == Some(j)
  {
  }

  // ---------------------------------------------------------------------------
  // get_document

  /** The first of `ids` whose file is titled `title`. */
  function MatchedFile(files: map<string, FileItem>, ids: seq<string>, title: string): (r: Option<string>)
    ensures r.Some? ==> r.value in files && files[r.value].title == title
  {
    match FirstWhere(ids, (id: string) => id in files && files[id].title == title)
    case None => None
    case Some(j) => Some(ids[j])
  }

  /** One iteration of the outer loop of `get_document`: the first child titled
      `element` decides; a folder changes nothing, any other kind becomes the target. */
  function DocStep(files: map<string, FileItem>, ids: seq<string>, target: Option<string>, element: string): (r: Option<string>)
    ensures r == target || (r.Some? && r.value in ids && r.value in files &&
      files[r.value].title == element && files[r.value].kind != FolderKind)
  {
    match MatchedFile(files, ids, element)
    case None => target
    case Some(id) => if files[id].kind == FolderKind then target else Some(id)
  }

  /** A child titled `element`, with none titled so before it, decides the step. */
  lemma DocStepAt(files: map<string, FileItem>, ids: seq<string>, target: Option<string>, element: string, j: nat)
    requires Listed(files, ids)
    requires j < |ids| && files[ids[j]].title == element
    requires forall k :: 0 <= k < j ==> files[ids[k]].title != element
    ensures DocStep(files, ids, target, element) == if files[ids[j]].kind == FolderKind then target else Some(ids[j])
  {
    FirstWhereAt(ids, (id: string) => id in files && files[id].title == element, j);
  }

  /** A step where no child is titled `element` keeps the target. */
  lemma DocStepNone(files: map<string, FileItem>, ids: seq<string>, target: Option<string>, element: string)
    requires Listed(files, ids)
    requires forall k :: 0 <= k < |ids| ==> files[ids[k]].title != element
    ensures DocStep(files, ids, target, element) == target
  {
  }

  /** The outer loop of `get_document` from a given target on, with the candidate
      list fixed: a folder match resets it to the root's children, which it already is. */
  function DocWalk(files: map<string, FileItem>, rootChildren: seq<string>, target: Option<string>, elements: seq<string>): (r: Result<Option<string>>)
    ensures r.Err? ==> r.error == DocumentNotTerminal
    ensures r.Ok? && r.value != target ==>
      r.value.Some? && r.value.value in rootChildren && r.value.value in files && files[r.value.value].kind != FolderKind
    decreases |elements|
  {
    if elements == [] then Ok(target)
    else if target.Some? then Err(DocumentNotTerminal)
    else DocWalk(files, rootChildren, DocStep(files, rootChildren, target, elements[0]), elements[1..])
  }

  /** The walk over `elements[i..]`, from no target, is one step on `elements[i]` and then the walk over the rest. */
  lemma DocWalkUnfold(files: map<string, FileItem>, rootChildren: seq<string>, elements: seq<string>, i: nat)
    requires i < |elements|
    ensures DocWalk(files, rootChildren, None, elements[i..]) ==
      DocWalk(files, rootChildren, DocStep(files, rootChildren, None, elements[i]), elements[i + 1..])
  {
    assert elements[i..][1..] == elements[i + 1..];
  }

  /** The root of the listing is present and lists its children. */
  predicate RootListed(files: map<string, FileItem>, rootFileId: string) {
    rootFileId in files && files[rootFileId].children.Some?
  }

  /** What `get_document` returns or raises. */
  function ResolveDocument(files: map<string, FileItem>, rootFileId: string, elements: seq<string>): (r: Result<Option<string>>)
    requires RootListed(files, rootFileId)
    ensures r.Err? ==> r.error == DocumentNotTerminal
    ensures r.Ok? && r.value.Some? ==>
      r.value.value in files[rootFileId].children.value && r.value.value in files && files[r.value.value].kind != FolderKind
  {
    DocWalk(files, files[rootFileId].children.value, None, elements)
  }

  /** The root child that a segment would make the target on its own. */
  function DocHit(files: map<string, FileItem>, rootChildren: seq<string>, element: string): Option<string> {
    DocStep(files, rootChildren, None, element)
  }

  /** `get_document` in closed form: it raises exactly when a segment other than
      the last one hits a document among the root's children, and otherwise
      returns what the last segment hits. */
  lemma {:induction false} DocWalkClosedForm(files: map<string, FileItem>, rootChildren: seq<string>, elements: seq<string>)
    ensures DocWalk(files, rootChildren, None, elements) ==
      if exists k :: 0 <= k < |elements| - 1 && DocHit(files, rootChildren, elements[k]).Some? then Err(DocumentNotTerminal)
      else if elements == [] then Ok(None)
      else Ok(DocHit(files, rootChildren, elements[|elements| - 1]))
    decreases |elements|
  {
    if elements != [] {
      var hit := DocHit(files, rootChildren, elements[0]);
      var rest := elements[1..];
      if |elements| == 1 {
      } else if hit.Some? {
        assert DocHit(files, rootChildren, elements[0]).Some?;
      } else {
        DocWalkClosedForm(files, rootChildren, rest);
        if exists k :: 0 <= k < |rest| - 1 && DocHit(files, rootChildren, rest[k]).Some? {
          var k :| 0 <= k < |rest| - 1 && DocHit(files, rootChildren, rest[k]).Some?;
          assert elements[k + 1] == rest[k];
        } else {
          forall k | 0 <= k < |elements| - 1 ensures DocHit(files, rootChildren, elements[k]).None? {
            if k > 0 {
              assert elements[k] == rest[k - 1];
            }
          }
          assert elements[|elements| - 1] == rest[|rest| - 1];
        }
      }
    }
  }

  /** What a successful `get_document` returns: the first root child titled with
      the last segment, which is not a folder, and no earlier segment hit a document. */
  lemma ResolvedDocument(files: map<string, FileItem>, rootFileId: string, elements: seq<string>, id: string)
    requires RootListed(files, rootFileId)
    requires ResolveDocument(files, rootFileId, elements) == Ok(Some(id))
    ensures elements != []
    ensures MatchedFile(files, files[rootFileId].children.value, elements[|elements| - 1]) == Some(id)
    ensures id in files && files[id].kind != FolderKind && files[id].title == elements[|elements| - 1]
    ensures forall k :: 0 <= k < |elements| - 1 ==> DocHit(files, files[rootFileId].children.value, elements[k]).None?
  {
    DocWalkClosedForm(files, files[rootFileId].children.value, elements);
  }

  /** `get_document` raises exactly when an earlier segment hits a document. */
  lemma ResolveDocumentRaises(files: map<string, FileItem>, rootFileId: string, elements: seq<string>)
    requires RootListed(files, rootFileId)
    ensures ResolveDocument(files, rootFileId, elements).Err? <==>
      exists k :: 0 <= k < |elements| - 1 && DocHit(files, files[rootFileId].children.value, elements[k]).Some?
    ensures ResolveDocument(files, rootFileId, elements).Err? ==>
      ResolveDocument(files, rootFileId, elements).error == DocumentNotTerminal
    ensures elements == [] ==> ResolveDocument(files, rootFileId, elements) == Ok(None)
  {
    DocWalkClosedForm(files, files[rootFileId].children.value, elements);
  }

  /** The loops of `get_document` after the listing has been fetched and indexed. */
  method GetDocument(files: map<string, FileItem>, rootFileId: string, documentPathElements: seq<string>)
    returns (r: Result<Option<string>>)
    requires RootListed(files, rootFileId)
    requires Listed(files, files[rootFileId].children.value)
    ensures r == ResolveDocument(files, rootFileId, documentPathElements)
  {
    var childrenIds := files[rootFileId].children.value;
    var target: Option<string> := None;
    var i := 0;
    while i < |documentPathElements|
      invariant 0 <= i <= |documentPathElements|
      invariant childrenIds == files[rootFileId].children.value
      invariant DocWalk(files, childrenIds, target, documentPathElements[i..]) ==
                ResolveDocument(files, rootFileId, documentPathElements)
    {
      var element := documentPathElements[i];
      if target.Some? {
        return Err(DocumentNotTerminal);
      }
      var j := 0;
      while j < |childrenIds|
        invariant 0 <= j <= |childrenIds|
        invariant childrenIds == files[rootFileId].children.value && target.None?
        invariant forall k :: 0 <= k < j ==> files[childrenIds[k]].title != element
      {
        var fileId := childrenIds[j];
        var file := files[fileId];
        if file.title == element {
          DocStepAt(files, childrenIds, None, element, j);
          if file.kind == FolderKind {
            childrenIds := files[rootFileId].children.value;
          } else {
            target := Some(fileId);
          }
          break;
        }
        j := j + 1;
      }
      if j == |childrenIds| {
        DocStepNone(files, childrenIds, None, element);
      }
      DocWalkUnfold(files, childrenIds, documentPathElements, i);
      i := i + 1;
    }
    r := Ok(target);
  }

  // ---------------------------------------------------------------------------
  // Folder descent, as evidently intended

  /** The children a folder entry lists. */
  function FolderChildren(file: FileItem): seq<string> {
    if file.children.Some? then file.children.value else []
  }

  /** The outer loop of `get_document` with a folder match descending into that
      folder's own children instead of going back to the root's. */
  function DescendingDocWalk(files: map<string, FileItem>, ids: seq<string>, target: Option<string>, elements: seq<string>): (r: Result<Option<string>>)
    ensures r.Err? ==> r.error == DocumentNotTerminal
    ensures r.Ok? && r.value != target ==>
      r.value.Some? && r.value.value in files && files[r.value.value].kind != FolderKind
    decreases |elements|
  {
    if elements == [] then Ok(target)
    else if target.Some? then Err(DocumentNotTerminal)
    else
      match MatchedFile(files, ids, elements[0])
      case None => DescendingDocWalk(files, ids, target, elements[1..])
      case Some(id) =>
        if files[id].kind == FolderKind then DescendingDocWalk(files, FolderChildren(files[id]), target, elements[1..])
        else DescendingDocWalk(files, ids, Some(id), elements[1..])
  }

  /** `get_document` with folder descent. */
  function ResolveDocumentDescending(files: map<string, FileItem>, rootFileId: string, elements: seq<string>): (r: Result<Option<string>>)
    requires RootListed(files, rootFileId)
    ensures r.Err? ==> r.error == DocumentNotTerminal
    ensures r.Ok? && r.value.Some? ==> r.value.value in files && files[r.value.value].kind != FolderKind
  {
    DescendingDocWalk(files, files[rootFileId].children.value, None, elements)
  }

  /** With folder descent, a path of titles that leads through folders, each the
      first match among its parent's children, to a document resolves to that document. */
  lemma {:induction false} DescendingFollowsFolders(files: map<string, FileItem>, ids: seq<string>, elements: seq<string>, chain: seq<string>)
    requires |chain| == |elements| >= 1
    requires MatchedFile(files, ids, elements[0]) == Some(chain[0])
    requires forall i :: 0 <= i < |chain| - 1 ==>
      chain[i] in files && files[chain[i]].kind == FolderKind &&
      MatchedFile(files, FolderChildren(files[chain[i]]), elements[i + 1]) == Some(chain[i + 1])
    requires chain[|chain| - 1] in files && files[chain[|chain| - 1]].kind != FolderKind
    ensures DescendingDocWalk(files, ids, None, elements) == Ok(Some(chain[|chain| - 1]))
    decreases |elements|
  {
    if |elements| > 1 {
      var rest, tail := elements[1..], chain[1..];
      forall i | 0 <= i < |tail| - 1
        ensures tail[i] in files && files[tail[i]].kind == FolderKind &&
          MatchedFile(files, FolderChildren(files[tail[i]]), rest[i + 1]) == Some(tail[i + 1])
      {
        assert tail[i] == chain[i + 1] && tail[i + 1] == chain[i + 2] && rest[i + 1] == elements[i + 2];
      }
      assert MatchedFile(files, FolderChildren(files[chain[0]]), rest[0]) == Some(tail[0]);
      DescendingFollowsFolders(files, FolderChildren(files[chain[0]]), rest, tail);
    }
  }

  /** A listing with a folder "Tasks" at the root holding a document "Today". */
  function NestedListing(): map<string, FileItem> {
    map[
      "root" := FileItem("root", "", FolderKind, Some(["tasks"])),
      "tasks" := FileItem("tasks", "Tasks", FolderKind, Some(["today"])),
      "today" := FileItem("today", "Today", "document", None)
    ]
  }

  /** As written, `get_document` cannot reach "Tasks/Today": after the folder
      match it looks for "Today" among the root's children again. The intended
      descent finds it. */
  lemma NestedDocumentMissed()
    ensures ResolveDocument(NestedListing(), "root", ["Tasks", "Today"]) == Ok(None)
    ensures ResolveDocumentDescending(NestedListing(), "root", ["Tasks", "Today"]) == Ok(Some("today"))
  {
    var files := NestedListing();
    var elements := ["Tasks", "Today"];
    FirstWhereAt(["tasks"], (id: string) => id in files && files[id].title == "Tasks", 0);
    assert !(files["tasks"].title == "Today");
    assert MatchedFile(files, ["tasks"], "Today") == None;
    DocWalkClosedForm(files, ["tasks"], elements);
    FirstWhereAt(["today"], (id: string) => id in files && files[id].title == "Today", 0);
    DescendingFollowsFolders(files, ["tasks"], elements, ["tasks", "today"]);
  }

  /** A segment after a matched document raises. */
  lemma DocumentNotTerminalExample()
    ensures ResolveDocument(
      map["root" := FileItem("root", "", FolderKind, Some(["a"])), "a" := FileItem("a", "DocA", "document", None)],
      "root", ["DocA", "extra"]) == Err(DocumentNotTerminal)
  {
    var files := map["root" := FileItem("root", "", FolderKind, Some(["a"])), "a" := FileItem("a", "DocA", "document", None)];
    FirstWhereAt(["a"], (id: string) => id in files && files[id].title == "DocA", 0);
    assert DocHit(files, ["a"], "DocA") == Some("a");
    ResolveDocumentRaises(files, "root", ["DocA", "extra"]);
  }

  // ---------------------------------------------------------------------------
  // get_node

  /** `node.get('children', [])`. */
  function ChildrenOf(node: NodeItem): seq<string> {
    if node.children.Some? then node.children.value else []
  }

  /** Every child id in the outline names a node of it. */
  predicate Closed(nodes: map<string, NodeItem>) {
    forall id, c :: id in nodes && c in ChildrenOf(nodes[id]) ==> c in nodes
  }

  /** The outline has a root node that lists its children. */
  predicate HasRoot(nodes: map<string, NodeItem>) {
    RootNodeId in nodes && nodes[RootNodeId].children.Some?
  }

  /** The local state of `get_node`'s outer loop. */
  datatype Walk = Walk(candidates: seq<string>, target: Option<NodeItem>)

  /** One iteration: the first candidate whose content is `element` becomes the
      target and its children the candidates; with no match nothing changes. */
  function NodeStep(nodes: map<string, NodeItem>, w: Walk, element: string): (r: Walk)
    ensures r == w || (r.target.Some? && r.target.value in nodes.Values &&
      r.target.value.content == element && r.candidates == ChildrenOf(r.target.value))
  {
    match FirstWhere(w.candidates, (id: string) => id in nodes && nodes[id].content == element)
    case None => w
    case Some(j) =>
      var node := nodes[w.candidates[j]];
      Walk(ChildrenOf(node), Some(node))
  }

  /** A candidate whose content is `element`, with none before it, is what the step moves to. */
  lemma NodeStepAt(nodes: map<string, NodeItem>, w: Walk, element: string, j: nat)
    requires Listed(nodes, w.candidates)
    requires j < |w.candidates| && nodes[w.candidates[j]].content == element
    requires forall k :: 0 <= k < j ==> nodes[w.candidates[k]].content != element
    ensures NodeStep(nodes, w, element) == Walk(ChildrenOf(nodes[w.candidates[j]]), Some(nodes[w.candidates[j]]))
  {
    FirstWhereAt(w.candidates, (id: string) => id in nodes && nodes[id].content == element, j);
  }

  /** A step where no candidate has content `element` changes nothing. */
  lemma NodeStepNone(nodes: map<string, NodeItem>, w: Walk, element: string)
    requires Listed(nodes, w.candidates)
    requires forall k :: 0 <= k < |w.candidates| ==> nodes[w.candidates[k]].content != element
    ensures NodeStep(nodes, w, element) == w
  {
  }

  /** The outer loop of `get_node` over the remaining segments. */
  function NodeWalk(nodes: map<string, NodeItem>, w: Walk, elements: seq<string>): Walk
    decreases |elements|
  {
    if elements == [] then w else NodeWalk(nodes, NodeStep(nodes, w, elements[0]), elements[1..])
  }

  /** Walking `elements[..i + 1]` is walking `elements[..i]` and then one step on `elements[i]`. */
  lemma NodeWalkSnoc(nodes: map<string, NodeItem>, w: Walk, elements: seq<string>, i: nat)
    requires i < |elements|
    ensures NodeWalk(nodes, w, elements[..i + 1]) == NodeStep(nodes, NodeWalk(nodes, w, elements[..i]), elements[i])
  {
    assert elements[..i + 1] == elements[..i] + [elements[i]];
    NodeWalkConcat(nodes, w, elements[..i], [elements[i]]);
  }

  /** In a closed outline, the children of a node are nodes. */
  lemma ChildrenListed(nodes: map<string, NodeItem>, id: string)
    requires Closed(nodes) && id in nodes
    ensures Listed(nodes, ChildrenOf(nodes[id]))
  {
  }

  /** The target `get_node` ends with. */
  function ResolveNode(nodes: map<string, NodeItem>, elements: seq<string>): Option<NodeItem>
    requires HasRoot(nodes)
  {
    NodeWalk(nodes, Walk(nodes[RootNodeId].children.value, None), elements).target
  }

  /** Walking two runs of segments is walking the second from where the first ended. */
  lemma {:induction false} NodeWalkConcat(nodes: map<string, NodeItem>, w: Walk, a: seq<string>, b: seq<string>)
    ensures NodeWalk(nodes, w, a + b) == NodeWalk(nodes, NodeWalk(nodes, w, a), b)
    decreases |a|
  {
    if a != [] {
      assert (a + b)[0] == a[0] && (a + b)[1..] == a[1..] + b;
      NodeWalkConcat(nodes, NodeStep(nodes, w, a[0]), a[1..], b);
    } else {
      assert a + b == b;
    }
  }

  /** The target either stays as it was or becomes a node of the outline whose
      content is one of the segments. */
  lemma {:induction false} NodeWalkTarget(nodes: map<string, NodeItem>, w: Walk, elements: seq<string>)
    ensures var t := NodeWalk(nodes, w, elements).target;
      t == w.target || (t.Some? && t.value in nodes.Values && t.value.content in elements)
    decreases |elements|
  {
    if elements != [] {
      var next := NodeStep(nodes, w, elements[0]);
      NodeWalkTarget(nodes, next, elements[1..]);
      if next.target != w.target {
        var j := FirstWhere(w.candidates, (id: string) => id in nodes && nodes[id].content == elements[0]).value;
        assert nodes[w.candidates[j]] in nodes.Values;
      }
    }
  }

  /** From a walk without a target, the walk ends without one exactly when no
      segment is the content of one of its candidates; it then has not moved. */
  lemma {:induction false} NodeWalkUnmatched(nodes: map<string, NodeItem>, w: Walk, elements: seq<string>)
    requires w.target.None?
    ensures NodeWalk(nodes, w, elements).target.None? <==>
      forall k, c :: 0 <= k < |elements| && c in w.candidates && c in nodes ==> nodes[c].content != elements[k]
    ensures NodeWalk(nodes, w, elements).target.None? ==> NodeWalk(nodes, w, elements) == w
    decreases |elements|
  {
    if elements != [] {
      var p := (id: string) => id in nodes && nodes[id].content == elements[0];
      var next := NodeStep(nodes, w, elements[0]);
      var r := FirstWhere(w.candidates, p);
      if r.Some? {
        assert w.candidates[r.value] in w.candidates;
        NodeWalkTarget(nodes, next, elements[1..]);
      } else {
        NodeWalkUnmatched(nodes, w, elements[1..]);
        if exists k, c :: 0 <= k < |elements| && c in w.candidates && c in nodes && nodes[c].content == elements[k] {
          var k, c :| 0 <= k < |elements| && c in w.candidates && c in nodes && nodes[c].content == elements[k];
          if k != 0 {
            assert elements[1..][k - 1] == elements[k];
          }
        } else {
          forall k, c | 0 <= k < |elements| - 1 && c in w.candidates && c in nodes
            ensures nodes[c].content != elements[1..][k]
          {
            assert elements[1..][k] == elements[k + 1];
          }
        }
      }
    }
  }

  /** What `get_node` ends with: nothing for an empty path; otherwise nothing
      exactly when no segment names a child of the root, and else a node of the
      outline whose content is one of the segments. */
  lemma ResolvedNode(nodes: map<string, NodeItem>, elements: seq<string>)
    requires HasRoot(nodes)
    ensures elements == [] ==> ResolveNode(nodes, elements) == None
    ensures ResolveNode(nodes, elements).None? <==>
      forall k, c :: 0 <= k < |elements| && c in nodes[RootNodeId].children.value && c in nodes ==>
        nodes[c].content != elements[k]
    ensures ResolveNode(nodes, elements).Some? ==>
      ResolveNode(nodes, elements).value in nodes.Values && ResolveNode(nodes, elements).value.content in elements
  {
    var start := Walk(nodes[RootNodeId].children.value, None);
    NodeWalkTarget(nodes, start, elements);
    NodeWalkUnmatched(nodes, start, elements);
  }

  /** The loops of `get_node` after the outline has been fetched and indexed.
      `path` is what iterating the `DynaPath` yields: its node path (`DynaPath.Iter`). */
  method GetNode(nodes: map<string, NodeItem>, path: seq<string>) returns (target: Option<NodeItem>)
    requires HasRoot(nodes) && Closed(nodes)
    ensures target == ResolveNode(nodes, path)
  {
    ChildrenListed(nodes, RootNodeId);
    var childrenIds := nodes[RootNodeId].children.value;
    target := None;
    ghost var start := Walk(childrenIds, target);
    var i := 0;
    while i < |path|
      invariant 0 <= i <= |path|
      invariant Listed(nodes, childrenIds)
      invariant Walk(childrenIds, target) == NodeWalk(nodes, start, path[..i])
    {
      var element := path[i];
      ghost var before := Walk(childrenIds, target);
      var j := 0;
      while j < |childrenIds|
        invariant 0 <= j <= |childrenIds|
        invariant Walk(childrenIds, target) == before
        invariant forall k :: 0 <= k < j ==> nodes[childrenIds[k]].content != element
      {
        var node := nodes[childrenIds[j]];
        if node.content == element {
          NodeStepAt(nodes, before, element, j);
          ChildrenListed(nodes, childrenIds[j]);
          childrenIds := ChildrenOf(node);
          target := Some(node);
          break;
        }
        j := j + 1;
      }
      if j == |before.candidates| {
        NodeStepNone(nodes, before, element);
      }
      assert Walk(childrenIds, target) == NodeStep(nodes, before, element);
      NodeWalkSnoc(nodes, start, path, i);
      i := i + 1;
    }
    assert path[..|path|] == path;
  }

  /** The outline root, "Today", and under it "Test": the path "Today/Test" ends at "Test". */
  lemma NodePathExample()
    ensures var nodes := map[
        "root" := NodeItem("root", "", Some(["n1"])),
        "n1" := NodeItem("n1", "Today", Some(["n2"])),
        "n2" := NodeItem("n2", "Test", None)];
      ResolveNode(nodes, ["Today", "Test"]) == Some(NodeItem("n2", "Test", None))
  {
    var nodes := map[
        "root" := NodeItem("root", "", Some(["n1"])),
        "n1" := NodeItem("n1", "Today", Some(["n2"])),
        "n2" := NodeItem("n2", "Test", None)];
    var path := ["Today", "Test"];
    FirstWhereAt(["n1"], (id: string) => id in nodes && nodes[id].content == "Today", 0);
    FirstWhereAt(["n2"], (id: string) => id in nodes && nodes[id].content == "Test", 0);
    assert path[1..][1..] == [];
  }
}
