/** The `DynaPath` path value: a document path (folder and document titles)
    followed by a node path (outline-node contents), built by appending. */
module DynaPaths {
  import opened Wrappers
  import opened Segments

  /** The two lists a `DynaPath` holds, as values. */
  datatype PathValue = PathValue(documentPath: seq<string>, nodePath: seq<string>)

  /** What a caller may pass where the source accepts `Union[str, list, DynaPath]`.
      A `DynaPath` argument is passed as the value of its two lists; `Other` is any
      other Python object, with its truthiness (`None` is `Other(false)`). */
  datatype Arg =
    | Str(s: string)
    | List(items: seq<string>)
    | Path(path: PathValue)
    | Other(truthy: bool)

  const DocumentPathTypeMessage: string := "`document_path` must be of type str, list or DynaPath"
  const NodePathTypeMessage: string := "`node_path` must be of type str or list"
  const TailTypeMessage: string := "`tail` must be of type str, list or DynaPath"
  const ExtendTailTypeMessage: string := "`tail` must be of type str or list"

  /** Python truthiness of an argument: empty strings and lists are false, a
      `DynaPath` (which defines neither `__bool__` nor `__len__`) is true. */
  predicate Truthy(a: Arg) {
    match a
    case Str(s) => s != ""
    case List(items) => items != []
    case Path(_) => true
    case Other(truthy) => truthy
  }

  /** `append_or_extend(head, tail)`: the list `head` becomes after `head.extend(...)`. */
  function Extended(head: seq<string>, tail: Arg): (r: Result<seq<string>>)
    ensures r.Ok? <==> tail.Str? || tail.List?
    ensures r.Err? ==> r.error == TypeError(ExtendTailTypeMessage)
    ensures r.Ok? ==> head <= r.value
    ensures r.Ok? ==> r.value[|head|..] == if tail.Str? then SegmentsOf(tail.s) else tail.items
  {
    match tail
    case Str(s) => Ok(head + SegmentsOf(s))
    case List(items) => Ok(head + items)
    case _ => Err(TypeError(ExtendTailTypeMessage))
  }

  /** `append_node_path(tail)`: the node path extended, the document path kept. */
  function AppendedNode(v: PathValue, tail: Arg): (r: Result<PathValue>)
    ensures r.Ok? <==> tail.Str? || tail.List?
    ensures r.Ok? ==> r.value.documentPath == v.documentPath
    ensures r.Ok? ==> v.nodePath <= r.value.nodePath
  {
    var extended := Extended(v.nodePath, tail);
    if extended.Ok? then Ok(v.(nodePath := extended.value)) else Err(extended.error)
  }

  /** `append_document_path(tail)`: the document path extended, the node path kept. */
  function AppendedDocument(v: PathValue, tail: Arg): (r: Result<PathValue>)
    ensures r.Ok? <==> tail.Str? || tail.List?
    ensures r.Ok? ==> r.value.nodePath == v.nodePath
    ensures r.Ok? ==> v.documentPath <= r.value.documentPath
  {
    var extended := Extended(v.documentPath, tail);
    if extended.Ok? then Ok(v.(documentPath := extended.value)) else Err(extended.error)
  }

  /** `append(tail)`: a path tail extends both lists, a string or list only the node path. */
  function Appended(v: PathValue, tail: Arg): (r: Result<PathValue>)
    ensures r.Ok? <==> !tail.Other?
    ensures r.Ok? ==> v.documentPath <= r.value.documentPath && v.nodePath <= r.value.nodePath
  {
    match tail
    case Path(t) =>
      var withDocument := AppendedDocument(v, List(t.documentPath)).value;
      AppendedNode(withDocument, List(t.nodePath))
    case Str(_) => AppendedNode(v, tail)
    case List(_) => AppendedNode(v, tail)
    case Other(_) => Err(TypeError(TailTypeMessage))
  }

  /** `DynaPath(document_path, node_path)`: the value built, or the `TypeError` raised. */
  function Created(documentSource: Arg, nodeSource: Arg): (r: Result<PathValue>)
    ensures r.Ok? <==> !documentSource.Other? && (!Truthy(nodeSource) || nodeSource.Str? || nodeSource.List?)
  {
    var empty := PathValue([], []);
    var withDocument :=
      if documentSource.Path? then Appended(empty, documentSource)
      else if documentSource.Str? || documentSource.List? then AppendedDocument(empty, documentSource)
      else Err(TypeError(DocumentPathTypeMessage));
    if withDocument.Err? || !Truthy(nodeSource) then withDocument
    else if nodeSource.Str? || nodeSource.List? then AppendedNode(withDocument.value, nodeSource)
    else Err(TypeError(NodePathTypeMessage))
  }

  /** `__str__`: the document path joined by `/`, a colon, the node path joined by `/`. */
  function Render(v: PathValue): string {
    Join(v.documentPath) + ":" + Join(v.nodePath)
  }

  /** Keeps the old value when the operation raised. */
  function After(v: PathValue, x: Result<PathValue>): PathValue {
    if x.Ok? then x.value else v
  }

  /** What `append_or_extend` adds to the list it extends. */
  lemma ExtendedCases(head: seq<string>, tail: Arg)
    ensures tail.Str? ==> Extended(head, tail) == Ok(head + SegmentsOf(tail.s))
    ensures tail.List? ==> Extended(head, tail) == Ok(head + tail.items)
    ensures !tail.Str? && !tail.List? ==> Extended(head, tail) == Err(TypeError(ExtendTailTypeMessage))
  {
  }

  /** What `append_node_path` does with each kind of tail, on any path. */
  lemma AppendedNodeCases(v: PathValue, tail: Arg)
    ensures tail.Str? ==> AppendedNode(v, tail) == Ok(PathValue(v.documentPath, v.nodePath + SegmentsOf(tail.s)))
    ensures tail.List? ==> AppendedNode(v, tail) == Ok(PathValue(v.documentPath, v.nodePath + tail.items))
    ensures !tail.Str? && !tail.List? ==> AppendedNode(v, tail) == Err(TypeError(ExtendTailTypeMessage))
  {
  }

  /** What `append_document_path` does with each kind of tail, on any path. */
  lemma AppendedDocumentCases(v: PathValue, tail: Arg)
    ensures tail.Str? ==> AppendedDocument(v, tail) == Ok(PathValue(v.documentPath + SegmentsOf(tail.s), v.nodePath))
    ensures tail.List? ==> AppendedDocument(v, tail) == Ok(PathValue(v.documentPath + tail.items, v.nodePath))
    ensures !tail.Str? && !tail.List? ==> AppendedDocument(v, tail) == Err(TypeError(ExtendTailTypeMessage))
  {
  }

  /** What `append` does with each kind of tail. */
  lemma AppendedCases(v: PathValue, tail: Arg)
    ensures tail.Path? ==>
      Appended(v, tail) == Ok(PathValue(v.documentPath + tail.path.documentPath, v.nodePath + tail.path.nodePath))
    ensures tail.Str? ==> Appended(v, tail) == Ok(PathValue(v.documentPath, v.nodePath + SegmentsOf(tail.s)))
    ensures tail.List? ==> Appended(v, tail) == Ok(PathValue(v.documentPath, v.nodePath + tail.items))
    ensures tail.Other? ==> Appended(v, tail) == Err(TypeError(TailTypeMessage))
  {
  }

  /** Appending two lists one after the other is appending their concatenation. */
  lemma AppendedListsCompose(v: PathValue, x: seq<string>, y: seq<string>)
    ensures Appended(Appended(v, List(x)).value, List(y)) == Appended(v, List(x + y))
  {
    assert v.nodePath + x + y == v.nodePath + (x + y);
  }

  /** Appending a string adds its segments to the node path. */
  lemma AppendedStr(v: PathValue, s: string)
    ensures Appended(v, Str(s)) == Ok(PathValue(v.documentPath, v.nodePath + SegmentsOf(s)))
  {
  }

  /** Concatenation regrouped, with the inner part named. It models nothing in the
      source: `AppendedStringsCompose` calls it so that its proof stays small and
      reliable on every solver seed. */
  lemma ConcatAssoc(x: seq<string>, y: seq<string>, z: seq<string>, yz: seq<string>)
    requires yz == y + z
    ensures x + y + z == x + yz
  {
  }

  /** `p / a / b` builds the same path as `p / (a + "/" + b)` for non-empty `a` and `b`
      with no separator at either end. */
  lemma AppendedStringsCompose(v: PathValue, a: string, b: string)
    requires Bare(a) && Bare(b)
    ensures Appended(Appended(v, Str(a)).value, Str(b)) == Appended(v, Str(a + [Separator] + b))
  {
    var c := a + [Separator] + b;
    var sa, sb, sc := SegmentsOf(a), SegmentsOf(b), SegmentsOf(c);
    var w := PathValue(v.documentPath, v.nodePath + sa);
    SegmentsOfConcat(a, b);
    ConcatAssoc(v.nodePath, sa, sb, sc);
    AppendedStr(v, a);
    assert Appended(v, Str(a)).value == w;
    AppendedStr(w, b);
    AppendedStr(v, c);
  }

  /** The constructor's cases. */
  lemma CreatedCases(documentSource: Arg, nodeSource: Arg)
    ensures documentSource.Other? ==> Created(documentSource, nodeSource) == Err(TypeError(DocumentPathTypeMessage))
    ensures !Truthy(nodeSource) ==>
      (documentSource.Path? ==> Created(documentSource, nodeSource) == Ok(documentSource.path)) &&
      (documentSource.Str? ==> Created(documentSource, nodeSource) == Ok(PathValue(SegmentsOf(documentSource.s), []))) &&
      (documentSource.List? ==> Created(documentSource, nodeSource) == Ok(PathValue(documentSource.items, [])))
    ensures !documentSource.Other? && Truthy(nodeSource) && !nodeSource.Str? && !nodeSource.List? ==>
      Created(documentSource, nodeSource) == Err(TypeError(NodePathTypeMessage))
    ensures !documentSource.Other? && Truthy(nodeSource) && (nodeSource.Str? || nodeSource.List?) ==>
      Created(documentSource, nodeSource) ==
        AppendedNode(Created(documentSource, Other(false)).value, nodeSource)
  {
    match documentSource
    case Path(t) =>
      assert [] + t.documentPath == t.documentPath && [] + t.nodePath == t.nodePath;
    case Str(s) =>
      assert [] + SegmentsOf(s) == SegmentsOf(s);
    case List(items) =>
      assert [] + items == items;
    case Other(_) =>
  }

  /** The document part of `str(DynaPath(s))` is `s` stripped of leading and trailing separators. */
  lemma RenderCreatedFromString(s: string)
    ensures Created(Str(s), Other(false)).Ok?
    ensures Render(Created(Str(s), Other(false)).value) == Strip(s) + ":"
  {
    CreatedCases(Str(s), Other(false));
    assert Render(PathValue(SegmentsOf(s), [])) == Join(SegmentsOf(s)) + ":";
    JoinSegmentsOf(s);
  }

  /** `str(p)` keeps both paths recoverable: left of the colon after the joined
      document path and right of it, splitting on `/` gives back the segments. */
  lemma RenderRecoversSegments(v: PathValue)
    requires |v.documentPath| >= 1 && forall k :: 0 <= k < |v.documentPath| ==> Separator !in v.documentPath[k]
    requires |v.nodePath| >= 1 && forall k :: 0 <= k < |v.nodePath| ==> Separator !in v.nodePath[k]
    ensures var n := |Join(v.documentPath)|;
      n < |Render(v)| && Render(v)[n] == ':' &&
      Split(Render(v)[..n]) == v.documentPath && Split(Render(v)[n + 1..]) == v.nodePath
  {
    var d, r := Join(v.documentPath), Render(v);
    assert r[..|d|] == d && r[|d| + 1..] == Join(v.nodePath);
    SplitJoin(v.documentPath);
    SplitJoin(v.nodePath);
  }

  class DynaPath {
    var documentPath: seq<string>
    var nodePath: seq<string>

    function Value(): PathValue
      reads this
    {
      PathValue(documentPath, nodePath)
    }

    /** Both lists start empty. */
    constructor Empty()
      ensures Value() == PathValue([], [])
    {
      documentPath := [];
      nodePath := [];
    }

    /** `DynaPath(document_path, node_path)`: a fresh path, or the `TypeError` raised. */
    static method Create(documentSource: Arg, nodeSource: Arg) returns (r: Result<DynaPath>)
      ensures StatusOf(r) == StatusOf(Created(documentSource, nodeSource))
      ensures r.Ok? ==> fresh(r.value) && r.value.Value() == Created(documentSource, nodeSource).value
    {
      var p := new DynaPath.Empty();
      var status;
      if documentSource.Path? {
        status := p.Append(documentSource);
      } else if documentSource.Str? || documentSource.List? {
        status := p.AppendDocumentPath(documentSource);
      } else {
        return Err(TypeError(DocumentPathTypeMessage));
      }
      if Truthy(nodeSource) {
        if nodeSource.Str? || nodeSource.List? {
          status := p.AppendNodePath(nodeSource);
        } else {
          return Err(TypeError(NodePathTypeMessage));
        }
      }
      return Ok(p);
    }

    /** `append(tail)`. */
    method Append(tail: Arg) returns (r: Result<()>)
      modifies this
      ensures r == StatusOf(Appended(old(Value()), tail))
      ensures Value() == After(old(Value()), Appended(old(Value()), tail))
    {
      match tail
      case Path(t) =>
        r := AppendDocumentPath(List(t.documentPath));
        r := AppendNodePath(List(t.nodePath));
      case Str(_) =>
        r := AppendNodePath(tail);
      case List(_) =>
        r := AppendNodePath(tail);
      case Other(_) =>
        r := Err(TypeError(TailTypeMessage));
    }

    /** `append_node_path(tail)`. */
    method AppendNodePath(tail: Arg) returns (r: Result<()>)
      modifies this
      ensures r == StatusOf(AppendedNode(old(Value()), tail))
      ensures Value() == After(old(Value()), AppendedNode(old(Value()), tail))
    {
      var extended := Extended(nodePath, tail);
      if extended.Err? {
        return Err(extended.error);
      }
      nodePath := extended.value;
      r := Ok(());
    }

    /** `append_document_path(tail)`. */
    method AppendDocumentPath(tail: Arg) returns (r: Result<()>)
      modifies this
      ensures r == StatusOf(AppendedDocument(old(Value()), tail))
      ensures Value() == After(old(Value()), AppendedDocument(old(Value()), tail))
    {
      var extended := Extended(documentPath, tail);
      if extended.Err? {
        return Err(extended.error);
      }
      documentPath := extended.value;
      r := Ok(());
    }

    /** `self / tail`: appends in place and returns this same object. */
    method Div(tail: Arg) returns (r: Result<DynaPath>)
      modifies this
      ensures r.Ok? ==> r.value == this
      ensures StatusOf(r) == StatusOf(Appended(old(Value()), tail))
      ensures Value() == After(old(Value()), Appended(old(Value()), tail))
    {
      var status := Append(tail);
      if status.Err? {
        return Err(status.error);
      }
      r := Ok(this);
    }

    /** `__str__`. */
    function ToString(): string
      reads this
    {
      Render(Value())
    }

    /** `__iter__`: the node path, in order. */
    method Iter() returns (elements: seq<string>)
      ensures elements == nodePath
    {
      elements := NodePathElements();
    }

    /** `node_path_elements()`: yields the node path, in order. */
    method NodePathElements() returns (elements: seq<string>)
      ensures elements == nodePath
    {
      elements := [];
      for i := 0 to |nodePath|
        invariant elements == nodePath[..i]
      {
        elements := elements + [nodePath[i]];
      }
    }

    /** `document_path_elements()`: yields the document path, in order. */
    method DocumentPathElements() returns (elements: seq<string>)
      ensures elements == documentPath
    {
      elements := [];
      for i := 0 to |documentPath|
        invariant elements == documentPath[..i]
      {
        elements := elements + [documentPath[i]];
      }
    }
  }
}
