/**
 * A model of the tree-linking test helpers of griffe: `vtree` chains objects
 * parent to child, `htree` hangs objects under the first one, and
 * `module_vtree` builds the chain of modules of a dotted path.
 */
module GriffeTests {
  import opened Wrappers
  import opened PyStrings

  /** The exception `vtree` and `htree` raise. */
  datatype Error = ValueError(message: string)

  const NoObjectsMessage := "At least one object must be provided"

  /**
   * A griffe object: a name, an optional file path (the segments given to
   * `Path`), and its members keyed by name.
   */
  class Node {
    const name: string
    var filepath: Option<seq<string>>
    var members: map<string, Node>

    constructor (name: string, filepath: Option<seq<string>>)
      ensures this.name == name && this.filepath == filepath && members == map[]
    {
      this.name := name;
      this.filepath := filepath;
      members := map[];
    }

    /** Item assignment on an object: `value` becomes its member under `key`. */
    method SetMember(key: string, value: Node)
      modifies this
      ensures members == old(members)[key := value]
      ensures filepath == old(filepath)
    {
      members := members[key := value];
    }
  }

  /**
   * The members of `o` after linking each object of `objects` into the one
   * before it, starting from `m`.
   */
  ghost function VLinked(objects: seq<Node>, o: Node, m: map<string, Node>): map<string, Node> {
    if |objects| < 2 then m
    else
      var before := VLinked(objects[..|objects| - 1], o, m);
      var parent, child := objects[|objects| - 2], objects[|objects| - 1];
      if parent == o then before[child.name := child] else before
  }

  /** `m` after inserting each of `children` under its own name, in order. */
  ghost function Inserted(m: map<string, Node>, children: seq<Node>): map<string, Node> {
    if children == [] then m
    else
      var last := children[|children| - 1];
      Inserted(m, children[..|children| - 1])[last.name := last]
  }

  /** No object occurs twice. */
  ghost predicate Distinct(objects: seq<Node>) {
    forall i, j :: 0 <= i < j < |objects| ==> objects[i] != objects[j]
  }

  /** Distinct children have distinct names. */
  ghost predicate DistinctNames(children: seq<Node>) {
    forall i, j :: 0 <= i < j < |children| ==> children[i].name != children[j].name
  }

  /**
   * `vtree`: each object becomes a member of the one before it, under its own
   * name; the result is the last object when `returnLeaf`, else the first.
   */
  method Vtree(objects: seq<Node>, returnLeaf: bool := false) returns (r: Result<Node, Error>)
    modifies set o | o in objects
    ensures objects == [] ==> r == Err(ValueError(NoObjectsMessage))
    ensures objects != [] ==> r == Ok(if returnLeaf then objects[|objects| - 1] else objects[0])
    ensures forall o :: o in objects ==> o.members == VLinked(objects, o, old(o.members))
    ensures forall o :: o in objects ==> o.filepath == old(o.filepath)
  {
    if |objects| == 0 {
      return Err(ValueError(NoObjectsMessage));
    }
    var top := objects[0];
    var leaf := top;
    var i := 1;
    while i < |objects|
      invariant 1 <= i <= |objects|
      invariant leaf == objects[i - 1]
      invariant forall o :: o in objects ==> o.members == VLinked(objects[..i], o, old(o.members))
      invariant forall o :: o in objects ==> o.filepath == old(o.filepath)
    {
      var obj := objects[i];
      assert objects[..i + 1][..i] == objects[..i];
      leaf.SetMember(obj.name, obj);
      leaf := obj;
      i := i + 1;
    }
    assert objects[..i] == objects;
    return Ok(if returnLeaf then leaf else top);
  }

  /**
   * `htree`: every object from the second on becomes a member of the first,
   * under its own name; the first object is returned.
   */
  method Htree(objects: seq<Node>) returns (r: Result<Node, Error>)
    modifies if objects == [] then {} else {objects[0]}
    ensures objects == [] ==> r == Err(ValueError(NoObjectsMessage))
    ensures objects != [] ==> r == Ok(objects[0])
    ensures objects != [] ==> objects[0].members == Inserted(old(objects[0].members), objects[1..])
    ensures objects != [] ==> objects[0].filepath == old(objects[0].filepath)
  {
    if |objects| == 0 {
      return Err(ValueError(NoObjectsMessage));
    }
    var top := objects[0];
    var i := 1;
    while i < |objects|
      invariant 1 <= i <= |objects|
      invariant top.members == Inserted(old(top.members), objects[1..i])
      invariant top.filepath == old(top.filepath)
    {
      var obj := objects[i];
      assert objects[1..i + 1][..i - 1] == objects[1..i];
      top.SetMember(obj.name, obj);
      i := i + 1;
    }
    assert objects[1..i] == objects[1..];
    return Ok(top);
  }

  /** The last link of a chain always holds, whatever repeats the chain contains. */
  lemma LastLinkHolds(objects: seq<Node>, m: map<string, Node>)
    requires |objects| >= 2
    ensures var child := objects[|objects| - 1];
      VLinked(objects, objects[|objects| - 2], m) == VLinked(objects[..|objects| - 1], objects[|objects| - 2], m)[child.name := child]
      && child.name in VLinked(objects, objects[|objects| - 2], m)
      && VLinked(objects, objects[|objects| - 2], m)[child.name] == child
  {
  }

  /** Linking never touches an object outside the chain. */
  lemma {:induction false} VLinkedOutside(objects: seq<Node>, o: Node, m: map<string, Node>)
    requires o !in objects
    ensures VLinked(objects, o, m) == m
  {
    if |objects| >= 2 {
      VLinkedOutside(objects[..|objects| - 1], o, m);
    }
  }

  /**
   * In a chain of distinct objects, each object but the last gains exactly its
   * successor, under the successor's name, and the last gains nothing.
   */
  lemma {:induction false} VLinkedDistinct(objects: seq<Node>, i: nat, m: map<string, Node>)
    requires Distinct(objects) && i < |objects|
    ensures VLinked(objects, objects[i], m)
      == if i + 1 < |objects| then m[objects[i + 1].name := objects[i + 1]] else m
  {
    if |objects| >= 2 {
      var init := objects[..|objects| - 1];
      assert Distinct(init);
      if i + 1 < |objects| {
        assert init[i] == objects[i];
        VLinkedDistinct(init, i, m);
        if i + 2 < |objects| {
          assert init[i + 1] == objects[i + 1];
        }
      } else {
        VLinkedOutside(init, objects[i], m);
      }
    }
  }

  /** Linking a chain of distinct memberless objects leaves each holding exactly its successor. */
  lemma ChainLinks(objects: seq<Node>)
    requires Distinct(objects) && |objects| > 0
    ensures forall i :: 0 <= i < |objects| - 1 ==>
      VLinked(objects, objects[i], map[]) == map[objects[i + 1].name := objects[i + 1]]
    ensures VLinked(objects, objects[|objects| - 1], map[]) == map[]
  {
    forall i | 0 <= i < |objects| ensures VLinked(objects, objects[i], map[])
      == if i + 1 < |objects| then map[objects[i + 1].name := objects[i + 1]] else map[]
    {
      VLinkedDistinct(objects, i, map[]);
    }
    VLinkedDistinct(objects, |objects| - 1, map[]);
  }

  /** Every child is a member of the result under its own name when names are distinct. */
  lemma {:induction false} InsertedDistinct(m: map<string, Node>, children: seq<Node>)
    requires DistinctNames(children)
    ensures forall k :: 0 <= k < |children| ==>
      children[k].name in Inserted(m, children) && Inserted(m, children)[children[k].name] == children[k]
    ensures forall n :: n in Inserted(m, children) <==>
      n in m || exists k :: 0 <= k < |children| && children[k].name == n
  {
    if children != [] {
      var init := children[..|children| - 1];
      InsertedDistinct(m, init);
      assert forall k :: 0 <= k < |init| ==> init[k] == children[k];
    }
  }

  /** The file path of package `i` of the chain: the parts before it, then `__init__.py`. */
  function PackagePath(parts: seq<string>, i: nat): seq<string>
    requires i <= |parts|
  {
    parts[..i] + ["__init__.py"]
  }

  /** `Path.with_name(name)`: the last segment replaced. */
  function WithName(path: seq<string>, name: string): seq<string>
    requires |path| > 0
  {
    path[..|path| - 1] + [name]
  }

  /** `PurePath.suffix` of one segment: from its last dot, unless that dot starts or ends it. */
  function Suffix(segment: string): string {
    var k := LastDot(segment);
    if 0 < k < |segment| - 1 then segment[k..] else ""
  }

  /** The index of the last `.` in `s`, or -1 (`str.rfind`). */
  function LastDot(s: string): (k: int)
    ensures -1 <= k < |s|
    ensures k >= 0 ==> s[k] == '.' && forall j :: k < j < |s| ==> s[j] != '.'
    ensures k == -1 ==> '.' !in s
  {
    if s == [] then -1
    else if s[|s| - 1] == '.' then |s| - 1
    else LastDot(s[..|s| - 1])
  }

  /** `Path.with_stem(stem)`: the last segment replaced by `stem` plus its suffix. */
  function WithStem(path: seq<string>, stem: string): seq<string>
    requires |path| > 0
  {
    path[..|path| - 1] + [stem + Suffix(path[|path| - 1])]
  }

  /** The file path of the last module when it is not a package. */
  function ModulePath(parts: seq<string>): seq<string>
    requires |parts| > 0
  {
    parts[..|parts| - 1] + [parts[|parts| - 1] + ".py"]
  }

  /** On an `__init__.py` path, `with_stem(stem)` and `with_name(stem + ".py")` agree. */
  lemma WithStemAgreesWithName(parts: seq<string>)
    requires |parts| > 0
    ensures var last := |parts| - 1;
      WithStem(PackagePath(parts, last), parts[last]) == WithName(PackagePath(parts, last), parts[last] + ".py")
      && WithName(PackagePath(parts, last), parts[last] + ".py") == ModulePath(parts)
  {
    var init := "__init__.py";
    assert init[..|init| - 1] == "__init__.p";
    assert init[..|init| - 1][..|init| - 2] == "__init__.";
    assert LastDot("__init__.") == 8;
    assert LastDot("__init__.p") == 8;
    assert LastDot(init) == 8;
    assert Suffix(init) == ".py";
    var last := |parts| - 1;
    assert PackagePath(parts, last)[..|PackagePath(parts, last)| - 1] == parts[..last];
  }

  /** The file path `module_vtree` gives module `i` of the chain. */
  function ModuleFilepath(parts: seq<string>, i: nat, leafPackage: bool): seq<string>
    requires i < |parts|
  {
    if !leafPackage && i == |parts| - 1 then ModulePath(parts) else PackagePath(parts, i)
  }

  /** One fresh, memberless package module per part, each with its package path. */
  method NewModules(parts: seq<string>) returns (built: seq<Node>)
    ensures |built| == |parts|
    ensures forall i :: 0 <= i < |built| ==> fresh(built[i])
    ensures Distinct(built)
    ensures forall i :: 0 <= i < |built| ==> built[i].name == parts[i]
    ensures forall i :: 0 <= i < |built| ==> built[i].filepath == Some(PackagePath(parts, i))
    ensures forall i :: 0 <= i < |built| ==> built[i].members == map[]
  {
    built := [];
    var index := 0;
    while index < |parts|
      invariant 0 <= index <= |parts| && |built| == index
      invariant forall i :: 0 <= i < index ==> fresh(built[i])
      invariant Distinct(built)
      invariant forall i :: 0 <= i < index ==> built[i].name == parts[i]
      invariant forall i :: 0 <= i < index ==> built[i].filepath == Some(PackagePath(parts, i))
      invariant forall i :: 0 <= i < index ==> built[i].members == map[]
    {
      var m := new Node(parts[index], Some(PackagePath(parts, index)));
      built := built + [m];
      index := index + 1;
    }
  }

  /**
   * The modules of `module_vtree` before they are linked: module `i` named
   * `parts[i]` with file `parts[:i] + ["__init__.py"]`, the last one's file
   * renamed to `<name>.py` when `leafPackage` is false.
   */
  method BuildModules(parts: seq<string>, leafPackage: bool) returns (built: seq<Node>)
    requires |parts| > 0
    ensures |built| == |parts|
    ensures forall i :: 0 <= i < |built| ==> fresh(built[i])
    ensures Distinct(built)
    ensures forall i :: 0 <= i < |built| ==> built[i].name == parts[i]
    ensures forall i :: 0 <= i < |built| ==> built[i].filepath == Some(ModuleFilepath(parts, i, leafPackage))
    ensures forall i :: 0 <= i < |built| ==> built[i].members == map[]
  {
    built := NewModules(parts);
    if !leafPackage {
      var last := built[|built| - 1];
      WithStemAgreesWithName(parts);
      var filepath := WithName(last.filepath.value, parts[|parts| - 1] + ".py");
      last.filepath := Some(filepath);
    }
  }

  /**
   * `module_vtree`: one module per dot-separated part of `path`, module `i`
   * named `parts[i]` with file `parts[:i] + ["__init__.py"]` (the last one's
   * file is `<name>.py` when `leafPackage` is false), each a member of the one
   * before it; the result is the top or, when `returnLeaf`, the leaf.
   */
  method ModuleVtree(path: string, leafPackage: bool := true, returnLeaf: bool := false) returns (r: Node, ghost modules: seq<Node>)
    ensures |modules| == |Split(path, '.')|
    ensures r == if returnLeaf then modules[|modules| - 1] else modules[0]
    ensures forall i :: 0 <= i < |modules| ==> fresh(modules[i])
    ensures Distinct(modules)
    ensures forall i :: 0 <= i < |modules| ==> modules[i].name == Split(path, '.')[i]
    ensures forall i :: 0 <= i < |modules| ==>
      modules[i].filepath == Some(ModuleFilepath(Split(path, '.'), i, leafPackage))
    ensures forall i :: 0 <= i < |modules| - 1 ==> modules[i].members == map[modules[i + 1].name := modules[i + 1]]
    ensures modules[|modules| - 1].members == map[]
  {
    var parts := Split(path, '.');
    var built := BuildModules(parts, leafPackage);
    var res := Vtree(built, returnLeaf);
    r := res.value;
    modules := built;
    ChainLinks(modules);
  }
}
