/** The `folderToId` dictionary as src/App.tsx actually builds it: a plain
    object literal `{}`, whose reads fall through to the properties of
    Object.prototype and whose `__proto__` key is the prototype accessor. */
module JsObject {
  import opened Model
  import opened Paths
  import Normalizer

  /** The properties every object literal inherits from Object.prototype. */
  const InheritedNames: set<string> := {
    "__proto__", "constructor", "hasOwnProperty", "isPrototypeOf",
    "propertyIsEnumerable", "toLocaleString", "toString", "valueOf",
    "__defineGetter__", "__defineSetter__", "__lookupGetter__", "__lookupSetter__"
  }

  /** What reading `obj[key]` yields: an own string, an inherited member
      (a function or Object.prototype itself), or `undefined`. */
  datatype Value = Own(s: string) | Inherited(name: string) | Undefined

  /** `obj[key] = v` with a string `v`: assigning to `__proto__` invokes the
      prototype setter, which ignores a value that is not an object. */
  function Assign(m: map<string, string>, key: string, v: string): (r: map<string, string>)
    ensures key == "__proto__" ==> r == m
    ensures key != "__proto__" ==> r.Keys == m.Keys + {key} && r[key] == v
    ensures key != "__proto__" ==> forall k :: k in m && k != key ==> r[k] == m[k]
  {
    if key == "__proto__" then m else m[key := v]
  }

  /** `obj[key]` on an object literal whose own properties are `m`. */
  function Read(m: map<string, string>, key: string): (r: Value)
    ensures r.Own? <==> key in m
    ensures r.Own? ==> r.s == m[key]
    ensures r.Inherited? <==> key !in m && key in InheritedNames
    ensures r.Inherited? ==> r.name == key
  {
    if key in m then Own(m[key])
    else if key in InheritedNames then Inherited(key)
    else Undefined
  }

  /** The dictionary after the loop has processed `s`, as written. */
  function FolderIndexAsWritten(s: seq<Entry>): (m: map<string, string>)
    ensures m == Normalizer.FolderIndex(s) - {"__proto__"}
    decreases |s|
  {
    if s == [] then map[]
    else
      var e := s[|s| - 1];
      var m := FolderIndexAsWritten(s[..|s| - 1]);
      if e.path != "" && IsTree(e) then
        UpdateThenDrop(Normalizer.FolderIndex(s[..|s| - 1]), e.path, e.sha);
        Assign(m, e.path, e.sha)
      else m
  }

  /** Setting a key and then dropping `__proto__` is dropping it first and
      then assigning. */
  lemma UpdateThenDrop(m: map<string, string>, key: string, v: string)
    ensures m[key := v] - {"__proto__"} == Assign(m - {"__proto__"}, key, v)
  {
    var lhs, rhs := m[key := v] - {"__proto__"}, Assign(m - {"__proto__"}, key, v);
    assert lhs.Keys == rhs.Keys;
    forall k | k in lhs
      ensures lhs[k] == rhs[k]
    {
    }
  }

  /** The `parent` the loop computes for the last entry of `s`, as written. */
  function ParentAsWritten(root: string, s: seq<Entry>): (r: Value)
    requires s != []
    ensures '/' !in s[|s| - 1].path ==> r == Own(root)
    ensures r.Inherited? ==> '/' in s[|s| - 1].path && DirName(s[|s| - 1].path) in InheritedNames
  {
    var e := s[|s| - 1];
    if '/' in e.path then Read(FolderIndexAsWritten(s), DirName(e.path)) else Own(root)
  }

  /** Away from the inherited names the object behaves as the dictionary
      the rest of the model uses. */
  lemma {:induction false} AsWrittenAgreesElsewhere(s: seq<Entry>, key: string)
    requires key !in InheritedNames
    ensures Read(FolderIndexAsWritten(s), key) ==
      match Normalizer.Lookup(Normalizer.FolderIndex(s), key)
      case Some(x) => Own(x)
      case None => Undefined
    decreases |s|
  {
    if s != [] {
      AsWrittenAgreesElsewhere(s[..|s| - 1], key);
    }
  }

  /** Assigning a string to `__proto__` never creates an own property, so
      reading it always yields the inherited Object.prototype. */
  lemma {:induction false} ProtoNeverRecorded(s: seq<Entry>)
    ensures Read(FolderIndexAsWritten(s), "__proto__") == Inherited("__proto__")
    decreases |s|
  {
    if s != [] {
      ProtoNeverRecorded(s[..|s| - 1]);
    }
  }

  /** A directory named `__proto__` is never recorded, so the parent of its
      child `__proto__/<name>` is Object.prototype instead of the
      directory's sha, which the corrected dictionary yields. */
  lemma ProtoFolderLosesChildren(root: string, dir: Entry, name: string, childSha: string)
    requires dir == Entry("__proto__", "tree", dir.sha) && '/' !in name
    ensures var s := [dir, Entry(dir.path + "/" + name, "blob", childSha)];
      ParentAsWritten(root, s) == Inherited("__proto__") &&
      Normalizer.Emit(root, s)[1].parent == Some(dir.sha)
  {
    var child := Entry(dir.path + "/" + name, "blob", childSha);
    var s := [dir, child];
    LastSlashUnique(child.path, dir.path, name);
    assert s[..1] == [dir];
    assert [dir][..0] == [];
    assert ParentAsWritten(root, s) == Inherited("__proto__") by {
      ProtoNeverRecorded(s);
    }
    assert Normalizer.Emit(root, s)[1].parent == Some(dir.sha) by {
      assert Normalizer.FolderIndex(s) == Normalizer.FolderIndex([dir]) == map[dir.path := dir.sha];
      assert Normalizer.Emit(root, s) ==
        Normalizer.Emit(root, [dir]) + [Normalizer.NodeOf(child, Some(dir.sha))];
    }
  }

  /** A read of an Object.prototype name that no directory entry recorded
      yields the inherited member, where the dictionary yields `undefined`. */
  lemma {:induction false} UnrecordedInheritedName(s: seq<Entry>, key: string)
    requires key in InheritedNames
    requires forall i :: 0 <= i < |s| ==> !Normalizer.RecordsFolder(s[i], key)
    ensures Read(FolderIndexAsWritten(s), key) == Inherited(key)
    ensures Normalizer.Lookup(Normalizer.FolderIndex(s), key) == None
    decreases |s|
  {
    if s != [] {
      var init := s[..|s| - 1];
      assert forall i :: 0 <= i < |init| ==> init[i] == s[i];
      UnrecordedInheritedName(init, key);
    }
  }

  /** An item `constructor/<name>` with no `constructor` directory gets the
      `Object` function as its parent, where the dictionary leaves it
      `undefined`. */
  lemma MissingFolderReadsInherited(root: string, child: Entry, name: string)
    requires child.path == "constructor" + "/" + name && '/' !in name
    ensures ParentAsWritten(root, [child]) == Inherited("constructor")
    ensures Normalizer.Emit(root, [child])[0].parent == None
  {
    LastSlashUnique(child.path, "constructor", name);
    assert [child][..0] == [];
    UnrecordedInheritedName([child], "constructor");
  }
}
