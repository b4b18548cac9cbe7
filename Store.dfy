/**
 * The request handlers of app/index.js as methods on the editor's current
 * project and its unsaved-changes flag. Each handler's effect on the project
 * is one of the functions below, which dispatch on the tree-node type the
 * request carries to the operations of module Project.
 */
module Store {
  import opened OrderedMap
  import opened Project
  import opened Persistence

  // ---------------------------------------------------------------- dispatch on the node type

  /** `sync-item-edit` for the node `kind`/`oldName`/`oldNamespace` and the new `name`/`namespace`. */
  function Edited(p: Project, kind: NodeType, oldName: string, oldNamespace: string, name: string, namespace: string): (r: Project)
    requires WellFormed(p)
    ensures WellFormed(r)
  {
    var oldKey := FullName(oldNamespace, oldName);
    var newKey := FullName(namespace, name);
    match kind
    case Scenes => p.(scenes := RenameItems(p.scenes, oldKey, newKey, name, namespace))
    case DefinitionGroups => p.(definitionGroups := RenameItems(p.definitionGroups, oldKey, newKey, name, namespace))
    case Scripts => p.(scripts := RenameScripts(p.scripts, oldName, name))
    case Other => p
  }

  /** The Delete branch of `async-list-node-context`, once the dialog has been answered with Yes. */
  function Deleted(p: Project, kind: NodeType, name: string, namespace: string): (r: Project)
    requires WellFormed(p)
    ensures WellFormed(r)
  {
    var key := FullName(namespace, name);
    match kind
    case Scenes => DeleteItem(p, SceneMap, key)
    case DefinitionGroups => DeleteItem(p, GroupMap, key)
    case Scripts => p.(scripts := DeleteScript(p.scripts, name))
    case Other => p
  }

  /** Every name in the requested order is present, so no position receives `undefined`. */
  predicate CanReorder(p: Project, kind: NodeType, order: seq<string>) {
    match kind
    case Scenes => forall i :: 0 <= i < |order| ==> order[i] in p.scenes.entries
    case DefinitionGroups => forall i :: 0 <= i < |order| ==> order[i] in p.definitionGroups.entries
    case Scripts => forall i :: 0 <= i < |order| ==> order[i] in ScriptsByName(p.scripts)
    case Other => true
  }

  /** `sync-tree-reorder` */
  function Reordered(p: Project, kind: NodeType, order: seq<string>): (r: Project)
    requires WellFormed(p) && CanReorder(p, kind, order)
    ensures WellFormed(r)
  {
    match kind
    case Scenes => p.(scenes := ReorderItems(p.scenes, order))
    case DefinitionGroups => p.(definitionGroups := ReorderItems(p.definitionGroups, order))
    case Scripts => p.(scripts := ReorderScripts(p.scripts, order))
    case Other => p
  }

  /** A scene or group addressed by a text request exists. */
  predicate HasText(p: Project, kind: NodeType, name: string, namespace: string) {
    match kind
    case Scenes => FullName(namespace, name) in p.scenes.entries
    case DefinitionGroups => FullName(namespace, name) in p.definitionGroups.entries
    case _ => true
  }

  /** `sync-get-item-text` */
  function TextOf(p: Project, kind: NodeType, name: string, namespace: string): string
    requires HasText(p, kind, name, namespace)
  {
    match kind
    case Scenes => ItemText(p.scenes, FullName(namespace, name))
    case DefinitionGroups => ItemText(p.definitionGroups, FullName(namespace, name))
    case Scripts => ScriptText(p.scripts, name)
    case Other => ErrorText
  }

  /** `sync-update-item-text` */
  function WithText(p: Project, kind: NodeType, name: string, namespace: string, text: string): (r: Project)
    requires WellFormed(p) && HasText(p, kind, name, namespace)
    ensures WellFormed(r)
  {
    match kind
    case Scenes => p.(scenes := SetItemText(p.scenes, FullName(namespace, name), text))
    case DefinitionGroups => p.(definitionGroups := SetItemText(p.definitionGroups, FullName(namespace, name), text))
    case Scripts => p.(scripts := SetScriptText(p.scripts, name, text))
    case Other => p
  }

  // ---------------------------------------------------------------- properties of the handlers

  /**
   * Reading back written text gives that text, for a scene or group that
   * exists and for a script whose name is unique and present; an unknown node
   * type reads as the placeholder and writes nothing.
   */
  lemma TextRoundTrip(p: Project, kind: NodeType, name: string, namespace: string, text: string)
    requires WellFormed(p) && HasText(p, kind, name, namespace)
    requires kind == Scripts ==> NamesDistinct(p.scripts) && exists j :: 0 <= j < |p.scripts| && p.scripts[j].name == name
    ensures kind != Other ==> TextOf(WithText(p, kind, name, namespace, text), kind, name, namespace) == text
    ensures kind == Other ==> WithText(p, kind, name, namespace, text) == p && TextOf(p, kind, name, namespace) == ErrorText
  {
    var key := FullName(namespace, name);
    match kind
    case Scenes => ItemTextRoundTrip(p.scenes, key, text);
    case DefinitionGroups => ItemTextRoundTrip(p.definitionGroups, key, text);
    case Scripts => ScriptTextRoundTrip(p.scripts, name, text);
    case Other =>
  }

  /** Writing text changes neither the information, nor the keys and their order, nor the other collections. */
  lemma WithTextFrame(p: Project, kind: NodeType, name: string, namespace: string, text: string)
    requires WellFormed(p) && HasText(p, kind, name, namespace)
    ensures var r := WithText(p, kind, name, namespace, text);
      && r.name == p.name && r.author == p.author && r.info == p.info
      && r.scenes.keys == p.scenes.keys && r.definitionGroups.keys == p.definitionGroups.keys
      && |r.scripts| == |p.scripts|
      && (kind != Scenes ==> r.scenes == p.scenes)
      && (kind != DefinitionGroups ==> r.definitionGroups == p.definitionGroups)
      && (kind != Scripts ==> r.scripts == p.scripts)
  {
  }

  /** The entry under the old key holds the old name and namespace, and the new key is free or the same. */
  predicate FreeRename(t: Table<Item>, oldName: string, oldNamespace: string, name: string, namespace: string) {
    var oldKey := FullName(oldNamespace, oldName);
    var newKey := FullName(namespace, name);
    && oldKey in t.entries
    && t.entries[oldKey].name == oldName && t.entries[oldKey].namespace == oldNamespace
    && (newKey == oldKey || newKey !in t.entries)
  }

  /** Editing a node back to its old name and namespace undoes an edit that took a free key or a fresh script name. */
  lemma EditUndo(p: Project, kind: NodeType, oldName: string, oldNamespace: string, name: string, namespace: string)
    requires WellFormed(p)
    requires kind == Scenes ==> FreeRename(p.scenes, oldName, oldNamespace, name, namespace)
    requires kind == DefinitionGroups ==> FreeRename(p.definitionGroups, oldName, oldNamespace, name, namespace)
    requires kind == Scripts ==> forall i :: 0 <= i < |p.scripts| ==> p.scripts[i].name != name
    ensures Edited(Edited(p, kind, oldName, oldNamespace, name, namespace), kind, name, namespace, oldName, oldNamespace) == p
  {
    var oldKey := FullName(oldNamespace, oldName);
    var newKey := FullName(namespace, name);
    match kind
    case Scenes => RenameUndo(p.scenes, oldKey, newKey, name, namespace);
    case DefinitionGroups => RenameUndo(p.definitionGroups, oldKey, newKey, name, namespace);
    case Scripts => RenameScriptsUndo(p.scripts, oldName, name);
    case Other =>
  }

  /** Deleting an item right after creating it gives back the project. */
  lemma CreateThenDelete(p: Project, kind: NodeType, name: string, namespace: string)
    requires WellFormed(p) && (kind == Scenes || kind == DefinitionGroups)
    requires NewItemCode(p, name, namespace) == 0
    ensures Deleted(NewItem(p, ContainerOf(kind), name, namespace), kind, name, namespace) == p
  {
    NewItemThenDelete(p, ContainerOf(kind), name, namespace);
  }

  // ---------------------------------------------------------------- loops of the handlers

  /** `doesItemExist`: the two for-in scans over the keys. */
  method FindKey(p: Project, key: string) returns (found: bool)
    requires WellFormed(p)
    ensures found <==> key in p.scenes.entries || key in p.definitionGroups.entries
  {
    found := ScanFor(p.scenes.keys, key);
    if !found {
      found := ScanFor(p.definitionGroups.keys, key);
    }
  }

  /** One `for (var s in obj) if (s == fullName) return true;` loop. */
  method ScanFor(ks: seq<string>, key: string) returns (found: bool)
    ensures found <==> key in ks
  {
    var i := 0;
    while i < |ks|
      invariant i <= |ks|
      invariant key !in ks[..i]
    {
      if ks[i] == key {
        return true;
      }
      assert ks[..i + 1] == ks[..i] + [ks[i]];
      i := i + 1;
    }
    assert ks[..i] == ks;
    found := false;
  }

  /**
   * The two loops of `sync-item-edit` on a scene or group: the first records
   * the position of the old key, the second rebuilds the object into `{}`,
   * putting the renamed entry under the new key at that position.
   */
  method RebuildRenamed(t: Table<Item>, oldKey: string, newKey: string, name: string, namespace: string) returns (r: Table<Item>)
    requires Valid(t)
    ensures r == RenameItems(t, oldKey, newKey, name, namespace)
  {
    var insertIndex := LastIndex(t.keys, oldKey);
    ghost var ps := RenamePairs(t, oldKey, newKey, name, namespace);
    r := Empty();
    var i := 0;
    while i < |t.keys|
      invariant i <= |t.keys|
      invariant r == FromPairs(ps[..i])
    {
      var s := t.keys[i];
      if i == insertIndex {
        r := Put(r, newKey, t.entries[oldKey].(name := name, namespace := namespace));
      } else {
        r := Put(r, s, t.entries[s]);
      }
      RenamePairAt(t, oldKey, newKey, name, namespace, insertIndex, i);
      FromPairsPrefix(ps, i);
      i := i + 1;
    }
    assert ps[..i] == ps;
  }

  /** The pair the loop of RebuildRenamed writes at position i. */
  lemma RenamePairAt(t: Table<Item>, oldKey: string, newKey: string, name: string, namespace: string, insertIndex: int, i: nat)
    requires Valid(t) && i < |t.keys|
    requires -1 <= insertIndex < |t.keys|
    requires insertIndex == -1 <==> oldKey !in t.keys
    requires insertIndex >= 0 ==> t.keys[insertIndex] == oldKey
    ensures RenamePairs(t, oldKey, newKey, name, namespace)[i] ==
      if i == insertIndex then (newKey, Renamed(t, oldKey, name, namespace)) else (t.keys[i], t.entries[t.keys[i]])
  {
    if insertIndex == -1 {
      assert t.keys[i] in t.keys;
    } else {
      IndexOfDistinct(t.keys, insertIndex);
      if i != insertIndex {
        assert t.keys[i] != t.keys[insertIndex];
      }
    }
  }

  /** The assignments the rebuild of `sync-item-edit` makes, in order. */
  ghost function RenamePairs(t: Table<Item>, oldKey: string, newKey: string, name: string, namespace: string): (ps: seq<(string, Item)>)
    requires Valid(t)
    ensures RenameItems(t, oldKey, newKey, name, namespace) == FromPairs(ps)
    ensures |ps| == |t.keys|
  {
    if oldKey in t.entries then
      PairsOf(t)[IndexOf(t.keys, oldKey) := (newKey, Renamed(t, oldKey, name, namespace))]
    else PairsOf(t)
  }

  /** `for (var s in obj) { if (s == key) insert_index = i; i++; }`: the last position of the key, or -1. */
  method LastIndex(ks: seq<string>, key: string) returns (insertIndex: int)
    ensures -1 <= insertIndex < |ks|
    ensures insertIndex == -1 <==> key !in ks
    ensures insertIndex >= 0 ==> ks[insertIndex] == key && forall j :: insertIndex < j < |ks| ==> ks[j] != key
  {
    insertIndex := -1;
    var i := 0;
    while i < |ks|
      invariant i <= |ks|
      invariant -1 <= insertIndex < i
      invariant insertIndex == -1 <==> key !in ks[..i]
      invariant insertIndex >= 0 ==> ks[insertIndex] == key && forall j :: insertIndex < j < i ==> ks[j] != key
    {
      if ks[i] == key {
        insertIndex := i;
      }
      assert ks[..i + 1] == ks[..i] + [ks[i]];
      i := i + 1;
    }
    assert ks[..i] == ks;
  }

  /** `newItems[order[i]] = oldItems[order[i]]` for each position of the order. */
  method RebuildOrdered(t: Table<Item>, order: seq<string>) returns (r: Table<Item>)
    requires forall i :: 0 <= i < |order| ==> order[i] in t.entries
    ensures r == ReorderItems(t, order)
  {
    ghost var ps := seq(|order|, i requires 0 <= i < |order| => (order[i], t.entries[order[i]]));
    r := Empty();
    var i := 0;
    while i < |order|
      invariant i <= |order|
      invariant r == FromPairs(ps[..i])
    {
      r := Put(r, order[i], t.entries[order[i]]);
      FromPairsPrefix(ps, i);
      i := i + 1;
    }
    assert ps[..i] == ps;
  }

  /** `oldItems[script.name] = script` for each script, then `newItems[i] = oldItems[order[i]]`. */
  method RebuildScripts(ss: seq<Script>, order: seq<string>) returns (r: seq<Script>)
    requires forall i :: 0 <= i < |order| ==> order[i] in ScriptsByName(ss)
    ensures r == ReorderScripts(ss, order)
  {
    var oldItems := IndexByName(ss);
    ghost var target := ReorderScripts(ss, order);
    r := [];
    var i := 0;
    while i < |order|
      invariant i <= |order| && r == target[..i]
    {
      PrefixSnoc(target, i);
      r := r + [oldItems[order[i]]];
      i := i + 1;
    }
    assert target[..i] == target;
  }

  lemma PrefixSnoc<T>(s: seq<T>, i: nat)
    requires i < |s|
    ensures s[..i + 1] == s[..i] + [s[i]]
  {
  }

  /** The first loop of `sync-tree-reorder` on scripts: a later script overwrites an earlier one of the same name. */
  method IndexByName(ss: seq<Script>) returns (oldItems: map<string, Script>)
    ensures oldItems == ScriptsByName(ss)
  {
    oldItems := map[];
    var i := 0;
    while i < |ss|
      invariant i <= |ss|
      invariant oldItems == ScriptsByName(ss[..i])
    {
      assert ss[..i + 1][..i] == ss[..i];
      oldItems := oldItems[ss[i].name := ss[i]];
      i := i + 1;
    }
    assert ss[..i] == ss;
  }

  /** The `forEach` of `sync-get-item-text` on scripts: every match overwrites the text, so the last one wins. */
  method LastScriptText(ss: seq<Script>, name: string) returns (txt: string)
    ensures txt == ScriptText(ss, name)
  {
    txt := ErrorText;
    var i := 0;
    while i < |ss|
      invariant i <= |ss|
      invariant txt == ScriptText(ss[..i], name)
    {
      assert ss[..i + 1][..i] == ss[..i];
      if ss[i].name == name {
        txt := ss[i].text;
      }
      i := i + 1;
    }
    assert ss[..i] == ss;
  }

  /** The for-in of `sync-update-item-text` on scripts: the first match is written, then the loop stops. */
  method WriteFirstScript(ss: seq<Script>, name: string, text: string) returns (r: seq<Script>)
    ensures r == SetScriptText(ss, name, text)
  {
    r := ss;
    var i := 0;
    while i < |r|
      invariant i <= |r| && r == ss
      invariant forall j :: 0 <= j < i ==> r[j].name != name
    {
      if r[i].name == name {
        assert FirstNamed(ss, name) == i;
        r := r[i := r[i].(text := text)];
        return;
      }
      i := i + 1;
    }
  }

  // ---------------------------------------------------------------- the store

  /** `currentProject` and `madeAnyChanges` of app/index.js, once a project exists. */
  class ProjectStore {
    var name: string
    var author: string
    var info: string
    var scenes: Table<Item>
    var definitionGroups: Table<Item>
    var scripts: seq<Script>
    var madeAnyChanges: bool

    /** The project the fields hold. */
    function Value(): Project
      reads this
    {
      Project(name, author, info, scenes, definitionGroups, scripts)
    }

    /** Both keyed collections are well-formed ordered objects. */
    predicate Valid()
      reads this
    {
      WellFormed(Value())
    }

    /** `sync-new-project`: a blank project, marked as changed. */
    constructor (name: string, author: string, info: string)
      ensures Valid()
      ensures Value() == NewProject(name, author, info) && madeAnyChanges
    {
      this.name := name;
      this.author := author;
      this.info := info;
      scenes := Empty();
      definitionGroups := Empty();
      scripts := [];
      madeAnyChanges := true;
    }

    /** `sync-new-project` while a project is open: it is replaced by a blank one. */
    method StartNew(name: string, author: string, info: string)
      modifies this
      ensures Valid()
      ensures Value() == NewProject(name, author, info) && madeAnyChanges
    {
      this.name, this.author, this.info := name, author, info;
      scenes, definitionGroups, scripts := Empty(), Empty(), [];
      ChangesMade();
    }

    /** `changesMade`, and the `sync-changes-made` request that calls it. */
    method ChangesMade()
      modifies this
      ensures madeAnyChanges && Value() == old(Value())
    {
      madeAnyChanges := true;
    }

    /** `sync-new-scene` and `sync-new-defgroup`: refused with 1 when the key is taken in either collection. */
    method AddItem(c: Container, name: string, namespace: string) returns (code: int)
      requires Valid()
      modifies this
      ensures Valid()
      ensures code == NewItemCode(old(Value()), name, namespace)
      ensures Value() == NewItem(old(Value()), c, name, namespace)
      ensures madeAnyChanges == (old(madeAnyChanges) || code == 0)
    {
      var key := FullName(namespace, name);
      var taken := FindKey(Value(), key);
      if taken {
        return 1;
      }
      var entry := Item(name, namespace, Template(c));
      if c == SceneMap {
        scenes := Put(scenes, key, entry);
      } else {
        definitionGroups := Put(definitionGroups, key, entry);
      }
      ChangesMade();
      code := 0;
    }

    /** `sync-new-script`: a push, whatever the name. */
    method AddScript(name: string)
      requires Valid()
      modifies this
      ensures Valid()
      ensures Value() == NewScript(old(Value()), name) && madeAnyChanges
    {
      scripts := scripts + [Script(name, ScriptTemplate)];
      ChangesMade();
    }

    /** `sync-update-project-info` */
    method SetProjectInfo(name: string, author: string, info: string)
      requires Valid()
      modifies this
      ensures Valid()
      ensures Value() == UpdateInfo(old(Value()), name, author, info) && madeAnyChanges
    {
      this.name := name;
      this.author := author;
      this.info := info;
      ChangesMade();
    }

    /** `sync-item-edit`; the project is marked as changed whatever the node type. */
    method Edit(kind: NodeType, oldName: string, oldNamespace: string, name: string, namespace: string)
      requires Valid()
      modifies this
      ensures Valid()
      ensures Value() == Edited(old(Value()), kind, oldName, oldNamespace, name, namespace) && madeAnyChanges
    {
      var oldKey := FullName(oldNamespace, oldName);
      var newKey := FullName(namespace, name);
      if kind == Scenes {
        scenes := RebuildRenamed(scenes, oldKey, newKey, name, namespace);
      } else if kind == DefinitionGroups {
        definitionGroups := RebuildRenamed(definitionGroups, oldKey, newKey, name, namespace);
      } else if kind == Scripts {
        var ss := scripts;
        var i := 0;
        while i < |ss|
          invariant i <= |ss| && |ss| == |scripts|
          invariant forall j :: 0 <= j < i ==> ss[j] == RenameScripts(scripts, oldName, name)[j]
          invariant forall j :: i <= j < |ss| ==> ss[j] == scripts[j]
        {
          if ss[i].name == oldName {
            ss := ss[i := ss[i].(name := name)];
          }
          i := i + 1;
        }
        assert ss == RenameScripts(scripts, oldName, name);
        scripts := ss;
      }
      ChangesMade();
    }

    /** The Delete branch of `async-list-node-context`: nothing happens unless the dialog is answered with Yes. */
    method Delete(confirmed: bool, kind: NodeType, name: string, namespace: string)
      requires Valid()
      modifies this
      ensures Valid()
      ensures Value() == (if confirmed then Deleted(old(Value()), kind, name, namespace) else old(Value()))
      ensures madeAnyChanges == (old(madeAnyChanges) || confirmed)
    {
      if !confirmed {
        return;
      }
      var key := FullName(namespace, name);
      if kind == Scenes {
        scenes := Remove(scenes, key);
      } else if kind == DefinitionGroups {
        definitionGroups := Remove(definitionGroups, key);
      } else if kind == Scripts {
        var ss := scripts;
        var i := 0;
        while i < |ss|
          invariant i <= |ss|
          invariant forall j :: 0 <= j < i ==> ss[j].name != name
        {
          if ss[i].name == name {
            assert FirstNamed(ss, name) == i;
            ss := ss[..i] + ss[i + 1..];
            break;
          }
          i := i + 1;
        }
        scripts := ss;
      }
      ChangesMade();
    }

    /** `sync-tree-reorder`: no change is recorded. */
    method Reorder(kind: NodeType, order: seq<string>)
      requires Valid() && CanReorder(Value(), kind, order)
      modifies this
      ensures Valid()
      ensures Value() == Reordered(old(Value()), kind, order) && madeAnyChanges == old(madeAnyChanges)
    {
      if kind == Scenes {
        scenes := RebuildOrdered(scenes, order);
      } else if kind == DefinitionGroups {
        definitionGroups := RebuildOrdered(definitionGroups, order);
      } else if kind == Scripts {
        scripts := RebuildScripts(scripts, order);
      }
    }

    /** `sync-get-item-text` */
    method GetItemText(kind: NodeType, name: string, namespace: string) returns (txt: string)
      requires HasText(Value(), kind, name, namespace)
      ensures txt == TextOf(Value(), kind, name, namespace)
    {
      txt := ErrorText;
      var key := FullName(namespace, name);
      if kind == Scenes {
        txt := scenes.entries[key].text;
      } else if kind == DefinitionGroups {
        txt := definitionGroups.entries[key].text;
      } else if kind == Scripts {
        txt := LastScriptText(scripts, name);
      }
    }

    /** `sync-update-item-text`: no change is recorded. */
    method SetItemText(kind: NodeType, name: string, namespace: string, text: string)
      requires Valid() && HasText(Value(), kind, name, namespace)
      modifies this
      ensures Valid()
      ensures Value() == WithText(old(Value()), kind, name, namespace, text) && madeAnyChanges == old(madeAnyChanges)
    {
      var key := FullName(namespace, name);
      if kind == Scenes {
        scenes := Table(scenes.keys, scenes.entries[key := scenes.entries[key].(text := text)]);
      } else if kind == DefinitionGroups {
        definitionGroups := Table(definitionGroups.keys, definitionGroups.entries[key := definitionGroups.entries[key].(text := text)]);
      } else if kind == Scripts {
        scripts := WriteFirstScript(scripts, name, text);
      }
    }

    /** Save Project and Save Project As: the array form is written out and the project is no longer marked as changed. */
    method Save() returns (raw: RawProject)
      requires Valid()
      modifies this
      ensures Valid()
      ensures raw == ArrayForm(Value()) && Value() == old(Value()) && !madeAnyChanges
    {
      raw := Persistence.GetProjectJson(Value());
      madeAnyChanges := false;
    }

    /**
     * Open Project: the project is replaced only when loading and the strict
     * check both succeed; the unsaved-changes flag is left as it was.
     */
    method Open(input: Input) returns (success: bool)
      requires Valid()
      modifies this
      ensures Valid()
      ensures success <==> OpenProject(input).Some?
      ensures Value() == if success then OpenProject(input).value else old(Value())
      ensures madeAnyChanges == old(madeAnyChanges)
    {
      var proj := MakeProjectFromJson(input);
      if !StrictIntegrityAsWritten(proj) {
        return false;
      }
      var p := proj.project;
      name, author, info := p.name, p.author, p.info;
      scenes, definitionGroups, scripts := p.scenes, p.definitionGroups, p.scripts;
      success := true;
    }
  }
}
