/**
 * The earlier version of the editor (index.js at the top of the repository).
 * Keys are always `namespace + "." + name`, a create never checks for an
 * existing key, deleting a script removes nothing, the unsaved-changes flag
 * is only ever raised once, and a project is saved as it is held in memory.
 */
module LegacyStore {
  import opened OrderedMap
  import opened Project
  import Store

  /** `arg.namespace + "." + arg.name`, also when the namespace is empty. */
  function LegacyKey(namespace: string, name: string): (key: string)
    ensures '.' in key
  {
    namespace + "." + name
  }

  /** The key agrees with the later `itemFullName` exactly when the namespace is not empty. */
  lemma LegacyKeyAgrees(namespace: string, name: string)
    ensures LegacyKey(namespace, name) == FullName(namespace, name) <==> namespace != ""
    ensures LegacyKey("", name) == "." + name
  {
    if namespace == "" {
      assert |LegacyKey(namespace, name)| != |name|;
    }
  }

  /** `sync-new-scene` and `sync-new-defgroup`: assign the key, whether or not it is taken. */
  function LegacyNewItem(p: Project, c: Container, name: string, namespace: string): (r: Project)
    requires WellFormed(p)
    ensures WellFormed(r)
  {
    WithItems(p, c, Put(Items(p, c), LegacyKey(namespace, name), Item(name, namespace, Template(c))))
  }

  /**
   * A taken key keeps its position and gets a fresh entry, text included; a
   * free key is appended. The other collection and the scripts stay.
   */
  lemma LegacyCreateReplaces(p: Project, c: Container, name: string, namespace: string)
    requires WellFormed(p)
    ensures var key := LegacyKey(namespace, name);
      var r := LegacyNewItem(p, c, name, namespace);
      && Items(r, c).entries == Items(p, c).entries[key := Item(name, namespace, Template(c))]
      && Items(r, c).keys == (if key in Items(p, c).entries then Items(p, c).keys else Items(p, c).keys + [key])
      && r == WithItems(p, c, Items(r, c))
  {
  }

  /** Deleting a scene or group just created gives back the project, when its key was free. */
  lemma LegacyCreateThenDelete(p: Project, c: Container, name: string, namespace: string)
    requires WellFormed(p) && LegacyKey(namespace, name) !in Items(p, c).entries
    ensures LegacyDeleted(LegacyNewItem(p, c, name, namespace), ConvertKind(c), name, namespace) == p
  {
    PutThenRemove(Items(p, c), LegacyKey(namespace, name), Item(name, namespace, Template(c)));
  }

  function ConvertKind(c: Container): NodeType {
    match c
    case SceneMap => Scenes
    case GroupMap => DefinitionGroups
  }

  /** A canonical array index: decimal digits without a leading zero. */
  predicate IsArrayIndex(s: string) {
    |s| >= 1 && (forall i :: 0 <= i < |s| ==> '0' <= s[i] <= '9') && (s[0] == '0' ==> |s| == 1)
  }

  /**
   * The Delete branch. On scripts it runs `delete scripts[namespace + "." + name]`:
   * that key contains a dot, so it is never an index and no script goes.
   */
  function LegacyDeleted(p: Project, kind: NodeType, name: string, namespace: string): (r: Project)
    requires WellFormed(p)
    ensures WellFormed(r)
  {
    var key := LegacyKey(namespace, name);
    match kind
    case Scenes => DeleteItem(p, SceneMap, key)
    case DefinitionGroups => DeleteItem(p, GroupMap, key)
    case _ => p
  }

  lemma ScriptDeleteRemovesNothing(p: Project, name: string, namespace: string)
    requires WellFormed(p)
    ensures !IsArrayIndex(LegacyKey(namespace, name))
    ensures LegacyDeleted(p, Scripts, name, namespace).scripts == p.scripts
  {
    var key := LegacyKey(namespace, name);
    var i :| 0 <= i < |key| && key[i] == '.';
  }

  /** A scene or group addressed by a text request exists under its key. */
  predicate LegacyHasText(p: Project, kind: NodeType, name: string, namespace: string) {
    match kind
    case Scenes => LegacyKey(namespace, name) in p.scenes.entries
    case DefinitionGroups => LegacyKey(namespace, name) in p.definitionGroups.entries
    case _ => true
  }

  /** `sync-get-item-text` */
  function LegacyTextOf(p: Project, kind: NodeType, name: string, namespace: string): string
    requires LegacyHasText(p, kind, name, namespace)
  {
    match kind
    case Scenes => ItemText(p.scenes, LegacyKey(namespace, name))
    case DefinitionGroups => ItemText(p.definitionGroups, LegacyKey(namespace, name))
    case Scripts => ScriptText(p.scripts, name)
    case Other => ErrorText
  }

  /** `sync-update-item-text` */
  function LegacyWithText(p: Project, kind: NodeType, name: string, namespace: string, text: string): (r: Project)
    requires WellFormed(p) && LegacyHasText(p, kind, name, namespace)
    ensures WellFormed(r)
  {
    match kind
    case Scenes => p.(scenes := SetItemText(p.scenes, LegacyKey(namespace, name), text))
    case DefinitionGroups => p.(definitionGroups := SetItemText(p.definitionGroups, LegacyKey(namespace, name), text))
    case Scripts => p.(scripts := SetScriptText(p.scripts, name, text))
    case Other => p
  }

  /** Reading back written text gives that text, for an existing scene or group and a unique, present script name. */
  lemma LegacyTextRoundTrip(p: Project, kind: NodeType, name: string, namespace: string, text: string)
    requires WellFormed(p) && LegacyHasText(p, kind, name, namespace) && kind != Other
    requires kind == Scripts ==> NamesDistinct(p.scripts) && exists j :: 0 <= j < |p.scripts| && p.scripts[j].name == name
    ensures LegacyTextOf(LegacyWithText(p, kind, name, namespace, text), kind, name, namespace) == text
  {
    var key := LegacyKey(namespace, name);
    match kind
    case Scenes => ItemTextRoundTrip(p.scenes, key, text);
    case DefinitionGroups => ItemTextRoundTrip(p.definitionGroups, key, text);
    case Scripts => ScriptTextRoundTrip(p.scripts, name, text);
  }

  /**
   * `changesMade`: the result is the new flag and whether the title was
   * marked; only the first call after a save does anything.
   */
  function MarkChanged(madeAnyChanges: bool): (r: (bool, bool))
    ensures r.0
    ensures r.1 <==> !madeAnyChanges
  {
    if madeAnyChanges then (true, false) else (true, true)
  }

  /** A second call in a row changes nothing. */
  lemma MarkChangedIdempotent(madeAnyChanges: bool)
    ensures MarkChanged(MarkChanged(madeAnyChanges).0) == (true, false)
    ensures MarkChanged(MarkChanged(madeAnyChanges).0).0 == MarkChanged(madeAnyChanges).0
  {
  }

  /** `currentProject` and `madeAnyChanges` of index.js, once a project exists. */
  class LegacyProjectStore {
    var name: string
    var author: string
    var info: string
    var scenes: Table<Item>
    var definitionGroups: Table<Item>
    var scripts: seq<Script>
    var madeAnyChanges: bool

    function Value(): Project
      reads this
    {
      Project(name, author, info, scenes, definitionGroups, scripts)
    }

    predicate Valid()
      reads this
    {
      WellFormed(Value())
    }

    /** The first `sync-new-project`: a blank project, marked as changed. */
    constructor (name: string, author: string, info: string)
      ensures Valid()
      ensures Value() == NewProject(name, author, info) && madeAnyChanges
    {
      this.name := name;
      this.author := author;
      this.info := info;
      scenes := Empty();
      definitionGroups := Empty();
      scripts := [];
      madeAnyChanges := true;
    }

    /** `changesMade`; `retitled` tells whether the window title was marked. */
    method ChangesMade() returns (retitled: bool)
      modifies this
      ensures (madeAnyChanges, retitled) == MarkChanged(old(madeAnyChanges))
      ensures Value() == old(Value())
    {
      if madeAnyChanges {
        return false;
      }
      madeAnyChanges := true;
      retitled := true;
    }

    /** `sync-new-project` while a project is open. */
    method StartNew(name: string, author: string, info: string)
      modifies this
      ensures Valid()
      ensures Value() == NewProject(name, author, info) && madeAnyChanges
    {
      this.name, this.author, this.info := name, author, info;
      scenes, definitionGroups, scripts := Empty(), Empty(), [];
      var _ := ChangesMade();
    }

    /** `sync-new-scene` and `sync-new-defgroup`: no check and no change recorded. */
    method AddItem(c: Container, name: string, namespace: string)
      requires Valid()
      modifies this
      ensures Valid()
      ensures Value() == LegacyNewItem(old(Value()), c, name, namespace) && madeAnyChanges == old(madeAnyChanges)
    {
      var entry := Item(name, namespace, Template(c));
      if c == SceneMap {
        scenes := Put(scenes, LegacyKey(namespace, name), entry);
      } else {
        definitionGroups := Put(definitionGroups, LegacyKey(namespace, name), entry);
      }
    }

    /** `sync-new-script`: no change recorded. */
    method AddScript(name: string)
      requires Valid()
      modifies this
      ensures Valid()
      ensures Value() == NewScript(old(Value()), name) && madeAnyChanges == old(madeAnyChanges)
    {
      scripts := scripts + [Script(name, ScriptTemplate)];
    }

    /** `sync-update-project-info` */
    method SetProjectInfo(name: string, author: string, info: string)
      requires Valid()
      modifies this
      ensures Valid()
      ensures Value() == UpdateInfo(old(Value()), name, author, info) && madeAnyChanges
    {
      this.name, this.author, this.info := name, author, info;
      var _ := ChangesMade();
    }

    /** The Delete branch: there is no confirmation dialog, and a change is always recorded. */
    method Delete(kind: NodeType, name: string, namespace: string)
      requires Valid()
      modifies this
      ensures Valid()
      ensures Value() == LegacyDeleted(old(Value()), kind, name, namespace) && madeAnyChanges
    {
      var key := LegacyKey(namespace, name);
      if kind == Scenes {
        scenes := Remove(scenes, key);
      } else if kind == DefinitionGroups {
        definitionGroups := Remove(definitionGroups, key);
      }
      var _ := ChangesMade();
    }

    /** `sync-get-item-text` */
    method GetItemText(kind: NodeType, name: string, namespace: string) returns (txt: string)
      requires LegacyHasText(Value(), kind, name, namespace)
      ensures txt == LegacyTextOf(Value(), kind, name, namespace)
    {
      txt := ErrorText;
      var key := LegacyKey(namespace, name);
      if kind == Scenes {
        txt := scenes.entries[key].text;
      } else if kind == DefinitionGroups {
        txt := definitionGroups.entries[key].text;
      } else if kind == Scripts {
        txt := Store.LastScriptText(scripts, name);
      }
    }

    /** `sync-update-item-text`: no change recorded. */
    method SetItemText(kind: NodeType, name: string, namespace: string, text: string)
      requires Valid() && LegacyHasText(Value(), kind, name, namespace)
      modifies this
      ensures Valid()
      ensures Value() == LegacyWithText(old(Value()), kind, name, namespace, text) && madeAnyChanges == old(madeAnyChanges)
    {
      var key := LegacyKey(namespace, name);
      if kind == Scenes {
        scenes := Table(scenes.keys, scenes.entries[key := scenes.entries[key].(text := text)]);
      } else if kind == DefinitionGroups {
        definitionGroups := Table(definitionGroups.keys, definitionGroups.entries[key := definitionGroups.entries[key].(text := text)]);
      } else if kind == Scripts {
        scripts := Store.WriteFirstScript(scripts, name, text);
      }
    }

    /** Save Project and Save Project As: the project is written as it is held, and the flag is lowered. */
    method Save() returns (saved: Project)
      modifies this
      ensures saved == Value() && Value() == old(Value()) && !madeAnyChanges
    {
      saved := Value();
      madeAnyChanges := false;
    }

    /** Open Project: whatever the file parses to becomes the project; the flag is left as it was. */
    method Open(parsed: Project)
      requires WellFormed(parsed)
      modifies this
      ensures Valid()
      ensures Value() == parsed && madeAnyChanges == old(madeAnyChanges)
    {
      name, author, info := parsed.name, parsed.author, parsed.info;
      scenes, definitionGroups, scripts := parsed.scenes, parsed.definitionGroups, parsed.scripts;
    }
  }
}
