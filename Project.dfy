/**
 * The editor's in-memory project and what each request handler of
 * app/index.js does to it, as functions from the old project to the new one.
 * Scenes and definition groups live in two insertion-ordered objects keyed by
 * full name; scripts live in an array.
 */
module Project {
  import opened OrderedMap

  /** A scene or a definition group: `{ name, namespace, text }`. */
  datatype Item = Item(name: string, namespace: string, text: string)

  /** An element of `scripts`: `{ name, text }`. */
  datatype Script = Script(name: string, text: string)

  datatype Project = Project(
    name: string, author: string, info: string,
    scenes: Table<Item>, definitionGroups: Table<Item>, scripts: seq<Script>)

  /** The tree-node type a request carries in `arg.type`; any other value is `Other`. */
  datatype NodeType = Scenes | DefinitionGroups | Scripts | Other

  /** The two keyed collections. */
  datatype Container = SceneMap | GroupMap

  const SceneTemplate: string := "// Enter your scene here"
  const DefinitionsTemplate: string := "// Enter your definitions here"
  const ScriptTemplate: string := "// Enter your script here"
  const ErrorText: string := "// An error occurred when getting the content of the item."

  /** Both keyed collections are well-formed ordered objects. */
  predicate WellFormed(p: Project) {
    Valid(p.scenes) && Valid(p.definitionGroups)
  }

  function Items(p: Project, c: Container): Table<Item> {
    match c
    case SceneMap => p.scenes
    case GroupMap => p.definitionGroups
  }

  function WithItems(p: Project, c: Container, t: Table<Item>): Project {
    match c
    case SceneMap => p.(scenes := t)
    case GroupMap => p.(definitionGroups := t)
  }

  function ContainerOf(kind: NodeType): Container
    requires kind == Scenes || kind == DefinitionGroups
  {
    if kind == Scenes then SceneMap else GroupMap
  }

  function Template(c: Container): string {
    match c
    case SceneMap => SceneTemplate
    case GroupMap => DefinitionsTemplate
  }

  // ---------------------------------------------------------------- names

  /** `itemFullName`: the namespace, a dot and the name, or the bare name when the namespace is empty. */
  function FullName(namespace: string, name: string): string {
    if namespace != "" then namespace + "." + name else name
  }

  /** The key ends with the name; it is longer than the name exactly when there is a namespace, which then comes first, followed by a dot. */
  lemma FullNameParts(namespace: string, name: string)
    ensures var key := FullName(namespace, name);
      && |name| <= |key| && key[|key| - |name|..] == name
      && (|key| == |name| <==> namespace == "")
      && (namespace != "" ==> key[..|namespace|] == namespace && key[|namespace|] == '.')
  {
    if namespace != "" {
      var key := namespace + "." + name;
      assert key[|key| - |name|..] == name;
    }
  }

  /** Without dots in namespaces and names, different items get different keys. */
  lemma FullNameInjective(ns1: string, n1: string, ns2: string, n2: string)
    requires '.' !in ns1 && '.' !in n1 && '.' !in ns2 && '.' !in n2
    requires FullName(ns1, n1) == FullName(ns2, n2)
    ensures ns1 == ns2 && n1 == n2
  {
    var key := FullName(ns1, n1);
    FullNameParts(ns1, n1);
    FullNameParts(ns2, n2);
    if ns1 != "" && ns2 != "" {
      assert n1 == key[|ns1| + 1..];
    }
  }

  /** A dot in a namespace or a name lets two different items share a key. */
  lemma FullNameAmbiguous()
    ensures FullName("a.b", "c") == FullName("a", "b.c") == "a.b.c"
  {
  }

  /** The full name each entry is stored under agrees with its own namespace and name. */
  predicate KeysConsistent(t: Table<Item>) {
    forall k :: k in t.entries ==> k == FullName(t.entries[k].namespace, t.entries[k].name)
  }

  // ---------------------------------------------------------------- doesItemExist

  /** One for-in scan of `doesItemExist`. */
  function ScanKeys(ks: seq<string>, key: string): (found: bool)
    ensures found <==> key in ks
  {
    if ks == [] then false else ks[0] == key || ScanKeys(ks[1..], key)
  }

  /** `doesItemExist`: the full name is a key of the scenes or of the definition groups. */
  function ItemExists(p: Project, key: string): (found: bool)
    requires WellFormed(p)
    ensures found <==> key in p.scenes.entries || key in p.definitionGroups.entries
  {
    ScanKeys(p.scenes.keys, key) || ScanKeys(p.definitionGroups.keys, key)
  }

  // ---------------------------------------------------------------- create

  /** `sync-new-project`: an empty project with the given information. */
  function NewProject(name: string, author: string, info: string): (p: Project)
    ensures WellFormed(p)
  {
    Project(name, author, info, Empty(), Empty(), [])
  }

  /** `sync-new-scene` / `sync-new-defgroup`: the reply is 1 when the key is taken in either collection. */
  function NewItemCode(p: Project, name: string, namespace: string): int
    requires WellFormed(p)
  {
    if ItemExists(p, FullName(namespace, name)) then 1 else 0
  }

  /** `sync-new-scene` / `sync-new-defgroup`: the project after the request. */
  function NewItem(p: Project, c: Container, name: string, namespace: string): (r: Project)
    requires WellFormed(p)
    ensures WellFormed(r)
  {
    var key := FullName(namespace, name);
    if ItemExists(p, key) then p
    else WithItems(p, c, Put(Items(p, c), key, Item(name, namespace, Template(c))))
  }

  /**
   * A refused create changes nothing; an accepted one appends exactly one
   * entry, with the default text, at the end of its own collection and leaves
   * everything else as it was.
   */
  lemma NewItemAppends(p: Project, c: Container, name: string, namespace: string)
    requires WellFormed(p)
    ensures var key := FullName(namespace, name);
      var r := NewItem(p, c, name, namespace);
      && (NewItemCode(p, name, namespace) == 1 <==> key in p.scenes.entries || key in p.definitionGroups.entries)
      && (NewItemCode(p, name, namespace) == 1 ==> r == p)
      && (NewItemCode(p, name, namespace) == 0 ==>
            && Items(r, c).keys == Items(p, c).keys + [key]
            && Items(r, c).entries == Items(p, c).entries[key := Item(name, namespace, Template(c))]
            && r == WithItems(p, c, Items(r, c)))
  {
  }

  /** Deleting the item just created gives back the project. */
  lemma NewItemThenDelete(p: Project, c: Container, name: string, namespace: string)
    requires WellFormed(p) && NewItemCode(p, name, namespace) == 0
    ensures DeleteItem(NewItem(p, c, name, namespace), c, FullName(namespace, name)) == p
  {
    var key := FullName(namespace, name);
    PutThenRemove(Items(p, c), key, Item(name, namespace, Template(c)));
  }

  /** No key is used by a scene and a definition group at once. */
  predicate Disjoint(p: Project) {
    forall k :: k in p.scenes.entries ==> k !in p.definitionGroups.entries
  }

  /** Create keeps the collections disjoint and each key equal to its entry's full name. */
  lemma NewItemPreserves(p: Project, c: Container, name: string, namespace: string)
    requires WellFormed(p)
    ensures Disjoint(p) ==> Disjoint(NewItem(p, c, name, namespace))
    ensures KeysConsistent(Items(p, c)) ==> KeysConsistent(Items(NewItem(p, c, name, namespace), c))
  {
  }

  /** `sync-new-script`: append, whatever the name. */
  function NewScript(p: Project, name: string): (r: Project)
    ensures r.scripts == p.scripts + [Script(name, ScriptTemplate)]
    ensures r.(scripts := p.scripts) == p
  {
    p.(scripts := p.scripts + [Script(name, ScriptTemplate)])
  }

  /** `sync-update-project-info`: only the three information fields change. */
  function UpdateInfo(p: Project, name: string, author: string, info: string): (r: Project)
    ensures r.name == name && r.author == author && r.info == info
    ensures r.scenes == p.scenes && r.definitionGroups == p.definitionGroups && r.scripts == p.scripts
  {
    p.(name := name, author := author, info := info)
  }

  // ---------------------------------------------------------------- rename

  /** The entry under `oldKey` with the new name and namespace and its text kept. */
  function Renamed(t: Table<Item>, oldKey: string, name: string, namespace: string): Item
    requires oldKey in t.entries
  {
    t.entries[oldKey].(name := name, namespace := namespace)
  }

  /**
   * `sync-item-edit` on a scene or definition group: the object is rebuilt
   * key by key into `{}`, assigning `newKey` the renamed entry at the old
   * key's position and copying every other key.
   */
  function RenameItems(t: Table<Item>, oldKey: string, newKey: string, name: string, namespace: string): (r: Table<Item>)
    requires Valid(t)
    ensures Valid(r)
  {
    var ps := PairsOf(t);
    if oldKey in t.entries then
      FromPairs(ps[IndexOf(t.keys, oldKey) := (newKey, Renamed(t, oldKey, name, namespace))])
    else FromPairs(ps)
  }

  /** A rename of a key that is not there leaves the object as it was. */
  lemma RenameAbsent(t: Table<Item>, oldKey: string, newKey: string, name: string, namespace: string)
    requires Valid(t) && oldKey !in t.entries
    ensures RenameItems(t, oldKey, newKey, name, namespace) == t
  {
    PairsRoundTrip(t);
  }

  /**
   * When the new key is free (or is the old key), the renamed entry stays at
   * its position with its text, the old key is gone, and every other key keeps
   * its value and its place.
   */
  lemma RenameInPlace(t: Table<Item>, oldKey: string, newKey: string, name: string, namespace: string)
    requires Valid(t) && oldKey in t.entries
    requires newKey == oldKey || newKey !in t.entries
    ensures var r := RenameItems(t, oldKey, newKey, name, namespace);
      && r.keys == t.keys[IndexOf(t.keys, oldKey) := newKey]
      && r.entries.Keys == t.entries.Keys - {oldKey} + {newKey}
      && r.entries[newKey] == Item(name, namespace, t.entries[oldKey].text)
      && (forall k :: k in t.entries && k != oldKey ==> r.entries[k] == t.entries[k])
  {
    var i := IndexOf(t.keys, oldKey);
    RebuildReplacing(t, i, newKey, Renamed(t, oldKey, name, namespace));
  }

  /** Renaming back, with the old name and namespace, undoes a rename to a free key. */
  lemma RenameUndo(t: Table<Item>, oldKey: string, newKey: string, name: string, namespace: string)
    requires Valid(t) && oldKey in t.entries
    requires newKey == oldKey || newKey !in t.entries
    ensures var e := t.entries[oldKey];
      RenameItems(RenameItems(t, oldKey, newKey, name, namespace), newKey, oldKey, e.name, e.namespace) == t
  {
    var e := t.entries[oldKey];
    var i := IndexOf(t.keys, oldKey);
    var r1 := RenameItems(t, oldKey, newKey, name, namespace);
    RenameInPlace(t, oldKey, newKey, name, namespace);
    assert r1.keys[i] == newKey;
    IndexOfDistinct(r1.keys, i);
    RenameInPlace(r1, newKey, oldKey, e.name, e.namespace);
    var r2 := RenameItems(r1, newKey, oldKey, e.name, e.namespace);
    UndoTables(t, r1, r2, i, oldKey, newKey);
  }

  lemma UndoTables(t: Table<Item>, r1: Table<Item>, r2: Table<Item>, i: nat, oldKey: string, newKey: string)
    requires i < |t.keys| && t.keys[i] == oldKey && oldKey in t.entries
    requires newKey == oldKey || newKey !in t.entries
    requires r1.keys == t.keys[i := newKey] && r2.keys == r1.keys[i := oldKey]
    requires r1.entries.Keys == t.entries.Keys - {oldKey} + {newKey}
    requires r2.entries.Keys == r1.entries.Keys - {newKey} + {oldKey}
    requires r1.entries[newKey].text == t.entries[oldKey].text
    requires r2.entries[oldKey] == Item(t.entries[oldKey].name, t.entries[oldKey].namespace, r1.entries[newKey].text)
    requires forall k :: k in t.entries && k != oldKey ==> r1.entries[k] == t.entries[k]
    requires forall k :: k in r1.entries && k != newKey ==> r2.entries[k] == r1.entries[k]
    ensures r2 == t
  {
    assert r2.keys == t.keys;
    assert r2.entries.Keys == t.entries.Keys;
    forall x | x in t.entries ensures r2.entries[x] == t.entries[x] {
      if x != oldKey {
        assert x != newKey;
      }
    }
  }

  /**
   * Rename checks for no collision: when the new key already names another
   * entry, the old key disappears and one entry is lost. If the other entry
   * came first, it is overwritten in its place by the renamed entry; if it came
   * later, the copy of it overwrites the renamed entry.
   */
  lemma RenameCollision(t: Table<Item>, oldKey: string, newKey: string, name: string, namespace: string)
    requires Valid(t) && oldKey in t.entries && newKey in t.entries && newKey != oldKey
    ensures var r := RenameItems(t, oldKey, newKey, name, namespace);
      && r.entries.Keys == t.entries.Keys - {oldKey}
      && r.entries[newKey] ==
           if IndexOf(t.keys, newKey) < IndexOf(t.keys, oldKey) then Renamed(t, oldKey, name, namespace)
           else t.entries[newKey]
  {
    var i := IndexOf(t.keys, oldKey);
    var j := IndexOf(t.keys, newKey);
    ReplaceOntoOtherDomain(t, i, j, Renamed(t, oldKey, name, namespace));
    ReplaceOntoOtherValue(t, i, j, Renamed(t, oldKey, name, namespace));
  }


  /** A rename keeps every key equal to its entry's full name when the new key is the new full name. */
  lemma RenamePreservesConsistency(t: Table<Item>, oldKey: string, name: string, namespace: string)
    requires Valid(t) && KeysConsistent(t)
    ensures KeysConsistent(RenameItems(t, oldKey, FullName(namespace, name), name, namespace))
  {
    var newKey := FullName(namespace, name);
    var ps := PairsOf(t);
    forall j | 0 <= j < |ps| ensures PairConsistent(ps[j]) {
      assert t.keys[j] in t.entries;
    }
    if oldKey in t.entries {
      var i := IndexOf(t.keys, oldKey);
      var qs := ps[i := (newKey, Renamed(t, oldKey, name, namespace))];
      forall j | 0 <= j < |qs| ensures PairConsistent(qs[j]) {
        assert j != i ==> qs[j] == ps[j];
      }
      ConsistentFromPairs(qs);
    } else {
      ConsistentFromPairs(ps);
    }
  }

  /** A key and entry such that the key names the entry. */
  predicate PairConsistent(p: (string, Item)) {
    p.0 == FullName(p.1.namespace, p.1.name)
  }

  /** An object rebuilt from pairs each of whose key names its entry keeps its keys consistent. */
  lemma ConsistentFromPairs(ps: seq<(string, Item)>)
    requires forall j :: 0 <= j < |ps| ==> PairConsistent(ps[j])
    ensures KeysConsistent(FromPairs(ps))
  {
    forall k | k in FromPairs(ps).entries
      ensures k == FullName(FromPairs(ps).entries[k].namespace, FromPairs(ps).entries[k].name)
    {
      FromPairsFrom(ps, k);
      var j :| 0 <= j < |ps| && ps[j] == (k, FromPairs(ps).entries[k]);
      assert PairConsistent(ps[j]);
    }
  }


  /** `sync-item-edit` on scripts: every script with the old name gets the new one. */
  function RenameScripts(ss: seq<Script>, oldName: string, newName: string): seq<Script> {
    seq(|ss|, i requires 0 <= i < |ss| => if ss[i].name == oldName then ss[i].(name := newName) else ss[i])
  }

  /**
   * Texts, order and count stay; every script that had the old name now has
   * the new one, so none keeps the old name; scripts with other names are
   * untouched.
   */
  lemma RenameScriptsAll(ss: seq<Script>, oldName: string, newName: string)
    requires oldName != newName
    ensures var r := RenameScripts(ss, oldName, newName);
      && |r| == |ss|
      && (forall i :: 0 <= i < |ss| ==> r[i].text == ss[i].text && r[i].name != oldName)
      && (forall i :: 0 <= i < |ss| && ss[i].name == oldName ==> r[i] == Script(newName, ss[i].text))
      && (forall i :: 0 <= i < |ss| && ss[i].name != oldName ==> r[i] == ss[i])
  {
  }

  /** Renaming back undoes a script rename when no script had the new name before. */
  lemma RenameScriptsUndo(ss: seq<Script>, oldName: string, newName: string)
    requires forall i :: 0 <= i < |ss| ==> ss[i].name != newName
    ensures RenameScripts(RenameScripts(ss, oldName, newName), newName, oldName) == ss
  {
    var r := RenameScripts(RenameScripts(ss, oldName, newName), newName, oldName);
    assert forall i :: 0 <= i < |ss| ==> r[i] == ss[i];
  }

  // ---------------------------------------------------------------- delete

  /** The Delete branch on a scene or group: `delete container[fullName]`. */
  function DeleteItem(p: Project, c: Container, key: string): Project {
    WithItems(p, c, Remove(Items(p, c), key))
  }

  /** Position of the first script with the name, |ss| when there is none. */
  function FirstNamed(ss: seq<Script>, name: string): (i: nat)
    ensures i <= |ss|
    ensures forall j :: 0 <= j < i ==> ss[j].name != name
    ensures i < |ss| ==> ss[i].name == name
  {
    if ss == [] || ss[0].name == name then 0 else 1 + FirstNamed(ss[1..], name)
  }

  /** The Delete branch on scripts: splice out the first script with the name, then stop. */
  function DeleteScript(ss: seq<Script>, name: string): seq<Script> {
    var i := FirstNamed(ss, name);
    if i == |ss| then ss else ss[..i] + ss[i + 1..]
  }

  /** A delete with no matching script changes nothing; otherwise exactly one script, the first match, goes and the rest keep their order. */
  lemma DeleteScriptSpec(ss: seq<Script>, name: string)
    ensures (forall j :: 0 <= j < |ss| ==> ss[j].name != name) ==> DeleteScript(ss, name) == ss
    ensures (exists j :: 0 <= j < |ss| && ss[j].name == name) ==>
      var i := FirstNamed(ss, name);
      && |DeleteScript(ss, name)| == |ss| - 1
      && multiset(DeleteScript(ss, name)) + multiset{ss[i]} == multiset(ss)
      && (forall j :: 0 <= j < i ==> DeleteScript(ss, name)[j] == ss[j])
      && (forall j :: i < j < |ss| ==> DeleteScript(ss, name)[j - 1] == ss[j])
  {
    var i := FirstNamed(ss, name);
    if i < |ss| {
      Splice(ss, i);
    }
  }

  /** Cutting out position i keeps every other element, in order. */
  lemma Splice<T>(s: seq<T>, i: nat)
    requires i < |s|
    ensures |s[..i] + s[i + 1..]| == |s| - 1
    ensures multiset(s[..i] + s[i + 1..]) + multiset{s[i]} == multiset(s)
    ensures forall j :: 0 <= j < i ==> (s[..i] + s[i + 1..])[j] == s[j]
    ensures forall j :: i < j < |s| ==> (s[..i] + s[i + 1..])[j - 1] == s[j]
  {
    assert s == s[..i] + [s[i]] + s[i + 1..];
  }

  /** Deleting a script just created gives back the scripts, when no other script had that name. */
  lemma NewScriptThenDelete(p: Project, name: string)
    requires forall j :: 0 <= j < |p.scripts| ==> p.scripts[j].name != name
    ensures DeleteScript(NewScript(p, name).scripts, name) == p.scripts
  {
    var ss := NewScript(p, name).scripts;
    assert ss[|p.scripts|].name == name;
    assert forall j :: 0 <= j < |p.scripts| ==> ss[j] == p.scripts[j];
  }

  // ---------------------------------------------------------------- text

  /** Position of the last script with the name, -1 when there is none. */
  function LastNamed(ss: seq<Script>, name: string): (i: int)
    ensures -1 <= i < |ss|
    ensures forall j :: i < j < |ss| ==> ss[j].name != name
    ensures i >= 0 ==> ss[i].name == name
  {
    if ss == [] then -1
    else if ss[|ss| - 1].name == name then |ss| - 1
    else LastNamed(ss[..|ss| - 1], name)
  }

  /** `sync-get-item-text` on scripts: the text of the last script with the name, or the placeholder. */
  function ScriptText(ss: seq<Script>, name: string): string {
    var i := LastNamed(ss, name);
    if i < 0 then ErrorText else ss[i].text
  }

  /** `sync-update-item-text` on scripts: only the first script with the name is written. */
  function SetScriptText(ss: seq<Script>, name: string, text: string): seq<Script> {
    var i := FirstNamed(ss, name);
    if i == |ss| then ss else ss[i := ss[i].(text := text)]
  }

  /** `sync-get-item-text` on a scene or group. */
  function ItemText(t: Table<Item>, key: string): string
    requires key in t.entries
  {
    t.entries[key].text
  }

  /** `sync-update-item-text` on a scene or group: the entry's text is replaced in place. */
  function SetItemText(t: Table<Item>, key: string, text: string): (r: Table<Item>)
    requires key in t.entries
    ensures Valid(t) ==> Valid(r)
  {
    Table(t.keys, t.entries[key := t.entries[key].(text := text)])
  }

  /** Reading back a written scene or group text gives that text, and no other entry changes. */
  lemma ItemTextRoundTrip(t: Table<Item>, key: string, text: string)
    requires key in t.entries
    ensures ItemText(SetItemText(t, key, text), key) == text
    ensures SetItemText(t, key, text).keys == t.keys
    ensures forall k :: k in t.entries && k != key ==> SetItemText(t, key, text).entries[k] == t.entries[k]
    ensures KeysConsistent(t) ==> KeysConsistent(SetItemText(t, key, text))
  {
  }

  /** Script names are unique. */
  predicate NamesDistinct(ss: seq<Script>) {
    forall i, j :: 0 <= i < j < |ss| ==> ss[i].name != ss[j].name
  }

  /** With unique names, reading a script's text after writing it gives the written text. */
  lemma ScriptTextRoundTrip(ss: seq<Script>, name: string, text: string)
    requires NamesDistinct(ss)
    ensures (exists j :: 0 <= j < |ss| && ss[j].name == name) ==>
      ScriptText(SetScriptText(ss, name, text), name) == text
    ensures (forall j :: 0 <= j < |ss| ==> ss[j].name != name) ==>
      SetScriptText(ss, name, text) == ss && ScriptText(ss, name) == ErrorText
  {
    var i := FirstNamed(ss, name);
    if i < |ss| {
      var r := SetScriptText(ss, name, text);
      assert r[i].name == name;
      assert forall k :: i < k < |r| ==> r[k] == ss[k] && r[k].name != name;
    }
  }

  /** With two scripts of one name, the write goes to the first and the read comes from the second. */
  lemma ScriptTextDuplicates()
    ensures var ss := [Script("a", "x"), Script("a", "y")];
      SetScriptText(ss, "a", "z") == [Script("a", "z"), Script("a", "y")]
      && ScriptText(SetScriptText(ss, "a", "z"), "a") == "y"
  {
    var ss := [Script("a", "x"), Script("a", "y")];
    assert FirstNamed(ss, "a") == 0;
    var r := [Script("a", "z"), Script("a", "y")];
    assert LastNamed(r, "a") == 1;
  }

  // ---------------------------------------------------------------- reorder

  /** `sync-tree-reorder` on a scene or group: `newItems[order[i]] = oldItems[order[i]]` into `{}`. */
  function ReorderItems(t: Table<Item>, order: seq<string>): (r: Table<Item>)
    requires forall i :: 0 <= i < |order| ==> order[i] in t.entries
    ensures Valid(r)
  {
    FromPairs(seq(|order|, i requires 0 <= i < |order| => (order[i], t.entries[order[i]])))
  }

  /**
   * The reordered object holds exactly the keys named in the order, each with
   * its old value; keys left out of the order are dropped. When the order is a
   * permutation of the keys, the object is enumerated in exactly that order.
   */
  lemma ReorderSpec(t: Table<Item>, order: seq<string>)
    requires forall i :: 0 <= i < |order| ==> order[i] in t.entries
    ensures var r := ReorderItems(t, order);
      && (forall k :: k in r.entries <==> k in order)
      && (forall k :: k in r.entries ==> r.entries[k] == t.entries[k])
      && (Distinct(order) ==> r.keys == order)
      && (Distinct(order) && (forall k :: k in t.entries ==> k in order) ==> r.entries == t.entries)
  {
    var ps := seq(|order|, i requires 0 <= i < |order| => (order[i], t.entries[order[i]]));
    var r := FromPairs(ps);
    assert Firsts(ps) == order;
    forall k | k in r.entries ensures r.entries[k] == t.entries[k] {
      FromPairsFrom(ps, k);
    }
    if Distinct(order) {
      FromDistinctPairs(ps);
    }
  }

  /** Reordering keeps every key equal to its entry's full name. */
  lemma ReorderPreservesConsistency(t: Table<Item>, order: seq<string>)
    requires forall i :: 0 <= i < |order| ==> order[i] in t.entries
    requires KeysConsistent(t)
    ensures KeysConsistent(ReorderItems(t, order))
  {
    ReorderSpec(t, order);
  }

  /** `oldItems[script.name] = script` over the scripts in order: the last script of each name wins. */
  function ScriptsByName(ss: seq<Script>): (m: map<string, Script>)
    ensures forall n :: n in m <==> LastNamed(ss, n) >= 0
    ensures forall n :: n in m ==> LastNamed(ss, n) >= 0 && m[n] == ss[LastNamed(ss, n)]
  {
    if ss == [] then map[]
    else
      var n := |ss| - 1;
      ScriptsByName(ss[..n])[ss[n].name := ss[n]]
  }

  /** `sync-tree-reorder` on scripts: position i receives the script the map holds for `order[i]`. */
  function ReorderScripts(ss: seq<Script>, order: seq<string>): seq<Script>
    requires forall i :: 0 <= i < |order| ==> order[i] in ScriptsByName(ss)
  {
    var m := ScriptsByName(ss);
    seq(|order|, i requires 0 <= i < |order| => m[order[i]])
  }

  /**
   * Position i of the result holds the last script named `order[i]`. With
   * unique names and an order that lists each name once, the result holds the
   * same scripts, each once, in the requested order.
   */
  lemma ReorderScriptsSpec(ss: seq<Script>, order: seq<string>)
    requires forall i :: 0 <= i < |order| ==> order[i] in ScriptsByName(ss)
    ensures var r := ReorderScripts(ss, order);
      && |r| == |order|
      && (forall i :: 0 <= i < |order| ==> r[i].name == order[i] && r[i] == ss[LastNamed(ss, order[i])])
      && (NamesDistinct(ss) && Distinct(order) && (forall j :: 0 <= j < |ss| ==> ss[j].name in order) ==>
            NamesDistinct(r) && (forall s :: s in r <==> s in ss))
  {
    var r := ReorderScripts(ss, order);
    if NamesDistinct(ss) && Distinct(order) && (forall j :: 0 <= j < |ss| ==> ss[j].name in order) {
      forall s | s in ss ensures s in r {
        var j :| 0 <= j < |ss| && ss[j] == s;
        var i :| 0 <= i < |order| && order[i] == s.name;
        assert LastNamed(ss, s.name) == j;
        assert r[i] == s;
      }
    }
  }

  /** With two scripts of one name, every position asking for that name gets the later one. */
  lemma ReorderScriptsDuplicates()
    ensures ReorderScripts([Script("a", "x"), Script("a", "y")], ["a", "a"]) == [Script("a", "y"), Script("a", "y")]
  {
    var ss := [Script("a", "x"), Script("a", "y")];
    assert LastNamed(ss, "a") == 1;
  }
}
