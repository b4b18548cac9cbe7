/**
 * The project file: `getProjectJSON` turns each keyed collection into an array
 * of `{ key, name, namespace, text }` records, so that the order survives the
 * trip through JSON, and `makeProjectFromJSON` turns the arrays back into
 * objects. Parsed JSON is modelled structurally: the text itself and the
 * parser are not part of this model.
 */
module Persistence {
  import opened OrderedMap
  import opened Project

  /** A member of a parsed object: missing or `null` (both `== undefined`), or a string. */
  datatype Field = Absent | Present(value: string)

  /** An element of the `scenes` or `definitionGroups` array; an element that is not an object reads as all-absent. */
  datatype RawEntry = RawEntry(key: Field, name: Field, namespace: Field, text: Field)

  /** An element of the `scripts` array. */
  datatype RawScript = RawScript(name: Field, text: Field)

  /**
   * The value found under `scenes`, `definitionGroups` or `scripts`: a falsy
   * value (missing, `null`, `false`, `0`, `""`), a non-empty string, an array,
   * or any other value (`true`, another number, an object).
   */
  datatype RawList<T> = Falsy | NonEmptyString | OtherValue | Array(elems: seq<T>)

  /** The parsed file. */
  datatype RawProject = RawProject(
    name: Field, author: Field, info: Field,
    scenes: RawList<RawEntry>, definitionGroups: RawList<RawEntry>, scripts: RawList<RawScript>)

  /** What `JSON.parse` made of the file's text. */
  datatype Input = Unparsable | Document(raw: RawProject)

  /** What `makeProjectFromJSON` returns: `{}` or a project. */
  datatype LoadResult = EmptyObject | Built(project: Project)

  datatype Option<T> = None | Some(value: T)

  // ---------------------------------------------------------------- integrity

  /** `!proj.x` for one of the three collections. */
  predicate Truthy<T>(l: RawList<T>) {
    !l.Falsy?
  }

  /**
   * `verifyProjectIntegrity(raw, true)` as written: the base fields must be
   * defined, the three collections truthy and `scripts` an array. The
   * `return false` for a bad script is inside the `forEach` callback and only
   * leaves the callback, so no script is ever refused.
   */
  function SpecialIntegrityAsWritten(raw: RawProject): bool {
    && raw.name.Present? && raw.author.Present? && raw.info.Present?
    && Truthy(raw.scenes) && Truthy(raw.definitionGroups) && Truthy(raw.scripts)
    && raw.scripts.Array?
  }

  /** `!script.name || script.text == undefined` is false. */
  predicate ScriptComplete(s: RawScript) {
    s.name.Present? && s.name.value != "" && s.text.Present?
  }

  /** The check as evidently intended: every script also needs a non-empty name and a text. */
  function SpecialIntegrity(raw: RawProject): (ok: bool)
    ensures ok <==> (SpecialIntegrityAsWritten(raw)
      && forall i :: 0 <= i < |raw.scripts.elems| ==> ScriptComplete(raw.scripts.elems[i]))
  {
    SpecialIntegrityAsWritten(raw) && AllScriptsComplete(raw.scripts.elems)
  }

  /** The per-script test, run to the end. */
  function AllScriptsComplete(ss: seq<RawScript>): (ok: bool)
    ensures ok <==> forall i :: 0 <= i < |ss| ==> ScriptComplete(ss[i])
  {
    if ss == [] then true else ScriptComplete(ss[0]) && AllScriptsComplete(ss[1..])
  }

  /**
   * `verifyProjectIntegrity(proj)` in strict mode on what `makeProjectFromJSON`
   * returned, as written: `{}` has no name; a built project passes when every
   * scene and group has a non-empty name (namespace and text are always
   * defined there); its scripts are not looked at.
   */
  function StrictIntegrityAsWritten(r: LoadResult): bool {
    match r
    case EmptyObject => false
    case Built(p) => ItemNamesSet(p.scenes) && ItemNamesSet(p.definitionGroups)
  }

  /** `!scene.name` is false for every entry. */
  predicate ItemNamesSet(t: Table<Item>) {
    forall k :: k in t.entries ==> t.entries[k].name != ""
  }

  /** `!script.name` is false for every script. */
  predicate ScriptNamesSet(ss: seq<Script>) {
    forall i :: 0 <= i < |ss| ==> ss[i].name != ""
  }

  /**
   * The strict check as evidently intended: `{}` fails, and so does a project
   * with an unnamed scene, group or script; any other project passes.
   */
  function StrictIntegrity(r: LoadResult): (ok: bool)
    ensures r.EmptyObject? ==> !ok
    ensures r.Built? && (exists i :: 0 <= i < |r.project.scripts| && r.project.scripts[i].name == "") ==> !ok
    ensures r.Built? && !(ItemNamesSet(r.project.scenes) && ItemNamesSet(r.project.definitionGroups)) ==> !ok
    ensures r.Built? && ItemNamesSet(r.project.scenes) && ItemNamesSet(r.project.definitionGroups) && ScriptNamesSet(r.project.scripts) ==> ok
  {
    StrictIntegrityAsWritten(r) && forall i :: 0 <= i < |r.project.scripts| ==> r.project.scripts[i].name != ""
  }

  /**
   * A file whose only script has neither name nor text passes the check as
   * written, but not the intended one; a project with a script named `""`
   * passes the strict check as written, but not the intended one.
   */
  lemma ScriptCheckIneffective()
    ensures var raw := RawProject(Present("p"), Present("me"), Present(""), Array([]), Array([]), Array([RawScript(Absent, Absent)]));
      SpecialIntegrityAsWritten(raw) && !SpecialIntegrity(raw)
    ensures var p := Project("p", "me", "", Empty(), Empty(), [Script("", "x")]);
      StrictIntegrityAsWritten(Built(p)) && !StrictIntegrity(Built(p))
  {
    var p := Project("p", "me", "", Empty(), Empty(), [Script("", "x")]);
    assert p.scripts[0].name == "";
  }

  /** Such a file loads and opens as written, with one unnamed script, and is refused by the intended loader. */
  lemma UnnamedScriptOpens()
    ensures var input := Document(RawProject(Present("p"), Present("me"), Present(""), Array([]), Array([]), Array([RawScript(Absent, Absent)])));
      OpenProject(input) == Some(Project("p", "me", "", Empty(), Empty(), [Script("", "")]))
      && MakeProjectIntended(input) == EmptyObject && OpenProjectIntended(input) == None
  {
    ScriptCheckIneffective();
    EmptyRecords();
    var ss := [RawScript(Absent, Absent)];
    assert ScriptsFrom(ss) == [Script("", "")];
  }

  lemma EmptyRecords()
    ensures ItemsFrom(Array([])) == Some(Empty())
  {
    assert EntryPairs([]) == [];
  }

  // ---------------------------------------------------------------- array form

  /** `{ key: s, name, namespace, text }` for each key, in the object's order. */
  function Records(t: Table<Item>): (rs: seq<RawEntry>)
    requires Valid(t)
    ensures |rs| == |t.keys|
  {
    seq(|t.keys|, i requires 0 <= i < |t.keys| =>
      var e := t.entries[t.keys[i]];
      RawEntry(Present(t.keys[i]), Present(e.name), Present(e.namespace), Present(e.text)))
  }

  function RawScripts(ss: seq<Script>): (rs: seq<RawScript>)
    ensures |rs| == |ss|
  {
    seq(|ss|, i requires 0 <= i < |ss| => RawScript(Present(ss[i].name), Present(ss[i].text)))
  }

  /** The object `getProjectJSON` hands to `JSON.stringify`. */
  function ArrayForm(p: Project): RawProject
    requires WellFormed(p)
  {
    RawProject(Present(p.name), Present(p.author), Present(p.info),
      Array(Records(p.scenes)), Array(Records(p.definitionGroups)), Array(RawScripts(p.scripts)))
  }

  /** `getProjectJSON`, with its two push loops. */
  method GetProjectJson(p: Project) returns (raw: RawProject)
    requires WellFormed(p)
    ensures raw == ArrayForm(p)
  {
    var scenes := PushRecords(p.scenes);
    var groups := PushRecords(p.definitionGroups);
    var scripts := RawScripts(p.scripts);
    raw := RawProject(Present(p.name), Present(p.author), Present(p.info), Array(scenes), Array(groups), Array(scripts));
  }

  /** One `for (var s in ...) out.scenes.push({ key: s, ... })` loop. */
  method PushRecords(t: Table<Item>) returns (rs: seq<RawEntry>)
    requires Valid(t)
    ensures rs == Records(t)
  {
    rs := [];
    var i := 0;
    while i < |t.keys|
      invariant i <= |t.keys|
      invariant rs == Records(t)[..i]
    {
      var k := t.keys[i];
      var e := t.entries[k];
      rs := rs + [RawEntry(Present(k), Present(e.name), Present(e.namespace), Present(e.text))];
      i := i + 1;
    }
  }

  // ---------------------------------------------------------------- loading

  /** A record with `key`, `name`, `namespace` and `text` all defined. */
  predicate EntryComplete(e: RawEntry) {
    e.key.Present? && e.name.Present? && e.namespace.Present? && e.text.Present?
  }

  /** The assignments `out.scenes[key] = { name, namespace, text }` the loop makes. */
  function EntryPairs(es: seq<RawEntry>): (ps: seq<(string, Item)>)
    requires forall i :: 0 <= i < |es| ==> EntryComplete(es[i])
    ensures |ps| == |es|
  {
    seq(|es|, i requires 0 <= i < |es| && EntryComplete(es[i]) => EntryPair(es[i]))
  }

  function EntryPair(e: RawEntry): (string, Item)
    requires EntryComplete(e)
  {
    (e.key.value, Item(e.name.value, e.namespace.value, e.text.value))
  }

  /**
   * One conversion loop of `makeProjectFromJSON`. A non-empty string has a
   * length but its characters have no `key`, so it fails; any other non-array
   * has no length, so the loop does not run.
   */
  function ItemsFrom(l: RawList<RawEntry>): Option<Table<Item>>
    requires Truthy(l)
  {
    match l
    case NonEmptyString => None
    case OtherValue => Some(Empty())
    case Array(es) =>
      if forall i :: 0 <= i < |es| ==> EntryComplete(es[i]) then Some(FromPairs(EntryPairs(es))) else None
  }

  /**
   * A script record as the model keeps it: a missing or `null` name or text
   * reads as the empty string (the source keeps `undefined` there).
   */
  function ScriptOf(s: RawScript): Script {
    Script(if s.name.Present? then s.name.value else "", if s.text.Present? then s.text.value else "")
  }

  /** `out.scripts` is the parsed array itself, whatever its elements hold. */
  function ScriptsFrom(ss: seq<RawScript>): (r: seq<Script>)
    ensures |r| == |ss|
    ensures forall i :: 0 <= i < |ss| && ss[i].name.Present? ==> r[i].name == ss[i].name.value
    ensures forall i :: 0 <= i < |ss| && ss[i].text.Present? ==> r[i].text == ss[i].text.value
  {
    seq(|ss|, i requires 0 <= i < |ss| => ScriptOf(ss[i]))
  }

  /** The two conversion loops and the copy of the other members, once the special check passed. */
  function Assemble(raw: RawProject): (r: LoadResult)
    requires SpecialIntegrityAsWritten(raw)
    ensures r.Built? ==> WellFormed(r.project) && |r.project.scripts| == |raw.scripts.elems|
  {
    match (ItemsFrom(raw.scenes), ItemsFrom(raw.definitionGroups))
    case (Some(scenes), Some(groups)) =>
      Built(Project(raw.name.value, raw.author.value, raw.info.value, scenes, groups, ScriptsFrom(raw.scripts.elems)))
    case _ => EmptyObject
  }

  /** `makeProjectFromJSON(json)` as written: the special check lets every script through. */
  function MakeProject(input: Input): (r: LoadResult)
    ensures r.Built? ==> WellFormed(r.project)
    ensures r.Built? ==> input.Document? && SpecialIntegrityAsWritten(input.raw)
    ensures r.Built? ==> |r.project.scripts| == |input.raw.scripts.elems|
  {
    match input
    case Unparsable => EmptyObject
    case Document(raw) => if !SpecialIntegrityAsWritten(raw) then EmptyObject else Assemble(raw)
  }

  /**
   * `makeProjectFromJSON` with the script check as intended: it refuses
   * exactly the files the intended check refuses and otherwise agrees with
   * the loader as written, so every script it builds has a name.
   */
  function MakeProjectIntended(input: Input): (r: LoadResult)
    ensures r.Built? ==> WellFormed(r.project)
    ensures r.Built? ==> forall i :: 0 <= i < |r.project.scripts| ==> r.project.scripts[i].name != ""
    ensures r == if input.Document? && !SpecialIntegrity(input.raw) then EmptyObject else MakeProject(input)
  {
    match input
    case Unparsable => EmptyObject
    case Document(raw) => if !SpecialIntegrity(raw) then EmptyObject else Assemble(raw)
  }

  /** `makeProjectFromJSON`, with its two conversion loops. */
  method MakeProjectFromJson(input: Input) returns (r: LoadResult)
    ensures r == MakeProject(input)
  {
    if input.Unparsable? {
      return EmptyObject;
    }
    var raw := input.raw;
    if !SpecialIntegrityAsWritten(raw) {
      return EmptyObject;
    }
    var scenes := ConvertItems(raw.scenes);
    if scenes.None? {
      return EmptyObject;
    }
    var groups := ConvertItems(raw.definitionGroups);
    if groups.None? {
      return EmptyObject;
    }
    r := Built(Project(raw.name.value, raw.author.value, raw.info.value, scenes.value, groups.value, ScriptsFrom(raw.scripts.elems)));
  }

  /** `out.scenes = {}; for (i < raw.scenes.length) { ...; out.scenes[key] = {...} }`. */
  method ConvertItems(l: RawList<RawEntry>) returns (r: Option<Table<Item>>)
    requires Truthy(l)
    ensures r == ItemsFrom(l)
  {
    if l.NonEmptyString? {
      return None;
    }
    if l.OtherValue? {
      return Some(Empty());
    }
    var es := l.elems;
    var out := Empty();
    var i := 0;
    while i < |es|
      invariant i <= |es|
      invariant forall j :: 0 <= j < i ==> EntryComplete(es[j])
      invariant out == FromPairs(EntryPairs(es[..i]))
    {
      var e := es[i];
      if !EntryComplete(e) {
        return None;
      }
      ConvertStep(es, i);
      out := Put(out, e.key.value, Item(e.name.value, e.namespace.value, e.text.value));
      i := i + 1;
    }
    assert es[..i] == es;
    r := Some(out);
  }

  lemma ConvertStep(es: seq<RawEntry>, i: nat)
    requires i < |es| && forall j :: 0 <= j <= i ==> EntryComplete(es[j])
    ensures FromPairs(EntryPairs(es[..i + 1])) == Put(FromPairs(EntryPairs(es[..i])), es[i].key.value, Item(es[i].name.value, es[i].namespace.value, es[i].text.value))
  {
    var ps := EntryPairs(es[..i]);
    assert EntryPairs(es[..i + 1]) == ps + [EntryPair(es[i])];
    FromPairsSnoc(ps, EntryPair(es[i]));
  }

  // ---------------------------------------------------------------- properties

  lemma RecordsRoundTrip(t: Table<Item>)
    requires Valid(t)
    ensures forall i :: 0 <= i < |Records(t)| ==> EntryComplete(Records(t)[i])
    ensures FromPairs(EntryPairs(Records(t))) == t
  {
    assert EntryPairs(Records(t)) == PairsOf(t);
    PairsRoundTrip(t);
  }

  /**
   * Reading back the array form gives the same project: the same keys in the
   * same order with the same entries, the same scripts and the same
   * information.
   */
  lemma ArrayFormRoundTrip(p: Project)
    requires WellFormed(p)
    ensures MakeProject(Document(ArrayForm(p))) == Built(p)
  {
    ItemsFromRecords(p.scenes);
    ItemsFromRecords(p.definitionGroups);
    RawScriptsRoundTrip(p.scripts);
  }

  /** With the intended check, only a script with an empty name makes the saved form fail to load. */
  lemma ArrayFormRoundTripIntended(p: Project)
    requires WellFormed(p)
    ensures MakeProjectIntended(Document(ArrayForm(p))) ==
      if forall i :: 0 <= i < |p.scripts| ==> p.scripts[i].name != "" then Built(p) else EmptyObject
  {
    ArrayFormRoundTrip(p);
    RawScriptsComplete(p.scripts);
  }

  lemma ItemsFromRecords(t: Table<Item>)
    requires Valid(t)
    ensures ItemsFrom(Array(Records(t))) == Some(t)
  {
    RecordsRoundTrip(t);
  }

  lemma RawScriptsRoundTrip(ss: seq<Script>)
    ensures ScriptsFrom(RawScripts(ss)) == ss
  {
  }

  lemma RawScriptsComplete(ss: seq<Script>)
    ensures AllScriptsComplete(RawScripts(ss)) <==> forall i :: 0 <= i < |ss| ==> ss[i].name != ""
  {
    var rs := RawScripts(ss);
    if forall i :: 0 <= i < |ss| ==> ss[i].name != "" {
      assert forall i :: 0 <= i < |rs| ==> ScriptComplete(rs[i]);
    } else {
      var i :| 0 <= i < |ss| && ss[i].name == "";
      assert !ScriptComplete(rs[i]);
    }
  }

  /** The Open Project action as written: load, then the strict check; a project is only replaced when both succeed. */
  function OpenProject(input: Input): (r: Option<Project>)
    ensures r.Some? ==> WellFormed(r.value) && StrictIntegrityAsWritten(MakeProject(input))
    ensures r.Some? ==> MakeProject(input) == Built(r.value)
  {
    var loaded := MakeProject(input);
    if StrictIntegrityAsWritten(loaded) then Some(loaded.project) else None
  }

  /** The Open Project action with both checks as intended: every script of an opened project has a name. */
  function OpenProjectIntended(input: Input): (r: Option<Project>)
    ensures r.Some? ==> WellFormed(r.value) && forall i :: 0 <= i < |r.value.scripts| ==> r.value.scripts[i].name != ""
    ensures r.Some? ==> OpenProject(input) == r
  {
    var loaded := MakeProjectIntended(input);
    if StrictIntegrity(loaded) then Some(loaded.project) else None
  }

  /** A saved project opens as itself exactly when its scenes and groups all have names; its scripts do not matter. */
  lemma SaveThenOpen(p: Project)
    requires WellFormed(p)
    ensures ItemNamesSet(p.scenes) && ItemNamesSet(p.definitionGroups) ==> OpenProject(Document(ArrayForm(p))) == Some(p)
    ensures !(ItemNamesSet(p.scenes) && ItemNamesSet(p.definitionGroups)) ==> OpenProject(Document(ArrayForm(p))) == None
  {
    ArrayFormRoundTrip(p);
  }

  /** With the intended checks, a saved project opens as itself exactly when its scenes, groups and scripts all have names. */
  lemma SaveThenOpenIntended(p: Project)
    requires WellFormed(p)
    ensures OpenProjectIntended(Document(ArrayForm(p))) ==
      if ItemNamesSet(p.scenes) && ItemNamesSet(p.definitionGroups) && forall i :: 0 <= i < |p.scripts| ==> p.scripts[i].name != ""
      then Some(p) else None
  {
    ArrayFormRoundTripIntended(p);
  }

  /**
   * `makeProjectFromJSON` returns `{}` on a parse error, on missing base
   * fields, on a falsy or non-array `scripts`, on a falsy or string
   * `scenes` or `definitionGroups` and on any incomplete record, and `{}`
   * does not open; a collection that is neither an array nor a string loads
   * as empty.
   */
  lemma LoadFailures(input: Input, raw: RawProject)
    ensures MakeProject(Unparsable) == EmptyObject && OpenProject(Unparsable) == None
    ensures MakeProject(input) == EmptyObject ==> OpenProject(input) == None
    ensures raw.name.Absent? || raw.author.Absent? || raw.info.Absent? ==> MakeProject(Document(raw)) == EmptyObject
    ensures raw.scripts.Falsy? || raw.scenes.Falsy? || raw.definitionGroups.Falsy? ==> MakeProject(Document(raw)) == EmptyObject
    ensures !raw.scripts.Array? ==> MakeProject(Document(raw)) == EmptyObject
    ensures raw.scenes.NonEmptyString? || raw.definitionGroups.NonEmptyString? ==> MakeProject(Document(raw)) == EmptyObject
    ensures raw.scenes.Array? && (exists i :: 0 <= i < |raw.scenes.elems| && !EntryComplete(raw.scenes.elems[i])) ==>
      MakeProject(Document(raw)) == EmptyObject
    ensures raw.definitionGroups.Array? && (exists i :: 0 <= i < |raw.definitionGroups.elems| && !EntryComplete(raw.definitionGroups.elems[i])) ==>
      MakeProject(Document(raw)) == EmptyObject
    ensures SpecialIntegrityAsWritten(raw) && raw.scenes.OtherValue? && ItemsFrom(raw.definitionGroups).Some? ==>
      MakeProject(Document(raw)).Built? && MakeProject(Document(raw)).project.scenes == Empty()
  {
  }

  /** Record keys that repeat keep the first position and the last record's entry. */
  lemma DuplicateRecords()
    ensures var e1 := RawEntry(Present("k"), Present("k"), Present(""), Present("one"));
      var e2 := RawEntry(Present("k"), Present("k"), Present(""), Present("two"));
      ItemsFrom(Array([e1, e2])) == Some(Table(["k"], map["k" := Item("k", "", "two")]))
  {
    var e1 := RawEntry(Present("k"), Present("k"), Present(""), Present("one"));
    var e2 := RawEntry(Present("k"), Present("k"), Present(""), Present("two"));
    assert EntryComplete([e1, e2][0]) && EntryComplete([e1, e2][1]);
    assert EntryPairs([e1, e2]) == [("k", Item("k", "", "one")), ("k", Item("k", "", "two"))];
    RepeatedKey("k", Item("k", "", "one"), Item("k", "", "two"));
  }

  lemma RepeatedKey<V>(k: string, v1: V, v2: V)
    ensures FromPairs([(k, v1), (k, v2)]) == Table([k], map[k := v2])
  {
    SinglePair(k, v1);
    PairOfPairs((k, v1), (k, v2));
    FromPairsSnoc([(k, v1)], (k, v2));
    assert map[k := v1][k := v2] == map[k := v2];
  }

  lemma SinglePair<V>(k: string, v: V)
    ensures FromPairs([(k, v)]) == Table([k], map[k := v])
  {
    FromPairsSnoc([], (k, v));
    assert [] + [(k, v)] == [(k, v)];
  }

  lemma PairOfPairs<T>(x: T, y: T)
    ensures [x] + [y] == [x, y]
  {
  }

}
