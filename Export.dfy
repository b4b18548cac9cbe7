/**
 * `getAllCode`: the whole project flattened into dialogue source text. All
 * scenes come first, then all definition groups, each in the order of its
 * object, then every script. The two versions of the program differ only in
 * how `indentString` treats blank lines (`includeEmptyLines`).
 */
module Export {
  import opened OrderedMap
  import opened Text
  import opened Project

  /** One scene or group: its header line, its text without carriage returns and indented by four spaces, and a newline. */
  function Section(header: string, key: string, text: string, includeEmptyLines: bool): string {
    header + " " + key + ":\n" + Indent(StripCarriageReturns(text), includeEmptyLines) + "\n"
  }

  /** The sections of the keys `ks`, in order. */
  function Sections(header: string, ks: seq<string>, entries: map<string, Item>, includeEmptyLines: bool): string
    requires forall k :: k in ks ==> k in entries
  {
    if ks == [] then ""
    else
      var n := |ks| - 1;
      Sections(header, ks[..n], entries, includeEmptyLines) + Section(header, ks[n], entries[ks[n]].text, includeEmptyLines)
  }

  /** Each script: its text without carriage returns, and a newline. */
  function ScriptLines(ss: seq<Script>): string {
    if ss == [] then ""
    else
      var n := |ss| - 1;
      ScriptLines(ss[..n]) + StripCarriageReturns(ss[n].text) + "\n"
  }

  /** The text `getAllCode(proj)` returns. */
  function AllCode(p: Project, includeEmptyLines: bool): string
    requires WellFormed(p)
  {
    Sections("scene", p.scenes.keys, p.scenes.entries, includeEmptyLines)
    + Sections("definitions", p.definitionGroups.keys, p.definitionGroups.entries, includeEmptyLines)
    + ScriptLines(p.scripts)
  }

  /**
   * `getAllCode(proj)`, accumulating `code` over the three loops.
   * app/index.js passes `includeEmptyLines: true`; index.js passes nothing,
   * which the library reads as false.
   */
  method GetAllCode(p: Project, includeEmptyLines: bool) returns (code: string)
    requires WellFormed(p)
    ensures code == AllCode(p, includeEmptyLines)
  {
    code := AppendSections("", "scene", p.scenes, includeEmptyLines);
    code := AppendSections(code, "definitions", p.definitionGroups, includeEmptyLines);
    code := AppendScriptLines(code, p.scripts);
    AllCodeFromEmpty(p, includeEmptyLines);
  }

  /** The three loops start from the empty string. */
  lemma AllCodeFromEmpty(p: Project, includeEmptyLines: bool)
    requires WellFormed(p)
    ensures AllCode(p, includeEmptyLines) ==
      "" + Sections("scene", p.scenes.keys, p.scenes.entries, includeEmptyLines)
      + Sections("definitions", p.definitionGroups.keys, p.definitionGroups.entries, includeEmptyLines)
      + ScriptLines(p.scripts)
  {
    assert "" + Sections("scene", p.scenes.keys, p.scenes.entries, includeEmptyLines)
      == Sections("scene", p.scenes.keys, p.scenes.entries, includeEmptyLines);
  }

  /** The `forEach` over the scripts at the end of `getAllCode`. */
  method AppendScriptLines(code0: string, scripts: seq<Script>) returns (code: string)
    ensures code == code0 + ScriptLines(scripts)
  {
    code := code0;
    var i := 0;
    while i < |scripts|
      invariant i <= |scripts|
      invariant code == code0 + ScriptLines(scripts[..i])
    {
      var stripped := ReplaceAll(scripts[i].text, "\r", "");
      code := code + stripped + "\n";
      assert scripts[..i + 1][..i] == scripts[..i];
      assert ScriptLines(scripts[..i + 1]) == ScriptLines(scripts[..i]) + stripped + "\n";
      i := i + 1;
    }
    assert scripts[..i] == scripts;
  }

  /** One of the two for-in loops of `getAllCode`, writing a header and the indented text for every key. */
  method AppendSections(code0: string, header: string, t: Table<Item>, includeEmptyLines: bool) returns (code: string)
    requires Valid(t)
    ensures code == code0 + Sections(header, t.keys, t.entries, includeEmptyLines)
  {
    code := code0;
    var keys := t.keys;
    var i := 0;
    while i < |keys|
      invariant i <= |keys|
      invariant code == code0 + Sections(header, keys[..i], t.entries, includeEmptyLines)
    {
      var item := t.entries[keys[i]];
      var headLine := header + " " + keys[i] + ":\n";
      var body := Indent(ReplaceAll(item.text, "\r", ""), includeEmptyLines) + "\n";
      SectionStep(code0, code, header, keys, t.entries, includeEmptyLines, i);
      code := code + headLine;
      code := code + body;
      i := i + 1;
    }
    assert keys[..i] == keys;
  }

  /** Writing the header line and then the body appends one section. */
  lemma SectionParts(before: string, header: string, key: string, text: string, includeEmptyLines: bool)
    ensures before + (header + " " + key + ":\n") + (Indent(ReplaceAll(text, "\r", ""), includeEmptyLines) + "\n")
      == before + Section(header, key, text, includeEmptyLines)
  {
  }

  /** One turn of the loop: writing the next header line and body extends the accumulated sections by one. */
  lemma SectionStep(code0: string, code: string, header: string, ks: seq<string>, entries: map<string, Item>, includeEmptyLines: bool, i: nat)
    requires i < |ks| && forall k :: k in ks ==> k in entries
    requires forall k :: k in ks[..i] ==> k in entries
    requires code == code0 + Sections(header, ks[..i], entries, includeEmptyLines)
    ensures forall k :: k in ks[..i + 1] ==> k in entries
    ensures code + (header + " " + ks[i] + ":\n") + (Indent(ReplaceAll(entries[ks[i]].text, "\r", ""), includeEmptyLines) + "\n")
      == code0 + Sections(header, ks[..i + 1], entries, includeEmptyLines)
  {
    SectionParts(code, header, ks[i], entries[ks[i]].text, includeEmptyLines);
    SectionsSnoc(header, ks, entries, includeEmptyLines, i);
    AppendAssoc(code0, Sections(header, ks[..i], entries, includeEmptyLines), Section(header, ks[i], entries[ks[i]].text, includeEmptyLines));
  }

  lemma AppendAssoc<T>(a: seq<T>, b: seq<T>, c: seq<T>)
    ensures (a + b) + c == a + (b + c)
  {
  }

  lemma SectionsSnoc(header: string, ks: seq<string>, entries: map<string, Item>, includeEmptyLines: bool, i: nat)
    requires i < |ks| && forall k :: k in ks ==> k in entries
    ensures forall k :: k in ks[..i] ==> k in entries
    ensures Sections(header, ks[..i + 1], entries, includeEmptyLines)
      == Sections(header, ks[..i], entries, includeEmptyLines) + Section(header, ks[i], entries[ks[i]].text, includeEmptyLines)
  {
    assert ks[..i + 1][..i] == ks[..i];
  }

  // ---------------------------------------------------------------- carriage returns

  lemma SectionCarriageReturn(header: string, key: string, text: string, includeEmptyLines: bool)
    requires '\r' !in header
    ensures '\r' in Section(header, key, text, includeEmptyLines) <==> '\r' in key
  {
    StripIsErase(text);
    IndentNoCarriageReturn(StripCarriageReturns(text), includeEmptyLines);
  }

  lemma {:induction false} SectionsCarriageReturn(header: string, ks: seq<string>, entries: map<string, Item>, includeEmptyLines: bool)
    requires '\r' !in header
    requires forall k :: k in ks ==> k in entries
    ensures '\r' in Sections(header, ks, entries, includeEmptyLines) <==> exists j :: 0 <= j < |ks| && '\r' in ks[j]
  {
    if ks != [] {
      var n := |ks| - 1;
      SectionsCarriageReturn(header, ks[..n], entries, includeEmptyLines);
      SectionCarriageReturn(header, ks[n], entries[ks[n]].text, includeEmptyLines);
      if exists j :: 0 <= j < |ks| && '\r' in ks[j] {
        var j :| 0 <= j < |ks| && '\r' in ks[j];
        if j < n {
          assert ks[..n][j] == ks[j];
        }
      }
      if exists j :: 0 <= j < n && '\r' in ks[..n][j] {
        var j :| 0 <= j < n && '\r' in ks[..n][j];
        assert ks[j] == ks[..n][j];
      }
    }
  }

  lemma {:induction false} ScriptLinesCarriageReturn(ss: seq<Script>)
    ensures '\r' !in ScriptLines(ss)
  {
    if ss != [] {
      ScriptLinesCarriageReturn(ss[..|ss| - 1]);
      StripIsErase(ss[|ss| - 1].text);
    }
  }

  /**
   * Every text is exported without carriage returns; one can appear in the
   * output only inside a header, where the key is written as it is.
   */
  lemma NoCarriageReturn(p: Project, includeEmptyLines: bool)
    requires WellFormed(p)
    ensures '\r' in AllCode(p, includeEmptyLines) <==>
      (exists j :: 0 <= j < |p.scenes.keys| && '\r' in p.scenes.keys[j])
      || (exists j :: 0 <= j < |p.definitionGroups.keys| && '\r' in p.definitionGroups.keys[j])
  {
    SectionsCarriageReturn("scene", p.scenes.keys, p.scenes.entries, includeEmptyLines);
    SectionsCarriageReturn("definitions", p.definitionGroups.keys, p.definitionGroups.entries, includeEmptyLines);
    ScriptLinesCarriageReturn(p.scripts);
  }

  // ---------------------------------------------------------------- structure

  lemma {:induction false} SectionsFrame(header: string, ks: seq<string>, e1: map<string, Item>, e2: map<string, Item>, includeEmptyLines: bool)
    requires forall k :: k in ks ==> k in e1 && k in e2 && e1[k].text == e2[k].text
    ensures Sections(header, ks, e1, includeEmptyLines) == Sections(header, ks, e2, includeEmptyLines)
  {
    if ks != [] {
      SectionsFrame(header, ks[..|ks| - 1], e1, e2, includeEmptyLines);
    }
  }

  /** A newly created scene is exported after every older scene, with the default text, and nothing else in the output moves. */
  lemma ExportNewScene(p: Project, name: string, namespace: string, includeEmptyLines: bool)
    requires WellFormed(p) && NewItemCode(p, name, namespace) == 0
    ensures AllCode(NewItem(p, SceneMap, name, namespace), includeEmptyLines) ==
      Sections("scene", p.scenes.keys, p.scenes.entries, includeEmptyLines)
      + Section("scene", FullName(namespace, name), SceneTemplate, includeEmptyLines)
      + Sections("definitions", p.definitionGroups.keys, p.definitionGroups.entries, includeEmptyLines)
      + ScriptLines(p.scripts)
  {
    var key := FullName(namespace, name);
    var q := NewItem(p, SceneMap, name, namespace);
    NewItemAppends(p, SceneMap, name, namespace);
    assert q.scenes.keys == p.scenes.keys + [key];
    assert q.scenes.keys[..|q.scenes.keys| - 1] == p.scenes.keys;
    SectionsFrame("scene", p.scenes.keys, q.scenes.entries, p.scenes.entries, includeEmptyLines);
  }

  /** A project with one scene `a.b` whose text is `x\r\ny` and one script `z`. */
  function SampleProject(): (p: Project)
    ensures WellFormed(p)
  {
    Project("p", "me", "", Table(["a.b"], map["a.b" := Item("b", "a", "x\r\ny")]), Empty(), [Script("s", "z")])
  }

  /** The carriage return is dropped, both lines are indented, and the script follows. */
  lemma SampleExport()
    ensures AllCode(SampleProject(), true) == "scene a.b:\n    x\n    y\n" + "z\n"
  {
    SampleScenes();
    SampleScripts();
    AllCodeWithoutGroups(SampleProject(), true, "scene a.b:\n    x\n    y\n", "z\n");
  }

  /** The export of a project without definition groups, from its scene and script parts. */
  lemma AllCodeWithoutGroups(p: Project, includeEmptyLines: bool, scenes: string, scripts: string)
    requires WellFormed(p) && p.definitionGroups.keys == []
    requires Sections("scene", p.scenes.keys, p.scenes.entries, includeEmptyLines) == scenes
    requires ScriptLines(p.scripts) == scripts
    ensures AllCode(p, includeEmptyLines) == scenes + scripts
  {
  }

  lemma SampleScenes()
    ensures Sections("scene", SampleProject().scenes.keys, SampleProject().scenes.entries, true) == "scene a.b:\n    x\n    y\n"
  {
    SectionsSingle("scene", "a.b", SampleProject().scenes.entries, true);
    SampleSection();
  }

  lemma SampleScripts()
    ensures ScriptLines(SampleProject().scripts) == "z\n"
  {
    StripIsErase("z");
    EraseAbsent("z", '\r');
    ScriptLinesSingle(Script("s", "z"));
  }

  lemma SectionsSingle(header: string, key: string, entries: map<string, Item>, includeEmptyLines: bool)
    requires key in entries
    ensures Sections(header, [key], entries, includeEmptyLines) == Section(header, key, entries[key].text, includeEmptyLines)
  {
    assert [key][..0] == [];
  }

  lemma ScriptLinesSingle(s: Script)
    ensures ScriptLines([s]) == StripCarriageReturns(s.text) + "\n"
  {
    assert [s][..0] == [];
  }

  lemma SampleSection()
    ensures Section("scene", "a.b", "x\r\ny", true) == "scene a.b:\n    x\n    y\n"
  {
    SampleIndent();
    SectionOf("scene", "a.b", "x\r\ny", true, "    x\n    y");
    SampleSectionText();
  }

  /** A section, given the indented body of its text. */
  lemma SectionOf(header: string, key: string, text: string, includeEmptyLines: bool, body: string)
    requires Indent(StripCarriageReturns(text), includeEmptyLines) == body
    ensures Section(header, key, text, includeEmptyLines) == header + " " + key + ":\n" + body + "\n"
  {
  }

  lemma SampleSectionText()
    ensures "scene" + " " + "a.b" + ":\n" + "    x\n    y" + "\n" == "scene a.b:\n    x\n    y\n"
  {
  }

  lemma SampleIndent()
    ensures Indent(StripCarriageReturns("x\r\ny"), true) == "    x\n    y"
  {
    StripIsErase("x\r\ny");
    SampleErase();
    SampleIndentLines();
  }

  lemma SampleErase()
    ensures Erase("x\r\ny", '\r') == "x\ny"
  {
    var s := "x\r\ny";
    assert s[1..] == "\r\ny" && s[2..] == "\ny" && s[3..] == "y" && s[4..] == "";
    assert Erase(s[3..], '\r') == "y";
    assert Erase(s[2..], '\r') == "\ny";
    assert Erase(s[1..], '\r') == "\ny";
  }

  lemma SampleIndentLines()
    ensures Indent("x\ny", true) == "    x\n    y"
  {
    var s := "x\ny";
    assert s[1..] == "\ny" && s[2..] == "y" && s[..1] == "x";
    assert LineEnd(s[2..]) == 1 && s[2..][..1] == "y";
    assert Indent(s[2..], true) == "    y";
    assert LineEnd(s[1..]) == 0;
    assert LineEnd(s) == 1;
  }

  // ---------------------------------------------------------------- the two versions

  /** Texts none of whose lines is blank once carriage returns are removed. */
  predicate NoBlankLines(p: Project) {
    && (forall k :: k in p.scenes.entries ==> !HasBlankLine(StripCarriageReturns(p.scenes.entries[k].text)))
    && (forall k :: k in p.definitionGroups.entries ==> !HasBlankLine(StripCarriageReturns(p.definitionGroups.entries[k].text)))
  }

  lemma {:induction false} SectionsModesAgree(header: string, ks: seq<string>, entries: map<string, Item>)
    requires forall k :: k in ks ==> k in entries && !HasBlankLine(StripCarriageReturns(entries[k].text))
    ensures Sections(header, ks, entries, false) == Sections(header, ks, entries, true)
  {
    if ks != [] {
      var n := |ks| - 1;
      SectionsModesAgree(header, ks[..n], entries);
      IndentModesAgree(StripCarriageReturns(entries[ks[n]].text));
    }
  }

  /** The earlier and the later exporter agree on every project whose texts have no blank lines. */
  lemma ExportVersionsAgree(p: Project)
    requires WellFormed(p) && NoBlankLines(p)
    ensures AllCode(p, false) == AllCode(p, true)
  {
    SectionsModesAgree("scene", p.scenes.keys, p.scenes.entries);
    SectionsModesAgree("definitions", p.definitionGroups.keys, p.definitionGroups.entries);
  }

  /** On an empty scene text the later exporter writes an indented empty line and the earlier one a bare empty line. */
  lemma ExportVersionsDiffer()
    ensures Section("scene", "k", "", true) == "scene k:\n    \n"
    ensures Section("scene", "k", "", false) == "scene k:\n\n"
  {
    StripIsErase("");
    assert LineEnd("") == 0;
    assert IsBlank("");
  }
}
