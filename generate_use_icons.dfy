/** `generateUseIcons` of `0002-generate-use-icons.ts`: collect the icon names
    used by every HTML template and every component's inline template in the
    project, deduplicate them keeping first occurrences, and, when any were
    found, rewrite `use-icons.ts` so that it re-exports exactly those icons (as
    camelCase bindings) from `ionicons/icons`. */
module GenerateUseIcons {
  import opened Common
  import opened StringUtils
  import opened TemplateWalk
  import opened TypeScriptUtils

  /** The module the icon bindings are re-exported from. */
  const IconsModule := "ionicons/icons"

  /** A project file as the migration sees it: its path, its full text, and
      what `getComponentTemplateAsString` yields for it (`None` for
      `undefined`). */
  datatype ProjectFile = ProjectFile(filePath: string, fullText: string, componentTemplate: Option<string>)

  /** The template text handed to the walk for this file, if any: the full
      text of an `.html` file; the inline template of a `.ts` file when it is
      a non-empty string (an empty string is falsy); nothing otherwise. */
  function TemplateText(f: ProjectFile): (r: Option<string>)
    ensures EndsWith(f.filePath, ".html") ==> r == Some(f.fullText)
    ensures r.Some? && !EndsWith(f.filePath, ".html") ==>
      EndsWith(f.filePath, ".ts") && f.componentTemplate == r && r.value != ""
    ensures r.None? ==> (!EndsWith(f.filePath, ".html")
      && (!EndsWith(f.filePath, ".ts") || f.componentTemplate.None? || f.componentTemplate.value == ""))
  {
    if EndsWith(f.filePath, ".html") then Some(f.fullText)
    else if EndsWith(f.filePath, ".ts") && f.componentTemplate.Some? && f.componentTemplate.value != "" then
      f.componentTemplate
    else None
  }

  /** The icons one file contributes, in the order its walk records them. */
  function IconsOf(f: ProjectFile, parse: string -> seq<Node>, components: set<string>): seq<string> {
    match TemplateText(f)
    case None => []
    case Some(t) => WalkAll(EmptyScan, parse(t), components).ionIcons
  }

  /** The per-file icon lists concatenated in file order. */
  function CollectedIcons(files: seq<ProjectFile>, parse: string -> seq<Node>, components: set<string>): seq<string>
    decreases |files|
  {
    if files == [] then []
    else CollectedIcons(files[..|files| - 1], parse, components) + IconsOf(files[|files| - 1], parse, components)
  }

  /** A name is collected exactly when some file contributes it. */
  lemma {:induction false} CollectedIconsMeaning(files: seq<ProjectFile>, parse: string -> seq<Node>, components: set<string>)
    ensures forall x :: x in CollectedIcons(files, parse, components) <==>
      exists i :: 0 <= i < |files| && x in IconsOf(files[i], parse, components)
    decreases |files|
  {
    if files != [] {
      var init := files[..|files| - 1];
      CollectedIconsMeaning(init, parse, components);
      forall i | 0 <= i < |init| ensures init[i] == files[i] { }
    }
  }

  /** A file contributes `x` exactly when it has a template and some element
      or template node of that template's parse, reached by the walk, names
      the icon `x`, and the names come in the order the walk first meets
      them; a file without a template contributes nothing. */
  lemma IconsOfMeaning(f: ProjectFile, parse: string -> seq<Node>, components: set<string>)
    ensures TemplateText(f).None? ==> IconsOf(f, parse, components) == []
    ensures TemplateText(f).Some? ==>
      var order := PreorderAll(parse(TemplateText(f).value));
      (IconsOf(f, parse, components) == Distinct(NamesOf(order))
      && forall x :: x in IconsOf(f, parse, components) <==>
        exists k :: 0 <= k < |order| && IconUseOf(order[k]) == IconName(x))
  {
    if TemplateText(f).Some? {
      DetectMeaning(parse(TemplateText(f).value), components);
    }
  }

  /** Icon names are kebab-case, so each binding converts back to the icon it
      came from and different icons get different bindings: the rewritten
      file has exactly one export per collected icon, in collection order. */
  lemma OneExportPerIcon(icons: seq<string>)
    requires NoDuplicates(icons)
    requires forall i :: 0 <= i < |icons| ==> NoUpper(icons[i])
    ensures Distinct(Map(KebabCaseToCamelCase, icons)) == Map(KebabCaseToCamelCase, icons)
    ensures forall i :: 0 <= i < |icons| ==>
      CamelCaseToKebabCase(Map(KebabCaseToCamelCase, icons)[i]) == icons[i]
  {
    var bindings := Map(KebabCaseToCamelCase, icons);
    forall i, j | 0 <= i < j < |bindings| ensures bindings[i] != bindings[j] {
      if bindings[i] == bindings[j] {
        CamelCaseInjective(icons[i], icons[j]);
      }
    }
    DistinctOfNoDuplicates(bindings);
    forall i | 0 <= i < |icons| ensures CamelCaseToKebabCase(bindings[i]) == icons[i] {
      CamelCaseRoundTrip(icons[i]);
    }
  }

  lemma MapSnoc<A, B>(f: A -> B, xs: seq<A>, x: A)
    ensures Map(f, xs + [x]) == Map(f, xs) + [f(x)]
  {
  }

  /** The loop of lines 24-45: the icons of every file, concatenated in file
      order (`ionicComponentsAll` in the source, which holds icon names). */
  method CollectIcons(files: seq<ProjectFile>, parse: string -> seq<Node>, components: set<string>)
    returns (ionIconsAll: seq<string>)
    ensures ionIconsAll == CollectedIcons(files, parse, components)
  {
    ionIconsAll := [];
    for i := 0 to |files|
      invariant ionIconsAll == CollectedIcons(files[..i], parse, components)
    {
      var sourceFile := files[i];
      assert files[..i + 1][..i] == files[..i];
      if EndsWith(sourceFile.filePath, ".html") {
        var result := DetectIonicComponentsAndIcons(parse(sourceFile.fullText), components);
        assert IconsOf(sourceFile, parse, components) == result.ionIcons;
        ionIconsAll := ionIconsAll + result.ionIcons;
      } else if EndsWith(sourceFile.filePath, ".ts") {
        var templateAsString := sourceFile.componentTemplate;
        if templateAsString.Some? && templateAsString.value != "" {
          var result := DetectIonicComponentsAndIcons(parse(templateAsString.value), components);
          assert IconsOf(sourceFile, parse, components) == result.ionIcons;
          ionIconsAll := ionIconsAll + result.ionIcons;
        } else {
          assert IconsOf(sourceFile, parse, components) == [];
        }
      } else {
        assert IconsOf(sourceFile, parse, components) == [];
      }
    }
    assert files[..|files|] == files;
  }

  /** One more icon adds one more camelCase export to the barrel. */
  lemma ExportsStep(icons: seq<string>, j: nat)
    requires j < |icons|
    ensures WithNames([], IconsModule, Map(KebabCaseToCamelCase, icons[..j + 1]))
      == WithName(WithNames([], IconsModule, Map(KebabCaseToCamelCase, icons[..j])),
                  IconsModule, KebabCaseToCamelCase(icons[j]))
  {
    MapSnoc(KebabCaseToCamelCase, icons[..j], icons[j]);
    assert icons[..j + 1] == icons[..j] + [icons[j]];
    var names := Map(KebabCaseToCamelCase, icons[..j + 1]);
    assert names[..|names| - 1] == Map(KebabCaseToCamelCase, icons[..j]);
    assert names[|names| - 1] == KebabCaseToCamelCase(icons[j]);
  }

  /** Lines 57-62: clear the file and add one export from `ionicons/icons`
      per icon, converted to camelCase, in order. */
  method RewriteUseIcons(useIconFile: SourceFile, icons: seq<string>)
    modifies useIconFile
    ensures !useIconFile.hasClass && useIconFile.imports == []
    ensures useIconFile.exports == WithNames([], IconsModule, Map(KebabCaseToCamelCase, icons))
  {
    useIconFile.RemoveText();
    for j := 0 to |icons|
      invariant useIconFile.exports == WithNames([], IconsModule, Map(KebabCaseToCamelCase, icons[..j]))
      invariant !useIconFile.hasClass && useIconFile.imports == []
    {
      var iconName := KebabCaseToCamelCase(icons[j]);
      ExportsStep(icons, j);
      useIconFile.AddExport(iconName, IconsModule);
    }
    assert icons[..|icons|] == icons;
  }

  /** `generateUseIcons(project, cliOptions)`. `existing` is what
      `project.getSourceFile("use-icons.ts")` returns; `parse` stands for the
      Angular template parser and `components` for `IONIC_COMPONENTS`.
      `useIconFile` is the barrel file used, and `saved` says whether it was
      handed to `saveFileChanges`. */
  method GenerateUseIcons(files: seq<ProjectFile>, parse: string -> seq<Node>, components: set<string>,
                          existing: SourceFile?)
    returns (useIconFile: SourceFile, saved: bool)
    modifies existing
    ensures existing != null ==> useIconFile == existing
    ensures existing == null ==> fresh(useIconFile)
    ensures var icons := Distinct(CollectedIcons(files, parse, components));
      icons != [] ==> (saved && !useIconFile.hasClass && useIconFile.imports == []
        && useIconFile.exports == [Declaration(IconsModule, Distinct(Map(KebabCaseToCamelCase, icons)))])
    ensures var icons := Distinct(CollectedIcons(files, parse, components));
      icons == [] ==> (!saved
        && (existing != null ==> unchanged(existing))
        && (existing == null ==> !useIconFile.hasClass && useIconFile.imports == [] && useIconFile.exports == []))
  {
    var ionIconsAll := CollectIcons(files, parse, components);
    ionIconsAll := Distinct(ionIconsAll);

    if existing == null {
      useIconFile := new SourceFile(false, [], []);
    } else {
      useIconFile := existing;
    }

    saved := false;
    if |ionIconsAll| > 0 {
      RewriteUseIcons(useIconFile, ionIconsAll);
      WithNamesFromEmpty(IconsModule, Map(KebabCaseToCamelCase, ionIconsAll));
      saved := true;
    }
  }

  /** `<ion-icon name="icon"></ion-icon>`: an element with one static `name`. */
  function StaticIconElement(icon: string): Node {
    Node(Element, "ion-icon", "", [TextAttribute("name", icon)], [], "", [])
  }

  /** Walking two static `ion-icon` elements records their names in order. */
  lemma TwoStaticIconsWalk(a: string, b: string, components: set<string>)
    requires a != b
    ensures WalkAll(EmptyScan, [StaticIconElement(a), StaticIconElement(b)], components).ionIcons == [a, b]
  {
    var nodes := [StaticIconElement(a), StaticIconElement(b)];
    StaticNameWins(nodes[0], 0);
    StaticNameWins(nodes[1], 0);
    var first := Inspect(EmptyScan, nodes[0], components);
    LeafWalk(EmptyScan, nodes[0], components);
    assert first.ionIcons == [a];
    var second := Inspect(first, nodes[1], components);
    LeafWalk(first, nodes[1], components);
    assert second.ionIcons == [a, b];
    assert nodes[1..][1..] == [];
  }

  lemma LeafWalk(st: Scan, n: Node, components: set<string>)
    requires IsInspected(n) && n.children == []
    ensures Walk(st, n, components) == Inspect(st, n, components)
  {
  }

  /** The shape of the source's test: one component file whose inline template
      holds two `ion-icon` elements with static names `a` then `b` yields the
      list `a, b`, and so the exports `camel(a), camel(b)`, in that order
      (`logoIonic, closeOutline` for `logo-ionic` and `close-outline`, by
      `IconBindingExamples`). */
  lemma TwoStaticIconsExample(f: ProjectFile, parse: string -> seq<Node>, components: set<string>, a: string, b: string)
    requires EndsWith(f.filePath, ".ts") && !EndsWith(f.filePath, ".html")
    requires f.componentTemplate.Some? && f.componentTemplate.value != ""
    requires parse(f.componentTemplate.value) == [StaticIconElement(a), StaticIconElement(b)]
    requires a != b && NoUpper(a) && NoUpper(b)
    ensures Distinct(CollectedIcons([f], parse, components)) == [a, b]
    ensures Distinct(Map(KebabCaseToCamelCase, [a, b])) == [KebabCaseToCamelCase(a), KebabCaseToCamelCase(b)]
  {
    TwoStaticIconsWalk(a, b, components);
    assert IconsOf(f, parse, components) == [a, b];
    assert [f][..0] == [];
    assert CollectedIcons([f], parse, components) == [a, b];
    DistinctOfNoDuplicates([a, b]);
    OneExportPerIcon([a, b]);
  }
}
