/** The declaration-editing helpers of `typescript-utils.ts`. A source file is
    seen only through what these helpers touch: whether it declares a class,
    its import declarations and its export declarations, each a module
    specifier with an ordered list of named bindings. The helpers edit the
    file in place, so the file is a class whose methods reassign those lists. */
module TypeScriptUtils {
  import opened Common

  /** `import { a, b } from "m"` or `export { a, b } from "m"`. */
  datatype Declaration = Declaration(moduleSpecifier: string, names: seq<string>)

  /** `getImportDeclaration(m)` / `getExportDeclaration(m)`: the position of the
      first declaration for specifier `m`, if there is one. */
  function FindDeclaration(decls: seq<Declaration>, m: string): (r: Option<nat>)
    ensures r.Some? ==> r.value < |decls| && decls[r.value].moduleSpecifier == m
    ensures r.Some? ==> forall j :: 0 <= j < r.value ==> decls[j].moduleSpecifier != m
    ensures r.None? <==> forall j :: 0 <= j < |decls| ==> decls[j].moduleSpecifier != m
  {
    if decls == [] then None
    else if decls[0].moduleSpecifier == m then Some(0)
    else match FindDeclaration(decls[1..], m)
      case None => None
      case Some(k) => Some(k + 1)
  }

  /** One call of the inner `addExport`/`addImport`: find the declaration for `m`,
      create an empty one at the end if there is none, and append `name` to its
      bindings unless a binding of that name is already there. */
  function WithName(decls: seq<Declaration>, m: string, name: string): seq<Declaration>
  {
    match FindDeclaration(decls, m)
    case None => decls + [Declaration(m, [name])]
    case Some(k) =>
      if name in decls[k].names then decls
      else decls[k := decls[k].(names := decls[k].names + [name])]
  }

  /** The array form: the single-name form applied to each name in order. */
  function WithNames(decls: seq<Declaration>, m: string, names: seq<string>): seq<Declaration>
    decreases |names|
  {
    if names == [] then decls
    else WithName(WithNames(decls, m, names[..|names| - 1]), m, names[|names| - 1])
  }

  /** `specifier.remove()` on the first binding named `x`. */
  function RemoveFirst(xs: seq<string>, x: string): (r: seq<string>)
    ensures multiset(r) == multiset(xs) - multiset{x}
    ensures x !in xs ==> r == xs
    ensures |r| == if x in xs then |xs| - 1 else |xs|
  {
    if xs == [] then []
    else
      assert xs == [xs[0]] + xs[1..];
      if xs[0] == x then xs[1..]
      else [xs[0]] + RemoveFirst(xs[1..], x)
  }

  /** Removal deletes exactly the first occurrence and keeps the other
      bindings in their order. */
  lemma {:induction false} RemoveFirstKeepsOrder(xs: seq<string>, x: string)
    requires x in xs
    ensures RemoveFirst(xs, x) == xs[..FirstIndex(xs, x)] + xs[FirstIndex(xs, x) + 1..]
    decreases |xs|
  {
    var tail := xs[1..];
    assert xs == [xs[0]] + tail;
    if xs[0] == x {
      assert FirstIndex(xs, x) == 0;
    } else {
      assert x in tail;
      var i := FirstIndex(tail, x);
      assert FirstIndex(xs, x) == 1 + i;
      RemoveFirstKeepsOrder(tail, x);
      assert RemoveFirst(xs, x) == [xs[0]] + RemoveFirst(tail, x);
      SpliceCons(xs, i);
    }
  }

  /** Cutting out element `i + 1` of `xs` is keeping its head and cutting out
      element `i` of its tail. */
  lemma SpliceCons<T>(xs: seq<T>, i: nat)
    requires i + 1 < |xs|
    ensures xs[..1 + i] + xs[1 + i + 1..] == [xs[0]] + (xs[1..][..i] + xs[1..][i + 1..])
  {
    assert xs[..1 + i] == [xs[0]] + xs[1..][..i];
    assert xs[1 + i + 1..] == xs[1..][i + 1..];
  }


  /** One call of the inner `removeImport`: nothing happens when no declaration
      for `m` exists; otherwise the first binding named `name` is removed from
      the first such declaration, and the declaration itself is deleted when it
      is left without bindings. */
  function WithoutName(decls: seq<Declaration>, m: string, name: string): seq<Declaration>
  {
    match FindDeclaration(decls, m)
    case None => decls
    case Some(k) =>
      var rest := RemoveFirst(decls[k].names, name);
      if rest == [] then decls[..k] + decls[k + 1..]
      else decls[k := decls[k].(names := rest)]
  }

  /** The array form of removal. */
  function WithoutNames(decls: seq<Declaration>, m: string, names: seq<string>): seq<Declaration>
    decreases |names|
  {
    if names == [] then decls
    else WithoutName(WithoutNames(decls, m, names[..|names| - 1]), m, names[|names| - 1])
  }

  /** The parts of a ts-morph source file that the helpers read and change. */
  class SourceFile {
    /** `getClasses()[0]` exists. */
    var hasClass: bool
    var imports: seq<Declaration>
    var exports: seq<Declaration>

    constructor (hasClass: bool, imports: seq<Declaration>, exports: seq<Declaration>)
      ensures this.hasClass == hasClass && this.imports == imports && this.exports == exports
    {
      this.hasClass := hasClass;
      this.imports := imports;
      this.exports := exports;
    }

    /** `removeText()`: the file is emptied. */
    method RemoveText()
      modifies this
      ensures !hasClass && imports == [] && exports == []
    {
      hasClass, imports, exports := false, [], [];
    }

    /** `addExportToFile(file, name, m)` with a single name. */
    method AddExport(name: string, m: string)
      modifies this
      ensures exports == WithName(old(exports), m, name)
      ensures imports == old(imports) && hasClass == old(hasClass)
    {
      var found := FindDeclaration(exports, m);
      var k: nat;
      if found.None? {
        exports := exports + [Declaration(m, [])];
        k := |exports| - 1;
        assert [] + [name] == [name];
      } else {
        k := found.value;
      }
      if name !in exports[k].names {
        exports := exports[k := exports[k].(names := exports[k].names + [name])];
      }
    }

    /** `addExportToFile(file, names, m)` with an array of names. */
    method AddExports(names: seq<string>, m: string)
      modifies this
      ensures exports == WithNames(old(exports), m, names)
      ensures imports == old(imports) && hasClass == old(hasClass)
    {
      for i := 0 to |names|
        invariant exports == WithNames(old(exports), m, names[..i])
        invariant imports == old(imports) && hasClass == old(hasClass)
      {
        assert names[..i + 1][..i] == names[..i];
        AddExport(names[i], m);
      }
      assert names[..|names|] == names;
    }

    /** `addImportToClass(file, name, m)` with a single name: nothing happens
        when the file declares no class. */
    method AddImport(name: string, m: string)
      modifies this
      ensures imports == if old(hasClass) then WithName(old(imports), m, name) else old(imports)
      ensures exports == old(exports) && hasClass == old(hasClass)
    {
      if !hasClass {
        return;
      }
      var found := FindDeclaration(imports, m);
      var k: nat;
      if found.None? {
        imports := imports + [Declaration(m, [])];
        k := |imports| - 1;
        assert [] + [name] == [name];
      } else {
        k := found.value;
      }
      if name !in imports[k].names {
        imports := imports[k := imports[k].(names := imports[k].names + [name])];
      }
    }

    /** `addImportToClass(file, names, m)` with an array of names. */
    method AddImports(names: seq<string>, m: string)
      modifies this
      ensures imports == if old(hasClass) then WithNames(old(imports), m, names) else old(imports)
      ensures exports == old(exports) && hasClass == old(hasClass)
    {
      for i := 0 to |names|
        invariant imports == if hasClass then WithNames(old(imports), m, names[..i]) else old(imports)
        invariant exports == old(exports) && hasClass == old(hasClass)
      {
        assert names[..i + 1][..i] == names[..i];
        AddImport(names[i], m);
      }
      assert names[..|names|] == names;
    }

    /** `removeImportFromClass(file, name, m)` with a single name. */
    method RemoveImport(name: string, m: string)
      modifies this
      ensures imports == WithoutName(old(imports), m, name)
      ensures exports == old(exports) && hasClass == old(hasClass)
    {
      var found := FindDeclaration(imports, m);
      if found.None? {
        return;
      }
      var k := found.value;
      if name in imports[k].names {
        imports := imports[k := imports[k].(names := RemoveFirst(imports[k].names, name))];
      }
      if imports[k].names == [] {
        imports := imports[..k] + imports[k + 1..];
      }
    }

    /** `removeImportFromClass(file, names, m)` with an array of names. */
    method RemoveImports(names: seq<string>, m: string)
      modifies this
      ensures imports == WithoutNames(old(imports), m, names)
      ensures exports == old(exports) && hasClass == old(hasClass)
    {
      for i := 0 to |names|
        invariant imports == WithoutNames(old(imports), m, names[..i])
        invariant exports == old(exports) && hasClass == old(hasClass)
      {
        assert names[..i + 1][..i] == names[..i];
        RemoveImport(names[i], m);
      }
      assert names[..|names|] == names;
    }
  }

  // ---------------------------------------------------------------------------
  // Properties of adding a name

  /** After adding, the declaration the next lookup finds for `m` holds `name`. */
  lemma AddedNameIsDeclared(decls: seq<Declaration>, m: string, name: string)
    ensures FindDeclaration(WithName(decls, m, name), m).Some?
    ensures name in WithName(decls, m, name)[FindDeclaration(WithName(decls, m, name), m).value].names
  {
    var r := WithName(decls, m, name);
    match FindDeclaration(decls, m)
    case None =>
      assert r[|decls|].moduleSpecifier == m;
      assert FindDeclaration(r, m) == Some(|decls|);
    case Some(k) =>
      assert r[k].moduleSpecifier == m;
      assert forall j :: 0 <= j < k ==> r[j] == decls[j];
      assert FindDeclaration(r, m) == Some(k);
  }

  /** A declaration is created exactly when none exists for `m`; otherwise the
      existing one gains `name` at the end of its bindings (or stays as it is
      when `name` is already bound), and every other declaration is unchanged. */
  lemma WithNameFrame(decls: seq<Declaration>, m: string, name: string)
    ensures FindDeclaration(decls, m).None? ==>
      WithName(decls, m, name) == decls + [Declaration(m, [name])]
    ensures FindDeclaration(decls, m).Some? ==>
      var k := FindDeclaration(decls, m).value;
      var r := WithName(decls, m, name);
      && |r| == |decls|
      && (forall j :: 0 <= j < |decls| && j != k ==> r[j] == decls[j])
      && r[k].moduleSpecifier == m
      && r[k].names == (if name in decls[k].names then decls[k].names else decls[k].names + [name])
  {
  }

  /** Adding a name that is already exported from `m` leaves the file unchanged. */
  lemma WithNameIdempotent(decls: seq<Declaration>, m: string, name: string)
    ensures WithName(WithName(decls, m, name), m, name) == WithName(decls, m, name)
  {
    AddedNameIsDeclared(decls, m, name);
  }

  /** The array form binds every listed name under `m` and preserves the
      bindings it found there. */
  lemma {:induction false} WithNamesDeclaresAll(decls: seq<Declaration>, m: string, names: seq<string>)
    requires names != [] || FindDeclaration(decls, m).Some?
    ensures FindDeclaration(WithNames(decls, m, names), m).Some?
    ensures forall x :: x in names ==> x in WithNames(decls, m, names)[FindDeclaration(WithNames(decls, m, names), m).value].names
    ensures FindDeclaration(decls, m).Some? ==>
      var k := FindDeclaration(decls, m).value;
      FindDeclaration(WithNames(decls, m, names), m) == Some(k)
      && forall x :: x in decls[k].names ==> x in WithNames(decls, m, names)[k].names
    decreases |names|
  {
    if names != [] {
      var init := names[..|names| - 1];
      var last := names[|names| - 1];
      var before := WithNames(decls, m, init);
      var after := WithName(before, m, last);
      assert after == WithNames(decls, m, names);
      AddedNameIsDeclared(before, m, last);
      WithNameFrame(before, m, last);
      if init != [] || FindDeclaration(decls, m).Some? {
        WithNamesDeclaresAll(decls, m, init);
        var kb := FindDeclaration(before, m).value;
        assert FindDeclaration(after, m) == Some(kb) by {
          assert forall j :: 0 <= j < kb ==> after[j] == before[j];
        }
        forall x | x in names
          ensures x in after[kb].names
        {
          if x != last {
            assert x in init by {
              var p :| 0 <= p < |names| && names[p] == x;
              assert p < |names| - 1;
              assert init[p] == x;
            }
          }
        }
      } else {
        assert names == [last];
        assert before == decls;
      }
    }
  }

  /** Adding names to a file with no declarations yields one declaration
      holding each distinct name once, in order of first appearance. */
  lemma {:induction false} WithNamesFromEmpty(m: string, names: seq<string>)
    ensures WithNames([], m, names) == if names == [] then [] else [Declaration(m, Distinct(names))]
    decreases |names|
  {
    if names != [] {
      var init := names[..|names| - 1];
      var last := names[|names| - 1];
      assert names == init + [last];
      DistinctSnoc(init, last);
      assert WithNames([], m, names) == WithName(WithNames([], m, init), m, last);
      if init == [] {
        assert WithNames([], m, init) == [];
        assert Distinct(init) == [];
      } else {
        WithNamesFromEmpty(m, init);
        WithNameSingle(m, Distinct(init), last);
      }
    }
  }

  lemma WithNameSingle(m: string, names: seq<string>, x: string)
    ensures WithName([Declaration(m, names)], m, x) == [Declaration(m, AddUnique(names, x))]
  {
    assert FindDeclaration([Declaration(m, names)], m) == Some(0);
  }

  // ---------------------------------------------------------------------------
  // Properties of removing a name

  /** With no declaration for `m`, removal changes nothing. */
  lemma WithoutNameAbsent(decls: seq<Declaration>, m: string, name: string)
    requires forall j :: 0 <= j < |decls| ==> decls[j].moduleSpecifier != m
    ensures WithoutName(decls, m, name) == decls
  {
  }

  /** Otherwise the first binding named `name`, if any, leaves the first
      declaration for `m` and the other bindings keep their order; the
      declaration is deleted exactly when no binding is left (even when `name`
      was not bound there), and the other declarations keep their order. */
  lemma WithoutNameEffect(decls: seq<Declaration>, m: string, name: string, k: nat)
    requires FindDeclaration(decls, m) == Some(k)
    ensures var names := decls[k].names;
      var left := if name in names then names[..FirstIndex(names, name)] + names[FirstIndex(names, name) + 1..]
                  else names;
      var r := WithoutName(decls, m, name);
      if left == [] then
        r == decls[..k] + decls[k + 1..]
      else
        && |r| == |decls|
        && (forall j :: 0 <= j < |decls| && j != k ==> r[j] == decls[j])
        && r[k] == Declaration(m, left)
  {
    var names := decls[k].names;
    if name in names {
      RemoveFirstKeepsOrder(names, name);
    }
    WithoutNameShape(decls, m, name, k, RemoveFirst(names, name));
  }

  /** `WithoutName` in terms of the bindings `rest` left after removal. */
  lemma WithoutNameShape(decls: seq<Declaration>, m: string, name: string, k: nat, rest: seq<string>)
    requires FindDeclaration(decls, m) == Some(k)
    requires rest == RemoveFirst(decls[k].names, name)
    ensures var r := WithoutName(decls, m, name);
      if rest == [] then
        r == decls[..k] + decls[k + 1..]
      else
        && |r| == |decls|
        && (forall j :: 0 <= j < |decls| && j != k ==> r[j] == decls[j])
        && r[k] == Declaration(m, rest)
  {
  }

  /** Removing a binding just added under a specifier is undone exactly, unless
      the declaration found had no bindings before (it is then deleted). */
  lemma RemoveUndoesAdd(decls: seq<Declaration>, m: string, name: string)
    requires FindDeclaration(decls, m).Some? ==>
      var k := FindDeclaration(decls, m).value;
      name !in decls[k].names && decls[k].names != []
    ensures WithoutName(WithName(decls, m, name), m, name) == decls
  {
    if FindDeclaration(decls, m).None? {
      RemoveUndoesCreate(decls, m, name);
    } else {
      RemoveUndoesAppend(decls, m, name, FindDeclaration(decls, m).value);
    }
  }

  lemma RemoveUndoesCreate(decls: seq<Declaration>, m: string, name: string)
    requires FindDeclaration(decls, m).None?
    ensures WithoutName(WithName(decls, m, name), m, name) == decls
  {
    var added := decls + [Declaration(m, [name])];
    assert WithName(decls, m, name) == added;
    assert FindDeclaration(added, m) == Some(|decls|) by {
      assert forall j :: 0 <= j < |decls| ==> added[j] == decls[j];
    }
    assert added[|decls|].names == [name];
    assert RemoveFirst([name], name) == [];
    WithoutNameShape(added, m, name, |decls|, []);
    assert added[..|decls|] + added[|decls| + 1..] == decls;
  }

  lemma RemoveUndoesAppend(decls: seq<Declaration>, m: string, name: string, k: nat)
    requires FindDeclaration(decls, m) == Some(k)
    requires name !in decls[k].names && decls[k].names != []
    ensures WithoutName(WithName(decls, m, name), m, name) == decls
  {
    var added := decls[k := decls[k].(names := decls[k].names + [name])];
    assert WithName(decls, m, name) == added;
    assert FindDeclaration(added, m) == Some(k) by {
      assert forall j :: 0 <= j < k ==> added[j] == decls[j];
    }
    RemoveLast(decls[k].names, name);
    assert added[k := added[k].(names := decls[k].names)] == decls;
  }

  lemma {:induction false} RemoveLast(xs: seq<string>, x: string)
    requires x !in xs
    ensures RemoveFirst(xs + [x], x) == xs
    decreases |xs|
  {
    if xs == [] {
      assert [] + [x] == [x];
    } else {
      assert (xs + [x])[0] == xs[0] && (xs + [x])[1..] == xs[1..] + [x];
      RemoveLast(xs[1..], x);
      assert [xs[0]] + xs[1..] == xs;
    }
  }
}
