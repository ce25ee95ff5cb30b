/** The first pass: the set of simple names of every class and interface
    declared anywhere in the project (App.java, lines 25 and 62-75). */
module SymbolRegistry {
  import opened Optional
  import opened SourceModel

  /** The names of all class and interface declarations in the given trees,
      each declaration before the ones nested in it and before its later
      siblings, as a search of the whole tree lists them. */
  function FindAll(types: seq<TypeDecl>): seq<string>
    decreases types
  {
    if types == [] then []
    else [types[0].name] + FindAll(types[0].nested) + FindAll(types[1..])
  }

  /** Reference definition: some declaration, at some depth, has the name `n`. */
  predicate Declares(types: seq<TypeDecl>, n: string)
    decreases types
  {
    exists i :: 0 <= i < |types| && (types[i].name == n || Declares(types[i].nested, n))
  }

  /** The names one file contributes to the registry; none when it failed to parse. */
  function FileNames(f: SourceFile): set<string>
  {
    match f.parsed
    case None => {}
    case Some(unit) => set n | n in FindAll(unit.types)
  }

  /** The registry after the first pass over `files`, in order. */
  function RegistryOf(files: seq<SourceFile>): set<string>
  {
    if files == [] then {}
    else RegistryOf(files[..|files| - 1]) + FileNames(files[|files| - 1])
  }

  /** The first pass: every declared name of every parsed file is added to the
      registry, which starts out as `existing`; a file that failed to parse
      is skipped. */
  method BuildRegistry(files: seq<SourceFile>, existing: set<string>) returns (registry: set<string>)
    ensures registry == existing + RegistryOf(files)
  {
    registry := existing;
    for i := 0 to |files|
      invariant registry == existing + RegistryOf(files[..i])
    {
      match files[i].parsed {
        case None =>
        case Some(unit) =>
          var names := FindAll(unit.types);
          for j := 0 to |names|
            invariant registry == existing + RegistryOf(files[..i]) + (set n | n in names[..j])
          {
            assert names[..j + 1] == names[..j] + [names[j]];
            registry := registry + {names[j]};
          }
          assert names[..|names|] == names;
      }
      assert files[..i + 1][..i] == files[..i];
    }
    assert files[..|files|] == files;
  }

  /** The search finds exactly the declared names, at every depth. */
  lemma {:induction false} FindAllIsComplete(types: seq<TypeDecl>, n: string)
    ensures n in FindAll(types) <==> Declares(types, n)
    decreases types
  {
    if types != [] {
      FindAllIsComplete(types[0].nested, n);
      FindAllIsComplete(types[1..], n);
      if Declares(types[1..], n) {
        var i :| 0 <= i < |types[1..]| && (types[1..][i].name == n || Declares(types[1..][i].nested, n));
        assert types[i + 1] == types[1..][i];
      }
      if Declares(types, n) {
        var i :| 0 <= i < |types| && (types[i].name == n || Declares(types[i].nested, n));
        if i > 0 {
          assert types[1..][i - 1] == types[i];
        }
      }
    }
  }

  /** A name is in the registry exactly when some parsed file declares it. */
  lemma {:induction false} RegistryMembership(files: seq<SourceFile>, n: string)
    ensures n in RegistryOf(files) <==>
      exists f :: f in files && f.parsed.Some? && Declares(f.parsed.value.types, n)
  {
    if files != [] {
      var init, last := files[..|files| - 1], files[|files| - 1];
      assert files == init + [last];
      RegistryMembership(init, n);
      if last.parsed.Some? {
        FindAllIsComplete(last.parsed.value.types, n);
      }
      if exists f :: f in files && f.parsed.Some? && Declares(f.parsed.value.types, n) {
        var f :| f in files && f.parsed.Some? && Declares(f.parsed.value.types, n);
        if f != last {
          assert f in init;
        }
      }
    }
  }

  /** The registry depends only on which files there are: reordering the
      files, or listing a file twice, does not change it. */
  lemma RegistryIgnoresOrderAndRepetition(files: seq<SourceFile>, other: seq<SourceFile>)
    requires forall f :: f in files <==> f in other
    ensures RegistryOf(files) == RegistryOf(other)
  {
    forall n
      ensures n in RegistryOf(files) <==> n in RegistryOf(other)
    {
      RegistryMembership(files, n);
      RegistryMembership(other, n);
    }
  }

  /** The registry of a concatenation is the union of the registries. */
  lemma {:induction false} RegistryOfConcat(a: seq<SourceFile>, b: seq<SourceFile>)
    ensures RegistryOf(a + b) == RegistryOf(a) + RegistryOf(b)
  {
    if b == [] {
      assert a + b == a;
    } else {
      var init := b[..|b| - 1];
      assert (a + b)[..|a + b| - 1] == a + init;
      assert b == init + [b[|b| - 1]];
      RegistryOfConcat(a, init);
    }
  }
}
