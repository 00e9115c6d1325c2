/** What the class names of `ClassNames` look like: the letters and segments that the capitalisations
    and camel-casings give, and the class of a message in closed form. */
module ClassNameForms {
  import opened Strings
  import opened ClassNames

  const LOWER: string := "abcdefghijklmnopqrstuvwxyz"
  const UPPER: string := "ABCDEFGHIJKLMNOPQRSTUVWXYZ"

  // ---------------------------------------------------------------- letters

  /** A lower-case letter goes to the upper-case letter at its place in the alphabet, and every
      other character to itself. */
  lemma UpperLetters(c: char)
    ensures forall i :: 0 <= i < |LOWER| ==> |UPPER| == |LOWER| && Upper(LOWER[i]) == UPPER[i]
    ensures c !in LOWER ==> Upper(c) == c
  {
    if !('a' <= c <= 'z') {
    } else {
      assert LOWER[c as int - 'a' as int] == c;
    }
  }

  /** Capitalising changes the first character only. */
  lemma CapitalizedLetters(s: string)
    requires s != ""
    ensures |Capitalized(s)| == |s| && Capitalized(s)[0] == Upper(s[0])
    ensures forall i :: 1 <= i < |s| ==> Capitalized(s)[i] == s[i]
  {
  }

  // ---------------------------------------------------------------- segments

  /** Words with a separator between them. */
  function Between(words: seq<string>, separator: string): (r: string) {
    if words == [] then ""
    else if |words| == 1 then words[0]
    else words[0] + separator + Between(words[1..], separator)
  }

  /** Words after each other. */
  function Together(words: seq<string>): (r: string) {
    if words == [] then "" else words[0] + Together(words[1..])
  }

  function EachCapitalized(words: seq<string>): (r: seq<string>) {
    seq(|words|, i requires 0 <= i < |words| => Capitalized(words[i]))
  }

  /** Words a delimiter can separate: none has it, and the last is not empty. */
  predicate AreWords(words: seq<string>, delim: char) {
    && (forall i :: 0 <= i < |words| ==> delim !in words[i])
    && (words != [] ==> words[|words| - 1] != "")
  }

  /** Splitting undoes joining; empty words in the middle are kept. */
  lemma {:induction false} SplitBetween(words: seq<string>, delim: char)
    requires AreWords(words, delim)
    ensures Split(Between(words, [delim]), delim) == words
  {
    if words == [] {
    } else if |words| == 1 {
      SplitWord(words[0], delim);
      assert words == [words[0]];
    } else {
      var t := words[1..];
      SplitBetween(t, delim);
      assert words[0] + [delim] + Between(t, [delim]) == words[0] + ([delim] + Between(t, [delim]));
      SplitStep(words[0], Between(t, [delim]), delim);
      assert words == [words[0]] + t;
    }
  }

  /** One delimiter at the end makes no piece. */
  lemma SplitTrailing(word: string, delim: char)
    requires delim !in word
    ensures Split(word + [delim], delim) == [word]
  {
    assert [delim] + "" == [delim];
    SplitStep(word, "", delim);
  }

  lemma {:induction false} JoinedForms(words: seq<string>)
    ensures JoinCapitalized(words) == Between(EachCapitalized(words), "::")
    ensures ConcatCapitalized(words) == Together(EachCapitalized(words))
  {
    if words == [] {
    } else {
      JoinedForms(words[1..]);
      assert EachCapitalized(words)[1..] == EachCapitalized(words[1..]);
    }
  }

  /** A package becomes its capitalised segments with `::` between them. */
  lemma PackageForm(words: seq<string>)
    requires AreWords(words, '.')
    ensures CapitalizePackage(Between(words, ".")) == Between(EachCapitalized(words), "::")
  {
    SplitBetween(words, '.');
    JoinedForms(words);
  }

  /** Camel-casing puts the capitalised words together. */
  lemma CamelForm(words: seq<string>)
    requires AreWords(words, '_')
    ensures ToCamelCase(Between(words, "_")) == Together(EachCapitalized(words))
    ensures CamelFrom(true, Between(words, "_")) == Together(EachCapitalized(words))
  {
    SplitBetween(words, '_');
    JoinedForms(words);
    CamelCasesAgree(Between(words, "_"));
  }

  // ---------------------------------------------------------------- files

  /** The base of a path is what follows its last slash, and the path itself without one. */
  lemma {:induction false} BaseNameForm(dir: string, base: string)
    requires '/' !in base
    ensures BaseName(dir + "/" + base) == base && BaseName(base) == base
  {
    LastAt(dir, base, '/');
    LastNone(base, '/');
    assert (dir + "/" + base)[|dir| + 1..] == base;
  }

  /** The last place of a character, when what follows it does not have it. */
  lemma LastAt(a: string, b: string, c: char)
    requires c !in b
    ensures Last(a + [c] + b, c) == |a| + 1
  {
    hide Last;
    var s := a + [c] + b;
    var i := Last(s, c);
    assert s[|a|] == c;
    forall j | |a| < j < |s| ensures s[j] != c { assert s[j] == b[j - |a| - 1]; }
  }

  lemma LastNone(s: string, c: char)
    requires c !in s
    ensures Last(s, c) == 0
  {
  }

  /** The module of a file depends on its base name only. */
  lemma FileModuleOfBase(dir: string, base: string)
    requires '/' !in base
    ensures RuntimeFileModule(dir + "/" + base) == RuntimeFileModule(base)
    ensures GeneratorFileModule(dir + "/" + base) == GeneratorFileModule(base)
  {
    hide BaseName, CamelFrom, First, Last, ToCamelCase;
    BaseNameForm(dir, base);
  }

  /** It is the camel-cased base name up to the first dot for the runtime, and up to the last
      for the generator. */
  lemma FileModuleForm(stem: string, extension: string)
    requires '/' !in stem && '/' !in extension
    ensures '.' !in stem ==> RuntimeFileModule(stem + "." + extension) == ToCamelCase(stem) == RuntimeFileModule(stem)
    ensures '.' !in extension ==> GeneratorFileModule(stem + "." + extension) == ToCamelCase(stem)
    ensures '.' !in stem ==> GeneratorFileModule(stem) == ToCamelCase(stem)
  {
    hide BaseName, CamelFrom, First, Last, ToCamelCase;
    var base := stem + "." + extension;
    BaseNameForm("", base);
    BaseNameForm("", stem);
    CamelCasesAgree(stem);
    if '.' !in stem {
      assert base == stem + ("." + extension);
      FirstIn(stem, "." + extension, '.');
      assert base[..|stem|] == stem;
      FirstIn(stem, "", '.');
      assert stem + "" == stem && stem[..|stem|] == stem;
      LastNone(stem, '.');
    }
    if '.' !in extension {
      LastAt(stem, extension, '.');
      assert base[..|stem|] == stem;
    }
  }

  lemma {:induction false} CamelLetters(s: string, up: bool, c: char)
    requires c !in s && c !in UPPER
    ensures c !in CamelFrom(up, s)
  {
    if s == "" {
    } else {
      CamelLetters(s[1..], true, c);
      CamelLetters(s[1..], false, c);
      UpperInAlphabet(s[0], c);
    }
  }

  lemma UpperInAlphabet(d: char, c: char)
    requires c !in UPPER && d != c
    ensures Upper(d) != c
  {
    if 'a' <= d <= 'z' { assert UPPER[d as int - 'a' as int] == Upper(d); }
  }

  /** A file's module has neither a slash nor an underscore nor a dot. */
  lemma FileModuleLetters(path: string)
    ensures '/' !in RuntimeFileModule(path) && '_' !in RuntimeFileModule(path) && '.' !in RuntimeFileModule(path)
  {
    var base := BaseName(path);
    var stem := base[..First(base, '.')];
    CamelLetters(stem, true, '/');
    CamelLetters(stem, true, '.');
    NoUnderscore(stem, true);
  }

  lemma {:induction false} NoUnderscore(s: string, up: bool)
    ensures '_' !in CamelFrom(up, s)
  {
    if s == "" {
    } else {
      NoUnderscore(s[1..], true);
      NoUnderscore(s[1..], false);
      if s[0] != '_' { UpperInAlphabet(s[0], '_'); }
    }
  }

  // ---------------------------------------------------------------- classes

  /** The runtime's class in closed form: for any directory, file words, package and names, the
      capitalised package, the file's words together, and the capitalised names. */
  lemma RuntimeClassForm(dir: string, words: seq<string>, pkg: seq<string>, path: seq<string>)
    requires AreWords(words, '_') && (forall i :: 0 <= i < |words| ==> '/' !in words[i] && '.' !in words[i])
    requires pkg != [] && AreNames(pkg) && path != [] && AreNames(path)
    ensures var stem := Between(words, "_");
            var f := File(dir + "/" + stem + ".proto", Between(pkg, "."), []);
            RuntimeClass(f.name, f.pkg, Between(pkg, ".") + "." + Between(path, "."))
            == Between(EachCapitalized(pkg), "::") + "::" + Together(EachCapitalized(words)) + "::" + Between(EachCapitalized(path), "::")
  {
    hide RuntimeClass, RuntimeFileModule, CapitalizePath, First, Last, EachCapitalized, Together, CamelFrom;
    var stem := Between(words, "_");
    NotBetween(words, "_", '/');
    NotBetween(words, "_", '.');
    assert dir + "/" + stem + ".proto" == dir + "/" + (stem + "." + "proto");
    FileModuleOfBase(dir, stem + "." + "proto");
    FileModuleForm(stem, "proto");
    CamelForm(words);
    BetweenJoined(pkg);
    BetweenJoined(path);
    CapitalizationsAgree(pkg);
    CapitalizationsAgree(path);
    JoinedForms(pkg);
    JoinedForms(path);
    SplitJoined(pkg);
    SplitJoined(path);
    ClassParts(dir + "/" + stem + ".proto", Joined(pkg), Joined(path));
  }

  /** The class of a message right in a package. */
  lemma ClassParts(file: string, pkg: string, rel: string)
    requires pkg != "" && pkg[0] != '.' && rel != "" && rel[0] != '.'
    ensures RuntimeClass(file, pkg, pkg + "." + rel)
         == CapitalizePath(true, pkg) + "::" + RuntimeFileModule(file) + "::" + CapitalizePath(true, rel)
    ensures RuntimeClass(file, "", rel) == RuntimeFileModule(file) + "::" + CapitalizePath(true, rel)
    ensures RuntimeClass(file, pkg, pkg) == CapitalizePath(true, pkg) + "::" + RuntimeFileModule(file) + "::" + "UnknownMessage"
  {
    hide CapitalizePath, RuntimeFileModule;
    var name := pkg + "." + rel;
    assert name[0] == pkg[0] && pkg <= name && name[|pkg|..] == "." + rel && ("." + rel)[1..] == rel;
    assert pkg[|pkg|..] == "";
    assert "" + RuntimeFileModule(file) == RuntimeFileModule(file);
  }

  lemma {:induction false} BetweenJoined(names: seq<string>)
    requires names != [] && AreNames(names)
    ensures Between(names, ".") == Joined(names) && Joined(names) != "" && Joined(names)[0] != '.'
    decreases |names|
  {
    assert IsName(names[0]);
    if |names| == 1 {
      assert names[1..] == [];
    } else {
      var t := names[1..];
      assert AreNames(t);
      BetweenJoined(t);
      JoinedHead(names);
      assert names[0] + "." + Joined(t) == names[0] + (['.'] + Joined(t));
    }
  }

  lemma {:induction false} NotBetween(words: seq<string>, separator: string, c: char)
    requires c !in separator && forall i :: 0 <= i < |words| ==> c !in words[i]
    ensures c !in Between(words, separator)
  {
    if |words| <= 1 {
    } else {
      NotBetween(words[1..], separator, c);
    }
  }

  lemma {:induction false} QualifiedForm(prefix: string, path: seq<string>)
    requires path != []
    ensures Qualified(prefix, "::", path) == prefix + "::" + Between(path, "::")
    decreases |path|
  {
    if |path| == 1 {
      assert path[1..] == [];
    } else {
      QualifiedForm(prefix + "::" + path[0], path[1..]);
      var rest := Between(path[1..], "::");
      assert prefix + "::" + path[0] + "::" + rest == prefix + "::" + (path[0] + "::" + rest);
    }
  }

  /** What the generator resolves for a message, in closed form: in a package, the generator's
      package of the file and the names as they are; without one, the capitalised names alone. */
  lemma ResolvedForm(files: seq<File>, i: nat, path: seq<string>)
    requires IsRequest(files) && i < |files| && Leads(files[i].messages, path)
    ensures var f, class_ := files[i], Resolve(Types(files), TypeName(files[i], path));
            class_ == if f.pkg != "" then GetPerlPackage(f) + "::" + Between(path, "::") else Between(EachCapitalized(path), "::")
  {
    hide Types, Leads, GetPerlPackage, Qualified, FullName, Joined, Between, EachCapitalized, JoinCapitalized, CapitalizePackage;
    var f := files[i];
    LeadsNonEmpty(f.messages, path);
    Lookup(files, i, path);
    FullNameParts(f, path);
    QualifiedForm(GetPerlPackage(f), path);
    if f.pkg == "" {
      assert TypeName(f, path)[1..] == Joined(path);
      RuntimeClassParts(f, path);
      JoinedForms(path);
    }
  }

  /** A name that is not registered resolves to its capitalised segments, with or without a dot in
      front. */
  lemma UnregisteredForm(types: map<string, string>, words: seq<string>)
    requires words != [] && AreNames(words)
    requires Between(words, ".") !in types && "." + Between(words, ".") !in types
    ensures Resolve(types, Between(words, ".")) == Between(EachCapitalized(words), "::")
    ensures Resolve(types, "." + Between(words, ".")) == Between(EachCapitalized(words), "::")
  {
    hide EachCapitalized, CapitalizePackage;
    NamesAreWords(words);
    BetweenJoined(words);
    PackageForm(words);
    assert ("." + Between(words, "."))[1..] == Between(words, ".");
  }

  /** Of two entries, or files, of one name the later counts. */
  lemma LaterCounts(m: map<string, string>, es: seq<Entry>, e: Entry, files: seq<File>, f: File)
    ensures e.0 in Store(m, es + [e]) && Store(m, es + [e])[e.0] == e.1
    ensures f.name in Packages(m, files + [f]) && Packages(m, files + [f])[f.name] == GetPerlPackage(f)
  {
    hide GetPerlPackage;
    StoreAppend(m, es, [e]);
    assert [e][1..] == [];
    assert (files + [f])[..|files|] == files;
  }

  /** A full name without its package: after a dot if there is one, also where the package is only
      the beginning of the first segment; a dot in front is ignored; and a name that does not
      begin with the package is kept. */
  lemma RelativeForms(pkg: string, rel: string, name: string)
    requires pkg != "" && pkg[0] != '.'
    ensures RelativeName(pkg + "." + rel, pkg) == rel && RelativeName("." + (pkg + "." + rel), pkg) == rel
    ensures rel == "" || rel[0] != '.' ==> RelativeName(pkg + rel, pkg) == rel
    ensures !(pkg <= name) && (name == "" || name[0] != '.') ==> RelativeName(name, pkg) == name
    ensures name == "" || name[0] != '.' ==> RelativeName(name, "") == name
  {
    var a, b := pkg + "." + rel, pkg + rel;
    assert a[|pkg|..] == "." + rel && ("." + rel)[1..] == rel && a[0] == pkg[0] && ("." + a)[1..] == a;
    assert b[|pkg|..] == rel && b[0] == pkg[0];
  }

  /** The generator's package of a file, in closed form. */
  lemma GeneratorPackageForm(dir: string, words: seq<string>, pkg: seq<string>)
    requires AreWords(words, '_') && forall i :: 0 <= i < |words| ==> '/' !in words[i]
    requires pkg != [] && AreNames(pkg)
    ensures var name := dir + "/" + Between(words, "_") + ".proto";
            && GetPerlPackage(File(name, Between(pkg, "."), []))
               == Between(EachCapitalized(pkg), "::") + "::" + Together(EachCapitalized(words))
            && GetPerlPackage(File(name, "", [])) == Together(EachCapitalized(words))
  {
    hide GeneratorFileModule, EachCapitalized, Together, CapitalizePackage, JoinCapitalized;
    var stem := Between(words, "_");
    NotBetween(words, "_", '/');
    assert dir + "/" + stem + ".proto" == dir + "/" + (stem + "." + "proto");
    FileModuleOfBase(dir, stem + "." + "proto");
    FileModuleForm(stem, "proto");
    CamelForm(words);
    BetweenJoined(pkg);
    SplitJoined(pkg);
    NamesAreWords(pkg);
    PackageForm(pkg);
    PackagesAgree(Joined(pkg));
    PackageForm([]);
    NoWords();
  }

  lemma NoWords()
    ensures Between([], ".") == "" && Between(EachCapitalized([]), "::") == ""
  {
  }

  lemma NamesAreWords(names: seq<string>)
    requires names != [] && AreNames(names)
    ensures AreWords(names, '.')
  {
    assert IsName(names[|names| - 1]);
    forall i | 0 <= i < |names| ensures '.' !in names[i] { assert IsName(names[i]); }
  }

  /** No class name has a slash, when neither the package nor the names have one. */
  lemma ClassHasNoSlash(file: string, pkg: string, fullName: string)
    requires '/' !in pkg && '/' !in fullName
    ensures '/' !in RuntimeClass(file, pkg, fullName)
  {
    hide CapitalizePath, RuntimeFileModule;
    FileModuleLetters(file);
    PathHasNoSlash(pkg, true);
    PathHasNoSlash(RelativeName(fullName, pkg), true);
  }

  lemma {:induction false} PathHasNoSlash(s: string, up: bool)
    requires '/' !in s
    ensures '/' !in CapitalizePath(up, s)
  {
    if s == "" {
    } else {
      PathHasNoSlash(s[1..], s[0] == '.');
      UpperInAlphabet(s[0], '/');
    }
  }

  /** One class spelled out. */
  lemma ClassExample()
    ensures RuntimeClass("g/r/an_a.proto", "g.r", "g.r.He.Li") == "G::R::AnA::He::Li"
  {
    var words, pkg, path := ["an", "a"], ["g", "r"], ["He", "Li"];
    ExampleNames();
    assert "g/r" + "/" + "an_a" + ".proto" == "g/r/an_a.proto";
    assert "g.r" + "." + "He.Li" == "g.r.He.Li";
    assert "G::R" + "::" + "AnA" + "::" + "He::Li" == "G::R::AnA::He::Li";
    hide RuntimeClass, Between, Together, EachCapitalized;
    RuntimeClassForm("g/r", words, pkg, path);
  }

  lemma ExampleNames()
    ensures Between(["an", "a"], "_") == "an_a" && Between(["g", "r"], ".") == "g.r" && Between(["He", "Li"], ".") == "He.Li"
    ensures Between(EachCapitalized(["g", "r"]), "::") == "G::R" && Between(EachCapitalized(["He", "Li"]), "::") == "He::Li"
    ensures Together(EachCapitalized(["an", "a"])) == "AnA"
  {
    hide Between, Together, EachCapitalized, Capitalized;
    Pair("an", "a");
    Pair("g", "r");
    Pair("He", "Li");
    Letters();
  }

  lemma Pair(a: string, b: string)
    ensures Between([a, b], "_") == a + "_" + b && Between([a, b], ".") == a + "." + b
    ensures Between(EachCapitalized([a, b]), "::") == Capitalized(a) + "::" + Capitalized(b)
    ensures Together(EachCapitalized([a, b])) == Capitalized(a) + Capitalized(b)
  {
    hide Capitalized;
    var two := EachCapitalized([a, b]);
    assert [a, b][1..] == [b] && two[1..] == [Capitalized(b)];
    assert Together([Capitalized(b)]) == Capitalized(b) + "" == Capitalized(b);
  }

  lemma Letters()
    ensures Capitalized("an") == "An" && Capitalized("a") == "A" && Capitalized("g") == "G" && Capitalized("r") == "R"
    ensures Capitalized("He") == "He" && Capitalized("Li") == "Li"
  {
  }
}
