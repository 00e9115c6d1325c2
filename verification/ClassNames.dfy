/** The Perl class of a message, computed twice: by the code generator, which registers every
    message of a request under its full name, and by the runtime, from a descriptor. */
module ClassNames {
  import opened Strings

  datatype Message = Message(name: string, nested: seq<Message>)

  datatype File = File(name: string, pkg: string, messages: seq<Message>)

  // ---------------------------------------------------------------- strings

  /** `toupper` in the C locale, and the runtime's own upper-casing. */
  function Upper(c: char): (r: char) {
    if 'a' <= c <= 'z' then c - 32 as char else c
  }

  function Capitalized(s: string): (r: string)
    ensures |r| == |s|
  {
    if s == "" then "" else [Upper(s[0])] + s[1..]
  }

  predicate StartsLower(s: string) { s != "" && 'a' <= s[0] <= 'z' }

  /** The first position of `c` in `s`, or the length of `s`. */
  function First(s: string, c: char): (i: nat)
    ensures i <= |s| && (i < |s| ==> s[i] == c) && forall j :: 0 <= j < i ==> s[j] != c
  {
    if s == "" || s[0] == c then 0
    else
      var i := First(s[1..], c);
      assert forall j :: 1 <= j < i + 1 ==> s[j] == s[1..][j - 1];
      i + 1
  }

  /** One more than the last position of `c` in `s`, or 0. */
  function Last(s: string, c: char): (i: nat)
    ensures i <= |s| && (i > 0 ==> s[i - 1] == c) && forall j :: i <= j < |s| ==> s[j] != c
  {
    if s == "" then 0
    else if s[|s| - 1] == c then |s|
    else
      var i := Last(s[..|s| - 1], c);
      assert forall j :: i <= j < |s| - 1 ==> s[j] == s[..|s| - 1][j];
      i
  }

  function Count(s: string, c: char): (r: nat) {
    if s == "" then 0 else (if s[0] == c then 1 else 0) + Count(s[1..], c)
  }

  /** The pieces between delimiters; an empty piece at the very end is dropped. */
  function Split(s: string, delim: char): (r: seq<string>)
    decreases |s|
  {
    if s == "" then []
    else
      var i := First(s, delim);
      if i == |s| then [s] else [s[..i]] + Split(s[i + 1..], delim)
  }

  // ---------------------------------------------------------------- the generator's names

  /** Capitalised segments joined by `::`. */
  function JoinCapitalized(segments: seq<string>): (r: string) {
    if segments == [] then ""
    else if |segments| == 1 then Capitalized(segments[0])
    else Capitalized(segments[0]) + "::" + JoinCapitalized(segments[1..])
  }

  function ConcatCapitalized(segments: seq<string>): (r: string) {
    if segments == [] then "" else Capitalized(segments[0]) + ConcatCapitalized(segments[1..])
  }

  function CapitalizePackage(s: string): (r: string) { JoinCapitalized(Split(s, '.')) }

  function ToCamelCase(s: string): (r: string) { ConcatCapitalized(Split(s, '_')) }

  function BaseName(path: string): (r: string) { path[Last(path, '/')..] }

  function GeneratorFileModule(name: string): (r: string) {
    var base := BaseName(name);
    var dot := Last(base, '.');
    ToCamelCase(if dot > 0 then base[..dot - 1] else base)
  }

  function GetPerlPackage(f: File): (r: string) {
    var basePackage := CapitalizePackage(f.pkg);
    if basePackage != "" then basePackage + "::" + GeneratorFileModule(f.name) else GeneratorFileModule(f.name)
  }

  // ---------------------------------------------------------------- the runtime's names

  /** The rest of `capitalize_path`; `up` when the next character starts a segment. */
  function CapitalizePath(up: bool, s: string): (r: string)
    ensures |r| <= 2 * |s|
    decreases |s|
  {
    if s == "" then ""
    else (if up then [Upper(s[0])] else if s[0] == '.' then "::" else [s[0]]) + CapitalizePath(s[0] == '.', s[1..])
  }

  /** The rest of the camel-casing loop of `get_file_module`. */
  function CamelFrom(up: bool, s: string): (r: string)
    ensures |r| <= |s|
    decreases |s|
  {
    if s == "" then ""
    else if s[0] == '_' then CamelFrom(true, s[1..])
    else [if up then Upper(s[0]) else s[0]] + CamelFrom(false, s[1..])
  }

  function RuntimeFileModule(name: string): (r: string) {
    var base := BaseName(name);
    CamelFrom(true, base[..First(base, '.')])
  }

  /** The message's name without the package in front. */
  function RelativeName(fullName: string, pkg: string): (r: string) {
    var rel := if fullName != "" && fullName[0] == '.' then fullName[1..] else fullName;
    if pkg != "" && pkg <= rel then
      var rest := rel[|pkg|..];
      if rest != "" && rest[0] == '.' then rest[1..] else rest
    else rel
  }

  /** The class `PerlUpb_GetMessageStash` blesses a message into. */
  function RuntimeClass(fileName: string, pkg: string, fullName: string): (r: string) {
    var rel := RelativeName(fullName, pkg);
    (if pkg != "" then CapitalizePath(true, pkg) + "::" else "")
    + RuntimeFileModule(fileName) + "::"
    + (if rel != "" then CapitalizePath(true, rel) else "UnknownMessage")
  }

  // ---------------------------------------------------------------- the generator's type map

  type Entry = (string, string)

  /** What registering messages under a prefix stores, in order. */
  function Registered(msgs: seq<Message>, proto: string, perl: string): (r: seq<Entry>)
    decreases msgs
  {
    if msgs == [] then []
    else
      var p, c := proto + "." + msgs[0].name, perl + "::" + msgs[0].name;
      [(p, c)] + Registered(msgs[0].nested, p, c) + Registered(msgs[1..], proto, perl)
  }

  /** All entries of a request, file after file. */
  function Entries(files: seq<File>): (r: seq<Entry>) {
    if files == [] then []
    else Entries(files[..|files| - 1]) + FileEntries(files[|files| - 1])
  }

  function FileEntries(f: File): (r: seq<Entry>) {
    Registered(f.messages, "." + f.pkg, GetPerlPackage(f))
  }

  function Store(m: map<string, string>, es: seq<Entry>): (r: map<string, string>)
    decreases |es|
  {
    if es == [] then m else Store(m[es[0].0 := es[0].1], es[1..])
  }

  /** The package map: file after file, by name. */
  function Packages(m: map<string, string>, files: seq<File>): (r: map<string, string>) {
    if files == [] then m
    else
      var f := files[|files| - 1];
      Packages(m, files[..|files| - 1])[f.name := GetPerlPackage(f)]
  }

  function Resolve(types: map<string, string>, protoType: string): (r: string) {
    if protoType in types then types[protoType]
    else CapitalizePackage(if protoType != "" && protoType[0] == '.' then protoType[1..] else protoType)
  }

  // ---------------------------------------------------------------- paths to messages

  /** `path` leads from one of `msgs` down to a nested message. */
  ghost predicate Leads(msgs: seq<Message>, path: seq<string>)
    decreases |path|
  {
    && path != []
    && exists i :: 0 <= i < |msgs| && msgs[i].name == path[0] && (|path| == 1 || Leads(msgs[i].nested, path[1..]))
  }

  /** `prefix` followed by the names of `path`, each after a separator. */
  function Qualified(prefix: string, separator: string, path: seq<string>): (r: string)
    decreases |path|
  {
    if path == [] then prefix else Qualified(prefix + separator + path[0], separator, path[1..])
  }

  /** The full name of the message `path` leads to: package and names, joined by dots. */
  function FullName(f: File, path: seq<string>): (r: string)
    requires path != []
  {
    if f.pkg == "" then Qualified(path[0], ".", path[1..]) else Qualified(f.pkg, ".", path)
  }

  /** The key the generator registers that message under, and the class. */
  function Key(f: File, path: seq<string>): (r: string) { Qualified("." + f.pkg, ".", path) }

  function Class(f: File, path: seq<string>): (r: string) { Qualified(GetPerlPackage(f), "::", path) }

  function EntryOf(proto: string, perl: string, path: seq<string>): (r: Entry) {
    (Qualified(proto, ".", path), Qualified(perl, "::", path))
  }

  lemma EntryOfOne(proto: string, perl: string, name: string)
    ensures EntryOf(proto, perl, [name]) == (proto + "." + name, perl + "::" + name)
  {
    var one := [name];
    assert one[0] == name && one[1..] == [];
    assert Qualified(proto, ".", one) == Qualified(proto + "." + name, ".", one[1..]);
    assert Qualified(perl, "::", one) == Qualified(perl + "::" + name, "::", one[1..]);
  }

  /** A path leads into the first message or into the others. */
  lemma LeadsSplit(msgs: seq<Message>, path: seq<string>)
    requires msgs != []
    ensures Leads(msgs, path) <==>
            || Leads(msgs[1..], path)
            || (path != [] && path[0] == msgs[0].name && (|path| == 1 || Leads(msgs[0].nested, path[1..])))
  {
    var rest := msgs[1..];
    if Leads(msgs, path) {
      var i :| 0 <= i < |msgs| && msgs[i].name == path[0] && (|path| == 1 || Leads(msgs[i].nested, path[1..]));
      if i > 0 { assert rest[i - 1] == msgs[i]; }
    }
    if Leads(rest, path) {
      var i :| 0 <= i < |rest| && rest[i].name == path[0] && (|path| == 1 || Leads(rest[i].nested, path[1..]));
      assert msgs[i + 1] == rest[i];
    }
  }

  /** Registration stores exactly one entry for every path to a message. */
  lemma {:induction false} RegisteredPath(msgs: seq<Message>, proto: string, perl: string, path: seq<string>)
    requires Leads(msgs, path)
    ensures EntryOf(proto, perl, path) in Registered(msgs, proto, perl)
    decreases msgs
  {
    if msgs == [] {
    } else {
      LeadsSplit(msgs, path);
      var m := msgs[0];
      var p, c := proto + "." + m.name, perl + "::" + m.name;
      if Leads(msgs[1..], path) {
        RegisteredPath(msgs[1..], proto, perl, path);
      } else if |path| == 1 {
        assert path == [m.name];
        EntryOfOne(proto, perl, m.name);
      } else {
        RegisteredPath(m.nested, p, c, path[1..]);
        assert EntryOf(proto, perl, path) == EntryOf(p, c, path[1..]);
      }
    }
  }

  lemma {:induction false} PathRegistered(msgs: seq<Message>, proto: string, perl: string, e: Entry)
    returns (path: seq<string>)
    requires e in Registered(msgs, proto, perl)
    ensures Leads(msgs, path) && e == EntryOf(proto, perl, path)
    decreases msgs
  {
    var m := msgs[0];
    var p, c := proto + "." + m.name, perl + "::" + m.name;
    if e == (p, c) {
      path := [m.name];
      EntryOfOne(proto, perl, m.name);
      LeadsSplit(msgs, path);
    } else if e in Registered(m.nested, p, c) {
      var tail := PathRegistered(m.nested, p, c, e);
      path := [m.name] + tail;
      assert path[1..] == tail;
      LeadsSplit(msgs, path);
    } else {
      path := PathRegistered(msgs[1..], proto, perl, e);
      LeadsSplit(msgs, path);
    }
  }

  lemma {:induction false} EntriesPath(files: seq<File>, i: nat, path: seq<string>)
    requires i < |files| && Leads(files[i].messages, path)
    ensures (Key(files[i], path), Class(files[i], path)) in Entries(files)
  {
    if i < |files| - 1 {
      EntriesPath(files[..|files| - 1], i, path);
    } else {
      RegisteredPath(files[i].messages, "." + files[i].pkg, GetPerlPackage(files[i]), path);
    }
  }

  lemma {:induction false} PathOfEntry(files: seq<File>, e: Entry) returns (i: nat, path: seq<string>)
    requires e in Entries(files)
    ensures i < |files| && Leads(files[i].messages, path)
    ensures e == (Key(files[i], path), Class(files[i], path))
  {
    var last := files[|files| - 1];
    if e in Entries(files[..|files| - 1]) {
      i, path := PathOfEntry(files[..|files| - 1], e);
    } else {
      i := |files| - 1;
      path := PathRegistered(last.messages, "." + last.pkg, GetPerlPackage(last), e);
    }
  }

  /** A key holds the value of its entries when they all have the same. */
  lemma {:induction false} StoreLookup(m: map<string, string>, es: seq<Entry>, k: string)
    ensures k in Store(m, es) <==> k in m || exists v :: (k, v) in es
    ensures forall v :: (k, v) in es && (forall w :: (k, w) in es ==> w == v) ==> Store(m, es)[k] == v
    ensures (forall v :: (k, v) !in es) && k in m ==> Store(m, es)[k] == m[k]
    decreases |es|
  {
    if es == [] {
    } else {
      var e, t := es[0], es[1..];
      StoreLookup(m[e.0 := e.1], t, k);
      assert es == [e] + t;
      assert forall v :: (k, v) in es <==> (k, v) == e || (k, v) in t;
      forall v | (k, v) in es && (forall w :: (k, w) in es ==> w == v)
        ensures Store(m, es)[k] == v
      {
        if !exists w :: (k, w) in t { assert e == (k, v); }
      }
    }
  }

  // ---------------------------------------------------------------- the two mappings agree

  /** A legal name: not empty, and without a dot. */
  predicate IsName(s: string) { s != "" && '.' !in s }

  predicate AreNames(path: seq<string>) { forall i :: 0 <= i < |path| ==> IsName(path[i]) }

  /** A legal package: none, or names joined by dots. */
  ghost predicate IsPackage(s: string) {
    s == "" || exists names: seq<string> :: names != [] && AreNames(names) && s == Joined(names)
  }

  function Joined(names: seq<string>): (r: string)
    requires names != []
  {
    Qualified(names[0], ".", names[1..])
  }

  /** What protoc guarantees of a request: legal names throughout, and no two messages,
      or files, of one name. */
  ghost predicate IsRequest(files: seq<File>) {
    && (forall i :: 0 <= i < |files| ==> IsPackage(files[i].pkg))
    && (forall i, path :: 0 <= i < |files| && Leads(files[i].messages, path) ==> AreNames(path))
    && (forall i, j, p, q :: 0 <= i < |files| && 0 <= j < |files| &&
          Leads(files[i].messages, p) && Leads(files[j].messages, q) && FullName(files[i], p) == FullName(files[j], q)
          ==> i == j && p == q)
    && (forall i, j :: 0 <= i < j < |files| ==> files[i].name != files[j].name)
  }

  /** The rest of `Qualified` after its prefix. */
  function Suffix(separator: string, path: seq<string>): (r: string) {
    if path == [] then "" else separator + path[0] + Suffix(separator, path[1..])
  }

  lemma {:induction false} QualifiedSuffix(prefix: string, separator: string, path: seq<string>)
    ensures Qualified(prefix, separator, path) == prefix + Suffix(separator, path)
    decreases |path|
  {
    if path == [] {
      assert prefix + "" == prefix;
    } else {
      QualifiedSuffix(prefix + separator + path[0], separator, path[1..]);
      var x, y := separator + path[0], Suffix(separator, path[1..]);
      assert prefix + separator + path[0] == prefix + x;
      assert (prefix + x) + y == prefix + (x + y);
    }
  }

  // ---- segments of a dotted name

  lemma FirstIn(a: string, b: string, c: char)
    requires c !in a && (b != "" ==> b[0] == c)
    ensures First(a + b, c) == |a|
  {
    var s := a + b;
    forall j | 0 <= j < |a| ensures s[j] != c { assert s[j] == a[j]; }
    assert b != "" ==> s[|a|] == c;
  }

  lemma SplitWord(word: string, delim: char)
    requires delim !in word && word != ""
    ensures Split(word, delim) == [word]
  {
    FirstIn(word, "", delim);
    assert word + "" == word;
  }

  lemma SplitStep(word: string, rest: string, delim: char)
    requires delim !in word
    ensures Split(word + ([delim] + rest), delim) == [word] + Split(rest, delim)
  {
    var s := word + ([delim] + rest);
    FirstIn(word, [delim] + rest, delim);
    assert s[..|word|] == word && s[|word| + 1..] == rest;
  }

  /** Names joined by dots, taken apart at the first dot. */
  lemma JoinedHead(names: seq<string>)
    requires |names| > 1
    ensures Joined(names) == names[0] + (['.'] + Joined(names[1..]))
  {
    var t := names[1..];
    QualifiedSuffix(names[0], ".", t);
    QualifiedSuffix(t[0], ".", t[1..]);
    assert Suffix(".", t) == "." + t[0] + Suffix(".", t[1..]);
    assert Suffix(".", t) == "." + (t[0] + Suffix(".", t[1..]));
  }

  /** Splitting names joined by dots gives the names back. */
  lemma {:induction false} SplitJoined(names: seq<string>)
    requires names != [] && AreNames(names)
    ensures Joined(names) != "" && Split(Joined(names), '.') == names
    decreases |names|
  {
    assert IsName(names[0]);
    if |names| == 1 {
      assert names == [names[0]] && names[1..] == [];
      SplitWord(names[0], '.');
    } else {
      JoinedHead(names);
      SplitStep(names[0], Joined(names[1..]), '.');
      SplitJoined(names[1..]);
    }
  }

  /** Inside a segment the runtime copies characters. */
  lemma {:induction false} CapitalizePathWord(up: bool, word: string, rest: string)
    requires '.' !in word && (up ==> word != "")
    ensures CapitalizePath(up, word + rest) == (if up then Capitalized(word) else word) + CapitalizePath(false, rest)
    decreases |word|
  {
    if word == "" {
      assert word + rest == rest;
      assert "" + CapitalizePath(false, rest) == CapitalizePath(false, rest);
    } else {
      var s, c := word + rest, if up then Upper(word[0]) else word[0];
      assert s[0] == word[0] && s[1..] == word[1..] + rest;
      CapitalizePathWord(false, word[1..], rest);
      assert CapitalizePath(up, s) == [c] + CapitalizePath(false, s[1..]);
      Reassociate([c], word[1..], CapitalizePath(false, rest));
      assert [c] + word[1..] == if up then Capitalized(word) else word;
    }
  }

  /** On names joined by dots the two capitalisations are the same. */
  lemma {:induction false} CapitalizationsAgree(names: seq<string>)
    requires names != [] && AreNames(names)
    ensures CapitalizePath(true, Joined(names)) == JoinCapitalized(names)
    decreases |names|
  {
    assert IsName(names[0]);
    if |names| == 1 {
      CapitalizePathWord(true, names[0], "");
      assert names[1..] == [] && names[0] + "" == names[0];
    } else {
      var rest := ['.'] + Joined(names[1..]);
      JoinedHead(names);
      CapitalizePathWord(true, names[0], rest);
      assert rest[1..] == Joined(names[1..]);
      CapitalizationsAgree(names[1..]);
    }
  }

  // ---- file names

  lemma {:induction false} CamelWord(up: bool, word: string, rest: string)
    requires '_' !in word
    ensures CamelFrom(up, word + rest) ==
            (if up then Capitalized(word) else word) + CamelFrom(up && word == "", rest)
    decreases |word|
  {
    if word == "" {
      assert word + rest == rest;
    } else {
      var s := word + rest;
      assert s[0] == word[0] && s[1..] == word[1..] + rest;
      assert s[0] != '_';
      CamelWord(false, word[1..], rest);
    }
  }

  /** The two camel-casings, one over segments and one over characters, are the same. */
  lemma {:induction false} CamelCasesAgree(s: string)
    ensures CamelFrom(true, s) == ToCamelCase(s)
    decreases |s|
  {
    if s == "" {
    } else {
      var i := First(s, '_');
      if i == |s| {
        CamelWord(true, s, "");
        assert s + "" == s;
        assert ConcatCapitalized([s]) == Capitalized(s) + ConcatCapitalized([]);
      } else {
        var word, rest := s[..i], s[i..];
        assert s == word + rest;
        CamelWord(true, word, rest);
        CamelCasesAgree(s[i + 1..]);
        assert rest[1..] == s[i + 1..];
        assert Split(s, '_')[1..] == Split(s[i + 1..], '_');
      }
    }
  }

  lemma {:induction false} CamelKeeps(up: bool, s: string, c: char)
    requires c != '_' && Upper(c) == c && !('A' <= c <= 'Z')
    ensures c in CamelFrom(up, s) <==> c in s
    decreases |s|
  {
    if s == "" {
    } else {
      CamelKeeps(s[0] == '_', s[1..], c);
      assert s == [s[0]] + s[1..];
    }
  }

  lemma {:induction false} CountZero(s: string, c: char)
    ensures Count(s, c) == 0 <==> c !in s
  {
    if s == "" {
    } else {
      CountZero(s[1..], c);
      assert s == [s[0]] + s[1..];
    }
  }

  lemma {:induction false} CountSplit(a: string, b: string, c: char)
    ensures Count(a + b, c) == Count(a, c) + Count(b, c)
  {
    if a == "" {
      assert a + b == b;
    } else {
      assert (a + b)[1..] == a[1..] + b;
      CountSplit(a[1..], b, c);
    }
  }

  lemma NotBeforeFirst(s: string, c: char)
    ensures c !in s[..First(s, c)]
  {
  }

  lemma CountAtLast(s: string, c: char)
    ensures Last(s, c) == 0 ==> Count(s, c) == 0
    ensures Last(s, c) > 0 ==> Count(s, c) == Count(s[..Last(s, c) - 1], c) + 1
  {
    var last := Last(s, c);
    CountZero(s, c);
    if last > 0 {
      var tail := [c] + s[last..];
      assert s == s[..last - 1] + tail;
      CountSplit(s[..last - 1], tail, c);
      assert tail[1..] == s[last..];
      CountZero(s[last..], c);
    }
  }

  /** Up to the last dot is up to the first dot when no dot comes before. */
  lemma FirstIsLast(s: string, c: char)
    ensures Last(s, c) == 0 ==> First(s, c) == |s|
    ensures Last(s, c) > 0 && c !in s[..Last(s, c) - 1] ==> First(s, c) == Last(s, c) - 1
  {
    var last := Last(s, c);
    if last > 0 && c !in s[..last - 1] {
      assert s == s[..last - 1] + s[last - 1..];
      FirstIn(s[..last - 1], s[last - 1..], c);
    }
  }

  /** The generator cuts a file name at its last dot, the runtime at its first; the modules
      they make of it are the same exactly when there is at most one. */
  lemma FileModulesAgree(name: string)
    ensures GeneratorFileModule(name) == RuntimeFileModule(name) <==> Count(BaseName(name), '.') <= 1
  {
    hide BaseName, Last, First, Count, ToCamelCase, CamelFrom;
    var base := BaseName(name);
    var last := Last(base, '.');
    var upTo := if last > 0 then base[..last - 1] else base;
    var cut := base[..First(base, '.')];
    CamelCasesAgree(upTo);
    CamelKeeps(true, upTo, '.');
    CamelKeeps(true, cut, '.');
    NotBeforeFirst(base, '.');
    CountAtLast(base, '.');
    CountZero(upTo, '.');
    FirstIsLast(base, '.');
    assert last == 0 ==> cut == upTo;
  }

  // ---- the main result

  function Types(files: seq<File>): (r: map<string, string>) { Store(map[], Entries(files)) }

  /** How a descriptor refers to a message: its full name after a dot. */
  function TypeName(f: File, path: seq<string>): (r: string)
    requires path != []
  {
    "." + FullName(f, path)
  }

  lemma FullNameParts(f: File, path: seq<string>)
    requires path != [] && AreNames(path) && IsPackage(f.pkg)
    ensures f.pkg != "" ==> f.pkg[0] != '.' && FullName(f, path) == f.pkg + (['.'] + Joined(path))
    ensures f.pkg == "" ==> FullName(f, path) == Joined(path)
    ensures Joined(path) != "" && Joined(path)[0] != '.'
    ensures f.pkg != "" ==> Key(f, path) == TypeName(f, path)
    ensures f.pkg == "" ==> |Key(f, path)| >= 2 && Key(f, path)[1] == '.'
    ensures Key(f, path) != "" && Key(f, path)[0] == '.'
  {
    assert IsName(path[0]);
    QualifiedSuffix("." + f.pkg, ".", path);
    QualifiedSuffix(f.pkg, ".", path);
    QualifiedSuffix(path[0], ".", path[1..]);
    assert Suffix(".", path) == ['.'] + Joined(path);
    if f.pkg != "" {
      var names: seq<string> :| names != [] && AreNames(names) && f.pkg == Joined(names);
      assert IsName(names[0]);
      QualifiedSuffix(names[0], ".", names[1..]);
    }
  }

  /** A message in a package is found under its type name; one without is not, because it
      was registered with two leading dots. */
  lemma Lookup(files: seq<File>, i: nat, path: seq<string>)
    requires IsRequest(files) && i < |files| && Leads(files[i].messages, path)
    ensures files[i].pkg != "" ==> TypeName(files[i], path) in Types(files) &&
                                   Types(files)[TypeName(files[i], path)] == Class(files[i], path)
    ensures files[i].pkg == "" ==> TypeName(files[i], path) !in Types(files)
  {
    LeadsNonEmpty(files[i].messages, path);
    hide Entries, Store, Qualified, Leads, Joined;
    var f, k := files[i], TypeName(files[i], path);
    FullNameParts(f, path);
    StoreLookup(map[], Entries(files), k);
    forall w | (k, w) in Entries(files)
      ensures f.pkg != "" && w == Class(f, path)
    {
      var j, q := PathOfEntry(files, (k, w));
      LeadsNonEmpty(files[j].messages, q);
      FullNameParts(files[j], q);
      assert k[1..] == FullName(f, path);
      assert files[j].pkg != "";
      assert TypeName(files[j], q)[1..] == FullName(files[j], q);
    }
    if f.pkg != "" {
      EntriesPath(files, i, path);
      assert (k, Class(f, path)) in Entries(files);
    }
  }

  lemma LeadsNonEmpty(msgs: seq<Message>, path: seq<string>)
    requires Leads(msgs, path)
    ensures path != []
  {
  }

  lemma CapitalizedSame(s: string)
    ensures Capitalized(s) == s <==> !StartsLower(s)
  {
  }

  lemma {:induction false} CapitalizedSuffix(path: seq<string>)
    requires path != []
    ensures |JoinCapitalized(path)| + 2 == |Suffix("::", path)|
    ensures "::" + JoinCapitalized(path) == Suffix("::", path) <==> forall i :: 0 <= i < |path| ==> !StartsLower(path[i])
    decreases |path|
  {
    hide Capitalized, StartsLower;
    var head, t := path[0], path[1..];
    var c := Capitalized(head);
    CapitalizedSame(head);
    SameSplit("::", c, "::", head);
    if t == [] {
      assert Suffix("::", path) == "::" + head;
    } else {
      CapitalizedSuffix(t);
      var x, y := "::" + JoinCapitalized(t), Suffix("::", t);
      assert "::" + JoinCapitalized(path) == ("::" + c) + x;
      assert Suffix("::", path) == ("::" + head) + y;
      SameSplit("::" + c, x, "::" + head, y);
      assert (forall i :: 0 <= i < |path| ==> !StartsLower(path[i])) <==>
             !StartsLower(head) && forall i :: 0 <= i < |t| ==> !StartsLower(t[i]) by {
        assert path == [head] + t;
      }
    }
  }

  /** Concatenations of equally long parts are equal when the parts are. */
  lemma SameSplit(a: string, b: string, c: string, d: string)
    requires |b| == |d|
    ensures a + b == c + d <==> a == c && b == d
  {
    if a + b == c + d {
      assert a == (a + b)[..|a|] && b == (a + b)[|a|..];
      assert c == (c + d)[..|c|] && d == (c + d)[|c|..];
    }
  }

  lemma PackagesAgree(pkg: string)
    requires IsPackage(pkg) && pkg != ""
    ensures CapitalizePath(true, pkg) == CapitalizePackage(pkg) && CapitalizePackage(pkg) != ""
  {
    var names: seq<string> :| names != [] && AreNames(names) && pkg == Joined(names);
    CapitalizationsAgree(names);
    SplitJoined(names);
    assert IsName(names[0]);
  }

  lemma RuntimeClassParts(f: File, path: seq<string>)
    requires path != [] && AreNames(path) && IsPackage(f.pkg)
    ensures RuntimeClass(f.name, f.pkg, FullName(f, path)) ==
            (if f.pkg != "" then CapitalizePackage(f.pkg) + "::" else "")
            + RuntimeFileModule(f.name) + ("::" + JoinCapitalized(path))
    ensures CapitalizePackage(Joined(path)) == JoinCapitalized(path)
  {
    hide RuntimeFileModule, CapitalizePath, JoinCapitalized, Joined, Qualified, FullName, Split;
    FullNameParts(f, path);
    SplitJoined(path);
    CapitalizationsAgree(path);
    var full := FullName(f, path);
    if f.pkg != "" {
      PackagesAgree(f.pkg);
      assert full[|f.pkg|..] == ['.'] + Joined(path);
      assert f.pkg <= full;
    }
    assert RelativeName(full, f.pkg) == Joined(path);
    var x, y := RuntimeFileModule(f.name), JoinCapitalized(path);
    assert x + "::" + y == x + ("::" + y);
  }

  /** For every message of every legal request, however deep it is nested, the class the
      generator resolves is the class the runtime blesses into exactly when the file has a
      package, its base name has at most one dot, and no name on the path to the message
      starts with a lower-case letter. */
  lemma ClassesAgree(files: seq<File>, i: nat, path: seq<string>)
    requires IsRequest(files) && i < |files| && Leads(files[i].messages, path)
    ensures var f := files[i];
            Resolve(Types(files), TypeName(f, path)) == RuntimeClass(f.name, f.pkg, FullName(f, path))
            <==> f.pkg != "" && Count(BaseName(f.name), '.') <= 1
                 && forall k :: 0 <= k < |path| ==> !StartsLower(path[k])
  {
    hide Types, RuntimeClass, JoinCapitalized, CapitalizePackage, Leads, Count, BaseName,
         GeneratorFileModule, RuntimeFileModule, FullName, Joined, Qualified, Suffix;
    var f := files[i];
    LeadsNonEmpty(f.messages, path);
    Lookup(files, i, path);
    RuntimeClassParts(f, path);
    CapitalizedSuffix(path);
    FileModulesAgree(f.name);
    var tail := "::" + JoinCapitalized(path);
    if f.pkg == "" {
      FullNameParts(f, path);
      assert TypeName(f, path)[1..] == Joined(path);
      assert Resolve(Types(files), TypeName(f, path)) == JoinCapitalized(path);
    } else {
      PackagesAgree(f.pkg);
      QualifiedSuffix(GetPerlPackage(f), "::", path);
      var p, g, r := CapitalizePackage(f.pkg) + "::", GeneratorFileModule(f.name), RuntimeFileModule(f.name);
      SameSplit(p + g, Suffix("::", path), p + r, tail);
      assert p + g == p + r <==> g == r by {
        if p + g == p + r { assert g == (p + g)[|p|..] && r == (p + r)[|p|..]; }
      }
    }
  }

  // ---------------------------------------------------------------- the loops

  /** One round of `SplitString`, from position `start`. */
  lemma SplitRound(s: string, delim: char, start: nat)
    requires start < |s|
    ensures var end := start + First(s[start..], delim);
            && end <= |s|
            && Split(s[start..], delim) == if end == |s| then [s[start..]] else [s[start..end]] + Split(s[end + 1..], delim)
  {
    hide First;
    var end := start + First(s[start..], delim);
    if end < |s| {
      assert s[start..][..end - start] == s[start..end];
      assert s[start..][end - start + 1..] == s[end + 1..];
    }
  }

  /** `SplitString`. */
  method SplitString(s: string, delim: char) returns (res: seq<string>)
    ensures res == Split(s, delim)
  {
    hide Split, First;
    res := [];
    var start := 0;
    ghost var todo := Split(s, delim);
    assert s[0..] == s && res + todo == todo;
    while start < |s|
      invariant 0 <= start <= |s| && todo == Split(s[start..], delim)
      invariant res + todo == Split(s, delim)
    {
      SplitRound(s, delim, start);
      var end := start + First(s[start..], delim);
      if end == |s| {
        res := res + [s[start..]];
        return;
      }
      var piece := s[start..end];
      Reassociate(res, [piece], Split(s[end + 1..], delim));
      res := res + [piece];
      start := end + 1;
      todo := Split(s[start..], delim);
    }
    SplitEmpty(s[start..], delim);
    assert res + [] == res;
  }

  lemma SplitEmpty(s: string, delim: char)
    requires s == ""
    ensures Split(s, delim) == []
  {
  }

  lemma CamelRound(segments: seq<string>, k: nat, res: string)
    requires k < |segments|
    ensures res + ConcatCapitalized(segments[k..])
         == (res + Capitalized(segments[k])) + ConcatCapitalized(segments[k + 1..])
  {
    assert segments[k..][1..] == segments[k + 1..];
    Reassociate(res, Capitalized(segments[k]), ConcatCapitalized(segments[k + 1..]));
  }

  /** Appending a segment's first letter in upper case, then the rest of it. */
  method AppendCapitalized(res: string, segment: string) returns (r: string)
    ensures r == res + Capitalized(segment)
  {
    r := res;
    if segment != "" {
      r := r + [Upper(segment[0])];
      r := r + segment[1..];
    }
  }

  /** The loop of `ToCamelCase`. */
  method CamelCase(s: string) returns (res: string)
    ensures res == ToCamelCase(s)
  {
    hide ConcatCapitalized, Capitalized, Split;
    var segments := SplitString(s, '_');
    res := "";
    var k := 0;
    CamelStart(segments);
    while k < |segments|
      invariant 0 <= k <= |segments| && res + ConcatCapitalized(segments[k..]) == ConcatCapitalized(segments)
    {
      CamelRound(segments, k, res);
      res := AppendCapitalized(res, segments[k]);
      k := k + 1;
    }
    assert res + "" == res;
  }

  lemma CamelStart(segments: seq<string>)
    ensures "" + ConcatCapitalized(segments[0..]) == ConcatCapitalized(segments)
    ensures ConcatCapitalized(segments[|segments|..]) == ""
  {
    assert segments[0..] == segments;
  }

  /** What `JoinCapitalized` adds after a first segment. */
  function MoreCapitalized(segments: seq<string>): (r: string) {
    if segments == [] then "" else "::" + JoinCapitalized(segments)
  }

  lemma JoinRound(segments: seq<string>)
    ensures MoreCapitalized([]) == "" && JoinCapitalized([]) == ""
    ensures segments != [] ==> JoinCapitalized(segments) == Capitalized(segments[0]) + MoreCapitalized(segments[1..])
  {
    if |segments| == 1 { assert Capitalized(segments[0]) + "" == Capitalized(segments[0]); }
  }

  lemma CapitalizeRound(segments: seq<string>, k: nat, res: string)
    requires k < |segments|
    ensures res + MoreCapitalized(segments[k..])
         == ((res + "::") + Capitalized(segments[k])) + MoreCapitalized(segments[k + 1..])
    ensures k == 0 ==> JoinCapitalized(segments) == Capitalized(segments[0]) + MoreCapitalized(segments[1..])
    ensures MoreCapitalized([]) == "" && JoinCapitalized([]) == ""
  {
    hide JoinCapitalized, Capitalized;
    var head, more := Capitalized(segments[k]), MoreCapitalized(segments[k + 1..]);
    assert segments[k..][1..] == segments[k + 1..];
    assert k == 0 ==> segments[k..] == segments;
    JoinRound(segments[k..]);
    Reassociate("::", head, more);
    Reassociate(res, "::" + head, more);
    Reassociate(res, "::", head);
  }

  /** The loop of `CapitalizePackage`. */
  method CapitalizeSegments(s: string) returns (res: string)
    ensures res == CapitalizePackage(s)
  {
    hide JoinCapitalized, MoreCapitalized, Capitalized, Split;
    var segments := SplitString(s, '.');
    res := "";
    var first, k := true, 0;
    CapitalizeRound([""], 0, "");
    while k < |segments|
      invariant 0 <= k <= |segments| && (first <==> k == 0)
      invariant first ==> res == ""
      invariant !first ==> res + MoreCapitalized(segments[k..]) == JoinCapitalized(segments)
    {
      CapitalizeRound(segments, k, res);
      if !first { res := res + "::"; } else { assert "" + Capitalized(segments[k]) == Capitalized(segments[k]); }
      res := AppendCapitalized(res, segments[k]);
      first, k := false, k + 1;
    }
    if k > 0 { assert segments[k..] == [] && res + "" == res; }
  }

  /** One round of `capitalize_path`: what the character at `i` adds. */
  lemma PathRound(s: string, i: nat, up: bool, done: string)
    requires i < |s|
    ensures done + CapitalizePath(up, s[i..])
         == (done + if up then [Upper(s[i])] else if s[i] == '.' then "::" else [s[i]])
            + CapitalizePath(s[i] == '.', s[i + 1..])
  {
    assert s[i..][1..] == s[i + 1..];
    Reassociate(done, if up then [Upper(s[i])] else if s[i] == '.' then "::" else [s[i]],
                CapitalizePath(s[i] == '.', s[i + 1..]));
  }

  /** `capitalize_path`: writes into a buffer of twice the length plus one; nothing for an
      empty name. */
  method CapitalizePathLoop(s: string) returns (none: bool, res: string)
    ensures none == (s == "") && (!none ==> res == CapitalizePath(true, s))
  {
    if s == "" { return true, ""; }
    var buf := new char[|s| * 2 + 1];
    var d, i, first := 0, 0, true;
    assert s[0..] == s && s[|s|..] == "" && "" + CapitalizePath(true, s) == CapitalizePath(true, s);
    assert CapitalizePath(false, "") == CapitalizePath(true, "") == "";
    hide CapitalizePath;
    while i < |s|
      invariant 0 <= i <= |s| && d <= 2 * i && (first <==> i == 0)
      invariant buf[..d] + CapitalizePath(first || s[i - 1] == '.', s[i..]) == CapitalizePath(true, s)
    {
      PathRound(s, i, first || s[i - 1] == '.', buf[..d]);
      if first || s[i - 1] == '.' {
        d := Put(buf, d, Upper(s[i]));
      } else if s[i] == '.' {
        ghost var done := buf[..d];
        d := Put(buf, d, ':');
        d := Put(buf, d, ':');
        assert buf[..d] == done + "::";
      } else {
        d := Put(buf, d, s[i]);
      }
      first, i := false, i + 1;
    }
    none, res := false, buf[..d];
    Terminate(buf, d);
  }

  /** One round of the camel-casing loop. */
  lemma CamelFromEnd(s: string, up: bool)
    ensures CamelFrom(up, s[|s|..]) == ""
  {
  }

  lemma CamelFromRound(s: string, i: nat, up: bool, done: string)
    requires i < |s|
    ensures s[i] == '_' ==> done + CamelFrom(up, s[i..]) == done + CamelFrom(true, s[i + 1..])
    ensures s[i] != '_' ==>
              done + CamelFrom(up, s[i..]) == (done + [if up then Upper(s[i]) else s[i]]) + CamelFrom(false, s[i + 1..])
  {
    assert s[i..][1..] == s[i + 1..];
    if s[i] != '_' { Reassociate(done, [if up then Upper(s[i]) else s[i]], CamelFrom(false, s[i + 1..])); }
  }

  /** `get_file_module`: writes into a buffer of the base's length plus one. */
  method FileModuleLoop(protoFile: string) returns (res: string)
    ensures res == RuntimeFileModule(protoFile)
  {
    hide CamelFrom, First, Last, Upper;
    var start := protoFile[Last(protoFile, '/')..];
    var base := start[..First(start, '.')];
    var buf := new char[|base| + 1];
    var d, i, first := 0, 0, true;
    assert base[0..] == base && [] + CamelFrom(true, base) == CamelFrom(true, base);
    while i < |base|
      invariant 0 <= i <= |base| && d <= i && (i == 0 ==> first)
      invariant buf[..d] + CamelFrom(first || base[i - 1] == '_', base[i..]) == CamelFrom(true, base)
    {
      var capitalizeNext := first || base[i - 1] == '_';
      CamelFromRound(base, i, capitalizeNext, buf[..d]);
      if capitalizeNext {
        if base[i] == '_' {
          i := i + 1;
          continue;
        }
        d := Put(buf, d, Upper(base[i]));
      } else if base[i] == '_' {
      } else {
        d := Put(buf, d, base[i]);
      }
      first, i := false, i + 1;
    }
    CamelFromEnd(base, first || base[i - 1] == '_');
    assert buf[..d] + "" == buf[..d];
    res := buf[..d];
    Terminate(buf, d);
  }

  /** The name computed by `PerlUpb_GetMessageStash`, which fits the buffer it allocates. */
  method MessageStashName(protoFile: string, pkg: string, fullName: string) returns (className: string)
    ensures className == RuntimeClass(protoFile, pkg, fullName)
  {
    hide CapitalizePath, RuntimeFileModule;
    var fileMod := FileModuleLoop(protoFile);
    var noPkg, pkgMod := CapitalizePathLoop(pkg);
    var relName := fullName;
    if relName != "" && relName[0] == '.' { relName := relName[1..]; }
    if |pkg| > 0 {
      if pkg <= relName {
        relName := relName[|pkg|..];
        if relName != "" && relName[0] == '.' { relName := relName[1..]; }
      }
    }
    var noMsg, msgPath := CapitalizePathLoop(relName);
    if noMsg { msgPath := "UnknownMessage"; }
    var totalLen := (if noPkg then 0 else |pkgMod| + 2) + |fileMod| + 2 + |msgPath| + 1;
    if noPkg {
      className := fileMod + "::" + msgPath;
    } else {
      className := pkgMod + "::" + fileMod + "::" + msgPath;
    }
    assert |className| + 1 == totalLen;
  }

  class Generator {
    var fileToPackage: map<string, string>
    var typeToClass: map<string, string>

    constructor ()
      ensures fileToPackage == map[] && typeToClass == map[]
    {
      fileToPackage, typeToClass := map[], map[];
    }

    /** `BuildPackageMap`. */
    method BuildPackageMap(files: seq<File>)
      modifies this`fileToPackage
      ensures fileToPackage == Packages(old(fileToPackage), files)
    {
      hide GetPerlPackage;
      var i := 0;
      while i < |files|
        invariant 0 <= i <= |files| && fileToPackage == Packages(old(fileToPackage), files[..i])
      {
        assert files[..i + 1][..i] == files[..i];
        fileToPackage := fileToPackage[files[i].name := GetPerlPackage(files[i])];
        i := i + 1;
      }
      assert files[..i] == files;
    }

    /** `RegisterTypesRecursively`, for a message and everything nested in it. */
    method RegisterTypesRecursively(msg: Message, protoPrefix: string, perlPrefix: string)
      modifies this`typeToClass
      ensures typeToClass == Store(old(typeToClass), Registered([msg], protoPrefix, perlPrefix))
      decreases msg
    {
      var fullProto := protoPrefix + "." + msg.name;
      var fullPerl := perlPrefix + "::" + msg.name;
      typeToClass := typeToClass[fullProto := fullPerl];
      ghost var entered := typeToClass;
      var i := 0;
      assert msg.nested[..0] == [];
      while i < |msg.nested|
        invariant 0 <= i <= |msg.nested|
        invariant typeToClass == Store(entered, Registered(msg.nested[..i], fullProto, fullPerl))
      {
        RegisterTypesRecursively(msg.nested[i], fullProto, fullPerl);
        RegisteredAppend(msg.nested[..i], [msg.nested[i]], fullProto, fullPerl);
        StoreAppend(entered, Registered(msg.nested[..i], fullProto, fullPerl), Registered([msg.nested[i]], fullProto, fullPerl));
        assert msg.nested[..i + 1] == msg.nested[..i] + [msg.nested[i]];
        i := i + 1;
      }
      assert msg.nested[..i] == msg.nested;
      RegisteredOne(msg, protoPrefix, perlPrefix);
      StoreAppend(old(typeToClass), [(fullProto, fullPerl)], Registered(msg.nested, fullProto, fullPerl));
    }

    /** The inner loop of `BuildTypeMap`. */
    method RegisterAll(messages: seq<Message>, protoPkg: string, perlPkg: string)
      modifies this`typeToClass
      ensures typeToClass == Store(old(typeToClass), Registered(messages, protoPkg, perlPkg))
    {
      var j := 0;
      assert messages[..0] == [];
      while j < |messages|
        invariant 0 <= j <= |messages|
        invariant typeToClass == Store(old(typeToClass), Registered(messages[..j], protoPkg, perlPkg))
      {
        RegisterTypesRecursively(messages[j], protoPkg, perlPkg);
        RegisteredAppend(messages[..j], [messages[j]], protoPkg, perlPkg);
        StoreAppend(old(typeToClass), Registered(messages[..j], protoPkg, perlPkg), Registered([messages[j]], protoPkg, perlPkg));
        assert messages[..j + 1] == messages[..j] + [messages[j]];
        j := j + 1;
      }
      assert messages[..j] == messages;
    }

    /** `BuildTypeMap`, after `BuildPackageMap` on the same files. */
    method BuildTypeMap(files: seq<File>)
      requires forall i :: 0 <= i < |files| ==>
                 files[i].name in fileToPackage && fileToPackage[files[i].name] == GetPerlPackage(files[i])
      modifies this`typeToClass
      ensures typeToClass == Store(old(typeToClass), Entries(files))
    {
      hide Store, Registered, GetPerlPackage;
      var i := 0;
      StoreNothing(typeToClass);
      while i < |files|
        invariant 0 <= i <= |files|
        invariant typeToClass == Store(old(typeToClass), Entries(files[..i]))
      {
        var f := files[i];
        var perlPkg := "";
        if f.name in fileToPackage { perlPkg := fileToPackage[f.name]; }
        RegisterAll(f.messages, "." + f.pkg, perlPkg);
        assert files[..i + 1][..i] == files[..i];
        StoreAppend(old(typeToClass), Entries(files[..i]), FileEntries(f));
        i := i + 1;
      }
      assert files[..i] == files;
    }

    /** `ResolvePerlClass`. */
    method ResolvePerlClass(protoType: string) returns (class_: string)
      ensures class_ == Resolve(typeToClass, protoType)
    {
      if protoType in typeToClass { return typeToClass[protoType]; }
      var s := protoType;
      if |s| >= 1 && s[..1] == "." { s := s[1..]; }
      class_ := CapitalizeSegments(s);
    }
  }

  lemma StoreNothing(m: map<string, string>)
    ensures Store(m, []) == m
  {
  }

  /** The packages of files with distinct names are all found. */
  lemma {:induction false} PackagesFound(m: map<string, string>, files: seq<File>, i: nat)
    requires i < |files| && forall j, k :: 0 <= j < k < |files| ==> files[j].name != files[k].name
    ensures files[i].name in Packages(m, files) && Packages(m, files)[files[i].name] == GetPerlPackage(files[i])
  {
    if i == |files| - 1 {
    } else {
      PackagesFound(m, files[..|files| - 1], i);
    }
  }

  lemma {:induction false} RegisteredAppend(a: seq<Message>, b: seq<Message>, proto: string, perl: string)
    ensures Registered(a + b, proto, perl) == Registered(a, proto, perl) + Registered(b, proto, perl)
    decreases |a|
  {
    if a == [] {
      assert a + b == b;
    } else {
      assert (a + b)[1..] == a[1..] + b;
      RegisteredAppend(a[1..], b, proto, perl);
    }
  }

  lemma RegisteredOne(m: Message, proto: string, perl: string)
    ensures var p, c := proto + "." + m.name, perl + "::" + m.name;
            Registered([m], proto, perl) == [(p, c)] + Registered(m.nested, p, c)
  {
    assert [m][1..] == [];
  }

  lemma {:induction false} StoreAppend(m: map<string, string>, a: seq<Entry>, b: seq<Entry>)
    ensures Store(m, a + b) == Store(Store(m, a), b)
    decreases |a|
  {
    if a == [] {
      assert a + b == b;
    } else {
      assert (a + b)[1..] == a[1..] + b;
      StoreAppend(m[a[0].0 := a[0].1], a[1..], b);
    }
  }

  /** Generator and runtime side by side: the maps built from a legal request resolve a
      message to the class the runtime computes, under the condition of `ClassesAgree`. */
  method ResolveBoth(files: seq<File>, i: nat, path: seq<string>) returns (generated: string, blessed: string)
    requires IsRequest(files) && i < |files| && Leads(files[i].messages, path)
    ensures generated == blessed <==>
            files[i].pkg != "" && Count(BaseName(files[i].name), '.') <= 1 &&
            forall k :: 0 <= k < |path| ==> !StartsLower(path[k])
  {
    var g := new Generator();
    g.BuildPackageMap(files);
    forall k | 0 <= k < |files|
      ensures files[k].name in g.fileToPackage && g.fileToPackage[files[k].name] == GetPerlPackage(files[k])
    {
      PackagesFound(map[], files, k);
    }
    g.BuildTypeMap(files);
    generated := g.ResolvePerlClass(TypeName(files[i], path));
    blessed := MessageStashName(files[i].name, files[i].pkg, FullName(files[i], path));
    ClassesAgree(files, i, path);
  }
}
