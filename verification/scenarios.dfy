/**
 Concrete compilations: the naming conventions, a class whose constructor,
 private, static and documented public methods meet the filter, and the
 import rules on rooted, built-in and bracketed tokens.

 The scenarios take their inputs as parameters pinned by `requires`, so that
 the verifier reasons with the general lemmas instead of unfolding the
 recursive definitions over literal text.
 */
module Scenarios {
  import opened Wrappers
  import opened PhpStrings
  import opened Reflection
  import opened DocTypes
  import opened TraitModel
  import opened TraitCompiler

  // ---------------------------------------------------------------------
  // Trait names

  /** A namespaced name keeps the part after its last backslash. */
  lemma NamespacedClassName(prefix: string, tail: string)
    requires prefix == "App\\Service" && tail == "Mailer"
    ensures DeriveTraitName(prefix + "\\" + tail) == "MailerTrait"
  {
    assert '_' !in prefix + "\\" + tail;
    TraitNameAfterLastDelimiter(prefix, '\\', tail);
  }

  /** A legacy underscored name keeps the part after its last underscore. */
  lemma UnderscoredClassName(prefix: string, tail: string)
    requires prefix == "Legacy_Db" && tail == "Connection"
    ensures DeriveTraitName(prefix + "_" + tail) == "ConnectionTrait"
  {
    TraitNameAfterLastDelimiter(prefix, '_', tail);
  }

  /** A name without separator is kept whole. */
  lemma PlainClassName(className: string)
    requires className == "Widget"
    ensures DeriveTraitName(className) == "WidgetTrait"
  {
    TraitNameWithoutDelimiter(className);
  }

  /** Underscore takes precedence over backslash: `Legacy_Db\Connection`
      holds both, is cut at its `_`, and derives the name `Db\ConnectionTrait`
      (the string handed to the trait generator, which is not modelled). */
  lemma UnderscoreWinsOverBackslash(prefix: string, tail: string)
    requires prefix == "Legacy" && tail == "Db\\Connection"
    ensures '\\' in prefix + "_" + tail && Delimiter(prefix + "_" + tail) == Some('_')
    ensures DeriveTraitName(prefix + "_" + tail) == "Db\\ConnectionTrait"
  {
    assert '\\' in tail;
    assert (prefix + "_" + tail)[|prefix| + 1..] == tail;
    TraitNameAfterLastDelimiter(prefix, '_', tail);
  }

  // ---------------------------------------------------------------------
  // The filter on a small class

  const DataParam := Param("data", None, None, false, false)

  const SaveDoc := DocComment("/** @param array $data */", [TypeableTag("param", ["array"])])

  const Save := MethodDesc("save", Public, false, false, [DataParam], Some(SaveDoc), "return $data;")

  /** A method without parameters, documentation or finality. */
  function Bare(name: string, visibility: Visibility, isStatic: bool, body: string): MethodDesc
  {
    MethodDesc(name, visibility, isStatic, false, [], None, body)
  }

  const Excluded := [
    Bare("__construct", Public, false, "$this->db = $db;"),
    Bare("helper", Private, false, "return 1;"),
    Bare("util", Public, true, "return 2;")
  ]

  /** `namespace\Repository`: a constructor, a private helper, a static utility and
      a documented public `save($data)`. */
  function Repository(namespace: string): ClassDesc
  {
    ClassDesc(namespace + "\\" + "Repository", Excluded + [Save])
  }

  lemma RepositoryTraitName(namespace: string)
    requires namespace == "App"
    ensures DeriveTraitName(Repository(namespace).name) == "RepositoryTrait"
  {
    assert '_' !in Repository(namespace).name;
    TraitNameAfterLastDelimiter(namespace, '\\', "Repository");
  }

  lemma ArrayIsBuiltin(t: string)
    requires t == "array"
    ensures IsPhpDocType(t)
  {
    BuiltinTypesHaveNoBrackets(t);
    LowerCasedBuiltinIsPhpDocType(t);
  }

  /** One typeable tag with one type registers that type exactly when it is
      importable and not yet registered. */
  lemma ImportTypesOfSingleType(uses: seq<string>, tagName: string, t: string)
    ensures ImportTypes(uses, [TypeableTag(tagName, [t])])
      == if Importable(t) && t !in uses then uses + [t] else uses
  {
    var tags := [TypeableTag(tagName, [t])];
    var added := AddTypes(uses, [t]);
    assert tags[1..] == [] && [t][1..] == [];
    assert ImportTypes(uses, tags) == ImportTypes(added, []) == added;
    assert added == AddTypes(if IsGloballyRooted(t) || IsPhpDocType(t) then uses else AddUse(uses, t), []);
  }

  lemma ExcludedMethodsAreSkipped(t: Trait, blacklist: seq<string>)
    requires blacklist == EffectiveBlacklist([])
    ensures Fold(t, Excluded, blacklist) == t
  {
    assert forall i :: 0 <= i < |Excluded| ==> !Keep(Excluded[i], blacklist);
    FoldSkipsExcluded(t, Excluded, blacklist);
  }

  lemma SaveIsCopiedWithoutImports(t: Trait, blacklist: seq<string>)
    requires blacklist == EffectiveBlacklist([])
    ensures Fold(t, [Save], blacklist)
      == t.(methods := t.methods + [GeneratedMethod("save", Public, false, false, true, [DataParam], Some(SaveDoc.tags))])
  {
    assert Keep(Save, blacklist);
    assert Fold(t, [Save], blacklist) == Step(t, Save, blacklist);
    ArrayIsBuiltin("array");
    ImportTypesOfSingleType(t.uses, "param", "array");
  }

  /** Of the constructor, the private, the static and the documented public
      method, only the public one is copied, abstract and with its docblock,
      and `array` brings no import. */
  lemma OnlyThePublicInstanceMethodSurvives(cls: ClassDesc, namespace: string)
    requires namespace == "App" && cls == Repository(namespace)
    ensures var t := Process(cls, "Generated", EffectiveBlacklist([]));
      && t.name == "RepositoryTrait"
      && t.namespace == "Generated"
      && t.methods == [GeneratedMethod("save", Public, false, false, true, [DataParam], Some(SaveDoc.tags))]
      && t.uses == []
  {
    var blacklist := EffectiveBlacklist([]);
    RepositoryTraitName(namespace);
    var t0 := Trait("RepositoryTrait", "Generated", [], []);
    FoldConcat(t0, Excluded, [Save], blacklist);
    ExcludedMethodsAreSkipped(t0, blacklist);
    SaveIsCopiedWithoutImports(t0, blacklist);
  }

  /** Blacklisting `save` as well leaves the trait without methods. */
  lemma BlacklistingSaveEmptiesTheTrait(cls: ClassDesc, namespace: string)
    requires namespace == "App" && cls == Repository(namespace)
    ensures Process(cls, "Generated", EffectiveBlacklist(["save"])).methods == []
  {
    var blacklist := EffectiveBlacklist(["save"]);
    assert forall i :: 0 <= i < |cls.methods| ==> !Keep(cls.methods[i], blacklist);
    FoldSkipsExcluded(Trait(DeriveTraitName(cls.name), "Generated", [], []), cls.methods, blacklist);
  }

  // ---------------------------------------------------------------------
  // Imports

  /** `find()` documented `@return t`. The tag list carries the type; the
      comment text only has to be non-empty, since the compiler reads it
      through the `!= ''` test alone. */
  function Finder(t: string): ClassDesc
  {
    ClassDesc("Finder", [MethodDesc("find", Public, false, false, [],
      Some(DocComment("/** @return */", [TypeableTag("return", [t])])), "return null;")])
  }

  /** A return type rooted at the global namespace brings no import. */
  lemma RootedReturnTypeIsNotImported(t: string)
    requires t == "\\App\\Model\\User"
    ensures Process(Finder(t), "Generated", EffectiveBlacklist([])).uses == []
  {
    ProcessOfOneKeptMethod(Finder(t), "Generated", EffectiveBlacklist([]));
    ImportTypesOfSingleType([], "return", t);
  }

  lemma UserIsNotBuiltin(t: string)
    requires t == "App\\Model\\User"
    ensures Importable(t)
  {
    UnbracketedTokenIsComparedWhole(t);
    assert |ToLower(t)| > 8;
    assert ToLower(t) !in BuiltinTypes by {
      if ToLower(t) in BuiltinTypes {
        BuiltinTypesAreShort(ToLower(t));
      }
    }
  }

  /** The same type written without the leading backslash is imported, as
      written. */
  lemma UnrootedReturnTypeIsImported(t: string)
    requires t == "App\\Model\\User"
    ensures Process(Finder(t), "Generated", EffectiveBlacklist([])).uses == [t]
  {
    ProcessOfOneKeptMethod(Finder(t), "Generated", EffectiveBlacklist([]));
    ImportTypesOfSingleType([], "return", t);
    UserIsNotBuiltin(t);
  }

  /** `String[]` is built-in: case and array brackets are ignored. */
  lemma StringArrayIsBuiltin(t: string)
    requires t == "String"
    ensures IsPhpDocType(t + "[]")
  {
    assert ToLower(t) == "string";
    LowerCasedBuiltinIsPhpDocType(t);
    PhpDocTypeIgnoresTrailingBrackets(t, "[]");
  }

  lemma FooIsNotBuiltin(t: string)
    requires t == "Foo"
    ensures !IsPhpDocType(t)
  {
    assert ToLower(t) == "foo";
    assert "foo" !in BuiltinTypes;
    UnbracketedTokenIsComparedWhole(t);
  }

  lemma FooArrayIsNotBuiltin(t: string)
    requires t == "Foo"
    ensures !IsPhpDocType(t + "[]")
  {
    FooIsNotBuiltin(t);
    PhpDocTypeIgnoresTrailingBrackets(t, "[]");
  }

  /** `Foo[]` is not built-in, and is imported raw, brackets included. */
  lemma ClassArrayIsImportedRaw(t: string)
    requires t == "Foo[]"
    ensures ImportTypes([], [TypeableTag("param", [t])]) == [t]
  {
    assert t == "Foo" + "[]";
    FooArrayIsNotBuiltin("Foo");
    assert t[0] == 'F';
    ImportTypesOfSingleType([], "param", t);
  }

  lemma BazIsNotBuiltin(t: string)
    requires t == "\\Baz"
    ensures !IsPhpDocType("[" + t + "]")
  {
    assert ToLower(t) == "\\baz";
    assert "\\baz" !in BuiltinTypes;
    UnbracketedTokenIsComparedWhole(t);
    PhpDocTypeIgnoresBrackets("[", t, "]");
  }

  /** The rooted check looks at the raw first character: `[\Baz]` starts
      with a bracket, so it is imported although `\Baz` would not be. */
  lemma BracketBeforeRootIsImported(t: string)
    requires t == "\\Baz"
    ensures ImportTypes([], [TypeableTag("param", ["[" + t + "]"])]) == ["[" + t + "]"]
    ensures ImportTypes([], [TypeableTag("param", [t])]) == []
  {
    BazIsNotBuiltin(t);
    assert !IsGloballyRooted("[" + t + "]");
    ImportTypesOfSingleType([], "param", "[" + t + "]");
    ImportTypesOfSingleType([], "param", t);
  }

  /** Non-typeable tags contribute nothing, and a type named twice is
      imported once. */
  lemma RepeatedTypeIsImportedOnce(t: string)
    requires t == "Foo"
    ensures ImportTypes([], [PlainTag("see"), TypeableTag("return", [t, t])]) == [t]
  {
    FooIsNotBuiltin(t);
    var tags := [PlainTag("see"), TypeableTag("return", [t, t])];
    assert tags[1..] == [TypeableTag("return", [t, t])];
    assert ImportTypes([], tags) == ImportTypes([], tags[1..]);
    assert tags[1..][1..] == [];
    assert ImportTypes([], tags[1..]) == AddTypes([], [t, t]);
    assert [t, t][1..] == [t];
    assert AddTypes([], [t, t]) == AddTypes([t], [t]);
    assert [t][1..] == [];
    assert AddTypes([t], [t]) == AddTypes([t], []);
  }

  // ---------------------------------------------------------------------
  // Exact matching in the filter

  /** Blacklist matching is exact and bodies are read as PHP booleans: a
      constructor spelled `__Construct` passes the filter, and a body that
      reads `0` does not. */
  lemma FilterIsExact(ctor: string, body: string)
    requires ctor == "__Construct" && body == "0"
    ensures Keep(Bare(ctor, Public, false, "parent::__construct();"), EffectiveBlacklist([]))
    ensures !Keep(Bare("zero", Public, false, body), EffectiveBlacklist([]))
    ensures Keep(Bare("zeros", Protected, false, body + body), EffectiveBlacklist([]))
  {
    assert ctor[2] != ConstructorName[2];
  }
}
