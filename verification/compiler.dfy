/**
 The trait compiler: from a reflected concrete class, a trait named after the
 class that redeclares every public or protected, non-static, non-blacklisted
 method with a body as an abstract method, and imports every non-built-in,
 non-rooted type its copied docblocks mention.
 */
module TraitCompiler {
  import opened Wrappers
  import opened PhpStrings
  import opened Reflection
  import opened DocTypes
  import opened TraitModel

  const TraitSuffix: string := "Trait"

  /** The name always on the blacklist, ahead of the caller's names. */
  const ConstructorName: string := "__construct"

  // ---------------------------------------------------------------------
  // Trait name

  /** The separator the class name is cut at: `_` whenever the name holds
      one, otherwise `\`, otherwise none. */
  function Delimiter(className: string): Option<char>
  {
    if '_' in className then Some('_')
    else if '\\' in className then Some('\\')
    else None
  }

  /** The last segment of the class name, followed by `Trait`. */
  function DeriveTraitName(className: string): (r: string)
    ensures |r| >= |TraitSuffix| && r[|r| - |TraitSuffix|..] == TraitSuffix
  {
    var base :=
      match Delimiter(className)
      case Some(d) => LastSegment(className, d)
      case None => className;
    base + TraitSuffix
  }

  /** The trait name is `Trait` appended to a suffix of the class name: the
      part after the last `_` if there is one, else the part after the last
      `\` if there is one, else the whole class name. */
  lemma TraitNameIsLastSegmentPlusSuffix(className: string)
    ensures var r := DeriveTraitName(className);
      var base := r[..|r| - |TraitSuffix|];
      && r == base + TraitSuffix
      && |base| <= |className| && base == className[|className| - |base|..]
      && ('_' in className ==>
            && '_' !in base
            && |base| < |className| && className[|className| - |base| - 1] == '_')
      && ('_' !in className && '\\' in className ==>
            && '\\' !in base
            && |base| < |className| && className[|className| - |base| - 1] == '\\')
      && ('_' !in className && '\\' !in className ==> base == className)
  {
    var r := DeriveTraitName(className);
    match Delimiter(className)
    case Some(d) =>
      LastSegmentIsTailAfterLastDelimiter(className, d);
      assert r[..|r| - |TraitSuffix|] == LastSegment(className, d);
    case None =>
      assert r[..|r| - |TraitSuffix|] == className;
  }

  /** A name cut at its chosen delimiter yields the text after that
      delimiter's last occurrence, plus the suffix. */
  lemma TraitNameAfterLastDelimiter(prefix: string, d: char, tail: string)
    requires Delimiter(prefix + [d] + tail) == Some(d)
    requires d !in tail
    ensures DeriveTraitName(prefix + [d] + tail) == tail + TraitSuffix
  {
    LastSegmentOfJoined(prefix, d, tail);
  }

  /** A name with neither delimiter is kept whole, plus the suffix. */
  lemma TraitNameWithoutDelimiter(className: string)
    requires '_' !in className && '\\' !in className
    ensures DeriveTraitName(className) == className + TraitSuffix
  {
  }

  // ---------------------------------------------------------------------
  // Blacklist

  /** `array_merge(['__construct'], $blackListMethodNames)`. */
  function EffectiveBlacklist(callerBlacklist: seq<string>): seq<string>
  {
    [ConstructorName] + callerBlacklist
  }

  /** `in_array($methodName, $blackList, true)`: exact, case-sensitive. */
  predicate IsBlacklisted(methodName: string, blacklist: seq<string>)
  {
    methodName in blacklist
  }

  /** A name is blacklisted exactly when it is `__construct` or one of the
      caller's names; `__construct` is blacklisted whatever the caller passes. */
  lemma BlacklistIsConstructorPlusCallerNames(methodName: string, callerBlacklist: seq<string>)
    ensures IsBlacklisted(methodName, EffectiveBlacklist(callerBlacklist))
      <==> methodName == ConstructorName || methodName in callerBlacklist
    ensures IsBlacklisted(ConstructorName, EffectiveBlacklist(callerBlacklist))
  {
  }

  // ---------------------------------------------------------------------
  // Method filter

  /** The negation of the loop's `continue` condition: the method is not
      private, not static, not blacklisted, and its body is truthy. */
  predicate Keep(m: MethodDesc, blacklist: seq<string>)
  {
    !(m.visibility == Private
      || m.isStatic
      || IsBlacklisted(m.name, blacklist)
      || !IsTruthy(m.body))
  }

  /** With the merged blacklist, a method is kept exactly when it is public
      or protected, not static, neither `__construct` nor a caller-blacklisted
      name, and has a body other than `""` and `"0"`. */
  lemma KeepIff(m: MethodDesc, callerBlacklist: seq<string>)
    ensures Keep(m, EffectiveBlacklist(callerBlacklist)) <==>
      && (m.visibility == Public || m.visibility == Protected)
      && !m.isStatic
      && m.name != ConstructorName
      && m.name !in callerBlacklist
      && m.body != ""
      && m.body != "0"
  {
  }

  // ---------------------------------------------------------------------
  // Method transcription

  /** `getDocComment() != ''`: reflection reports a comment, and it is not
      empty. */
  predicate HasDocComment(m: MethodDesc)
  {
    m.docComment.Some? && m.docComment.value.text != ""
  }

  /** The abstract copy of a reflected method. */
  function Transcribe(m: MethodDesc): (g: GeneratedMethod)
    ensures g.isAbstract
    ensures g.name == m.name
    ensures g.isFinal == m.isFinal && g.isStatic == m.isStatic
    ensures g.visibility == m.visibility
    ensures g.params == m.params
    ensures g.docBlock.Some? <==> HasDocComment(m)
    ensures g.docBlock.Some? ==> g.docBlock.value == m.docComment.value.tags
  {
    var docBlock := if HasDocComment(m) then Some(m.docComment.value.tags) else None;
    var visibility :=
      if m.visibility.Private? then Private
      else if m.visibility.Protected? then Protected
      else Public;
    GeneratedMethod(m.name, visibility, m.isStatic, m.isFinal, true, m.params, docBlock)
  }

  // ---------------------------------------------------------------------
  // Imports from docblocks

  /** The inner loop of `importTypesPresentInDocBlock`: registers each
      alternative of one typeable tag that is neither rooted nor built-in. */
  function AddTypes(uses: seq<string>, types: seq<string>): (r: seq<string>)
    ensures forall x :: x in r <==> x in uses || (x in types && Importable(x))
    ensures |uses| <= |r| && r[..|uses|] == uses
    ensures NoDuplicates(uses) ==> NoDuplicates(r)
    decreases |types|
  {
    if |types| == 0 then uses
    else
      var t := types[0];
      var uses' := if IsGloballyRooted(t) || IsPhpDocType(t) then uses else AddUse(uses, t);
      assert forall x :: x in types <==> x == t || x in types[1..] by {
        assert types == [t] + types[1..];
      }
      AddTypes(uses', types[1..])
  }

  /** `importTypesPresentInDocBlock`: registers the importable types of
      every typeable tag, skipping the other tags. */
  function ImportTypes(uses: seq<string>, tags: seq<Tag>): (r: seq<string>)
    ensures forall x :: x in r <==> x in uses || DeclaresImport(tags, x)
    ensures |uses| <= |r| && r[..|uses|] == uses
    ensures NoDuplicates(uses) ==> NoDuplicates(r)
    decreases |tags|
  {
    if |tags| == 0 then uses
    else
      var uses' := if tags[0].TypeableTag? then AddTypes(uses, tags[0].types) else uses;
      DeclaresImportUnfold(tags);
      ImportTypes(uses', tags[1..])
  }

  lemma DeclaresImportUnfold(tags: seq<Tag>)
    requires |tags| > 0
    ensures forall x :: DeclaresImport(tags, x) <==>
      || (tags[0].TypeableTag? && x in tags[0].types && Importable(x))
      || DeclaresImport(tags[1..], x)
  {
    forall x
      ensures DeclaresImport(tags, x) ==>
        || (tags[0].TypeableTag? && x in tags[0].types && Importable(x))
        || DeclaresImport(tags[1..], x)
    {
      if DeclaresImport(tags, x) {
        var k :| 0 <= k < |tags| && tags[k].TypeableTag? && x in tags[k].types && Importable(x);
        if k > 0 {
          assert tags[1..][k - 1] == tags[k];
        }
      }
    }
    forall x | DeclaresImport(tags[1..], x)
      ensures DeclaresImport(tags, x)
    {
      var k :| 0 <= k < |tags[1..]| && tags[1..][k].TypeableTag? && x in tags[1..][k].types && Importable(x);
      assert tags[k + 1] == tags[1..][k];
    }
  }

  // ---------------------------------------------------------------------
  // The compilation loop

  /** One pass of the `foreach` over the reflected methods. */
  function Step(t: Trait, m: MethodDesc, blacklist: seq<string>): Trait
  {
    if !Keep(m, blacklist) then t
    else
      var g := Transcribe(m);
      var uses := if g.docBlock.Some? then ImportTypes(t.uses, g.docBlock.value) else t.uses;
      AddMethod(t.(uses := uses), g)
  }

  /** The `foreach` over the reflected methods, in order. */
  function Fold(t: Trait, methods: seq<MethodDesc>, blacklist: seq<string>): Trait
    decreases |methods|
  {
    if |methods| == 0 then t else Fold(Step(t, methods[0], blacklist), methods[1..], blacklist)
  }

  /** `process`: names the trait, then runs every reflected method through
      the filter, the transcription and the import resolution. */
  function Process(cls: ClassDesc, traitNamespace: string, blacklist: seq<string>): Trait
  {
    Fold(Trait(DeriveTraitName(cls.name), traitNamespace, [], []), cls.methods, blacklist)
  }

  // ---------------------------------------------------------------------
  // Construction

  datatype LookupError = ClassNotFound(className: string)

  /** A constructed compiler: its configuration and the trait it built. */
  datatype Compiler = Compiler(
    inputClass: string,
    traitNamespace: string,
    blackListMethodNames: seq<string>,
    basicTrait: Trait)

  /** The constructor: merges the blacklist and compiles eagerly. The
      reflection facility is the `registry` of the classes it can resolve;
      an unknown class fails construction. */
  function Construct(
    registry: map<string, ClassDesc>,
    inputClass: string,
    traitNamespace: string,
    blackListMethodNames: seq<string>): (r: Result<Compiler, LookupError>)
    ensures r.Failure? <==> inputClass !in registry
    ensures r.Failure? ==> r.error == ClassNotFound(inputClass)
    ensures r.Success? ==>
      && r.value.inputClass == inputClass
      && r.value.traitNamespace == traitNamespace
      && IsBlacklisted(ConstructorName, r.value.blackListMethodNames)
      && (forall n :: IsBlacklisted(n, r.value.blackListMethodNames) <==>
            n == ConstructorName || n in blackListMethodNames)
      && r.value.basicTrait.namespace == traitNamespace
      && r.value.basicTrait.name == DeriveTraitName(registry[inputClass].name)
      && r.value.basicTrait == Process(registry[inputClass], traitNamespace, r.value.blackListMethodNames)
  {
    if inputClass !in registry then Failure(ClassNotFound(inputClass))
    else
      var blacklist := EffectiveBlacklist(blackListMethodNames);
      var cls := registry[inputClass];
      FoldKeepsHeader(Trait(DeriveTraitName(cls.name), traitNamespace, [], []), cls.methods, blacklist);
      Success(Compiler(inputClass, traitNamespace, blacklist, Process(cls, traitNamespace, blacklist)))
  }

  // ---------------------------------------------------------------------
  // Reference definitions

  /** The kept methods' abstract copies, in reflection order. */
  function Generated(methods: seq<MethodDesc>, blacklist: seq<string>): seq<GeneratedMethod>
    decreases |methods|
  {
    if |methods| == 0 then []
    else
      (if Keep(methods[0], blacklist) then [Transcribe(methods[0])] else [])
      + Generated(methods[1..], blacklist)
  }

  /** The positions of the kept methods, in increasing order. */
  function KeptIndices(methods: seq<MethodDesc>, blacklist: seq<string>): seq<nat>
    decreases |methods|
  {
    if |methods| == 0 then []
    else
      (if Keep(methods[0], blacklist) then [0] else [])
      + Shift(KeptIndices(methods[1..], blacklist))
  }

  predicate StrictlyIncreasing(s: seq<nat>)
  {
    forall n, n' :: 0 <= n < n' < |s| ==> s[n] < s[n']
  }

  function Shift(s: seq<nat>): seq<nat>
  {
    seq(|s|, k requires 0 <= k < |s| => s[k] + 1)
  }

  /** A method makes the trait import `x`: it is kept, it carries a
      docblock, and a typeable tag there names `x`, which needs an import. */
  predicate ContributesImport(m: MethodDesc, blacklist: seq<string>, x: string)
  {
    Keep(m, blacklist) && HasDocComment(m) && DeclaresImport(m.docComment.value.tags, x)
  }

  // ---------------------------------------------------------------------
  // Properties of the loop

  lemma {:induction false} FoldKeepsHeader(t: Trait, methods: seq<MethodDesc>, blacklist: seq<string>)
    ensures Fold(t, methods, blacklist).name == t.name
    ensures Fold(t, methods, blacklist).namespace == t.namespace
    decreases |methods|
  {
    if |methods| > 0 {
      FoldKeepsHeader(Step(t, methods[0], blacklist), methods[1..], blacklist);
    }
  }

  /** The loop appends exactly the kept methods' abstract copies, in order. */
  lemma {:induction false} FoldAppendsGenerated(t: Trait, methods: seq<MethodDesc>, blacklist: seq<string>)
    ensures Fold(t, methods, blacklist).methods == t.methods + Generated(methods, blacklist)
    decreases |methods|
  {
    if |methods| > 0 {
      var t' := Step(t, methods[0], blacklist);
      FoldAppendsGenerated(t', methods[1..], blacklist);
      var head := if Keep(methods[0], blacklist) then [Transcribe(methods[0])] else [];
      assert t'.methods == t.methods + head;
      assert Generated(methods, blacklist) == head + Generated(methods[1..], blacklist);
      assert t.methods + head + Generated(methods[1..], blacklist)
          == t.methods + (head + Generated(methods[1..], blacklist));
    }
  }

  /** The loop's imports are the ones it started with plus those the kept
      methods contribute; it never registers an import twice. */
  lemma {:induction false} FoldCollectsImports(t: Trait, methods: seq<MethodDesc>, blacklist: seq<string>)
    requires NoDuplicates(t.uses)
    ensures NoDuplicates(Fold(t, methods, blacklist).uses)
    ensures forall x :: x in Fold(t, methods, blacklist).uses <==>
      x in t.uses || exists i :: 0 <= i < |methods| && ContributesImport(methods[i], blacklist, x)
    decreases |methods|
  {
    if |methods| > 0 {
      var m := methods[0];
      var t' := Step(t, m, blacklist);
      assert forall x :: x in t'.uses <==> x in t.uses || ContributesImport(m, blacklist, x);
      FoldCollectsImports(t', methods[1..], blacklist);
      forall x
        ensures (exists i :: 0 <= i < |methods| && ContributesImport(methods[i], blacklist, x)) <==>
          ContributesImport(m, blacklist, x)
          || exists i :: 0 <= i < |methods[1..]| && ContributesImport(methods[1..][i], blacklist, x)
      {
        if exists i :: 0 <= i < |methods| && ContributesImport(methods[i], blacklist, x) {
          var i :| 0 <= i < |methods| && ContributesImport(methods[i], blacklist, x);
          if i > 0 {
            assert methods[1..][i - 1] == methods[i];
          }
        }
        if exists i :: 0 <= i < |methods[1..]| && ContributesImport(methods[1..][i], blacklist, x) {
          var i :| 0 <= i < |methods[1..]| && ContributesImport(methods[1..][i], blacklist, x);
          assert methods[i + 1] == methods[1..][i];
        }
      }
    }
  }

  /** A run of excluded methods leaves the trait as it was. */
  lemma {:induction false} FoldSkipsExcluded(t: Trait, methods: seq<MethodDesc>, blacklist: seq<string>)
    requires forall i :: 0 <= i < |methods| ==> !Keep(methods[i], blacklist)
    ensures Fold(t, methods, blacklist) == t
    decreases |methods|
  {
    if |methods| > 0 {
      assert !Keep(methods[0], blacklist);
      assert forall i :: 0 <= i < |methods[1..]| ==> methods[1..][i] == methods[i + 1];
      FoldSkipsExcluded(t, methods[1..], blacklist);
    }
  }

  /** Running the loop over two lists in a row is running it over both. */
  lemma {:induction false} FoldConcat(t: Trait, a: seq<MethodDesc>, b: seq<MethodDesc>, blacklist: seq<string>)
    ensures Fold(t, a + b, blacklist) == Fold(Fold(t, a, blacklist), b, blacklist)
    decreases |a|
  {
    if |a| == 0 {
      assert a + b == b;
    } else {
      assert (a + b)[0] == a[0];
      assert (a + b)[1..] == a[1..] + b;
      FoldConcat(Step(t, a[0], blacklist), a[1..], b, blacklist);
    }
  }

  /** The kept methods' copies are a selection of the input in its order:
      `KeptIndices` lists exactly the positions of the kept methods, in
      increasing order, and the copy at each output position is the
      transcription of the method at the matching input position. */
  lemma GeneratedIsOrderedSelection(methods: seq<MethodDesc>, blacklist: seq<string>)
    ensures var idx := KeptIndices(methods, blacklist);
      var out := Generated(methods, blacklist);
      && |idx| == |out|
      && (forall n :: 0 <= n < |idx| ==> idx[n] < |methods| && out[n] == Transcribe(methods[idx[n]]))
      && StrictlyIncreasing(idx)
      && (forall i :: 0 <= i < |methods| ==> (Keep(methods[i], blacklist) <==> i in idx))
  {
    KeptIndicesSelectGenerated(methods, blacklist);
    KeptIndicesIncrease(methods, blacklist);
    KeptIndicesAreKeptPositions(methods, blacklist);
  }

  lemma {:induction false} KeptIndicesSelectGenerated(methods: seq<MethodDesc>, blacklist: seq<string>)
    ensures var idx := KeptIndices(methods, blacklist);
      var out := Generated(methods, blacklist);
      && |idx| == |out|
      && (forall n :: 0 <= n < |idx| ==> idx[n] < |methods| && out[n] == Transcribe(methods[idx[n]]))
    decreases |methods|
  {
    if |methods| > 0 {
      var tail := methods[1..];
      KeptIndicesSelectGenerated(tail, blacklist);
      var idx' := KeptIndices(tail, blacklist);
      var out' := Generated(tail, blacklist);
      var sh := Shift(idx');
      var idx := KeptIndices(methods, blacklist);
      var out := Generated(methods, blacklist);
      var head: seq<nat> := if Keep(methods[0], blacklist) then [0] else [];
      var outHead := if Keep(methods[0], blacklist) then [Transcribe(methods[0])] else [];
      assert idx == head + sh;
      assert out == outHead + out';
      assert |head| == |outHead|;
      forall n | 0 <= n < |idx|
        ensures idx[n] < |methods| && out[n] == Transcribe(methods[idx[n]])
      {
        if n < |head| {
          assert idx[n] == 0 && out[n] == Transcribe(methods[0]);
        } else {
          var k := n - |head|;
          assert idx[n] == sh[k] == idx'[k] + 1;
          assert out[n] == out'[k] == Transcribe(tail[idx'[k]]);
          assert tail[idx'[k]] == methods[idx[n]];
        }
      }
    }
  }

  lemma {:induction false} KeptIndicesIncrease(methods: seq<MethodDesc>, blacklist: seq<string>)
    ensures StrictlyIncreasing(KeptIndices(methods, blacklist))
    decreases |methods|
  {
    if |methods| > 0 {
      var idx' := KeptIndices(methods[1..], blacklist);
      KeptIndicesIncrease(methods[1..], blacklist);
      assert forall a, b :: 0 <= a < b < |idx'| ==> idx'[a] < idx'[b];
      var sh := Shift(idx');
      var idx := KeptIndices(methods, blacklist);
      var head: seq<nat> := if Keep(methods[0], blacklist) then [0] else [];
      assert idx == head + sh;
      forall n, n' | 0 <= n < n' < |idx|
        ensures idx[n] < idx[n']
      {
        var k' := n' - |head|;
        assert idx[n'] == sh[k'] == idx'[k'] + 1;
        if n >= |head| {
          var k := n - |head|;
          assert idx[n] == sh[k] == idx'[k] + 1;
          assert idx'[k] < idx'[k'];
        } else {
          assert idx[n] == 0;
        }
      }
    }
  }

  lemma {:induction false} KeptIndicesAreKeptPositions(methods: seq<MethodDesc>, blacklist: seq<string>)
    ensures var idx := KeptIndices(methods, blacklist);
      forall i :: 0 <= i < |methods| ==> (Keep(methods[i], blacklist) <==> i in idx)
    decreases |methods|
  {
    if |methods| > 0 {
      var tail := methods[1..];
      KeptIndicesAreKeptPositions(tail, blacklist);
      var idx' := KeptIndices(tail, blacklist);
      var sh := Shift(idx');
      var idx := KeptIndices(methods, blacklist);
      var head: seq<nat> := if Keep(methods[0], blacklist) then [0] else [];
      assert idx == head + sh;
      forall i | 0 <= i < |methods|
        ensures Keep(methods[i], blacklist) <==> i in idx
      {
        if i > 0 {
          assert methods[i] == tail[i - 1];
          if i - 1 in idx' {
            var n :| 0 <= n < |idx'| && idx'[n] == i - 1;
            assert sh[n] == i;
          }
          if i in sh {
            var n :| 0 <= n < |sh| && sh[n] == i;
            assert idx'[n] == i - 1;
          }
          assert i in idx <==> i in sh;
        } else {
          assert 0 !in sh;
        }
      }
    }
  }

  // ---------------------------------------------------------------------
  // Properties of the compiled trait

  /** The trait is named from the class and lives in the caller's namespace;
      its methods are exactly the kept methods' abstract copies, in
      reflection order; its imports are exactly those the kept, documented
      methods contribute, each registered once. */
  lemma ProcessBuildsTrait(cls: ClassDesc, traitNamespace: string, blacklist: seq<string>)
    ensures var t := Process(cls, traitNamespace, blacklist);
      && t.name == DeriveTraitName(cls.name)
      && t.namespace == traitNamespace
      && t.methods == Generated(cls.methods, blacklist)
      && NoDuplicates(t.uses)
      && (forall x :: x in t.uses <==>
            exists i :: 0 <= i < |cls.methods| && ContributesImport(cls.methods[i], blacklist, x))
  {
    var t0 := Trait(DeriveTraitName(cls.name), traitNamespace, [], []);
    FoldKeepsHeader(t0, cls.methods, blacklist);
    FoldAppendsGenerated(t0, cls.methods, blacklist);
    FoldCollectsImports(t0, cls.methods, blacklist);
  }

  /** Every method of the trait is abstract, and none is private or static. */
  lemma ProcessEmitsOnlyAbstractMethods(cls: ClassDesc, traitNamespace: string, blacklist: seq<string>)
    ensures forall g :: g in Process(cls, traitNamespace, blacklist).methods ==>
      g.isAbstract && g.visibility != Private && !g.isStatic
  {
    ProcessBuildsTrait(cls, traitNamespace, blacklist);
    GeneratedIsOrderedSelection(cls.methods, blacklist);
    var out := Generated(cls.methods, blacklist);
    var idx := KeptIndices(cls.methods, blacklist);
    forall g | g in out
      ensures g.isAbstract && g.visibility != Private && !g.isStatic
    {
      var n :| 0 <= n < |out| && out[n] == g;
      assert idx[n] in idx;
    }
  }

  /** The trait declares a method of a given name exactly when some
      reflected method of that name passes the filter. */
  lemma ProcessDeclaresExactlyKeptNames(cls: ClassDesc, traitNamespace: string, blacklist: seq<string>, name: string)
    ensures (exists g :: g in Process(cls, traitNamespace, blacklist).methods && g.name == name) <==>
      exists i :: 0 <= i < |cls.methods| && cls.methods[i].name == name && Keep(cls.methods[i], blacklist)
  {
    ProcessBuildsTrait(cls, traitNamespace, blacklist);
    var out := Generated(cls.methods, blacklist);
    if exists g :: g in out && g.name == name {
      var g :| g in out && g.name == name;
      var i := GeneratedComesFromKept(cls.methods, blacklist, g);
    }
    if exists i :: 0 <= i < |cls.methods| && cls.methods[i].name == name && Keep(cls.methods[i], blacklist) {
      var i :| 0 <= i < |cls.methods| && cls.methods[i].name == name && Keep(cls.methods[i], blacklist);
      KeptIsGenerated(cls.methods, blacklist, i);
    }
  }

  /** Every generated method is the copy of some kept input method. */
  lemma {:induction false} GeneratedComesFromKept(methods: seq<MethodDesc>, blacklist: seq<string>, g: GeneratedMethod)
    returns (i: nat)
    requires g in Generated(methods, blacklist)
    ensures i < |methods| && Keep(methods[i], blacklist) && g == Transcribe(methods[i])
    decreases |methods|
  {
    var head := if Keep(methods[0], blacklist) then [Transcribe(methods[0])] else [];
    assert Generated(methods, blacklist) == head + Generated(methods[1..], blacklist);
    if g in head {
      i := 0;
    } else {
      var i' := GeneratedComesFromKept(methods[1..], blacklist, g);
      i := i' + 1;
    }
  }

  /** Every kept input method has its copy among the generated methods. */
  lemma {:induction false} KeptIsGenerated(methods: seq<MethodDesc>, blacklist: seq<string>, i: nat)
    requires i < |methods| && Keep(methods[i], blacklist)
    ensures Transcribe(methods[i]) in Generated(methods, blacklist)
    decreases |methods|
  {
    var head := if Keep(methods[0], blacklist) then [Transcribe(methods[0])] else [];
    assert Generated(methods, blacklist) == head + Generated(methods[1..], blacklist);
    if i > 0 {
      assert methods[1..][i - 1] == methods[i];
      KeptIsGenerated(methods[1..], blacklist, i - 1);
    }
  }

  /** Imports never name a built-in or a globally rooted type. */
  lemma ProcessImportsOnlyImportable(cls: ClassDesc, traitNamespace: string, blacklist: seq<string>)
    ensures forall x :: x in Process(cls, traitNamespace, blacklist).uses ==>
      !IsGloballyRooted(x) && !IsPhpDocType(x)
  {
    ProcessBuildsTrait(cls, traitNamespace, blacklist);
  }

  /** An excluded method leaves no trace: removing it from the reflected
      methods changes neither the trait's methods nor its imports. */
  lemma ExcludedMethodLeavesNoTrace(
    name: string, before: seq<MethodDesc>, m: MethodDesc, after: seq<MethodDesc>,
    traitNamespace: string, blacklist: seq<string>)
    requires !Keep(m, blacklist)
    ensures Process(ClassDesc(name, before + [m] + after), traitNamespace, blacklist)
         == Process(ClassDesc(name, before + after), traitNamespace, blacklist)
  {
    var t0 := Trait(DeriveTraitName(name), traitNamespace, [], []);
    assert before + [m] + after == before + ([m] + after);
    FoldConcat(t0, before, [m] + after, blacklist);
    FoldConcat(t0, before, after, blacklist);
    var t1 := Fold(t0, before, blacklist);
    assert ([m] + after)[0] == m && ([m] + after)[1..] == after;
    assert Fold(t1, [m] + after, blacklist) == Fold(Step(t1, m, blacklist), after, blacklist);
  }

  /** Blacklisting every reflected method's name leaves the trait with no
      methods and no imports. */
  lemma BlacklistingEveryNameEmptiesTrait(cls: ClassDesc, traitNamespace: string, callerBlacklist: seq<string>)
    requires forall i :: 0 <= i < |cls.methods| ==> cls.methods[i].name in callerBlacklist
    ensures Process(cls, traitNamespace, EffectiveBlacklist(callerBlacklist)).methods == []
    ensures Process(cls, traitNamespace, EffectiveBlacklist(callerBlacklist)).uses == []
  {
    var blacklist := EffectiveBlacklist(callerBlacklist);
    forall i | 0 <= i < |cls.methods|
      ensures !Keep(cls.methods[i], blacklist)
    {
      BlacklistIsConstructorPlusCallerNames(cls.methods[i].name, callerBlacklist);
    }
    FoldSkipsExcluded(Trait(DeriveTraitName(cls.name), traitNamespace, [], []), cls.methods, blacklist);
  }

  /** A class with one method that passes the filter compiles to that
      method's copy, importing what its docblock declares. */
  lemma ProcessOfOneKeptMethod(cls: ClassDesc, traitNamespace: string, blacklist: seq<string>)
    requires |cls.methods| == 1 && Keep(cls.methods[0], blacklist)
    ensures var m := cls.methods[0];
      var t := Process(cls, traitNamespace, blacklist);
      && t.methods == [Transcribe(m)]
      && (forall x :: x in t.uses <==> HasDocComment(m) && DeclaresImport(m.docComment.value.tags, x))
      && t.uses == (if HasDocComment(m) then ImportTypes([], m.docComment.value.tags) else [])
  {
    var t0 := Trait(DeriveTraitName(cls.name), traitNamespace, [], []);
    ProcessBuildsTrait(cls, traitNamespace, blacklist);
    assert cls.methods[1..] == [];
    assert Fold(t0, cls.methods, blacklist) == Step(t0, cls.methods[0], blacklist);
  }
}
