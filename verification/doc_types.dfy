/**
 Classification of the type tokens found in docblock tags: which ones name a
 PHP built-in or pseudo-type, which ones are rooted at the global namespace,
 and therefore which ones the generated trait has to import.
 */
module DocTypes {
  import opened PhpStrings
  import opened Reflection

  /** The lower-cased tokens `isPhpDocType` recognises: eighteen of them. */
  const BuiltinTypes: set<string> := {
    "$this", "array", "bool", "boolean", "callable", "false", "float",
    "int", "integer", "mixed", "null", "object", "resource", "self",
    "static", "string", "true", "void"
  }

  /** The characters `trim($type, '[]')` strips. */
  const ArrayBrackets: set<char> := {'[', ']'}

  /** `isPhpDocType`: the token, with `[` and `]` trimmed off both ends and
      lower-cased, is one of the built-in tokens. */
  predicate IsPhpDocType(t: string)
  {
    ToLower(Trim(t, ArrayBrackets)) in BuiltinTypes
  }

  /** `$type[0] === '\\'`: the token is fully qualified from the global
      namespace. PHP reads `""[0]` as `""` (with a warning), so the empty
      token is not rooted. */
  predicate IsGloballyRooted(t: string)
  {
    |t| > 0 && t[0] == '\\'
  }

  /** A token the trait must import. */
  predicate Importable(t: string)
  {
    !IsGloballyRooted(t) && !IsPhpDocType(t)
  }

  /** Some typeable tag among `tags` lists `t` as a type, and `t` needs an
      import. */
  predicate DeclaresImport(tags: seq<Tag>, t: string)
  {
    exists k :: 0 <= k < |tags| && tags[k].TypeableTag? && t in tags[k].types && Importable(t)
  }

  lemma BuiltinTypesHaveNoBrackets(b: string)
    requires b in BuiltinTypes
    ensures |b| > 0 && b[0] !in ArrayBrackets && b[|b| - 1] !in ArrayBrackets
    ensures ToLower(b) == b
  {
  }

  /** The test ignores case: two tokens equal up to ASCII case are either
      both built-in or both not. */
  lemma PhpDocTypeIgnoresCase(a: string, b: string)
    requires ToLower(a) == ToLower(b)
    ensures IsPhpDocType(a) <==> IsPhpDocType(b)
  {
    LowerCommutesWithTrim(a, ArrayBrackets);
    LowerCommutesWithTrim(b, ArrayBrackets);
    LowerIsIdempotent(Trim(a, ArrayBrackets));
    LowerIsIdempotent(Trim(b, ArrayBrackets));
  }

  /** The test ignores any run of `[` and `]` around the token: `string[]`
      is built-in because `string` is. */
  lemma PhpDocTypeIgnoresBrackets(p: string, t: string, q: string)
    requires AllIn(p, ArrayBrackets) && AllIn(q, ArrayBrackets)
    ensures IsPhpDocType(p + t + q) <==> IsPhpDocType(t)
  {
    TrimIgnoresPadding(p, t, q, ArrayBrackets);
  }

  /** Array brackets written after a token, as in `int[]`, do not change
      whether it is built-in. */
  lemma PhpDocTypeIgnoresTrailingBrackets(t: string, q: string)
    requires AllIn(q, ArrayBrackets)
    ensures IsPhpDocType(t + q) <==> IsPhpDocType(t)
  {
    assert t + q == "" + t + q;
    PhpDocTypeIgnoresBrackets("", t, q);
  }

  /** A token is built-in exactly when it is a built-in name, in any case,
      wrapped in runs of brackets. */
  lemma PhpDocTypeIffBracketedBuiltin(t: string)
    ensures IsPhpDocType(t) <==>
      exists i, j :: 0 <= i <= j <= |t| && AllIn(t[..i], ArrayBrackets)
        && AllIn(t[j..], ArrayBrackets) && ToLower(t[i..j]) in BuiltinTypes
  {
    if IsPhpDocType(t) {
      var i, j := PhpDocTypeHasBracketedBuiltin(t);
    }
    if exists i, j :: 0 <= i <= j <= |t| && AllIn(t[..i], ArrayBrackets)
        && AllIn(t[j..], ArrayBrackets) && ToLower(t[i..j]) in BuiltinTypes
    {
      var i, j :| 0 <= i <= j <= |t| && AllIn(t[..i], ArrayBrackets)
        && AllIn(t[j..], ArrayBrackets) && ToLower(t[i..j]) in BuiltinTypes;
      BracketedBuiltinIsPhpDocType(t, i, j);
    }
  }

  lemma PhpDocTypeHasBracketedBuiltin(t: string) returns (i: nat, j: nat)
    requires IsPhpDocType(t)
    ensures i <= j <= |t| && AllIn(t[..i], ArrayBrackets)
      && AllIn(t[j..], ArrayBrackets) && ToLower(t[i..j]) in BuiltinTypes
  {
    var r := Trim(t, ArrayBrackets);
    var p, q := TrimKeepsInnerSlice(t, ArrayBrackets);
    i, j := |p|, |p| + |r|;
    assert t[..i] == p && t[i..j] == r && t[j..] == q;
  }

  lemma BracketedBuiltinIsPhpDocType(t: string, i: nat, j: nat)
    requires i <= j <= |t| && AllIn(t[..i], ArrayBrackets)
      && AllIn(t[j..], ArrayBrackets) && ToLower(t[i..j]) in BuiltinTypes
    ensures IsPhpDocType(t)
  {
    assert t == t[..i] + t[i..j] + t[j..];
    PhpDocTypeIgnoresBrackets(t[..i], t[i..j], t[j..]);
    LowerCasedBuiltinIsPhpDocType(t[i..j]);
  }

  /** A token whose lower-cased form is one of the built-in names passes the
      test: such a name has no bracket at either end, so `trim` keeps the
      token whole. */
  lemma LowerCasedBuiltinIsPhpDocType(c: string)
    requires ToLower(c) in BuiltinTypes
    ensures IsPhpDocType(c)
  {
    var b := ToLower(c);
    BuiltinTypesHaveNoBrackets(b);
    assert LowerChar(c[0]) == b[0] && LowerChar(c[|c| - 1]) == b[|b| - 1];
    assert c[0] !in ArrayBrackets && c[|c| - 1] !in ArrayBrackets;
    assert Trim(c, ArrayBrackets) == c;
  }

  /** A token that neither starts nor ends with a bracket is compared as
      written, up to case. */
  lemma UnbracketedTokenIsComparedWhole(t: string)
    requires |t| > 0 && t[0] !in ArrayBrackets && t[|t| - 1] !in ArrayBrackets
    ensures IsPhpDocType(t) <==> ToLower(t) in BuiltinTypes
  {
    assert Trim(t, ArrayBrackets) == t;
  }

  /** No built-in token is longer than eight characters. */
  lemma BuiltinTypesAreShort(b: string)
    requires b in BuiltinTypes
    ensures |b| <= 8
  {
  }
}
