/**
 This module models the handful of PHP string built-ins the trait compiler
 relies on: `explode` followed by `array_pop`, `trim` with a character list,
 `strtolower` (ASCII letters only) and the truthiness of a string in a
 boolean context. Strings are sequences of characters; there is no encoding.
 */
module PhpStrings {

  /** `explode($d, $s)` for a one-character delimiter: the pieces of `s`
      between occurrences of `d`, in order, empty pieces included. */
  function Explode(s: string, d: char): (parts: seq<string>)
    ensures |parts| >= 1
    ensures |parts| == 1 <==> d !in s
    ensures forall k :: 0 <= k < |parts| ==> d !in parts[k]
  {
    if |s| == 0 then [""]
    else
      var rest := Explode(s[1..], d);
      if s[0] == d then [""] + rest
      else [[s[0]] + rest[0]] + rest[1..]
  }

  /** `implode($d, $parts)`: the inverse of `Explode`. */
  function Join(parts: seq<string>, d: char): string
    requires |parts| >= 1
  {
    if |parts| == 1 then parts[0] else parts[0] + [d] + Join(parts[1..], d)
  }

  /** Gluing the pieces back together with the delimiter gives the input. */
  lemma {:induction false} JoinExplode(s: string, d: char)
    ensures Join(Explode(s, d), d) == s
  {
    if |s| > 0 {
      var rest := Explode(s[1..], d);
      JoinExplode(s[1..], d);
      assert s == [s[0]] + s[1..];
      if s[0] == d {
        assert Explode(s, d) == [""] + rest;
        assert Join([""] + rest, d) == [d] + Join(rest, d);
      } else {
        assert Explode(s, d) == [[s[0]] + rest[0]] + rest[1..];
        JoinExtendsFirstPiece(s[0], rest, d);
      }
    }
  }

  /** Growing the first piece by one character grows the joined string by
      the same character in front. */
  lemma JoinExtendsFirstPiece(c: char, parts: seq<string>, d: char)
    requires |parts| >= 1
    ensures Join([[c] + parts[0]] + parts[1..], d) == [c] + Join(parts, d)
  {
    var ps := [[c] + parts[0]] + parts[1..];
    if |parts| > 1 {
      assert ps[1..] == parts[1..];
    }
  }

  /** `array_pop(explode($d, $s))`: the last piece of `s` cut at `d`. */
  function LastSegment(s: string, d: char): string
  {
    var parts := Explode(s, d);
    parts[|parts| - 1]
  }

  /** The last piece is the part of `s` after its last `d`: a suffix of `s`
      free of `d`, immediately preceded by `d` when `s` holds a `d`, and the
      whole of `s` when it does not. */
  lemma {:induction false} LastSegmentIsTailAfterLastDelimiter(s: string, d: char)
    ensures var r := LastSegment(s, d);
      && |r| <= |s|
      && r == s[|s| - |r|..]
      && d !in r
      && (d in s ==> |r| < |s| && s[|s| - |r| - 1] == d)
      && (d !in s ==> r == s)
  {
    if |s| == 0 {
    } else {
      var rest := Explode(s[1..], d);
      var r' := LastSegment(s[1..], d);
      LastSegmentIsTailAfterLastDelimiter(s[1..], d);
      assert r' == rest[|rest| - 1];
      var r := LastSegment(s, d);
      if s[0] == d {
        assert Explode(s, d) == [""] + rest;
        assert r == r';
        assert s[1..][|s[1..]| - |r'|..] == s[|s| - |r|..];
        if d in s[1..] {
          assert s[1..][|s[1..]| - |r'| - 1] == s[|s| - |r| - 1];
        } else {
          assert r == s[1..];
        }
      } else {
        var parts := Explode(s, d);
        assert parts == [[s[0]] + rest[0]] + rest[1..];
        assert d in s <==> d in s[1..] by {
          assert s == [s[0]] + s[1..];
        }
        if |rest| == 1 {
          assert r == [s[0]] + rest[0];
          assert r == s by {
            assert s == [s[0]] + s[1..];
          }
        } else {
          assert r == r';
          assert s[1..][|s[1..]| - |r'|..] == s[|s| - |r|..];
          assert s[1..][|s[1..]| - |r'| - 1] == s[|s| - |r| - 1];
        }
      }
    }
  }

  /** Cutting `prefix + d + tail` at `d`, where `tail` holds no `d`, leaves
      `tail` as the last piece. */
  lemma LastSegmentOfJoined(prefix: string, d: char, tail: string)
    requires d !in tail
    ensures LastSegment(prefix + [d] + tail, d) == tail
  {
    var s := prefix + [d] + tail;
    var r := LastSegment(s, d);
    LastSegmentIsTailAfterLastDelimiter(s, d);
    assert s[|prefix|] == d;
    assert forall k :: |s| - |r| <= k < |s| ==> s[k] == r[k - (|s| - |r|)];
    assert forall k :: |prefix| < k < |s| ==> s[k] == tail[k - |prefix| - 1];
    assert |r| <= |tail|;
    assert |r| >= |tail|;
    assert s[|s| - |tail|..] == tail;
  }

  /** Left half of `trim($s, $chars)`: drops the longest prefix made of `chars`. */
  function TrimLeft(s: string, chars: set<char>): (r: string)
    ensures |r| <= |s|
    ensures r == [] || r[0] !in chars
  {
    if |s| > 0 && s[0] in chars then TrimLeft(s[1..], chars) else s
  }

  /** Right half of `trim($s, $chars)`: drops the longest suffix made of `chars`. */
  function TrimRight(s: string, chars: set<char>): (r: string)
    ensures |r| <= |s|
    ensures r == [] || r[|r| - 1] !in chars
  {
    if |s| > 0 && s[|s| - 1] in chars then TrimRight(s[..|s| - 1], chars) else s
  }

  /** `trim($s, $chars)`: strips characters of `chars` from both ends. */
  function Trim(s: string, chars: set<char>): string
  {
    TrimRight(TrimLeft(s, chars), chars)
  }

  predicate AllIn(s: string, chars: set<char>)
  {
    forall k :: 0 <= k < |s| ==> s[k] in chars
  }

  /** `trim` keeps exactly the slice between the longest prefix and the
      longest suffix made of `chars`; neither end of what is kept is in `chars`. */
  lemma TrimKeepsInnerSlice(s: string, chars: set<char>) returns (p: string, q: string)
    ensures s == p + Trim(s, chars) + q
    ensures AllIn(p, chars) && AllIn(q, chars)
    ensures Trim(s, chars) == [] || (Trim(s, chars)[0] !in chars && Trim(s, chars)[|Trim(s, chars)| - 1] !in chars)
  {
    p, q := TrimSplit(s, chars);
    TrimEnds(s, chars);
  }

  lemma TrimSplit(s: string, chars: set<char>) returns (p: string, q: string)
    ensures s == p + Trim(s, chars) + q
    ensures AllIn(p, chars) && AllIn(q, chars)
  {
    var l := TrimLeft(s, chars);
    p := TrimLeftPadding(s, chars);
    q := TrimRightPadding(l, chars);
  }

  lemma TrimEnds(s: string, chars: set<char>)
    ensures Trim(s, chars) == [] || (Trim(s, chars)[0] !in chars && Trim(s, chars)[|Trim(s, chars)| - 1] !in chars)
  {
    var l := TrimLeft(s, chars);
    var r := TrimRight(l, chars);
    if r != [] {
      var q := TrimRightPadding(l, chars);
      assert r[0] == l[0];
    }
  }

  /** What `TrimLeft` drops is a run of `chars` in front of what it keeps. */
  lemma {:induction false} TrimLeftPadding(s: string, chars: set<char>) returns (p: string)
    ensures s == p + TrimLeft(s, chars) && AllIn(p, chars)
  {
    if |s| > 0 && s[0] in chars {
      var p' := TrimLeftPadding(s[1..], chars);
      p := [s[0]] + p';
      assert s == [s[0]] + s[1..];
    } else {
      p := [];
    }
  }

  /** What `TrimRight` drops is a run of `chars` behind what it keeps. */
  lemma {:induction false} TrimRightPadding(s: string, chars: set<char>) returns (q: string)
    ensures s == TrimRight(s, chars) + q && AllIn(q, chars)
  {
    if |s| > 0 && s[|s| - 1] in chars {
      var q' := TrimRightPadding(s[..|s| - 1], chars);
      q := q' + [s[|s| - 1]];
      assert s == s[..|s| - 1] + [s[|s| - 1]];
    } else {
      q := [];
    }
  }

  /** Bracketing a string with characters of `chars` does not change what
      `trim` keeps. */
  lemma {:induction false} TrimIgnoresPadding(p: string, t: string, q: string, chars: set<char>)
    requires AllIn(p, chars) && AllIn(q, chars)
    ensures Trim(p + t + q, chars) == Trim(t, chars)
  {
    TrimLeftIgnoresPrefix(p, t + q, chars);
    assert p + t + q == p + (t + q);
    var l := TrimLeft(t, chars);
    if l == [] {
      assert AllIn(t + q, chars) by {
        var pt := TrimLeftPadding(t, chars);
        assert t == pt;
      }
      TrimLeftOfAllIn(t + q, chars);
    } else {
      TrimLeftAppend(t, q, chars);
      TrimRightIgnoresSuffix(l, q, chars);
    }
  }

  lemma {:induction false} TrimLeftIgnoresPrefix(p: string, s: string, chars: set<char>)
    requires AllIn(p, chars)
    ensures TrimLeft(p + s, chars) == TrimLeft(s, chars)
  {
    if |p| > 0 {
      var ps := p + s;
      assert ps[0] == p[0];
      assert p[0] in chars;
      assert TrimLeft(ps, chars) == TrimLeft(ps[1..], chars);
      assert ps[1..] == p[1..] + s;
      assert AllIn(p[1..], chars);
      TrimLeftIgnoresPrefix(p[1..], s, chars);
    } else {
      assert p + s == s;
    }
  }

  lemma {:induction false} TrimRightIgnoresSuffix(s: string, q: string, chars: set<char>)
    requires AllIn(q, chars)
    ensures TrimRight(s + q, chars) == TrimRight(s, chars)
  {
    if |q| > 0 {
      assert (s + q)[..|s + q| - 1] == s + q[..|q| - 1];
      TrimRightIgnoresSuffix(s, q[..|q| - 1], chars);
    } else {
      assert s + q == s;
    }
  }

  lemma TrimLeftOfAllIn(s: string, chars: set<char>)
    requires AllIn(s, chars)
    ensures TrimLeft(s, chars) == []
  {
  }

  lemma {:induction false} TrimLeftAppend(t: string, q: string, chars: set<char>)
    requires TrimLeft(t, chars) != []
    ensures TrimLeft(t + q, chars) == TrimLeft(t, chars) + q
  {
    if |t| > 0 && t[0] in chars {
      assert (t + q)[1..] == t[1..] + q;
      TrimLeftAppend(t[1..], q, chars);
    }
  }

  predicate IsAsciiLetter(c: char)
  {
    'A' <= c <= 'Z' || 'a' <= c <= 'z'
  }

  /** `strtolower` on one character, ASCII letters only. */
  function LowerChar(c: char): (r: char)
    ensures 'A' <= c <= 'Z' ==> r as int == c as int + 32
    ensures !('A' <= c <= 'Z') ==> r == c
    ensures !('A' <= r <= 'Z')
    ensures r != c ==> 'A' <= c <= 'Z'
    ensures IsAsciiLetter(r) <==> IsAsciiLetter(c)
  {
    if 'A' <= c <= 'Z' then (c as int - 'A' as int + 'a' as int) as char else c
  }

  const UpperAlphabet: string := "ABCDEFGHIJKLMNOPQRSTUVWXYZ"
  const LowerAlphabet: string := "abcdefghijklmnopqrstuvwxyz"

  /** Against the alphabet written out: each capital goes to the lower-case
      letter at the same place. */
  lemma LowerCharFollowsAlphabet(i: int)
    requires 0 <= i < 26
    ensures LowerChar(UpperAlphabet[i]) == LowerAlphabet[i]
    ensures LowerChar(LowerAlphabet[i]) == LowerAlphabet[i]
  {
  }

  /** `strtolower($s)`, with the byte-wise ASCII mapping. */
  function ToLower(s: string): (r: string)
    ensures |r| == |s|
    ensures forall k :: 0 <= k < |s| ==> r[k] == LowerChar(s[k])
  {
    seq(|s|, k requires 0 <= k < |s| => LowerChar(s[k]))
  }

  /** Lower-casing leaves everything but letters alone, so it commutes with
      `trim` over a character list without letters. */
  lemma LowerCommutesWithTrim(s: string, chars: set<char>)
    requires forall c :: c in chars ==> !IsAsciiLetter(c)
    ensures ToLower(Trim(s, chars)) == Trim(ToLower(s), chars)
  {
    LowerCommutesWithTrimLeft(s, chars);
    LowerCommutesWithTrimRight(TrimLeft(s, chars), chars);
  }

  lemma {:induction false} LowerCommutesWithTrimLeft(s: string, chars: set<char>)
    requires forall c :: c in chars ==> !IsAsciiLetter(c)
    ensures ToLower(TrimLeft(s, chars)) == TrimLeft(ToLower(s), chars)
  {
    if |s| > 0 {
      assert ToLower(s)[1..] == ToLower(s[1..]);
      assert LowerChar(s[0]) in chars <==> s[0] in chars;
      LowerCommutesWithTrimLeft(s[1..], chars);
    }
  }

  lemma {:induction false} LowerCommutesWithTrimRight(s: string, chars: set<char>)
    requires forall c :: c in chars ==> !IsAsciiLetter(c)
    ensures ToLower(TrimRight(s, chars)) == TrimRight(ToLower(s), chars)
  {
    if |s| > 0 {
      assert ToLower(s)[..|s| - 1] == ToLower(s[..|s| - 1]);
      assert LowerChar(s[|s| - 1]) in chars <==> s[|s| - 1] in chars;
      LowerCommutesWithTrimRight(s[..|s| - 1], chars);
    }
  }

  lemma LowerIsIdempotent(s: string)
    ensures ToLower(ToLower(s)) == ToLower(s)
  {
  }

  /** A string in a boolean context: PHP treats `""` and `"0"` as false. */
  predicate IsTruthy(s: string)
  {
    s != "" && s != "0"
  }
}
