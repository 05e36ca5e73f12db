/**
 * The Python `str` built-ins the source relies on, over the character model
 * of module Chars: `lower`, `lstrip`/`rstrip`/`strip` with no argument,
 * `join`, `split(sep)` for a one-character separator, and `split()` with no
 * argument. The lemmas relate `split` and `join` to each other.
 */
module PyStrings {
  import opened Chars

  /** `s.lower()`, one character at a time. */
  function LowerText(s: string): (r: string)
    ensures forall k :: 0 <= k < |r| ==> !IsUpperAscii(r[k])
    ensures |r| >= |s|
  {
    if s == [] then [] else Lower(s[0]) + LowerText(s[1..])
  }

  /**
   * Without U+0130, lower-casing maps each character to exactly one
   * character: its lower-case form under `Chars.Lower`.
   */
  lemma {:induction false} LowerTextPointwise(s: string)
    requires CapitalIWithDot !in s
    ensures |LowerText(s)| == |s|
    ensures forall k :: 0 <= k < |s| ==> [LowerText(s)[k]] == Lower(s[k])
  {
    if s != [] {
      LowerTextPointwise(s[1..]);
      var rest := LowerText(s[1..]);
      assert LowerText(s) == Lower(s[0]) + rest;
      forall k | 1 <= k < |s|
        ensures [LowerText(s)[k]] == Lower(s[k])
      {
        assert LowerText(s)[k] == rest[k - 1];
        assert s[k] == s[1..][k - 1];
      }
    }
  }

  /** `s.lstrip()`: the longest suffix of `s` that does not start with whitespace. */
  function TrimStart(s: string): (r: string)
    ensures |r| <= |s| && r == s[|s| - |r|..]
    ensures forall k :: 0 <= k < |s| - |r| ==> IsSpace(s[k])
    ensures r == [] || !IsSpace(r[0])
  {
    if s != [] && IsSpace(s[0]) then TrimStart(s[1..]) else s
  }

  /** `s.rstrip()`: the longest prefix of `s` that does not end with whitespace. */
  function TrimEnd(s: string): (r: string)
    ensures |r| <= |s| && r == s[..|r|]
    ensures forall k :: |r| <= k < |s| ==> IsSpace(s[k])
    ensures r == [] || !IsSpace(r[|r| - 1])
  {
    if s != [] && IsSpace(s[|s| - 1]) then TrimEnd(s[..|s| - 1]) else s
  }

  /**
   * `s.strip()`: the slice of `s` left after removing its leading and
   * trailing whitespace (`StripIsSlice`); it neither starts nor ends with
   * whitespace, and is empty exactly when `s` is all whitespace.
   */
  function Strip(s: string): (r: string)
    ensures |r| <= |s|
    ensures r == [] || (!IsSpace(r[0]) && !IsSpace(r[|r| - 1]))
    ensures r == [] <==> forall k :: 0 <= k < |s| ==> IsSpace(s[k])
  {
    var t := TrimStart(s);
    var r := TrimEnd(t);
    assert r != [] ==> r[0] == t[0];
    r
  }

  /** `r` is the slice of `s` at `i`, with only whitespace before and after it. */
  predicate IsTrimmedSlice(s: string, i: nat, r: string) {
    && i + |r| <= |s|
    && r == s[i..i + |r|]
    && (forall k :: 0 <= k < i ==> IsSpace(s[k]))
    && (forall k :: i + |r| <= k < |s| ==> IsSpace(s[k]))
  }

  /** `Strip(s)` is `s` with exactly its leading and trailing whitespace removed. */
  lemma StripIsSlice(s: string)
    ensures exists i: nat :: IsTrimmedSlice(s, i, Strip(s))
  {
    var t := TrimStart(s);
    var r := TrimEnd(t);
    var i := |s| - |t|;
    assert t == s[i..];
    assert r == s[i..i + |r|];
    forall k | i + |r| <= k < |s|
      ensures IsSpace(s[k])
    {
      assert s[k] == t[k - i];
    }
    assert Strip(s) == r;
    assert IsTrimmedSlice(s, i, r);
  }

  /** `sep.join(parts)`. */
  function Join(parts: seq<string>, sep: string): string {
    if parts == [] then []
    else if |parts| == 1 then parts[0]
    else parts[0] + sep + Join(parts[1..], sep)
  }

  /** `s.split(sep)` for a one-character separator: the pieces between separators. */
  function Split(s: string, sep: char): (r: seq<string>)
    ensures |r| >= 1
    ensures forall k :: 0 <= k < |r| ==> sep !in r[k]
  {
    if s == [] then [[]]
    else if s[0] == sep then [[]] + Split(s[1..], sep)
    else
      var rest := Split(s[1..], sep);
      [[s[0]] + rest[0]] + rest[1..]
  }

  /** The longest prefix of `s` without whitespace. */
  function WordPrefix(s: string): (r: string)
    ensures |r| <= |s| && r == s[..|r|]
    ensures forall k :: 0 <= k < |r| ==> !IsSpace(r[k])
    ensures |r| == |s| || IsSpace(s[|r|])
    ensures s != [] && !IsSpace(s[0]) ==> r != []
  {
    if s == [] || IsSpace(s[0]) then [] else [s[0]] + WordPrefix(s[1..])
  }

  /** `s.split()` with no argument: the maximal runs of non-whitespace characters, in order. */
  function Words(s: string): (r: seq<string>)
    ensures [] !in r
    decreases |s|
  {
    var t := TrimStart(s);
    if t == [] then []
    else
      var w := WordPrefix(t);
      assert |w| >= 1;
      var rest := t[|w|..];
      assert |rest| < |s|;
      [w] + Words(rest)
  }

  // ---------------------------------------------------------------------
  // split and join
  // ---------------------------------------------------------------------

  lemma JoinCons(part: string, rest: seq<string>, sep: string)
    requires rest != []
    ensures Join([part] + rest, sep) == part + sep + Join(rest, sep)
  {
    assert ([part] + rest)[1..] == rest;
  }

  lemma {:induction false} SplitWithoutSep(p: string, sep: char)
    requires sep !in p
    ensures Split(p, sep) == [p]
  {
    if p != [] {
      SplitWithoutSep(p[1..], sep);
      assert p == [p[0]] + p[1..];
    }
  }

  /** A piece without the separator, then the separator, splits off as one piece. */
  lemma {:induction false} SplitPiece(p: string, rest: string, sep: char)
    requires sep !in p
    ensures Split(p + [sep] + rest, sep) == [p] + Split(rest, sep)
  {
    if p == [] {
      assert p + [sep] + rest == [sep] + rest;
      assert ([sep] + rest)[1..] == rest;
    } else {
      var s := p + [sep] + rest;
      assert s[0] == p[0];
      assert s[1..] == p[1..] + [sep] + rest;
      SplitPiece(p[1..], rest, sep);
      assert [p[0]] + p[1..] == p;
    }
  }

  /**
   * Splitting a join recovers the parts, empty parts included, when no part
   * holds the separator. (`"".split(sep)` is `[""]`, so the list must be
   * non-empty.)
   */
  lemma {:induction false} SplitJoin(parts: seq<string>, sep: char)
    requires parts != []
    requires forall k :: 0 <= k < |parts| ==> sep !in parts[k]
    ensures Split(Join(parts, [sep]), sep) == parts
  {
    if |parts| == 1 {
      SplitWithoutSep(parts[0], sep);
    } else {
      SplitJoin(parts[1..], sep);
      SplitPiece(parts[0], Join(parts[1..], [sep]), sep);
      assert parts == [parts[0]] + parts[1..];
    }
  }

  /** Joining the pieces of a split with the separator gives back the string. */
  lemma {:induction false} JoinSplit(s: string, sep: char)
    ensures Join(Split(s, sep), [sep]) == s
  {
    if s != [] {
      var rest := Split(s[1..], sep);
      JoinSplit(s[1..], sep);
      if s[0] == sep {
        JoinCons([], rest, [sep]);
        assert s == [sep] + s[1..];
      } else if |rest| == 1 {
        assert s == [s[0]] + s[1..];
      } else {
        JoinCons([s[0]] + rest[0], rest[1..], [sep]);
        JoinCons(rest[0], rest[1..], [sep]);
        assert rest == [rest[0]] + rest[1..];
        assert s == [s[0]] + s[1..];
      }
    }
  }
}
