/**
 * `clean_text` (app.py:27-31): lower-case the text, turn every character
 * outside `[a-z0-9\s]` into a space, collapse each run of whitespace into
 * one space, and strip whitespace from both ends.
 *
 * Each of the four steps is its own function; `CleanText` chains them in
 * the order the source applies them. The lemmas at the end state what the
 * chain guarantees of its result.
 */
module Normalizer {
  import opened Chars
  import opened PyStrings

  // ---------------------------------------------------------------------
  // The four steps
  // ---------------------------------------------------------------------

  /** The substitution `re.sub(r'[^a-z0-9\s]', ' ', ...)` on one character. */
  function Mask(c: char): (r: char)
    ensures IsLowerAlnum(r) || IsSpace(r)
    ensures r == c || r == ' '
    ensures IsLowerAlnum(c) || IsSpace(c) ==> r == c
  {
    if IsLowerAlnum(c) || IsSpace(c) then c else ' '
  }

  /** `re.sub(r'[^a-z0-9\s]', ' ', text)`. */
  function MaskText(s: string): (r: string)
    ensures |r| == |s|
    ensures forall k :: 0 <= k < |s| ==>
      r[k] == (if IsLowerAlnum(s[k]) || IsSpace(s[k]) then s[k] else ' ')
  {
    if s == [] then [] else [Mask(s[0])] + MaskText(s[1..])
  }

  /**
   * `re.sub(r'\s+', ' ', text)`: every maximal run of whitespace becomes a
   * single space; every other character is kept, in order.
   */
  function Collapse(s: string): string
    decreases |s|
  {
    if s == [] then []
    else if IsSpace(s[0]) then [' '] + Collapse(TrimStart(s[1..]))
    else [s[0]] + Collapse(s[1..])
  }

  /**
   * `clean_text(text)`: the four steps in the source's order. The result
   * neither starts nor ends with whitespace.
   */
  function CleanText(text: string): (r: string)
    ensures r == [] || (!IsSpace(r[0]) && !IsSpace(r[|r| - 1]))
  {
    var collapsed := Collapse(MaskText(LowerText(text)));
    Strip(collapsed)
  }

  // ---------------------------------------------------------------------
  // Vocabulary for the properties
  // ---------------------------------------------------------------------

  /** `s` with every whitespace character removed. */
  function NonSpaces(s: string): (r: string)
    ensures forall k :: 0 <= k < |r| ==> !IsSpace(r[k])
  {
    if s == [] then [] else (if IsSpace(s[0]) then [] else [s[0]]) + NonSpaces(s[1..])
  }

  predicate AllSpace(s: string) {
    forall k :: 0 <= k < |s| ==> IsSpace(s[k])
  }

  /**
   * The ASCII letters and digits in the lower-case form of `text` (what
   * `Chars.AsciiFold` keeps of each character), in their original order:
   * the characters that normalisation must keep.
   */
  function AlnumsOf(text: string): (r: string)
    ensures forall k :: 0 <= k < |r| ==> IsLowerAlnum(r[k])
  {
    if text == [] then [] else AsciiFold(text[0]) + AlnumsOf(text[1..])
  }

  /**
   * The shape of normalised text: only `a-z`, `0-9` and the space, never
   * two spaces in a row, and no space at either end.
   */
  predicate IsNormalized(s: string) {
    && (forall k :: 0 <= k < |s| ==> IsLowerAlnum(s[k]) || s[k] == ' ')
    && (forall k :: 0 <= k < |s| - 1 ==> !(s[k] == ' ' && s[k + 1] == ' '))
    && (s != [] ==> s[0] != ' ' && s[|s| - 1] != ' ')
  }

  // ---------------------------------------------------------------------
  // Helper lemmas
  // ---------------------------------------------------------------------

  lemma {:induction false} NonSpacesAppend(a: string, b: string)
    ensures NonSpaces(a + b) == NonSpaces(a) + NonSpaces(b)
  {
    if a == [] {
      assert a + b == b;
    } else {
      assert (a + b)[0] == a[0];
      assert (a + b)[1..] == a[1..] + b;
      NonSpacesAppend(a[1..], b);
    }
  }

  lemma {:induction false} NonSpacesOfAllSpace(s: string)
    requires AllSpace(s)
    ensures NonSpaces(s) == []
  {
    if s != [] {
      NonSpacesOfAllSpace(s[1..]);
    }
  }

  lemma {:induction false} AllSpaceOfNoNonSpaces(s: string)
    requires NonSpaces(s) == []
    ensures AllSpace(s)
  {
    if s != [] {
      NonSpacesAppend([s[0]], s[1..]);
      assert s == [s[0]] + s[1..];
      AllSpaceOfNoNonSpaces(s[1..]);
    }
  }

  lemma NonSpacesOfTrimStart(s: string)
    ensures NonSpaces(TrimStart(s)) == NonSpaces(s)
  {
    var r := TrimStart(s);
    var i := |s| - |r|;
    assert s == s[..i] + r;
    NonSpacesAppend(s[..i], r);
    NonSpacesOfAllSpace(s[..i]);
  }

  lemma NonSpacesOfTrimEnd(s: string)
    ensures NonSpaces(TrimEnd(s)) == NonSpaces(s)
  {
    var r := TrimEnd(s);
    assert s == r + s[|r|..];
    NonSpacesAppend(r, s[|r|..]);
    NonSpacesOfAllSpace(s[|r|..]);
  }

  predicate NoAdjacentSpaces(s: string) {
    forall k :: 0 <= k < |s| - 1 ==> !(IsSpace(s[k]) && IsSpace(s[k + 1]))
  }

  predicate LowerAlnumOrBlank(s: string) {
    forall k :: 0 <= k < |s| ==> IsLowerAlnum(s[k]) || s[k] == ' '
  }

  lemma SliceKeepsShape(s: string, i: nat, j: nat)
    requires i <= j <= |s|
    ensures NoAdjacentSpaces(s) ==> NoAdjacentSpaces(s[i..j])
    ensures LowerAlnumOrBlank(s) ==> LowerAlnumOrBlank(s[i..j])
  {
    assert forall k :: 0 <= k < j - i ==> s[i..j][k] == s[i + k];
  }

  /** `Strip` keeps the shape that `Collapse` gives its result. */
  lemma StripKeepsShape(s: string)
    ensures NoAdjacentSpaces(s) ==> NoAdjacentSpaces(Strip(s))
    ensures LowerAlnumOrBlank(s) ==> LowerAlnumOrBlank(Strip(s))
  {
    var t := TrimStart(s);
    SliceKeepsShape(s, |s| - |t|, |s|);
    SliceKeepsShape(t, 0, |TrimEnd(t)|);
  }

  lemma NonSpacesOfStrip(s: string)
    ensures NonSpaces(Strip(s)) == NonSpaces(s)
  {
    NonSpacesOfTrimStart(s);
    NonSpacesOfTrimEnd(TrimStart(s));
  }

  /** The first character of `Collapse(s)` stands for the first character of `s`. */
  lemma CollapseHead(s: string)
    requires s != []
    ensures Collapse(s) != [] && Collapse(s)[0] == (if IsSpace(s[0]) then ' ' else s[0])
  {
  }

  /**
   * `Collapse` leaves no two whitespace characters side by side and, on
   * masked text, leaves only `a-z`, `0-9` and `' '`.
   */
  lemma {:induction false} CollapseShape(s: string)
    requires forall k :: 0 <= k < |s| ==> IsLowerAlnum(s[k]) || IsSpace(s[k])
    ensures NoAdjacentSpaces(Collapse(s))
    ensures LowerAlnumOrBlank(Collapse(s))
  {
    if s != [] {
      if IsSpace(s[0]) {
        var rest := TrimStart(s[1..]);
        assert forall k :: 0 <= k < |rest| ==> rest[k] == s[|s| - |rest| + k];
        CollapseShape(rest);
        if rest != [] {
          CollapseHead(rest);
        }
      } else {
        CollapseShape(s[1..]);
        if s[1..] != [] {
          CollapseHead(s[1..]);
        }
      }
    }
  }

  /** `Collapse` keeps every non-whitespace character, in order. */
  lemma {:induction false} NonSpacesOfCollapse(s: string)
    ensures NonSpaces(Collapse(s)) == NonSpaces(s)
  {
    if s != [] {
      assert s == [s[0]] + s[1..];
      NonSpacesAppend([s[0]], s[1..]);
      if IsSpace(s[0]) {
        var rest := TrimStart(s[1..]);
        NonSpacesOfCollapse(rest);
        NonSpacesOfTrimStart(s[1..]);
        NonSpacesAppend([' '], Collapse(rest));
      } else {
        NonSpacesOfCollapse(s[1..]);
        NonSpacesAppend([s[0]], Collapse(s[1..]));
      }
    }
  }

  lemma MaskTextAppend(a: string, b: string)
    ensures MaskText(a + b) == MaskText(a) + MaskText(b)
  {
    assert forall k :: 0 <= k < |a + b| ==> MaskText(a + b)[k] == (MaskText(a) + MaskText(b))[k];
  }

  /** What one character contributes to the letters and digits of the masked lower-case text. */
  lemma NonSpacesOfMaskedLower(c: char)
    ensures NonSpaces(MaskText(Lower(c))) == AsciiFold(c)
  {
    var l := Lower(c);
    var m := MaskText(l);
    if c == CapitalIWithDot {
      assert m == ['i', ' '];
      NonSpacesAppend(['i'], [' ']);
    } else {
      assert m == [Mask(l[0])];
    }
  }

  lemma {:induction false} NonSpacesOfMaskedLowerText(text: string)
    ensures NonSpaces(MaskText(LowerText(text))) == AlnumsOf(text)
  {
    if text != [] {
      var rest := LowerText(text[1..]);
      MaskTextAppend(Lower(text[0]), rest);
      NonSpacesAppend(MaskText(Lower(text[0])), MaskText(rest));
      NonSpacesOfMaskedLower(text[0]);
      NonSpacesOfMaskedLowerText(text[1..]);
    }
  }

  lemma {:induction false} LowerTextOfLowerAlnumOrSpace(s: string)
    requires forall k :: 0 <= k < |s| ==> IsLowerAlnum(s[k]) || IsSpace(s[k])
    ensures LowerText(s) == s
  {
    if s != [] {
      LowerTextOfLowerAlnumOrSpace(s[1..]);
      assert s == [s[0]] + s[1..];
    }
  }

  lemma {:induction false} CollapseOfSingleSpaces(s: string)
    requires forall k :: 0 <= k < |s| ==> IsSpace(s[k]) ==> s[k] == ' '
    requires NoAdjacentSpaces(s)
    ensures Collapse(s) == s
  {
    if s != [] {
      assert NoAdjacentSpaces(s[1..]) by {
        SliceKeepsShape(s, 1, |s|);
      }
      if IsSpace(s[0]) {
        assert s[1..] == [] || !IsSpace(s[1..][0]);
        assert TrimStart(s[1..]) == s[1..];
      }
      CollapseOfSingleSpaces(s[1..]);
      assert s == [s[0]] + s[1..];
    }
  }

  /** A prefix without whitespace passes through `Collapse` unchanged. */
  lemma {:induction false} CollapseWordThenRest(w: string, rest: string)
    requires forall k :: 0 <= k < |w| ==> !IsSpace(w[k])
    ensures Collapse(w + rest) == w + Collapse(rest)
  {
    if w != [] {
      assert (w + rest)[0] == w[0];
      assert (w + rest)[1..] == w[1..] + rest;
      CollapseWordThenRest(w[1..], rest);
      assert w == [w[0]] + w[1..];
    } else {
      assert w + rest == rest;
    }
  }

  lemma TrimStartOfSpaceCons(c: char, x: string)
    requires IsSpace(c)
    ensures TrimStart([c] + x) == TrimStart(x)
  {
    assert ([c] + x)[1..] == x;
  }

  lemma TrimStartOfNonSpaceStart(x: string)
    requires x == [] || !IsSpace(x[0])
    ensures TrimStart(x) == x
  {
  }

  /** Leading whitespace can be dropped before or after collapsing. */
  lemma {:induction false} TrimStartCollapse(s: string)
    ensures TrimStart(Collapse(s)) == Collapse(TrimStart(s))
  {
    if s != [] {
      if IsSpace(s[0]) {
        var u := TrimStart(s[1..]);
        assert TrimStart(s) == u;
        assert Collapse(s) == [' '] + Collapse(u);
        TrimStartOfSpaceCons(' ', Collapse(u));
        if u != [] {
          CollapseHead(u);
        }
        TrimStartOfNonSpaceStart(Collapse(u));
      } else {
        CollapseHead(s);
        TrimStartOfNonSpaceStart(Collapse(s));
        TrimStartOfNonSpaceStart(s);
      }
    }
  }

  /** Trailing whitespace of `b` is all `rstrip` removes while `b` has something else left. */
  lemma {:induction false} TrimEndAppend(a: string, b: string)
    requires TrimEnd(b) != []
    ensures TrimEnd(a + b) == a + TrimEnd(b)
    decreases |b|
  {
    var ab := a + b;
    assert ab[|ab| - 1] == b[|b| - 1];
    if IsSpace(b[|b| - 1]) {
      assert ab[..|ab| - 1] == a + b[..|b| - 1];
      TrimEndAppend(a, b[..|b| - 1]);
    }
  }

  lemma TrimEndOfNonSpaceStart(s: string)
    requires s != [] && !IsSpace(s[0])
    ensures TrimEnd(s) != []
  {
  }

  lemma WordsOfTrimStart(x: string)
    ensures Words(TrimStart(x)) == Words(x)
  {
    TrimStartOfNonSpaceStart(TrimStart(x));
  }

  lemma WordsOfWordStart(t: string)
    requires t != [] && !IsSpace(t[0])
    ensures Words(t) == [WordPrefix(t)] + Words(t[|WordPrefix(t)|..])
  {
    TrimStartOfNonSpaceStart(t);
  }

  /** Whitespace at the front collapses to one space before the collapsed rest. */
  lemma CollapseOfSpaceStart(s: string)
    requires s != [] && IsSpace(s[0])
    ensures Collapse(s) == [' '] + Collapse(TrimStart(s))
  {
    assert TrimStart(s) == TrimStart(s[1..]);
  }

  /** The last step of the induction below: a word, a space, and the collapsed rest. */
  lemma TrimEndOfWordSpaceRest(w: string, x: string)
    requires x != [] && !IsSpace(x[0])
    ensures TrimEnd(w + ([' '] + x)) == w + [' '] + TrimEnd(x)
  {
    assert w + ([' '] + x) == (w + [' ']) + x;
    TrimEndOfNonSpaceStart(x);
    TrimEndAppend(w + [' '], x);
  }

  lemma TrimEndOfWordSpace(w: string)
    requires w != [] && !IsSpace(w[|w| - 1])
    ensures TrimEnd(w + ([' '] + [])) == w
  {
    var x := w + ([' '] + []);
    assert x[..|x| - 1] == w;
  }

  lemma ConcatSlices(s: string, k: nat)
    requires k <= |s|
    ensures s[..k] + s[k..] == s
  {
  }

  /** The induction below, when `t` is one word. */
  lemma JoinedWordsOfOneWord(t: string)
    requires t != [] && !IsSpace(t[0])
    requires |WordPrefix(t)| == |t|
    ensures TrimEnd(Collapse(t)) == Join(Words(t), " ")
  {
    var w := WordPrefix(t);
    assert w == t;
    WordsOfWordStart(t);
    calc {
      TrimEnd(Collapse(t));
      == { CollapseWordThenRest(w, []); assert w + [] == w; }
      TrimEnd(w);
      == { assert !IsSpace(w[|w| - 1]); }
      w;
      == { assert Words(t) == [w]; }
      Join(Words(t), " ");
    }
  }

  /** The induction below, when `t` is one word and trailing whitespace. */
  lemma JoinedWordsOfWordThenSpaces(t: string)
    requires t != [] && !IsSpace(t[0])
    requires |WordPrefix(t)| < |t| && TrimStart(t[|WordPrefix(t)|..]) == []
    ensures TrimEnd(Collapse(t)) == Join(Words(t), " ")
  {
    var w := WordPrefix(t);
    var rest := t[|w|..];
    ConcatSlices(t, |w|);
    WordsOfWordStart(t);
    calc {
      TrimEnd(Collapse(t));
      == { CollapseWordThenRest(w, rest); }
      TrimEnd(w + Collapse(rest));
      == { CollapseOfSpaceStart(rest); }
      TrimEnd(w + ([' '] + []));
      == { TrimEndOfWordSpace(w); }
      w;
      == { WordsOfTrimStart(rest); assert Words(t) == [w]; }
      Join(Words(t), " ");
    }
  }

  /** The step of the induction below: a word, whitespace, and more words. */
  lemma JoinedWordsOfWordThenMore(t: string)
    requires t != [] && !IsSpace(t[0])
    requires |WordPrefix(t)| < |t|
    requires var u := TrimStart(t[|WordPrefix(t)|..]);
      u != [] && TrimEnd(Collapse(u)) == Join(Words(u), " ")
    ensures TrimEnd(Collapse(t)) == Join(Words(t), " ")
  {
    var w := WordPrefix(t);
    var rest := t[|w|..];
    var u := TrimStart(rest);
    ConcatSlices(t, |w|);
    WordsOfWordStart(t);
    calc {
      TrimEnd(Collapse(t));
      == { CollapseWordThenRest(w, rest); }
      TrimEnd(w + Collapse(rest));
      == { CollapseOfSpaceStart(rest); }
      TrimEnd(w + ([' '] + Collapse(u)));
      == { CollapseHead(u); TrimEndOfWordSpaceRest(w, Collapse(u)); }
      w + [' '] + TrimEnd(Collapse(u));
      w + " " + Join(Words(u), " ");
      == { WordsOfWordStart(u); JoinCons(w, Words(u), " "); }
      Join([w] + Words(u), " ");
      == { WordsOfTrimStart(rest); }
      Join(Words(t), " ");
    }
  }

  lemma {:induction false} TrimEndCollapseIsJoinedWords(t: string)
    requires t == [] || !IsSpace(t[0])
    ensures TrimEnd(Collapse(t)) == Join(Words(t), " ")
    decreases |t|
  {
    if t != [] {
      var w := WordPrefix(t);
      if |w| == |t| {
        JoinedWordsOfOneWord(t);
      } else {
        var u := TrimStart(t[|w|..]);
        if u == [] {
          JoinedWordsOfWordThenSpaces(t);
        } else {
          TrimEndCollapseIsJoinedWords(u);
          JoinedWordsOfWordThenMore(t);
        }
      }
    }
  }

  /**
   * Collapsing then stripping is the Python idiom `' '.join(s.split())`: the
   * whitespace-separated words of `s`, joined by single spaces.
   */
  lemma StripCollapseIsJoinedWords(s: string)
    ensures Strip(Collapse(s)) == Join(Words(s), " ")
  {
    var t := TrimStart(s);
    TrimStartCollapse(s);
    WordsOfTrimStart(s);
    TrimEndCollapseIsJoinedWords(t);
  }

  lemma {:induction false} TrimStartOfSpaces(sp: string, rest: string)
    requires AllSpace(sp)
    requires rest == [] || !IsSpace(rest[0])
    ensures TrimStart(sp + rest) == rest
  {
    if sp == [] {
      assert sp + rest == rest;
    } else {
      assert (sp + rest)[1..] == sp[1..] + rest;
      TrimStartOfSpaces(sp[1..], rest);
    }
  }

  /** A run of whitespace collapses to one space. */
  lemma CollapseSpacesThenRest(sp: string, rest: string)
    requires sp != [] && AllSpace(sp)
    requires rest == [] || !IsSpace(rest[0])
    ensures Collapse(sp + rest) == [' '] + Collapse(rest)
  {
    var t := sp + rest;
    assert t[0] == sp[0];
    assert t[1..] == sp[1..] + rest;
    TrimStartOfSpaces(sp[1..], rest);
  }

  // ---------------------------------------------------------------------
  // What clean_text guarantees
  // ---------------------------------------------------------------------

  /** Every character of the result is `a-z`, `0-9` or `' '`: no other whitespace survives. */
  lemma CleanTextAlphabet(text: string)
    ensures forall k :: 0 <= k < |CleanText(text)| ==>
      IsLowerAlnum(CleanText(text)[k]) || CleanText(text)[k] == ' '
  {
    var m := MaskText(LowerText(text));
    CollapseShape(m);
    StripKeepsShape(Collapse(m));
  }

  /** The result never holds two spaces (or any two whitespace characters) in a row. */
  lemma CleanTextNoDoubleSpace(text: string)
    ensures forall k :: 0 <= k < |CleanText(text)| - 1 ==>
      !(IsSpace(CleanText(text)[k]) && IsSpace(CleanText(text)[k + 1]))
  {
    var m := MaskText(LowerText(text));
    CollapseShape(m);
    StripKeepsShape(Collapse(m));
  }

  /** The result has the shape of normalised text. */
  lemma CleanTextIsNormalized(text: string)
    ensures IsNormalized(CleanText(text))
  {
    CleanTextAlphabet(text);
    CleanTextNoDoubleSpace(text);
  }

  /**
   * Removing the spaces from the result gives exactly the ASCII letters and
   * digits in the lower-case form of the input, in their original order.
   */
  lemma CleanTextKeepsAlnums(text: string)
    ensures NonSpaces(CleanText(text)) == AlnumsOf(text)
  {
    var m := MaskText(LowerText(text));
    NonSpacesOfMaskedLowerText(text);
    NonSpacesOfCollapse(m);
    NonSpacesOfStrip(Collapse(m));
  }

  lemma {:induction false} AlnumsOfEmpty(text: string)
    ensures AlnumsOf(text) == [] <==> forall k :: 0 <= k < |text| ==> !IsWordChar(text[k])
  {
    if text != [] {
      AlnumsOfEmpty(text[1..]);
      assert forall k :: 1 <= k < |text| ==> text[k] == text[1..][k - 1];
    }
  }

  /**
   * The result is empty exactly when no character of the input is an ASCII
   * letter or digit, KELVIN SIGN or U+0130 (what `IsWordChar` accepts):
   * empty input, and input made only of punctuation, whitespace and other
   * non-ASCII characters, give `""`.
   */
  lemma CleanTextEmptyIff(text: string)
    ensures CleanText(text) == [] <==> forall k :: 0 <= k < |text| ==> !IsWordChar(text[k])
  {
    var r := CleanText(text);
    CleanTextKeepsAlnums(text);
    AlnumsOfEmpty(text);
    if AlnumsOf(text) == [] && r != [] {
      AllSpaceOfNoNonSpaces(r);
      assert false;
    }
  }

  /** Normalised text is exactly what `clean_text` leaves unchanged. */
  lemma CleanTextFixpoint(s: string)
    ensures CleanText(s) == s <==> IsNormalized(s)
  {
    if IsNormalized(s) {
      LowerTextOfLowerAlnumOrSpace(s);
      assert MaskText(s) == s;
      CollapseOfSingleSpaces(s);
      assert TrimStart(s) == s;
      assert TrimEnd(s) == s;
    } else {
      CleanTextIsNormalized(s);
    }
  }

  /**
   * A reference definition: `clean_text` is the words of the masked
   * lower-case text, joined by single spaces.
   */
  lemma CleanTextIsJoinedWords(text: string)
    ensures CleanText(text) == Join(Words(MaskText(LowerText(text))), " ")
  {
    StripCollapseIsJoinedWords(MaskText(LowerText(text)));
  }

  /** `clean_text(clean_text(x)) == clean_text(x)`. */
  lemma CleanTextIdempotent(text: string)
    ensures CleanText(CleanText(text)) == CleanText(text)
  {
    CleanTextIsNormalized(text);
    CleanTextFixpoint(CleanText(text));
  }
}
