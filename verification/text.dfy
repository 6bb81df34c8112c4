/**
 * The string helpers the parser relies on, with Python's meaning: its notion
 * of whitespace, stripping, splitting into whitespace-delimited tokens,
 * cutting at the first line feed, replacing every whitespace run by one space
 * and deleting asterisks. Each function keeps a light contract; what callers
 * rely on is proved in the lemmas that follow it.
 */
module Text {

  /** A character Python's `str.isspace()` (and `\s` in a `str` pattern) accepts. */
  predicate IsSpace(c: char) {
    || ('\U{9}' <= c <= '\U{D}')      // tab, line feed, vertical tab, form feed, carriage return
    || ('\U{1C}' <= c <= '\U{20}')    // file/group/record/unit separators, space
    || c == '\U{85}' || c == '\U{A0}' || c == '\U{1680}'
    || ('\U{2000}' <= c <= '\U{200A}')
    || c == '\U{2028}' || c == '\U{2029}' || c == '\U{202F}' || c == '\U{205F}'
    || c == '\U{3000}'
  }

  predicate NoSpace(s: string) {
    forall i :: 0 <= i < |s| ==> !IsSpace(s[i])
  }

  predicate AllSpace(s: string) {
    forall i :: 0 <= i < |s| ==> IsSpace(s[i])
  }

  predicate IsPrefix(p: string, s: string) {
    |p| <= |s| && s[..|p|] == p
  }

  /** Python's `lstrip()`: what is left of `s` after its leading whitespace. */
  function TrimLeft(s: string): (r: string)
    ensures |r| <= |s|
    ensures r == [] || !IsSpace(r[0])
    ensures s != [] && IsSpace(s[0]) ==> |r| < |s|
  {
    if s != [] && IsSpace(s[0]) then TrimLeft(s[1..]) else s
  }

  /** `TrimLeft` removes a leading run of whitespace and nothing else. */
  lemma {:induction false} TrimLeftSpec(s: string)
    ensures var r := TrimLeft(s);
      s == s[..|s| - |r|] + r && AllSpace(s[..|s| - |r|])
  {
    if s != [] && IsSpace(s[0]) {
      TrimLeftSpec(s[1..]);
      var r := TrimLeft(s);
      assert s[1..] == s[1..][..|s| - 1 - |r|] + r;
      assert s[..|s| - |r|] == [s[0]] + s[1..][..|s| - 1 - |r|];
    }
  }

  /** Python's `rstrip()`: what is left of `s` before its trailing whitespace. */
  function TrimRight(s: string): (r: string)
    ensures |r| <= |s|
    ensures r == [] || !IsSpace(r[|r| - 1])
  {
    if s != [] && IsSpace(s[|s| - 1]) then TrimRight(s[..|s| - 1]) else s
  }

  /** `TrimRight` removes a trailing run of whitespace and nothing else. */
  lemma {:induction false} TrimRightSpec(s: string)
    ensures var r := TrimRight(s);
      s == r + s[|r|..] && AllSpace(s[|r|..])
  {
    if s != [] && IsSpace(s[|s| - 1]) {
      var p := s[..|s| - 1];
      TrimRightSpec(p);
      var r := TrimRight(s);
      assert s == p + [s[|s| - 1]];
      assert s[|r|..] == p[|r|..] + [s[|s| - 1]];
    }
  }

  /** Neither the first nor the last character is whitespace. */
  predicate Stripped(s: string) {
    s == [] || (!IsSpace(s[0]) && !IsSpace(s[|s| - 1]))
  }

  /** Python's `strip()`: the result neither starts nor ends with whitespace. */
  function Strip(s: string): (r: string)
    ensures |r| <= |s|
    ensures Stripped(r)
  {
    var l := TrimLeft(s);
    TrimRightSpec(l);
    assert TrimRight(l) == [] || TrimRight(l)[0] == l[0];
    TrimRight(l)
  }

  /** Everything before the first line feed: the first item of `split("\n")`. */
  function FirstLine(s: string): (r: string)
    ensures |r| <= |s|
    ensures '\n' !in r
  {
    if s == [] || s[0] == '\n' then [] else [s[0]] + FirstLine(s[1..])
  }

  /** The first line is a prefix holding no line feed, ended by one or by the text's end. */
  lemma {:induction false} FirstLineSpec(s: string)
    ensures var r := FirstLine(s);
      IsPrefix(r, s) && '\n' !in r && (|r| == |s| || s[|r|] == '\n')
  {
    if s != [] && s[0] != '\n' {
      FirstLineSpec(s[1..]);
    }
  }

  /** The longest prefix of `s` free of whitespace. */
  function Word(s: string): (w: string)
    ensures |w| <= |s|
    ensures s != [] && !IsSpace(s[0]) ==> w != []
  {
    if s == [] || IsSpace(s[0]) then [] else [s[0]] + Word(s[1..])
  }

  /** `Word` is a whitespace-free prefix that stops only at whitespace or the end. */
  lemma {:induction false} WordSpec(s: string)
    ensures var w := Word(s);
      IsPrefix(w, s) && NoSpace(w) && (|w| == |s| || IsSpace(s[|w|]))
  {
    if s != [] && !IsSpace(s[0]) {
      WordSpec(s[1..]);
    }
  }

  /**
   * Python's `split()` with no argument: the maximal whitespace-free runs, in
   * order. There are none exactly when the text is all whitespace.
   */
  function Tokens(s: string): (ts: seq<string>)
    ensures ts == [] <==> AllSpace(s)
    decreases |s|
  {
    var t := TrimLeft(s);
    TrimLeftEmptyIff(s);
    if t == [] then []
    else
      var w := Word(t);
      [w] + Tokens(t[|w|..])
  }

  /** Every token is non-empty and free of whitespace. */
  lemma {:induction false} TokensSpec(s: string)
    ensures forall k :: 0 <= k < |Tokens(s)| ==> Tokens(s)[k] != [] && NoSpace(Tokens(s)[k])
    decreases |s|
  {
    var t := TrimLeft(s);
    if t != [] {
      var w := Word(t);
      WordSpec(t);
      TokensSpec(t[|w|..]);
    }
  }

  /** Left stripping empties out exactly the all-whitespace strings. */
  lemma TrimLeftEmptyIff(s: string)
    ensures TrimLeft(s) == [] <==> AllSpace(s)
  {
    var t := TrimLeft(s);
    TrimLeftSpec(s);
    AllSpaceConcat(s[..|s| - |t|], t);
    if t != [] {
      assert !IsSpace(t[0]);
    }
  }

  /** The text with every whitespace character deleted. */
  function RemoveSpaces(s: string): (r: string)
    ensures |r| <= |s|
  {
    if s == [] then []
    else (if IsSpace(s[0]) then [] else [s[0]]) + RemoveSpaces(s[1..])
  }

  lemma {:induction false} RemoveSpacesTrimLeft(s: string)
    ensures RemoveSpaces(TrimLeft(s)) == RemoveSpaces(s)
    decreases |s|
  {
    if s != [] && IsSpace(s[0]) {
      RemoveSpacesTrimLeft(s[1..]);
    }
  }

  lemma {:induction false} RemoveSpacesWord(t: string)
    ensures RemoveSpaces(t) == Word(t) + RemoveSpaces(t[|Word(t)|..])
    decreases |t|
  {
    if t != [] && !IsSpace(t[0]) {
      RemoveSpacesWord(t[1..]);
      assert t[1..][|Word(t[1..])|..] == t[|Word(t)|..];
    } else {
      assert t[0..] == t;
    }
  }

  lemma JoinNothing(w: string, ts: seq<string>)
    ensures Join([w] + ts, "") == w + Join(ts, "")
  {
    if ts != [] {
      assert ([w] + ts)[1..] == ts;
    }
  }

  /**
   * Splitting keeps every non-whitespace character, in order: the tokens
   * joined with nothing between them are the text without its whitespace.
   */
  lemma {:induction false} TokensKeepText(s: string)
    ensures Join(Tokens(s), "") == RemoveSpaces(s)
    decreases |s|
  {
    var t := TrimLeft(s);
    RemoveSpacesTrimLeft(s);
    if t != [] {
      var w := Word(t);
      RemoveSpacesWord(t);
      TokensKeepText(t[|w|..]);
      JoinNothing(w, Tokens(t[|w|..]));
    }
  }

  /** Python's `sep.join(ts)` */
  function Join(ts: seq<string>, sep: string): string {
    if ts == [] then []
    else if |ts| == 1 then ts[0]
    else ts[0] + sep + Join(ts[1..], sep)
  }

  /** Every whitespace character is a plain space, and no two are adjacent. */
  predicate SpacesNormal(s: string) {
    forall i :: 0 <= i < |s| && IsSpace(s[i]) ==>
      s[i] == ' ' && (i + 1 < |s| ==> !IsSpace(s[i + 1]))
  }

  /** What a cleaned message looks like: normal spacing and nothing to strip. */
  predicate IsClean(s: string) {
    SpacesNormal(s) && (s != [] ==> !IsSpace(s[0]) && !IsSpace(s[|s| - 1]))
  }

  /** Regular-expression substitution of every `\s+` run by a single space. */
  function Collapse(s: string): (r: string)
    ensures r == [] <==> s == []
    ensures r != [] ==> (IsSpace(r[0]) <==> IsSpace(s[0]))
    decreases |s|
  {
    if s == [] then []
    else if IsSpace(s[0]) then " " + Collapse(TrimLeft(s))
    else [s[0]] + Collapse(s[1..])
  }

  lemma AllSpaceConcat(a: string, b: string)
    ensures AllSpace(a + b) <==> AllSpace(a) && AllSpace(b)
  {
    if AllSpace(a) && AllSpace(b) {
      forall i | 0 <= i < |a + b| ensures IsSpace((a + b)[i]) {
        if i < |a| { assert (a + b)[i] == a[i]; } else { assert (a + b)[i] == b[i - |a|]; }
      }
    }
    if AllSpace(a + b) {
      forall i | 0 <= i < |a| ensures IsSpace(a[i]) { assert (a + b)[i] == a[i]; }
      forall i | 0 <= i < |b| ensures IsSpace(b[i]) { assert (a + b)[i + |a|] == b[i]; }
    }
  }

  /** Collapsing leaves normal spacing, and all-whitespace text stays all-whitespace. */
  lemma {:induction false} CollapseSpec(s: string)
    ensures SpacesNormal(Collapse(s))
    ensures AllSpace(Collapse(s)) <==> AllSpace(s)
    decreases |s|
  {
    if s == [] {
    } else if IsSpace(s[0]) {
      var t := TrimLeft(s);
      TrimLeftSpec(s);
      CollapseSpec(t);
      AllSpaceConcat(s[..|s| - |t|], t);
      AllSpaceConcat(" ", Collapse(t));
      var r := Collapse(s);
      assert r == " " + Collapse(t);
      forall i | 0 <= i < |r| && IsSpace(r[i])
        ensures r[i] == ' ' && (i + 1 < |r| ==> !IsSpace(r[i + 1]))
      {
        if i > 0 { assert r[i] == Collapse(t)[i - 1]; }
        if i + 1 < |r| { assert r[i + 1] == Collapse(t)[i]; }
      }
    } else {
      CollapseSpec(s[1..]);
      var r := Collapse(s);
      assert r == [s[0]] + Collapse(s[1..]);
      forall i | 0 <= i < |r| && IsSpace(r[i])
        ensures r[i] == ' ' && (i + 1 < |r| ==> !IsSpace(r[i + 1]))
      {
        assert i > 0 && r[i] == Collapse(s[1..])[i - 1];
        if i + 1 < |r| { assert r[i + 1] == Collapse(s[1..])[i]; }
      }
      assert !AllSpace(s) && !AllSpace(r) by { assert !IsSpace(s[0]) && r[0] == s[0]; }
    }
  }

  /**
   * Python's whitespace normalisation of a message: collapse runs, then
   * strip. The result has normal spacing and no surrounding whitespace.
   */
  function Clean(s: string): (r: string)
    ensures IsClean(r)
  {
    StripCollapseIsClean(s);
    Strip(Collapse(s))
  }

  /** Regular-expression substitution deleting every asterisk. */
  function RemoveStars(s: string): (r: string)
    ensures |r| <= |s|
    ensures '*' !in r
  {
    if s == [] then []
    else if s[0] == '*' then RemoveStars(s[1..])
    else [s[0]] + RemoveStars(s[1..])
  }

  /** The result holds no asterisk, only characters of `s`, and is `s` when `s` had none. */
  lemma {:induction false} RemoveStarsSpec(s: string)
    ensures '*' !in RemoveStars(s)
    ensures forall c :: c in RemoveStars(s) ==> c in s
    ensures '*' !in s ==> RemoveStars(s) == s
  {
    if s != [] {
      RemoveStarsSpec(s[1..]);
      var r := RemoveStars(s[1..]);
      assert s == [s[0]] + s[1..];
      if s[0] != '*' {
        assert RemoveStars(s) == [s[0]] + r;
      }
    }
  }

  /**
   * Deleting asterisks works character by character: the result for a
   * concatenation is the concatenation of the results, so every character
   * other than `*` is kept, in order.
   */
  lemma {:induction false} RemoveStarsConcat(a: string, b: string)
    ensures RemoveStars(a + b) == RemoveStars(a) + RemoveStars(b)
  {
    if a != [] {
      RemoveStarsConcat(a[1..], b);
      assert (a + b)[1..] == a[1..] + b;
    } else {
      assert a + b == b;
    }
  }

  // ---------------------------------------------------------------------------
  // Properties of the cleaning step
  // ---------------------------------------------------------------------------

  lemma SpacesNormalSlice(s: string, i: nat, j: nat)
    requires i <= j <= |s| && SpacesNormal(s)
    ensures SpacesNormal(s[i..j])
  {
    var t := s[i..j];
    forall k | 0 <= k < |t| && IsSpace(t[k])
      ensures t[k] == ' ' && (k + 1 < |t| ==> !IsSpace(t[k + 1]))
    {
      assert t[k] == s[i + k];
    }
  }

  lemma TrimLeftNoOp(s: string)
    requires s == [] || !IsSpace(s[0])
    ensures TrimLeft(s) == s
  {
  }

  lemma TrimRightNoOp(s: string)
    requires s == [] || !IsSpace(s[|s| - 1])
    ensures TrimRight(s) == s
  {
  }

  /** Collapsing then stripping leaves normal spacing and no surrounding whitespace. */
  lemma StripCollapseIsClean(s: string)
    ensures IsClean(Strip(Collapse(s)))
  {
    var c := Collapse(s);
    CollapseSpec(s);
    var l := TrimLeft(c);
    TrimLeftSpec(c);
    assert l == c[|c| - |l|..];
    SpacesNormalSlice(c, |c| - |l|, |c|);
    var r := TrimRight(l);
    TrimRightSpec(l);
    assert r == l[..|r|];
    SpacesNormalSlice(l, 0, |r|);
    if r != [] {
      assert r[0] == l[0];
    }
  }

  /** Collapsing text whose spacing is already normal changes nothing. */
  lemma {:induction false} CollapseNormal(s: string)
    requires SpacesNormal(s)
    ensures Collapse(s) == s
    decreases |s|
  {
    if s == [] {
    } else if IsSpace(s[0]) {
      SpacesNormalSlice(s, 1, |s|);
      assert s[1..] == [] || !IsSpace(s[1..][0]);
      assert TrimLeft(s) == s[1..] by {
        TrimLeftNoOp(s[1..]);
      }
      CollapseNormal(s[1..]);
      assert s == " " + s[1..];
    } else {
      SpacesNormalSlice(s, 1, |s|);
      CollapseNormal(s[1..]);
      assert s == [s[0]] + s[1..];
    }
  }

  /** Cleaning leaves clean text alone. */
  lemma CleanFixesClean(s: string)
    requires IsClean(s)
    ensures Clean(s) == s
  {
    CollapseNormal(s);
    TrimLeftNoOp(s);
    TrimRightNoOp(s);
  }

  /** Cleaning a second time leaves the message unchanged. */
  lemma CleanIdempotent(s: string)
    ensures Clean(Clean(s)) == Clean(s)
  {
    CleanFixesClean(Clean(s));
  }

  /** Stripping empties out exactly the all-whitespace strings. */
  lemma StripEmptyIff(s: string)
    ensures Strip(s) == [] <==> AllSpace(s)
  {
    var l := TrimLeft(s);
    TrimLeftSpec(s);
    AllSpaceConcat(s[..|s| - |l|], l);
    if l != [] {
      assert !AllSpace(l) by { assert !IsSpace(l[0]); }
      TrimRightSpec(l);
    }
  }

  /** The cleaned message is empty exactly when the raw text is all whitespace. */
  lemma CleanEmptyIff(s: string)
    ensures Clean(s) == [] <==> AllSpace(s)
  {
    CollapseSpec(s);
    StripEmptyIff(Collapse(s));
  }

  /** Removing the leading whitespace first does not change the cleaned text. */
  lemma CleanTrimLeft(s: string)
    ensures Clean(s) == Clean(TrimLeft(s))
  {
    var t := TrimLeft(s);
    if s != [] && IsSpace(s[0]) {
      var c := Collapse(t);
      assert Collapse(s) == " " + c;
      assert TrimLeft(" " + c) == TrimLeft(c) by {
        assert (" " + c)[1..] == c;
      }
      TrimLeftNoOp(c);
      TrimLeftNoOp(t);
    }
  }

  /** A word of `t` survives collapsing as it is. */
  lemma {:induction false} CollapseWord(t: string)
    ensures Collapse(t) == Word(t) + Collapse(t[|Word(t)|..])
    decreases |t|
  {
    if t != [] && !IsSpace(t[0]) {
      var w := Word(t[1..]);
      CollapseWord(t[1..]);
      assert Word(t) == [t[0]] + w;
      assert t[1..][|w|..] == t[|Word(t)|..];
      assert Collapse(t) == [t[0]] + Collapse(t[1..]);
    }
  }

  lemma {:induction false} TrimRightSpaces(a: string, b: string)
    requires AllSpace(b)
    ensures TrimRight(a + b) == TrimRight(a)
    decreases |b|
  {
    if b != [] {
      assert (a + b)[..|a + b| - 1] == a + b[..|b| - 1];
      TrimRightSpaces(a, b[..|b| - 1]);
    } else {
      assert a + b == a;
    }
  }

  lemma {:induction false} TrimRightKeeps(a: string, b: string)
    requires !AllSpace(b)
    ensures TrimRight(a + b) == a + TrimRight(b)
    decreases |b|
  {
    if IsSpace(b[|b| - 1]) {
      assert (a + b)[..|a + b| - 1] == a + b[..|b| - 1];
      assert !AllSpace(b[..|b| - 1]) by {
        var i :| 0 <= i < |b| && !IsSpace(b[i]);
        assert b[..|b| - 1][i] == b[i];
      }
      TrimRightKeeps(a, b[..|b| - 1]);
    }
  }

  lemma TrimLeftTwice(s: string)
    ensures TrimLeft(TrimLeft(s)) == TrimLeft(s)
  {
    TrimLeftNoOp(TrimLeft(s));
  }

  /** The tokens of a text that starts with a word: that word, then the rest's. */
  lemma TokensOfWord(t: string)
    requires t != [] && !IsSpace(t[0])
    ensures Tokens(t) == [Word(t)] + Tokens(t[|Word(t)|..])
  {
    TrimLeftNoOp(t);
  }

  /** Cleaning a text that starts with a word keeps that word in front. */
  lemma CleanOfWord(t: string)
    requires t != [] && !IsSpace(t[0])
    ensures Clean(t) == TrimRight(Word(t) + Collapse(t[|Word(t)|..]))
  {
    CollapseWord(t);
    TrimLeftNoOp(Collapse(t));
  }

  /** When only whitespace follows the word, the word is all that is left. */
  lemma CleanLastWord(w: string, rest: string)
    requires w != [] && NoSpace(w) && AllSpace(rest)
    ensures TrimRight(w + Collapse(rest)) == w
  {
    CollapseSpec(rest);
    TrimRightSpaces(w, Collapse(rest));
    TrimRightNoOp(w);
  }

  /** When another word follows, one space separates it from the cleaned rest. */
  lemma CleanMoreWords(w: string, rest: string)
    requires rest != [] && IsSpace(rest[0]) && TrimLeft(rest) != []
    ensures TrimRight(w + Collapse(rest)) == w + " " + Clean(TrimLeft(rest))
  {
    var u := TrimLeft(rest);
    assert Collapse(rest) == " " + Collapse(u);
    assert !AllSpace(Collapse(u)) by { assert !IsSpace(Collapse(u)[0]); }
    assert w + Collapse(rest) == (w + " ") + Collapse(u);
    TrimRightKeeps(w + " ", Collapse(u));
    TrimLeftNoOp(Collapse(u));
  }

  /**
   * The cleaned message is the message's tokens joined by single spaces, the
   * same text Python's `" ".join(s.split())` gives.
   */
  lemma {:induction false} CleanIsJoinedTokens(s: string)
    ensures Clean(s) == Join(Tokens(s), " ")
    decreases |s|
  {
    CleanTrimLeft(s);
    TrimLeftTwice(s);
    var t := TrimLeft(s);
    assert Tokens(s) == Tokens(t);
    if t != [] {
      var w := Word(t);
      var rest := t[|w|..];
      WordSpec(t);
      CleanOfWord(t);
      TokensOfWord(t);
      var u := TrimLeft(rest);
      if u == [] {
        TrimLeftSpec(rest);
        assert AllSpace(rest) by { assert rest == rest[..|rest| - |u|]; }
        CleanLastWord(w, rest);
      } else {
        CleanMoreWords(w, rest);
        TrimLeftTwice(rest);
        assert Tokens(rest) == Tokens(u);
        CleanIsJoinedTokens(u);
      }
    }
  }
}
