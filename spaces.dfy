/** The whitespace normaliser `_normalize_spaces`: every run of whitespace
    becomes one space, then both ends are stripped. */
module Spaces {
  import opened PyText

  /** Every whitespace character of `s` is a plain space and no two of them
      are neighbours: the strings that `Collapse` leaves as they are. */
  ghost predicate SingleSpaced(s: string)
  {
    (forall i :: 0 <= i < |s| && IsSpace(s[i]) ==> s[i] == ' ') &&
    (forall i, j :: 0 <= i < j < |s| && j == i + 1 ==> !IsSpace(s[i]) || !IsSpace(s[j]))
  }

  /** The shape `_normalize_spaces` gives: single spaced, and neither starting
      nor ending with whitespace. */
  ghost predicate Normalized(s: string)
  {
    SingleSpaced(s) && (s != [] ==> !IsSpace(s[0]) && !IsSpace(s[|s| - 1]))
  }

  /** `re.sub(r'\s+', " ", s)`: every maximal run of whitespace becomes one space. */
  function Collapse(s: string): (r: string)
    ensures |r| <= |s|
    ensures r == [] <==> s == []
    ensures r != [] ==> (IsSpace(r[0]) <==> IsSpace(s[0]))
    decreases |s|
  {
    if s == [] then []
    else if IsSpace(s[0]) then [' '] + Collapse(LStrip(s, Whitespace))
    else [s[0]] + Collapse(s[1..])
  }

  /** `_normalize_spaces(s)` (main.py:43-44). */
  function Normalize(s: string): (r: string)
    ensures Normalized(r)
    ensures r == [] <==> AllSpace(s)
  {
    NormalizeJoinsWords(s);
    NormalizeShape(s);
    Strip(Collapse(s), Whitespace)
  }

  /** A run of whitespace at the front collapses to nothing more than one space. */
  function Lead(s: string): string
  {
    if s != [] && IsSpace(s[0]) then [' '] else []
  }

  /** A run of whitespace after the last word collapses to one space. */
  function Trail(s: string): string
  {
    if Split(s) != [] && IsSpace(s[|s| - 1]) then [' '] else []
  }

  /** Joined words are empty exactly when there are no words. */
  lemma JoinWordsEmpty(words: seq<string>)
    requires forall i :: 0 <= i < |words| ==> words[i] != []
    ensures JoinWords(words) == [] <==> words == []
  {
    if words != [] {
      JoinWordsEnds(words);
    }
  }

  /** A string splits into no words exactly when it is all whitespace. */
  lemma SplitEmpty(s: string)
    ensures Split(s) == [] <==> AllSpace(s)
  {
    var t := LStrip(s, Whitespace);
    LStripSuffix(s, Whitespace);
    if t != [] {
      assert !IsSpace(s[|s| - |t|]);
    }
  }

  /** Leading whitespace does not change the words. */
  lemma SplitLStrip(s: string)
    ensures Split(LStrip(s, Whitespace)) == Split(s)
  {
    var t := LStrip(s, Whitespace);
    LStripPrefix([], t, Whitespace);
  }

  /** A word at the front passes through `Collapse` unchanged. */
  lemma {:induction false} CollapseWordPrefix(w: string, x: string)
    requires NoSpace(w)
    ensures Collapse(w + x) == w + Collapse(x)
  {
    if w != [] {
      var wx := w + x;
      assert wx[0] == w[0] && !IsSpace(w[0]);
      assert wx[1..] == w[1..] + x;
      assert Collapse(wx) == [w[0]] + Collapse(wx[1..]);
      CollapseWordPrefix(w[1..], x);
      assert [w[0]] + w[1..] == w;
    } else {
      assert w + x == x;
    }
  }

  /** `Collapse` keeps the words of a string and puts exactly one space between
      neighbours, plus one at each end that had whitespace. */
  lemma {:induction false} CollapseWords(s: string)
    ensures Collapse(s) == Lead(s) + JoinWords(Split(s)) + Trail(s)
    decreases |s|, 1
  {
    if s == [] {
    } else if IsSpace(s[0]) {
      CollapseWordsAfterSpace(s);
    } else {
      CollapseWordsAfterWord(s);
    }
  }

  /** CollapseWords for a string that starts with whitespace. */
  lemma {:induction false} CollapseWordsAfterSpace(s: string)
    requires s != [] && IsSpace(s[0])
    ensures Collapse(s) == Lead(s) + JoinWords(Split(s)) + Trail(s)
    decreases |s|, 0
  {
    var t := LStrip(s, Whitespace);
    assert Collapse(s) == [' '] + Collapse(t);
    SplitLStrip(s);
    CollapseWords(t);
    CollapseWordsLead(s, t);
  }

  /** The last step of CollapseWordsAfterSpace: one space, then the collapsed
      rest. */
  lemma CollapseWordsLead(s: string, t: string)
    requires s != [] && IsSpace(s[0])
    requires t == LStrip(s, Whitespace) && Split(t) == Split(s)
    requires Collapse(s) == [' '] + Collapse(t)
    requires Collapse(t) == Lead(t) + JoinWords(Split(t)) + Trail(t)
    ensures Collapse(s) == Lead(s) + JoinWords(Split(s)) + Trail(s)
  {
    assert Lead(s) == [' '];
    if t == [] {
      assert Split(s) == [];
      assert Trail(s) == [];
    } else {
      CollapseWordsLeadWord(s, t);
    }
  }

  lemma CollapseWordsLeadWord(s: string, t: string)
    requires s != [] && IsSpace(s[0]) && t != []
    requires t == LStrip(s, Whitespace) && Split(t) == Split(s)
    requires Collapse(s) == [' '] + Collapse(t)
    requires Collapse(t) == Lead(t) + JoinWords(Split(t)) + Trail(t)
    ensures Collapse(s) == Lead(s) + JoinWords(Split(s)) + Trail(s)
  {
    LStripLast(s);
    RegroupLead(JoinWords(Split(s)), Trail(s));
  }

  /** Stripping leading whitespace keeps the last character. */
  lemma LStripLast(s: string)
    requires LStrip(s, Whitespace) != []
    ensures var t := LStrip(s, Whitespace); t[|t| - 1] == s[|s| - 1] && Lead(t) == []
  {
    LStripSuffix(s, Whitespace);
  }

  /** CollapseWords for a string that starts with a word. */
  lemma {:induction false} CollapseWordsAfterWord(s: string)
    requires s != [] && !IsSpace(s[0])
    ensures Collapse(s) == Lead(s) + JoinWords(Split(s)) + Trail(s)
    decreases |s|, 0
  {
    var w := Word(s);
    var rest := s[|w|..];
    SplitAfterWord(s);
    CollapseWordPrefix(w, rest);
    CollapseWords(rest);
    TrailAfterWord(w, rest);
    CollapseWordsJoin(s, w, rest);
  }

  /** The last step of CollapseWordsAfterWord: put the word and the collapsed
      rest together. */
  lemma CollapseWordsJoin(s: string, w: string, rest: string)
    requires s != [] && !IsSpace(s[0])
    requires Split(s) == [w] + Split(rest) && w != []
    requires rest == [] || IsSpace(rest[0])
    requires Collapse(s) == w + (Lead(rest) + JoinWords(Split(rest)) + Trail(rest))
    requires Trail(s) == if rest != [] && Split(rest) == [] then [' '] else Trail(rest)
    ensures Collapse(s) == Lead(s) + JoinWords(Split(s)) + Trail(s)
  {
    var ws := Split(rest);
    JoinWordsCons(w, ws);
    if rest == [] {
      Regroup(w, [], [], []);
    } else if ws == [] {
      Regroup(w, [' '], [], []);
    } else {
      Regroup(w, [' '], JoinWords(ws), Trail(rest));
    }
  }

  /** Joining a word in front of more words. */
  lemma JoinWordsCons(w: string, ws: seq<string>)
    ensures JoinWords([w] + ws) == if ws == [] then w else w + [' '] + JoinWords(ws)
  {
    assert ([w] + ws)[1..] == ws;
  }

  /** Regroups four concatenated strings. A separate lemma so that the
      sequence equality is proved with nothing else in scope, which keeps the
      lemmas that call it cheap. */
  lemma Regroup(a: string, b: string, c: string, d: string)
    ensures a + (b + c + d) == [] + (a + b + c) + d
  {
  }

  /** Drops an empty string from behind a leading space. Separate for the
      same reason as Regroup. */
  lemma RegroupLead(j: string, t: string)
    ensures [' '] + ([] + j + t) == [' '] + j + t
  {
  }

  /** A string that starts with a word splits into that word and the words of
      the rest. */
  lemma SplitAfterWord(s: string)
    requires s != [] && !IsSpace(s[0])
    ensures Word(s) != [] && s == Word(s) + s[|Word(s)|..]
    ensures Split(s) == [Word(s)] + Split(s[|Word(s)|..])
    ensures s[|Word(s)|..] == [] || IsSpace(s[|Word(s)|..][0])
  {
    var w := Word(s);
    assert w != [] by { assert w == [s[0]] + Word(s[1..]); }
    assert s == w + s[|w|..] by { assert w == s[..|w|]; }
    assert [] + s == s;
    LStripPrefix([], s, Whitespace);
  }

  /** How the whitespace after the last word is seen from a word and what
      follows it. */
  lemma TrailAfterWord(w: string, rest: string)
    requires w != [] && NoSpace(w)
    requires rest == [] || IsSpace(rest[0])
    requires Split(w + rest) != []
    ensures Trail(w + rest) == if rest != [] && Split(rest) == [] then [' '] else Trail(rest)
  {
    var s := w + rest;
    if rest == [] {
      assert s == w;
      assert !IsSpace(w[|w| - 1]);
    } else {
      assert s[|s| - 1] == rest[|rest| - 1];
      SplitEmpty(rest);
      if Split(rest) == [] {
        assert IsSpace(rest[|rest| - 1]);
      }
    }
  }

  /** The first and last characters of joined words are those of the first
      and the last word. */
  lemma JoinWordsEnds(words: seq<string>)
    requires words != []
    requires forall i :: 0 <= i < |words| ==> words[i] != []
    ensures JoinWords(words) != []
    ensures JoinWords(words)[0] == words[0][0]
    ensures JoinWords(words)[|JoinWords(words)| - 1] == words[|words| - 1][|words[|words| - 1]| - 1]
  {
    JoinOnEnds(words, ' ');
  }

  /** Words joined by single spaces form a normalised string. */
  lemma {:induction false} JoinWordsNormalized(words: seq<string>)
    requires AreWords(words)
    ensures Normalized(JoinWords(words))
  {
    if |words| == 1 {
      assert JoinWords(words) == words[0];
    } else if |words| > 1 {
      JoinWordsNormalized(words[1..]);
      JoinWordsEnds(words[1..]);
      JoinWordsCons(words[0], words[1..]);
      assert [words[0]] + words[1..] == words;
      WordSpaceNormalized(words[0], JoinWords(words[1..]));
    }
  }

  /** A word, one space and a normalised non-empty string form a normalised
      string. */
  lemma WordSpaceNormalized(w: string, j: string)
    requires w != [] && NoSpace(w)
    requires j != [] && Normalized(j)
    ensures Normalized(w + [' '] + j)
  {
    var r := w + [' '] + j;
    assert r[0] == w[0] && r[|r| - 1] == j[|j| - 1];
    WordSpacePlain(w, j);
    WordSpaceApart(w, j);
  }

  lemma WordSpacePlain(w: string, j: string)
    requires NoSpace(w) && SingleSpaced(j)
    ensures forall i :: 0 <= i < |w + [' '] + j| && IsSpace((w + [' '] + j)[i]) ==> (w + [' '] + j)[i] == ' '
  {
    var r := w + [' '] + j;
    forall i | 0 <= i < |r| && IsSpace(r[i]) ensures r[i] == ' ' {
      if i > |w| {
        assert r[i] == j[i - |w| - 1];
      }
    }
  }

  lemma WordSpaceApart(w: string, j: string)
    requires w != [] && NoSpace(w)
    requires j != [] && Normalized(j)
    ensures forall i, k :: 0 <= i < k < |w + [' '] + j| && k == i + 1 ==> !IsSpace((w + [' '] + j)[i]) || !IsSpace((w + [' '] + j)[k])
  {
    var r := w + [' '] + j;
    forall i, k | 0 <= i < k < |r| && k == i + 1 ensures !IsSpace(r[i]) || !IsSpace(r[k]) {
      if k < |w| {
        assert r[i] == w[i];
      } else if k == |w| {
        assert r[i] == w[|w| - 1];
      } else if i == |w| {
        assert r[k] == j[0];
      } else {
        assert r[i] == j[i - |w| - 1] && r[k] == j[k - |w| - 1];
      }
    }
  }

  /** Collapsing the whitespace runs of `s` and stripping the ends leaves the
      words of `s`, in order, separated by single spaces. */
  lemma NormalizeJoinsWords(s: string)
    ensures Strip(Collapse(s), Whitespace) == JoinWords(Split(s))
  {
    CollapseWords(s);
    CollapseParts(s);
    StripAround(Lead(s), JoinWords(Split(s)), Trail(s));
  }

  /** The words of `s` joined by single spaces are normalised, and empty
      exactly when `s` is all whitespace. */
  lemma NormalizeShape(s: string)
    ensures Normalized(JoinWords(Split(s)))
    ensures JoinWords(Split(s)) == [] <==> AllSpace(s)
  {
    JoinWordsNormalized(Split(s));
    JoinWordsEmpty(Split(s));
    SplitEmpty(s);
  }

  /** The parts CollapseWords names: whitespace, words joined, whitespace. */
  lemma CollapseParts(s: string)
    ensures AllSpace(Lead(s)) && AllSpace(Trail(s))
    ensures var j := JoinWords(Split(s)); j == [] || (!IsSpace(j[0]) && !IsSpace(j[|j| - 1]))
  {
    assert IsSpace(' ');
    JoinedEnds(Split(s));
  }

  /** Words without whitespace, joined, neither start nor end with whitespace. */
  lemma JoinedEnds(ws: seq<string>)
    requires AreWords(ws)
    ensures var j := JoinWords(ws); j == [] || (!IsSpace(j[0]) && !IsSpace(j[|j| - 1]))
  {
    if ws != [] {
      JoinWordsEnds(ws);
      assert NoSpace(ws[0]) && NoSpace(ws[|ws| - 1]);
    }
  }

  /** Stripping a string made of whitespace, a part with non-whitespace ends,
      and whitespace again leaves that part. */
  lemma StripAround(p: string, j: string, q: string)
    requires AllSpace(p) && AllSpace(q)
    requires j == [] || (!IsSpace(j[0]) && !IsSpace(j[|j| - 1]))
    ensures Strip(p + j + q, Whitespace) == j
  {
    if j == [] {
      assert p + j + q == (p + q) + [];
      AllSpaceConcat(p, q);
      LStripPrefix(p + q, [], Whitespace);
    } else {
      assert p + j + q == p + (j + q);
      LStripPrefix(p, j + q, Whitespace);
      RStripSuffix(j, q, Whitespace);
    }
  }

  lemma AllSpaceConcat(p: string, q: string)
    requires AllSpace(p) && AllSpace(q)
    ensures AllSpace(p + q)
  {
    forall i | 0 <= i < |p + q| ensures IsSpace((p + q)[i]) {
      if i >= |p| {
        assert (p + q)[i] == q[i - |p|];
      }
    }
  }

  /** A string whose every whitespace character is a single space is left as it
      is by `Collapse`. */
  lemma {:induction false} CollapseSingleSpaced(s: string)
    requires SingleSpaced(s)
    ensures Collapse(s) == s
    decreases |s|
  {
    if s != [] {
      var t := s[1..];
      assert SingleSpaced(t) by {
        forall i | 0 <= i < |t| && IsSpace(t[i]) ensures t[i] == ' ' {
          assert t[i] == s[i + 1];
        }
        forall i, k | 0 <= i < k < |t| && k == i + 1 ensures !IsSpace(t[i]) || !IsSpace(t[k]) {
          assert t[i] == s[i + 1] && t[k] == s[k + 1];
        }
      }
      CollapseSingleSpaced(t);
      if IsSpace(s[0]) {
        assert t == [] || !IsSpace(t[0]) by {
          if t != [] {
            assert t[0] == s[1];
          }
        }
        LStripPrefix([s[0]], t, Whitespace);
        assert [s[0]] + t == s;
      }
    }
  }

  /** `Collapse` brings in no character but the plain space. */
  lemma {:induction false} CollapseChars(s: string)
    ensures forall c :: c in Collapse(s) ==> c in s || c == ' '
    decreases |s|
  {
    if s != [] {
      var t := if IsSpace(s[0]) then LStrip(s, Whitespace) else s[1..];
      LStripSuffix(s, Whitespace);
      assert forall c :: c in t ==> c in s;
      CollapseChars(t);
    }
  }

  /** Normalising brings in no character but the plain space. */
  lemma NormalizeChars(s: string)
    ensures forall c :: c in Normalize(s) ==> c in s || c == ' '
  {
    CollapseChars(s);
    StripChars(Collapse(s), Whitespace);
  }

  /** A normalised string is its own normal form. */
  lemma NormalizedFixed(s: string)
    requires Normalized(s)
    ensures Normalize(s) == s
  {
    CollapseSingleSpaced(s);
    LStripPrefix([], s, Whitespace);
    RStripSuffix(s, [], Whitespace);
    assert s + [] == s;
  }

  /** Normalising twice is normalising once (main.py:43-44). */
  lemma NormalizeIdempotent(s: string)
    ensures Normalize(Normalize(s)) == Normalize(s)
  {
    NormalizedFixed(Normalize(s));
  }
}
