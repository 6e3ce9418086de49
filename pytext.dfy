/** The parts of Python's `str` that the bot's parser relies on: what counts as
    whitespace, `strip`, `split()`, `split(maxsplit=1)` and `split(sep)`. */
module PyText {

  /** Python's `str.isspace` for one character. CPython uses the same table for
      the regular-expression class `\s`, for `split()` and for `strip()`. The
      table is searched by a recursive predicate, so that a proof unfolds only
      as much of it as it needs. */
  predicate IsSpace(c: char)
  {
    Occurs(c, SpaceChars)
  }

  /** The characters for which Python's `str.isspace` holds, the plain space first. */
  const SpaceChars: seq<char> := [
    ' ', '\t', '\n', '\U{0B}', '\U{0C}', '\r', '\U{1C}', '\U{1D}', '\U{1E}', '\U{1F}',
    '\U{85}', '\U{A0}', '\U{1680}',
    '\U{2000}', '\U{2001}', '\U{2002}', '\U{2003}', '\U{2004}', '\U{2005}',
    '\U{2006}', '\U{2007}', '\U{2008}', '\U{2009}', '\U{200A}',
    '\U{2028}', '\U{2029}', '\U{202F}', '\U{205F}', '\U{3000}'
  ]

  predicate Occurs(c: char, cs: seq<char>)
  {
    cs != [] && (cs[0] == c || Occurs(c, cs[1..]))
  }

  /** The search finds exactly the characters of the table. */
  lemma {:induction false} OccursIsMembership(c: char, cs: seq<char>)
    ensures Occurs(c, cs) <==> c in cs
  {
    if cs != [] {
      OccursIsMembership(c, cs[1..]);
      assert cs == [cs[0]] + cs[1..];
    }
  }

  /** No character of `s` is whitespace. */
  predicate NoSpace(s: string)
  {
    forall i :: 0 <= i < |s| ==> !IsSpace(s[i])
  }

  /** Every character of `s` is whitespace. */
  predicate AllSpace(s: string)
  {
    forall i :: 0 <= i < |s| ==> IsSpace(s[i])
  }

  /** What a `strip` call removes: `strip()` removes whitespace,
      `strip(chars)` removes the characters given. */
  datatype Strippable = Whitespace | Chars(chars: set<char>)

  predicate Stripped(c: char, k: Strippable)
  {
    match k
    case Whitespace => IsSpace(c)
    case Chars(cs) => c in cs
  }

  /** `s.lstrip(...)`: the suffix of `s` left after removing every leading
      character of kind `k`. */
  function LStrip(s: string, k: Strippable): (r: string)
    ensures |r| <= |s|
    ensures r == [] || !Stripped(r[0], k)
    ensures forall i :: 0 <= i < |s| - |r| ==> Stripped(s[i], k)
    decreases |s|
  {
    if s != [] && Stripped(s[0], k) then LStrip(s[1..], k) else s
  }

  /** `s.rstrip(...)`: the prefix of `s` left after removing every trailing
      character of kind `k`. */
  function RStrip(s: string, k: Strippable): (r: string)
    ensures |r| <= |s|
    ensures r == [] || !Stripped(r[|r| - 1], k)
    ensures forall i :: |r| <= i < |s| ==> Stripped(s[i], k)
    decreases |s|
  {
    if s != [] && Stripped(s[|s| - 1], k) then RStrip(s[..|s| - 1], k) else s
  }

  /** What `lstrip` keeps is a suffix of `s`. */
  lemma {:induction false} LStripSuffix(s: string, k: Strippable)
    ensures LStrip(s, k) == s[|s| - |LStrip(s, k)|..]
    decreases |s|
  {
    if s != [] && Stripped(s[0], k) {
      LStripSuffix(s[1..], k);
    }
  }

  /** What `rstrip` keeps is a prefix of `s`. */
  lemma {:induction false} RStripPrefix(s: string, k: Strippable)
    ensures RStrip(s, k) == s[..|RStrip(s, k)|]
    decreases |s|
  {
    if s != [] && Stripped(s[|s| - 1], k) {
      RStripPrefix(s[..|s| - 1], k);
    }
  }

  /** `s.strip(...)`: both ends removed. */
  function Strip(s: string, k: Strippable): (r: string)
    ensures |r| <= |s|
    ensures r == [] || (!Stripped(r[0], k) && !Stripped(r[|r| - 1], k))
  {
    var l := LStrip(s, k);
    var r := RStrip(l, k);
    RStripPrefix(l, k);
    assert r != [] ==> r[0] == l[0];
    r
  }

  /** `strip` keeps only characters of `s`. */
  lemma StripChars(s: string, k: Strippable)
    ensures forall c :: c in Strip(s, k) ==> c in s
  {
    var l := LStrip(s, k);
    var r := RStrip(l, k);
    LStripSuffix(s, k);
    RStripPrefix(l, k);
    forall c | c in r ensures c in s {
      var i :| 0 <= i < |r| && r[i] == c;
      assert l[i] == c;
      assert s[|s| - |l| + i] == c;
    }
  }

  /** A string whose ends are not of kind `k` is left as it is by `strip`. */
  lemma StripFixed(s: string, k: Strippable)
    requires s == [] || (!Stripped(s[0], k) && !Stripped(s[|s| - 1], k))
    ensures Strip(s, k) == s
  {
    assert [] + s == s && s + [] == s;
    LStripPrefix([], s, k);
    RStripSuffix(s, [], k);
  }

  /** Stripping a string that starts with a run of kind `k` and continues with
      something that does not removes exactly that run. */
  lemma {:induction false} LStripPrefix(p: string, x: string, k: Strippable)
    requires forall i :: 0 <= i < |p| ==> Stripped(p[i], k)
    requires x == [] || !Stripped(x[0], k)
    ensures LStrip(p + x, k) == x
  {
    if p != [] {
      assert (p + x)[0] == p[0];
      assert (p + x)[1..] == p[1..] + x;
      LStripPrefix(p[1..], x, k);
    }
  }

  /** The mirror image of LStripPrefix for the end of a string. */
  lemma {:induction false} RStripSuffix(x: string, q: string, k: Strippable)
    requires forall i :: 0 <= i < |q| ==> Stripped(q[i], k)
    requires x == [] || !Stripped(x[|x| - 1], k)
    ensures RStrip(x + q, k) == x
  {
    if q != [] {
      var xq := x + q;
      assert xq[|xq| - 1] == q[|q| - 1];
      assert xq[..|xq| - 1] == x + q[..|q| - 1];
      RStripSuffix(x, q[..|q| - 1], k);
    }
  }

  /** The longest prefix of `s` that holds no whitespace. */
  function Word(s: string): (w: string)
    ensures |w| <= |s| && w == s[..|w|] && NoSpace(w)
    ensures |w| == |s| || IsSpace(s[|w|])
  {
    if s == [] || IsSpace(s[0]) then [] else [s[0]] + Word(s[1..])
  }

  /** A word followed by whitespace, or by nothing, is the first word. */
  lemma {:induction false} WordPrefix(w: string, x: string)
    requires NoSpace(w)
    requires x == [] || IsSpace(x[0])
    ensures Word(w + x) == w
  {
    if w == [] {
      assert w + x == x;
    } else {
      assert (w + x)[0] == w[0];
      assert (w + x)[1..] == w[1..] + x;
      WordPrefix(w[1..], x);
      assert [w[0]] + w[1..] == w;
    }
  }

  /** Every string of `ws` is a non-empty run of non-whitespace characters. */
  ghost predicate AreWords(ws: seq<string>)
  {
    forall i :: 0 <= i < |ws| ==> ws[i] != [] && NoSpace(ws[i])
  }

  /** Python's `s.split()`: the maximal runs of non-whitespace characters of
      `s`, in order. */
  function Split(s: string): (words: seq<string>)
    ensures AreWords(words)
    decreases |s|
  {
    var t := LStrip(s, Whitespace);
    if t == [] then []
    else
      var w := Word(t);
      [w] + Split(t[|w|..])
  }

  /** Trailing whitespace does not change the words. */
  lemma {:induction false} SplitTrail(y: string, b: string)
    requires AllSpace(b)
    ensures Split(y + b) == Split(y)
    decreases |y|
  {
    var t := LStrip(y, Whitespace);
    var a := LStripLead(y);
    assert y + b == a + (t + b);
    if t == [] {
      assert y + b == a + b;
      LStripPrefix(y + b, [], Whitespace);
      assert y + b + [] == y + b;
    } else {
      var w := Word(t);
      var u := t[|w|..];
      assert t == w + u;
      assert (t + b)[0] == t[0];
      LStripPrefix(a, t + b, Whitespace);
      assert t + b == w + (u + b);
      WordPrefix(w, u + b);
      assert (t + b)[|w|..] == u + b;
      SplitTrail(u, b);
    }
  }

  /** `split()` of a string is `split()` of its `strip()`. */
  lemma SplitStrip(p: string)
    ensures Split(Strip(p, Whitespace)) == Split(p)
  {
    var x := Strip(p, Whitespace);
    StripParts(p);
    var a, b :| AllSpace(a) && AllSpace(b) && p == a + x + b;
    SplitTrail(a + x, b);
    LStripPrefix(a, x, Whitespace);
    assert Split(LStrip(a + x, Whitespace)) == Split(a + x) by {
      LStripPrefix([], LStrip(a + x, Whitespace), Whitespace);
    }
  }

  /** `strip()` gives the empty string exactly for whitespace. */
  lemma StripEmpty(p: string)
    ensures Strip(p, Whitespace) == [] <==> AllSpace(p)
  {
    var x := Strip(p, Whitespace);
    StripParts(p);
    var a, b :| AllSpace(a) && AllSpace(b) && p == a + x + b;
    if x == [] {
      assert p == a + b;
    } else {
      assert p[|a|] == x[0];
    }
  }

  /** The words of `s` hold only characters of `s`. */
  lemma {:induction false} SplitChars(s: string)
    ensures forall i, c :: 0 <= i < |Split(s)| && c in Split(s)[i] ==> c in s
    decreases |s|
  {
    var t := LStrip(s, Whitespace);
    LStripSuffix(s, Whitespace);
    if t != [] {
      var w := Word(t);
      var rest := t[|w|..];
      SplitChars(rest);
      assert Split(s) == [w] + Split(rest);
      forall i, c | 0 <= i < |Split(s)| && c in Split(s)[i] ensures c in s {
        if i == 0 {
          assert c in t by { assert w == t[..|w|]; }
        } else {
          assert Split(s)[i] == Split(rest)[i - 1];
          assert c in t by { assert c in rest; }
        }
      }
    }
  }

  /** Python's `s.split(maxsplit=1)`: the first word of `s` and, when anything
      but whitespace follows it, the rest of `s` from the next non-whitespace
      character on (its trailing whitespace kept). */
  function SplitOnce(s: string): (parts: seq<string>)
    ensures |parts| <= 2
    ensures parts == [] <==> AllSpace(s)
    ensures |parts| >= 1 ==> parts[0] != [] && NoSpace(parts[0])
    ensures |parts| == 2 ==> parts[1] != [] && !IsSpace(parts[1][0])
  {
    var t := LStrip(s, Whitespace);
    LStripSuffix(s, Whitespace);
    if t == [] then []
    else
      var w := Word(t);
      var rest := LStrip(t[|w|..], Whitespace);
      if rest == [] then [w] else [w, rest]
  }

  /** What follows the first word holds only characters of `s`. */
  lemma SplitOnceRest(s: string)
    ensures |SplitOnce(s)| == 2 ==> forall c :: c in SplitOnce(s)[1] ==> c in s
  {
    var t := LStrip(s, Whitespace);
    if t != [] {
      LStripSuffix(s, Whitespace);
      SuffixChars(s, |s| - |t|);
      var u := t[|Word(t)|..];
      SuffixChars(t, |Word(t)|);
      LStripSuffix(u, Whitespace);
      SuffixChars(u, |u| - |LStrip(u, Whitespace)|);
    }
  }

  /** `split(maxsplit=1)` returns pieces of `s` itself: `s` is some leading
      whitespace, the first part, and then either only whitespace or at
      least one whitespace character followed by the second part. With the
      shape that SplitOnce ensures, this determines the result. */
  lemma SplitOnceParts(s: string)
    ensures |SplitOnce(s)| == 1 ==>
      exists a, b :: AllSpace(a) && AllSpace(b) && s == a + SplitOnce(s)[0] + b
    ensures |SplitOnce(s)| == 2 ==>
      exists a, b :: AllSpace(a) && AllSpace(b) && b != [] && s == a + SplitOnce(s)[0] + b + SplitOnce(s)[1]
  {
    var t := LStrip(s, Whitespace);
    var a := LStripLead(s);
    if t != [] {
      var w := Word(t);
      var u := t[|w|..];
      assert t == w + u;
      var rest := LStrip(u, Whitespace);
      var b := LStripLead(u);
      if rest == [] {
        assert SplitOnce(s) == [w];
        SplicePieces(s, a, t, w, u, b, []);
        assert s == a + w + b;
      } else {
        assert SplitOnce(s) == [w, rest];
        assert IsSpace(u[0]);
        SplicePieces(s, a, t, w, u, b, rest);
      }
    }
  }

  /** Splices `t == w + u` and `u == b + r` into `s == a + t`. A separate
      lemma so that the sequence equalities are reasoned about with nothing
      else in scope. */
  lemma SplicePieces(s: string, a: string, t: string, w: string, u: string, b: string, r: string)
    requires s == a + t && t == w + u && u == b + r
    ensures s == a + w + b + r
  {
  }

  /** `lstrip()` removes a whitespace prefix `a`, non-empty when `s` starts
      with whitespace. */
  lemma LStripLead(s: string) returns (a: string)
    ensures AllSpace(a) && s == a + LStrip(s, Whitespace)
    ensures s != [] && IsSpace(s[0]) ==> a != []
  {
    var l := LStrip(s, Whitespace);
    LStripSuffix(s, Whitespace);
    a := s[..|s| - |l|];
  }

  /** `rstrip()` removes a whitespace suffix `b`. */
  lemma RStripTrail(s: string) returns (b: string)
    ensures AllSpace(b) && s == RStrip(s, Whitespace) + b
  {
    var r := RStrip(s, Whitespace);
    RStripPrefix(s, Whitespace);
    b := s[|r|..];
  }

  /** `strip()` removes a whitespace run from each end and nothing else. */
  lemma StripParts(s: string)
    ensures exists a, b :: AllSpace(a) && AllSpace(b) && s == a + Strip(s, Whitespace) + b
  {
    var l := LStrip(s, Whitespace);
    var a := LStripLead(s);
    var b := RStripTrail(l);
    SplicePieces(s, a, l, Strip(s, Whitespace), b, b, []);
    assert s == a + Strip(s, Whitespace) + b;
  }

  /** A suffix holds only characters of the whole. */
  lemma SuffixChars(s: string, k: nat)
    requires k <= |s|
    ensures forall c :: c in s[k..] ==> c in s
  {
    forall c | c in s[k..] ensures c in s {
      var i :| 0 <= i < |s[k..]| && s[k..][i] == c;
      assert s[k + i] == c;
    }
  }

  /** Python's `s.split(sep)` for a one-character separator: the pieces of `s`
      between separators, always one more than there are separators. */
  function SplitOn(s: string, sep: char): (pieces: seq<string>)
    ensures |pieces| >= 1
    ensures forall i :: 0 <= i < |pieces| ==> sep !in pieces[i]
  {
    if s == [] then [[]]
    else
      var rest := SplitOn(s[1..], sep);
      if s[0] == sep then [[]] + rest else [[s[0]] + rest[0]] + rest[1..]
  }

  /** `sep.join(pieces)` for a one-character separator and at least one piece. */
  function JoinOn(pieces: seq<string>, sep: char): string
    requires |pieces| >= 1
  {
    if |pieces| == 1 then pieces[0] else pieces[0] + [sep] + JoinOn(pieces[1..], sep)
  }

  /** `" ".join(words)`. */
  function JoinWords(words: seq<string>): string
  {
    if words == [] then [] else JoinOn(words, ' ')
  }

  /** The first and last characters of pieces joined by a separator are those
      of the first and the last piece. */
  lemma {:induction false} JoinOnEnds(pieces: seq<string>, sep: char)
    requires |pieces| >= 1
    requires forall i :: 0 <= i < |pieces| ==> pieces[i] != []
    ensures JoinOn(pieces, sep) != []
    ensures JoinOn(pieces, sep)[0] == pieces[0][0]
    ensures JoinOn(pieces, sep)[|JoinOn(pieces, sep)| - 1] == pieces[|pieces| - 1][|pieces[|pieces| - 1]| - 1]
  {
    if |pieces| > 1 {
      JoinOnEnds(pieces[1..], sep);
      assert JoinOn(pieces, sep) == pieces[0] + [sep] + JoinOn(pieces[1..], sep);
    }
  }

  /** What starts the first piece starts the joined string. */
  lemma JoinOnHead(x: string, y: string, rest: seq<string>, sep: char)
    requires |rest| >= 1
    ensures JoinOn([x + y] + rest, sep) == x + JoinOn([y] + rest, sep)
  {
    assert ([x + y] + rest)[1..] == rest && ([y] + rest)[1..] == rest;
    assert (x + y) + [sep] + JoinOn(rest, sep) == x + (y + [sep] + JoinOn(rest, sep));
  }

  /** What ends the last piece ends the joined string. */
  lemma {:induction false} JoinOnTail(init: seq<string>, y: string, z: string, sep: char)
    requires |init| >= 1
    ensures JoinOn(init + [y + z], sep) == JoinOn(init + [y], sep) + z
  {
    var p, q := init + [y + z], init + [y];
    assert p[0] == init[0] && q[0] == init[0];
    if |init| == 1 {
      assert p[1..] == [y + z] && q[1..] == [y];
      assert init[0] + [sep] + (y + z) == (init[0] + [sep] + y) + z;
    } else {
      assert p[1..] == init[1..] + [y + z] && q[1..] == init[1..] + [y];
      JoinOnTail(init[1..], y, z, sep);
      var j := JoinOn(init[1..] + [y], sep);
      assert init[0] + [sep] + (j + z) == (init[0] + [sep] + j) + z;
    }
  }

  /** Splitting on a separator and joining again gives back the string. */
  lemma {:induction false} JoinOnSplitOn(s: string, sep: char)
    ensures JoinOn(SplitOn(s, sep), sep) == s
  {
    if s != [] {
      JoinOnSplitOn(s[1..], sep);
      var rest := SplitOn(s[1..], sep);
      if s[0] != sep && |rest| > 1 {
        assert ([[s[0]] + rest[0]] + rest[1..])[1..] == rest[1..];
      }
    }
  }

  /** Joining pieces that hold no separator and splitting again gives back the
      pieces. */
  lemma {:induction false} SplitOnJoinOn(pieces: seq<string>, sep: char)
    requires |pieces| >= 1
    requires forall i :: 0 <= i < |pieces| ==> sep !in pieces[i]
    ensures SplitOn(JoinOn(pieces, sep), sep) == pieces
    decreases |pieces|, |pieces[0]|
  {
    var p := pieces[0];
    if p == [] {
      if |pieces| > 1 {
        SplitOnJoinOn(pieces[1..], sep);
        assert JoinOn(pieces, sep) == [sep] + JoinOn(pieces[1..], sep);
        assert [sep] + JoinOn(pieces[1..], sep) != [];
        assert ([sep] + JoinOn(pieces[1..], sep))[1..] == JoinOn(pieces[1..], sep);
      }
    } else {
      var shorter := [p[1..]] + pieces[1..];
      assert p[0] != sep by { assert p[0] in pieces[0]; }
      forall i | 0 <= i < |shorter| ensures sep !in shorter[i] {
        if i == 0 {
          assert forall c :: c in p[1..] ==> c in p;
        } else {
          assert shorter[i] == pieces[i];
        }
      }
      SplitOnJoinOn(shorter, sep);
      assert shorter[1..] == pieces[1..];
      if |pieces| == 1 {
        assert JoinOn(pieces, sep) == [p[0]] + JoinOn(shorter, sep);
      } else {
        assert JoinOn(pieces, sep) == [p[0]] + JoinOn(shorter, sep);
      }
      assert JoinOn(pieces, sep)[1..] == JoinOn(shorter, sep);
      assert [p[0]] + p[1..] == p;
    }
  }
}
