/** The argument parser `_parse_names_args` (main.py:47-60): the text after the
    command word is split into names, on commas when there is one and on
    whitespace otherwise, and every name is normalised. */
module NameArgs {
  import opened PyText
  import opened Spaces

  /** What the parser hands out and the name list stores: a non-empty,
      normalised string without a comma. */
  ghost predicate IsName(s: string)
  {
    s != [] && Normalized(s) && ',' !in s
  }

  /** Every string of `ns` is a name. */
  ghost predicate AllNames(ns: seq<string>)
  {
    forall i :: 0 <= i < |ns| ==> IsName(ns[i])
  }

  /** The payload cut into pieces: `payload.split(",")` when it holds a comma,
      `payload.split()` otherwise (main.py:53-56). */
  function Pieces(payload: string): (pieces: seq<string>)
    ensures forall i :: 0 <= i < |pieces| ==> ',' !in pieces[i]
  {
    if ',' in payload then SplitOn(payload, ',')
    else
      SplitChars(payload);
      Split(payload)
  }

  /** `t.strip().strip(",")` for every piece. */
  function CleanEach(pieces: seq<string>): (r: seq<string>)
    ensures |r| == |pieces|
    ensures forall i :: 0 <= i < |r| ==> r[i] == Strip(Strip(pieces[i], Whitespace), Chars({','}))
    ensures forall i :: 0 <= i < |r| ==> forall c :: c in r[i] ==> c in pieces[i]
  {
    if pieces == [] then []
    else
      StripChars(pieces[0], Whitespace);
      StripChars(Strip(pieces[0], Whitespace), Chars({','}));
      [Strip(Strip(pieces[0], Whitespace), Chars({','}))] + CleanEach(pieces[1..])
  }

  /** The strings of `ts` that are not empty, in order (`[t for t in ts if t]`). */
  function NonEmpty(ts: seq<string>): (r: seq<string>)
    ensures forall i :: 0 <= i < |r| ==> r[i] != [] && r[i] in ts
    ensures (forall i :: 0 <= i < |ts| ==> ts[i] != []) ==> r == ts
    ensures |r| <= |ts|
  {
    if ts == [] then []
    else
      var rest := NonEmpty(ts[1..]);
      assert forall t :: t in ts[1..] ==> t in ts;
      if ts[0] == [] then rest else [ts[0]] + rest
  }

  /** The filter keeps every non-empty string, as often as it occurs, and
      drops every empty one. */
  lemma NonEmptyKeeps(ts: seq<string>)
    ensures forall t :: t in ts && t != [] ==> t in NonEmpty(ts)
    ensures multiset(NonEmpty(ts)) == multiset(ts)[[] := 0]
  {
    NonEmptyCounts(ts);
    forall t | t in ts && t != [] ensures t in NonEmpty(ts) {
      assert multiset(ts)[t] > 0;
      assert multiset(NonEmpty(ts))[t] > 0;
    }
  }

  /** The multiset half of NonEmptyKeeps, by induction. */
  lemma {:induction false} NonEmptyCounts(ts: seq<string>)
    ensures multiset(NonEmpty(ts)) == multiset(ts)[[] := 0]
  {
    if ts != [] {
      NonEmptyCounts(ts[1..]);
      assert ts == [ts[0]] + ts[1..];
    }
  }

  /** The filter works piece by piece, so it keeps the order of its input:
      filtering a concatenation concatenates the filtered parts. */
  lemma {:induction false} NonEmptyConcat(a: seq<string>, b: seq<string>)
    ensures NonEmpty(a + b) == NonEmpty(a) + NonEmpty(b)
  {
    if a == [] {
      assert a + b == b;
    } else {
      var t, u := a[0], a[1..];
      assert a == [t] + u;
      assert a + b == [t] + (u + b);
      NonEmptyCons(t, u + b);
      NonEmptyCons(t, u);
      NonEmptyConcat(u, b);
      ConcatAssoc(if t == [] then [] else [t], NonEmpty(u), NonEmpty(b));
    }
  }

  /** Concatenation is associative. A separate lemma so that the sequence
      equality is proved with nothing else in scope: stated inline in
      NonEmptyConcat, it made that proof costly. */
  lemma ConcatAssoc(h: seq<string>, x: seq<string>, y: seq<string>)
    ensures h + (x + y) == (h + x) + y
  {
  }

  /** One string followed by more: the filter decides on the first one. */
  lemma NonEmptyCons(t: string, ts: seq<string>)
    ensures NonEmpty([t] + ts) == (if t == [] then [] else [t]) + NonEmpty(ts)
  {
    assert ([t] + ts)[0] == t && ([t] + ts)[1..] == ts;
  }

  /** `_normalize_spaces` applied to every string of `ts`. */
  function NormalizeEach(ts: seq<string>): (r: seq<string>)
    ensures |r| == |ts|
    ensures forall i :: 0 <= i < |r| ==> r[i] == Normalize(ts[i])
    ensures forall i :: 0 <= i < |r| ==> Normalized(r[i])
    ensures forall i :: 0 <= i < |r| ==> forall c :: c in r[i] ==> c in ts[i] || c == ' '
  {
    if ts == [] then []
    else
      NormalizeChars(ts[0]);
      [Normalize(ts[0])] + NormalizeEach(ts[1..])
  }

  /** The names of one payload (main.py:52-60). */
  function Tokenize(payload: string): (tokens: seq<string>)
    ensures forall i :: 0 <= i < |tokens| ==> IsName(tokens[i])
  {
    NonEmpty(NormalizeEach(NonEmpty(CleanEach(Pieces(payload)))))
  }

  /** With a comma in the payload, the names are its comma-separated pieces,
      each normalised (so stripped, with the whitespace inside collapsed to
      single spaces), the blank ones dropped (main.py:53-60). */
  lemma CommaTokens(payload: string)
    requires ',' in payload
    ensures Tokenize(payload) == NonEmpty(NormalizeEach(SplitOn(payload, ',')))
  {
    CommaPieces(SplitOn(payload, ','));
  }

  /** `.strip(",")` changes nothing: every piece is cut at commas, so cleaning
      a piece is only `strip()` (main.py:54-56). */
  lemma CleanIsStrip(payload: string)
    ensures forall i :: 0 <= i < |Pieces(payload)| ==>
      CleanEach(Pieces(payload))[i] == Strip(Pieces(payload)[i], Whitespace)
  {
    var ps := Pieces(payload);
    forall i | 0 <= i < |ps| ensures CleanEach(ps)[i] == Strip(ps[i], Whitespace) {
      CleanPiece(ps[i]);
    }
  }

  /** Cleaning a piece without a comma is `strip()`. */
  lemma CleanPiece(p: string)
    requires ',' !in p
    ensures Strip(Strip(p, Whitespace), Chars({','})) == Strip(p, Whitespace)
  {
    var x := Strip(p, Whitespace);
    StripChars(p, Whitespace);
    if x != [] {
      assert x[0] in x && x[|x| - 1] in x;
    }
    StripFixed(x, Chars({','}));
  }

  /** `_normalize_spaces` of a string is that of its `strip()`. */
  lemma NormalizeStrip(p: string)
    ensures Normalize(Strip(p, Whitespace)) == Normalize(p)
  {
    NormalizeJoinsWords(p);
    NormalizeJoinsWords(Strip(p, Whitespace));
    SplitStrip(p);
  }

  /** For comma-free pieces, cleaning, filtering, normalising and filtering
      again is normalising and filtering. */
  lemma {:induction false} CommaPieces(ps: seq<string>)
    requires forall i :: 0 <= i < |ps| ==> ',' !in ps[i]
    ensures NonEmpty(NormalizeEach(NonEmpty(CleanEach(ps)))) == NonEmpty(NormalizeEach(ps))
  {
    if ps != [] {
      var p, rest := ps[0], ps[1..];
      assert ps == [p] + rest;
      CommaPieces(rest);
      CleanPiece(p);
      StripEmpty(p);
      var c := Strip(p, Whitespace);
      var cleaned := CleanEach(rest);
      assert CleanEach(ps) == [c] + cleaned;
      NonEmptyCons(c, cleaned);
      var normal := NormalizeEach(rest);
      assert NormalizeEach(ps) == [Normalize(p)] + normal;
      NonEmptyCons(Normalize(p), normal);
      if c != [] {
        NormalizeStrip(p);
        var kept := NonEmpty(cleaned);
        assert NormalizeEach([c] + kept) == [Normalize(c)] + NormalizeEach(kept);
        NonEmptyCons(Normalize(c), NormalizeEach(kept));
      }
    }
  }

  /** `_parse_names_args(raw_text)`: the names given after the command word,
      none when nothing follows it (main.py:47-60). */
  function ParseNames(text: string): (names: seq<string>)
    ensures forall i :: 0 <= i < |names| ==> IsName(names[i])
  {
    var parts := SplitOnce(text);
    if |parts| < 2 then [] else Tokenize(Strip(parts[1], Whitespace))
  }

  /** Without a comma the names are exactly the whitespace-separated words of
      the payload: nothing is dropped, merged or altered (main.py:55-56). */
  lemma NoCommaTokens(payload: string)
    requires ',' !in payload
    ensures Tokenize(payload) == Split(payload)
  {
    var ws := Split(payload);
    SplitChars(payload);
    WordsClean(ws);
    WordsNormal(ws);
  }

  /** Cleaning words that have no comma leaves them as they are. */
  lemma {:induction false} WordsClean(ws: seq<string>)
    requires AreWords(ws) && forall i :: 0 <= i < |ws| ==> ',' !in ws[i]
    ensures CleanEach(ws) == ws
  {
    if ws != [] {
      var w := ws[0];
      StripFixed(w, Whitespace);
      StripFixed(w, Chars({','}));
      WordsClean(ws[1..]);
    }
  }

  /** Normalising words leaves them as they are. */
  lemma {:induction false} WordsNormal(ws: seq<string>)
    requires AreWords(ws)
    ensures NormalizeEach(ws) == ws
  {
    if ws != [] {
      NormalizedFixed(ws[0]);
      WordsNormal(ws[1..]);
    }
  }

  /** A message whose payload holds no comma yields names without
      whitespace: single words (main.py:51-56). */
  lemma ParseNoComma(text: string)
    requires |SplitOnce(text)| == 2 ==> ',' !in Strip(SplitOnce(text)[1], Whitespace)
    ensures forall i :: 0 <= i < |ParseNames(text)| ==> NoSpace(ParseNames(text)[i])
  {
    var parts := SplitOnce(text);
    if |parts| == 2 {
      NoCommaTokens(Strip(parts[1], Whitespace));
    }
  }

  /** A name neither starts nor ends with whitespace. */
  lemma NameEnds(s: string)
    requires IsName(s)
    ensures !IsSpace(s[0]) && !IsSpace(s[|s| - 1])
  {
  }

  /** `ps` are the pieces a user typed between commas for the names `ns`:
      each piece holds no comma and is its name with any whitespace around
      it, as in `Name1, Name2` (main.py:83). */
  ghost predicate PaddedNames(ps: seq<string>, ns: seq<string>)
  {
    && |ps| == |ns|
    && AllNames(ns)
    && forall i :: 0 <= i < |ps| ==> ',' !in ps[i] && Strip(ps[i], Whitespace) == ns[i]
  }

  /** The pieces after the first are padded names for the names after the
      first. */
  lemma PaddedTail(ps: seq<string>, ns: seq<string>)
    requires ps != [] && PaddedNames(ps, ns)
    ensures PaddedNames(ps[1..], ns[1..])
  {
    forall i | 0 <= i < |ps| - 1 ensures IsName(ns[1..][i]) {
      assert ns[1..][i] == ns[i + 1];
    }
  }

  /** Cleaning padded names leaves the names. */
  lemma {:induction false} PaddedClean(ps: seq<string>, ns: seq<string>)
    requires PaddedNames(ps, ns)
    ensures CleanEach(ps) == ns
  {
    if ps != [] {
      PaddedHead(ps[0], ns[0]);
      PaddedTail(ps, ns);
      PaddedClean(ps[1..], ns[1..]);
      assert CleanEach(ps) == [ns[0]] + CleanEach(ps[1..]);
      assert ns == [ns[0]] + ns[1..];
    }
  }

  /** Cleaning one padded name leaves the name. */
  lemma PaddedHead(p: string, n: string)
    requires IsName(n) && Strip(p, Whitespace) == n
    ensures Strip(Strip(p, Whitespace), Chars({','})) == n
  {
    assert n[0] in n && n[|n| - 1] in n;
    StripFixed(n, Chars({','}));
  }

  /** Parsing names typed between commas gives them back, multi-word names
      included and whitespace around the commas ignored (the usage line of
      main.py:83). */
  lemma JoinedTokens(ps: seq<string>, ns: seq<string>)
    requires |ps| >= 2
    requires PaddedNames(ps, ns)
    ensures Tokenize(JoinOn(ps, ',')) == ns
  {
    JoinedPieces(ps);
    PaddedClean(ps, ns);
    NamesNormal(ns);
    TokenizeCleaned(JoinOn(ps, ','), ps, ns);
  }

  /** A payload whose pieces clean to names yields those names. */
  lemma TokenizeCleaned(payload: string, ps: seq<string>, ns: seq<string>)
    requires Pieces(payload) == ps
    requires CleanEach(ps) == ns && NormalizeEach(ns) == ns
    requires forall i :: 0 <= i < |ns| ==> ns[i] != []
    ensures Tokenize(payload) == ns
  {
    assert NonEmpty(ns) == ns;
  }

  /** Names joined by commas are cut back into those names. */
  lemma JoinedPieces(ns: seq<string>)
    requires |ns| >= 2
    requires forall i :: 0 <= i < |ns| ==> ',' !in ns[i]
    ensures Pieces(JoinOn(ns, ',')) == ns
  {
    var payload := JoinOn(ns, ',');
    assert payload == ns[0] + [','] + JoinOn(ns[1..], ',');
    assert payload[|ns[0]|] == ',';
    SplitOnJoinOn(ns, ',');
  }

  /** Normalising names leaves them as they are. */
  lemma {:induction false} NamesNormal(ns: seq<string>)
    requires AllNames(ns)
    ensures NormalizeEach(ns) == ns
  {
    if ns != [] {
      NormalizedFixed(ns[0]);
      NamesNormal(ns[1..]);
    }
  }

  /** A command word, one space and a payload: the parser reads the payload
      with its surrounding whitespace stripped (main.py:48-51). */
  lemma ParseCommand(cmd: string, p: string)
    requires cmd != [] && NoSpace(cmd)
    ensures ParseNames(cmd + [' '] + p) == Tokenize(Strip(p, Whitespace))
  {
    SplitOnceCommand(cmd, p);
    StripLStrip(p);
  }

  /** `split(maxsplit=1)` of a command word, one space and a payload. */
  lemma SplitOnceCommand(cmd: string, p: string)
    requires cmd != [] && NoSpace(cmd)
    ensures var rest := LStrip(p, Whitespace);
      SplitOnce(cmd + [' '] + p) == if rest == [] then [cmd] else [cmd, rest]
  {
    var s := cmd + [' '] + p;
    var x := [' '] + p;
    assert s == cmd + x;
    assert [] + s == s;
    LStripPrefix([], s, Whitespace);
    WordPrefix(cmd, x);
    assert s[|cmd|..] == x;
    assert x[1..] == p;
  }

  /** Leading whitespace already gone changes nothing for `strip`. */
  lemma StripLStrip(p: string)
    ensures Strip(LStrip(p, Whitespace), Whitespace) == Strip(p, Whitespace)
  {
    var rest := LStrip(p, Whitespace);
    assert [] + rest == rest;
    LStripPrefix([], rest, Whitespace);
  }

  /** A message with nothing after the command word yields no names
      (main.py:49-50). */
  lemma NoPayload(text: string)
    requires NoSpace(Strip(text, Whitespace))
    ensures ParseNames(text) == []
  {
    var t := LStrip(text, Whitespace);
    if t != [] {
      var r := RStrip(t, Whitespace);
      RStripPrefix(t, Whitespace);
      var tail := t[|r|..];
      assert t == r + tail;
      WordPrefix(r, tail);
      LStripPrefix(tail, [], Whitespace);
      assert tail + [] == tail;
    }
  }

  /** `/add Name1, Name2, Name3`: names typed between commas after a command
      word and a space are read back exactly, whatever whitespace surrounds
      each name (main.py:47-60, the usage line at main.py:83). */
  lemma ParseJoined(cmd: string, ps: seq<string>, ns: seq<string>)
    requires cmd != [] && NoSpace(cmd)
    requires |ps| >= 2
    requires PaddedNames(ps, ns)
    ensures ParseNames(cmd + [' '] + JoinOn(ps, ',')) == ns
  {
    var a, qs, d := TrimPieces(ps, ns);
    ParseCommand(cmd, JoinOn(ps, ','));
    JoinedTokens(qs, ns);
  }

  /** Pieces joined by commas are `a + JoinOn(qs, ',') + d` for whitespace
      `a` and `d` and padded pieces `qs` whose join `strip()` leaves intact:
      the first piece loses its leading whitespace, the last its trailing. */
  lemma TrimPieces(ps: seq<string>, ns: seq<string>) returns (a: string, qs: seq<string>, d: string)
    requires |ps| >= 2 && PaddedNames(ps, ns)
    ensures |qs| == |ps| && PaddedNames(qs, ns)
    ensures AllSpace(a) && AllSpace(d) && JoinOn(ps, ',') == a + (JoinOn(qs, ',') + d)
    ensures Strip(JoinOn(ps, ','), Whitespace) == JoinOn(qs, ',')
  {
    var last := |ps| - 1;
    var b, c;
    a, b := PadParts(ps, ns, 0);
    c, d := PadParts(ps, ns, last);
    qs := [ns[0] + b] + ps[1..last] + [c + ns[last]];
    assert qs[0] == ns[0] + b && qs[last] == c + ns[last];
    TrimmedPadded(ps, ns, a, b, c, d);
    TrimmedJoin(ps, ns, a, b, c, d);
    JoinEnds(qs, ns, b, c);
    TrimmedStripped(JoinOn(qs, ','), a, d);
  }

  /** A padded piece is its name with whitespace `a` before and `b` after. */
  lemma PadParts(ps: seq<string>, ns: seq<string>, i: nat) returns (a: string, b: string)
    requires PaddedNames(ps, ns) && i < |ps|
    ensures AllSpace(a) && AllSpace(b) && ps[i] == a + ns[i] + b
  {
    StripParts(ps[i]);
    a, b :| AllSpace(a) && AllSpace(b) && ps[i] == a + Strip(ps[i], Whitespace) + b;
  }

  /** The pieces with the whitespace before the first name and after the last
      name taken off are still padded names. */
  lemma TrimmedPadded(ps: seq<string>, ns: seq<string>, a: string, b: string, c: string, d: string)
    requires |ps| >= 2 && PaddedNames(ps, ns)
    requires AllSpace(a) && AllSpace(b) && ps[0] == a + ns[0] + b
    requires AllSpace(c) && AllSpace(d) && ps[|ps| - 1] == c + ns[|ps| - 1] + d
    ensures PaddedNames([ns[0] + b] + ps[1..|ps| - 1] + [c + ns[|ps| - 1]], ns)
  {
    var last := |ps| - 1;
    var qs := [ns[0] + b] + ps[1..last] + [c + ns[last]];
    PadHead(ps[0], ns[0], a, b);
    PadLast(ps[last], ns[last], c, d);
    forall i | 0 <= i < |qs| ensures ',' !in qs[i] && Strip(qs[i], Whitespace) == ns[i] {
      if i == 0 {
        assert qs[i] == ns[0] + b;
      } else if i == last {
        assert qs[i] == c + ns[last];
      } else {
        assert qs[i] == ps[i];
      }
    }
  }

  /** Joining the trimmed pieces and putting back the outer whitespace gives
      the joined pieces. */
  lemma TrimmedJoin(ps: seq<string>, ns: seq<string>, a: string, b: string, c: string, d: string)
    requires |ps| >= 2 && |ns| == |ps|
    requires ps[0] == a + ns[0] + b
    requires ps[|ps| - 1] == c + ns[|ps| - 1] + d
    ensures JoinOn(ps, ',') == a + (JoinOn([ns[0] + b] + ps[1..|ps| - 1] + [c + ns[|ps| - 1]], ',') + d)
  {
    var last := |ps| - 1;
    var n, m := ns[0], ns[last];
    SeqEnds(ps);
    assert ps[0] == a + (n + b);
    assert ps[last] == (c + m) + d;
    JoinOnWrap(n + b, ps[1..last], c + m, a, d, ',');
  }

  /** A list of two or more is its first element, the middle and its last. */
  lemma SeqEnds(ps: seq<string>)
    requires |ps| >= 2
    ensures ps == [ps[0]] + ps[1..|ps| - 1] + [ps[|ps| - 1]]
  {
    assert ps[1..] == ps[1..|ps| - 1] + [ps[|ps| - 1]];
  }

  /** Text in front of the first piece and after the last stays outside the
      join. */
  lemma JoinOnWrap(x: string, mid: seq<string>, y: string, a: string, d: string, sep: char)
    ensures JoinOn([a + x] + mid + [y + d], sep) == a + (JoinOn([x] + mid + [y], sep) + d)
  {
    assert [a + x] + mid + [y + d] == [a + x] + (mid + [y + d]);
    JoinOnHead(a, x, mid + [y + d], sep);
    assert [x] + (mid + [y + d]) == ([x] + mid) + [y + d];
    JoinOnTail([x] + mid, y, d, sep);
  }

  /** The trimmed pieces, joined, start with the first name and end with the
      last. */
  lemma JoinEnds(qs: seq<string>, ns: seq<string>, b: string, c: string)
    requires |qs| >= 2 && PaddedNames(qs, ns)
    requires qs[0] == ns[0] + b && qs[|qs| - 1] == c + ns[|ns| - 1]
    ensures JoinOn(qs, ',') != []
    ensures !IsSpace(JoinOn(qs, ',')[0]) && !IsSpace(JoinOn(qs, ',')[|JoinOn(qs, ',')| - 1])
  {
    var n, m := ns[0], ns[|ns| - 1];
    NameEnds(n);
    NameEnds(m);
    forall i | 0 <= i < |qs| ensures qs[i] != [] {
      assert IsName(ns[i]) && Strip(qs[i], Whitespace) == ns[i];
    }
    JoinOnEnds(qs, ',');
    assert (n + b)[0] == n[0];
    assert (c + m)[|c + m| - 1] == m[|m| - 1];
  }

  /** `strip()` takes off exactly the whitespace around a string that starts
      and ends with a non-space. */
  lemma TrimmedStripped(j: string, a: string, d: string)
    requires j != [] && !IsSpace(j[0]) && !IsSpace(j[|j| - 1])
    requires AllSpace(a) && AllSpace(d)
    ensures Strip(a + (j + d), Whitespace) == j
  {
    assert (j + d)[0] == j[0];
    LStripPrefix(a, j + d, Whitespace);
    RStripSuffix(j, d, Whitespace);
  }

  /** The first piece without its leading whitespace. */
  lemma PadHead(p: string, n: string, a: string, b: string)
    requires IsName(n) && ',' !in p
    requires AllSpace(a) && AllSpace(b) && p == a + n + b
    ensures ',' !in n + b && Strip(n + b, Whitespace) == n
  {
    NameEnds(n);
    assert p == a + (n + b);
    assert forall k :: 0 <= k < |n + b| ==> (n + b)[k] == p[|a| + k];
    assert (n + b)[0] == n[0];
    assert LStrip(n + b, Whitespace) == n + b;
    RStripSuffix(n, b, Whitespace);
  }

  /** The last piece without its trailing whitespace. */
  lemma PadLast(p: string, n: string, c: string, d: string)
    requires IsName(n) && ',' !in p
    requires AllSpace(c) && AllSpace(d) && p == c + n + d
    ensures ',' !in c + n && Strip(c + n, Whitespace) == n
  {
    NameEnds(n);
    assert forall k :: 0 <= k < |c + n| ==> (c + n)[k] == p[k];
    LStripPrefix(c, n, Whitespace);
    assert n + [] == n;
    RStripSuffix(n, [], Whitespace);
  }
}
