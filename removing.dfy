/** The effect of /remove on the name list (main.py:133-142), as functions on
    the list and the parsed names, and what it promises. */
module Removing {
  import opened NameArgs
  import opened CaseKeys
  import opened Adding

  /** What one /remove leaves and reports: the remaining list, the stored
      names taken out of it, and the tokens that matched nothing. */
  datatype RemoveResult = RemoveResult(rest: seq<string>, removed: seq<string>, missing: seq<string>)

  /** The list without the name at position `i` (`names.pop(i)`). */
  function Pop(names: seq<string>, i: nat): (r: seq<string>)
    requires i < |names|
    ensures |r| == |names| - 1
    ensures forall j :: 0 <= j < i ==> r[j] == names[j]
    ensures forall j :: i <= j < |r| ==> r[j] == names[j + 1]
  {
    names[..i] + names[i + 1..]
  }

  /** The effect of the /remove loop over `tokens` on a list holding `names`
      (main.py:136-142): each token takes out the first name that shares its
      key, if there is one left, and is reported missing otherwise. */
  function RemoveTokens(names: seq<string>, tokens: seq<string>): RemoveResult
    decreases |tokens|
  {
    if tokens == [] then RemoveResult(names, [], [])
    else
      var prev := RemoveTokens(names, tokens[..|tokens| - 1]);
      var nm := tokens[|tokens| - 1];
      match FirstMatch(prev.rest, Key(nm))
      case Some(i) => RemoveResult(Pop(prev.rest, i), prev.removed + [prev.rest[i]], prev.missing)
      case None => RemoveResult(prev.rest, prev.removed, prev.missing + [nm])
  }

  /** RemoveTokens on one more token of `tokens`: the step the loop of
      main.py:136-142 takes. */
  lemma RemoveTokensNext(names: seq<string>, tokens: seq<string>, i: nat)
    requires i < |tokens|
    ensures var prev := RemoveTokens(names, tokens[..i]);
      RemoveTokens(names, tokens[..i + 1]) ==
        match FirstMatch(prev.rest, Key(tokens[i]))
        case Some(j) => RemoveResult(Pop(prev.rest, j), prev.removed + [prev.rest[j]], prev.missing)
        case None => RemoveResult(prev.rest, prev.removed, prev.missing + [tokens[i]])
  {
    assert tokens[..i + 1][..i] == tokens[..i];
  }

  /** The names of `names` whose key is not in `ks`, in order: an independent
      description of what /remove leaves. */
  function Without(names: seq<string>, ks: set<string>): (r: seq<string>)
    ensures |r| <= |names|
  {
    if names == [] then []
    else (if Key(names[0]) in ks then [] else [names[0]]) + Without(names[1..], ks)
  }

  /** Without keeps exactly the names whose key is not in `ks`. */
  lemma {:induction false} WithoutMembers(s: seq<string>, ks: set<string>)
    ensures forall x :: x in Without(s, ks) <==> x in s && Key(x) !in ks
  {
    if s != [] {
      WithoutMembers(s[1..], ks);
      assert s == [s[0]] + s[1..];
    }
  }

  /** Nothing is dropped when no key is in `ks`. */
  lemma {:induction false} WithoutNone(s: seq<string>, ks: set<string>)
    requires forall j :: 0 <= j < |s| ==> Key(s[j]) !in ks
    ensures Without(s, ks) == s
  {
    if s != [] {
      WithoutNone(s[1..], ks);
      assert [s[0]] + s[1..] == s;
    }
  }

  /** Everything is dropped when every key is in `ks`. */
  lemma {:induction false} WithoutAll(s: seq<string>, ks: set<string>)
    requires forall j :: 0 <= j < |s| ==> Key(s[j]) in ks
    ensures Without(s, ks) == []
  {
    if s != [] {
      WithoutAll(s[1..], ks);
    }
  }

  /** Dropping from a concatenation drops from each part. */
  lemma {:induction false} WithoutConcat(a: seq<string>, b: seq<string>, ks: set<string>)
    ensures Without(a + b, ks) == Without(a, ks) + Without(b, ks)
  {
    if a == [] {
      assert a + b == b;
    } else {
      var h := if Key(a[0]) in ks then [] else [a[0]];
      var x, y := Without(a[1..], ks), Without(b, ks);
      WithoutConcat(a[1..], b, ks);
      assert (a + b)[0] == a[0] && (a + b)[1..] == a[1..] + b;
      assert Without(a + b, ks) == h + (x + y);
      assert h + (x + y) == (h + x) + y;
    }
  }

  /** Dropping twice drops the union. */
  lemma {:induction false} WithoutWithout(s: seq<string>, a: set<string>, b: set<string>)
    ensures Without(Without(s, a), b) == Without(s, a + b)
  {
    if s != [] {
      WithoutWithout(s[1..], a, b);
      var h := if Key(s[0]) in a then [] else [s[0]];
      WithoutConcat(h, Without(s[1..], a), b);
      if h != [] {
        assert h[1..] == [];
      }
    }
  }

  /** The keys left are those not dropped. */
  lemma KeysWithout(s: seq<string>, ks: set<string>)
    ensures Keys(Without(s, ks)) == Keys(s) - ks
  {
    var w := Without(s, ks);
    WithoutMembers(s, ks);
    KeysIndex(s);
    KeysIndex(w);
    forall k | k in Keys(s) - ks ensures k in Keys(w) {
      var j :| 0 <= j < |s| && Key(s[j]) == k;
      assert s[j] in w;
    }
    forall k | k in Keys(w) ensures k in Keys(s) - ks {
      var j :| 0 <= j < |w| && Key(w[j]) == k;
      var m :| 0 <= m < |s| && s[m] == w[j];
    }
  }

  /** Dropping names keeps the keys distinct. */
  lemma {:induction false} WithoutDistinct(s: seq<string>, ks: set<string>)
    requires DistinctKeys(s)
    ensures DistinctKeys(Without(s, ks))
  {
    if s != [] {
      var t := s[1..];
      DistinctTail(s);
      WithoutDistinct(t, ks);
      if Key(s[0]) !in ks {
        var w := Without(t, ks);
        WithoutMembers(t, ks);
        forall j | 0 <= j < |w| ensures Key(s[0]) != Key(w[j]) {
          var m :| 0 <= m < |t| && t[m] == w[j];
          assert t[m] == s[m + 1];
        }
        DistinctCons(s[0], w);
      }
    }
  }

  /** Dropping the first name keeps the keys distinct. */
  lemma DistinctTail(s: seq<string>)
    requires s != [] && DistinctKeys(s)
    ensures DistinctKeys(s[1..])
  {
    var t := s[1..];
    forall i, j | 0 <= i < j < |t| ensures Key(t[i]) != Key(t[j]) {
      assert t[i] == s[i + 1] && t[j] == s[j + 1];
    }
  }

  /** A name whose key no name of `w` has can go in front of `w`. */
  lemma DistinctCons(x: string, w: seq<string>)
    requires DistinctKeys(w)
    requires forall j :: 0 <= j < |w| ==> Key(x) != Key(w[j])
    ensures DistinctKeys([x] + w)
  {
    var xw := [x] + w;
    forall i, j | 0 <= i < j < |xw| ensures Key(xw[i]) != Key(xw[j]) {
      assert xw[j] == w[j - 1];
      if i > 0 {
        assert xw[i] == w[i - 1];
      }
    }
  }

  /** In a list whose keys are distinct, popping the first name with key `k`
      is dropping key `k`. */
  lemma {:induction false} PopIsWithout(s: seq<string>, k: string, i: nat)
    requires DistinctKeys(s)
    requires FirstMatch(s, k) == Some(i)
    ensures Pop(s, i) == Without(s, {k})
    decreases |s|
  {
    if i == 0 {
      PopFirst(s, k);
    } else {
      DistinctTail(s);
      PopLater(s, k, i);
      PopIsWithout(s[1..], k, i - 1);
      PopCons(s, i);
      assert Without(s, {k}) == [s[0]] + Without(s[1..], {k});
    }
  }

  /** PopIsWithout when the match is the first name. */
  lemma PopFirst(s: seq<string>, k: string)
    requires DistinctKeys(s)
    requires FirstMatch(s, k) == Some(0)
    ensures Pop(s, 0) == Without(s, {k})
  {
    var t := s[1..];
    forall j | 0 <= j < |t| ensures Key(t[j]) !in {k} {
      assert t[j] == s[j + 1];
    }
    WithoutNone(t, {k});
    assert Without(s, {k}) == [] + Without(t, {k});
    assert Pop(s, 0) == t;
  }

  /** Popping after the first position pops in the tail. */
  lemma PopCons(s: seq<string>, i: nat)
    requires 0 < i < |s|
    ensures Pop(s, i) == [s[0]] + Pop(s[1..], i - 1)
  {
    assert s[1..][..i - 1] == s[1..i];
    assert s[1..][i..] == s[i + 1..];
    assert s[..i] == [s[0]] + s[1..i];
  }

  /** A match after the first position is a match in the tail. */
  lemma PopLater(s: seq<string>, k: string, i: nat)
    requires 0 < i && FirstMatch(s, k) == Some(i)
    ensures Key(s[0]) != k
    ensures FirstMatch(s[1..], k) == Some(i - 1)
  {
    var t := s[1..];
    assert t[i - 1] == s[i];
    forall j | 0 <= j < i - 1 ensures Key(t[j]) != k {
      assert t[j] == s[j + 1];
    }
    FirstMatchIs(t, k, i - 1);
  }

  /** On a list whose keys are distinct, /remove leaves exactly the names
      whose key no token has, in their order. */
  lemma {:induction false} RemoveIsWithout(names: seq<string>, tokens: seq<string>)
    requires DistinctKeys(names)
    ensures RemoveTokens(names, tokens).rest == Without(names, Keys(tokens))
    decreases |tokens|
  {
    if tokens == [] {
      WithoutNone(names, {});
    } else {
      var n := |tokens| - 1;
      var t, x := tokens[..n], tokens[n];
      RemoveIsWithout(names, t);
      var prev := RemoveTokens(names, t);
      WithoutDistinct(names, Keys(t));
      WithoutWithout(names, Keys(t), {Key(x)});
      assert Keys(tokens) == Keys(t) + {Key(x)};
      match FirstMatch(prev.rest, Key(x))
      case Some(i) =>
        PopIsWithout(prev.rest, Key(x), i);
      case None =>
        KeysIndex(prev.rest);
        WithoutNone(prev.rest, {Key(x)});
    }
  }

  /** The keys /remove leaves are the keys there were less those of the
      tokens. */
  lemma RemoveKeys(names: seq<string>, tokens: seq<string>)
    requires DistinctKeys(names)
    ensures Keys(RemoveTokens(names, tokens).rest) == Keys(names) - Keys(tokens)
  {
    RemoveIsWithout(names, tokens);
    KeysWithout(names, Keys(tokens));
  }

  /** /remove keeps a list of distinct names a list of distinct names. */
  lemma RemoveKeepsNames(names: seq<string>, tokens: seq<string>)
    requires DistinctKeys(names) && AllNames(names)
    ensures DistinctKeys(RemoveTokens(names, tokens).rest)
    ensures AllNames(RemoveTokens(names, tokens).rest)
  {
    var rest := RemoveTokens(names, tokens).rest;
    RemoveIsWithout(names, tokens);
    WithoutDistinct(names, Keys(tokens));
    WithoutMembers(names, Keys(tokens));
    forall j | 0 <= j < |rest| ensures IsName(rest[j]) {
      assert rest[j] in names;
      var m :| 0 <= m < |names| && names[m] == rest[j];
    }
  }

  /** Every name taken out answers one of the tokens, and every token
      reported missing is one of the tokens. */
  lemma {:induction false} RemoveReports(names: seq<string>, tokens: seq<string>)
    ensures forall j :: 0 <= j < |RemoveTokens(names, tokens).removed| ==>
      Key(RemoveTokens(names, tokens).removed[j]) in Keys(tokens)
    ensures forall j :: 0 <= j < |RemoveTokens(names, tokens).missing| ==>
      RemoveTokens(names, tokens).missing[j] in tokens
    decreases |tokens|
  {
    if tokens != [] {
      var n := |tokens| - 1;
      var t, x := tokens[..n], tokens[n];
      RemoveReports(names, t);
      var prev := RemoveTokens(names, t);
      var r := RemoveTokens(names, tokens);
      assert forall j :: 0 <= j < |prev.removed| ==> Key(prev.removed[j]) in Keys(t);
      assert forall j :: 0 <= j < |prev.missing| ==> prev.missing[j] in t;
      assert Keys(tokens) == Keys(t) + {Key(x)};
      assert forall y :: y in t ==> y in tokens;
      match FirstMatch(prev.rest, Key(x))
      case Some(i) =>
        assert r.removed == prev.removed + [prev.rest[i]] && r.missing == prev.missing;
        forall j | 0 <= j < |r.removed| ensures Key(r.removed[j]) in Keys(tokens) {
          if j < |prev.removed| {
            assert r.removed[j] == prev.removed[j];
          }
        }
      case None =>
        assert r.removed == prev.removed && r.missing == prev.missing + [x];
        forall j | 0 <= j < |r.missing| ensures r.missing[j] in tokens {
          if j < |prev.missing| {
            assert r.missing[j] == prev.missing[j];
          }
        }
    }
  }

  /** Every token is either matched or reported missing, and every name
      either stays or is taken out. */
  lemma {:induction false} RemoveCounts(names: seq<string>, tokens: seq<string>)
    ensures |RemoveTokens(names, tokens).removed| + |RemoveTokens(names, tokens).missing| == |tokens|
    ensures |RemoveTokens(names, tokens).rest| == |names| - |RemoveTokens(names, tokens).removed|
    decreases |tokens|
  {
    if tokens != [] {
      RemoveCounts(names, tokens[..|tokens| - 1]);
    }
  }

  /** The names taken out are stored names, in their stored spelling, and
      together with what stays they are exactly the names there were. */
  lemma {:induction false} RemoveMultiset(names: seq<string>, tokens: seq<string>)
    ensures multiset(RemoveTokens(names, tokens).rest) + multiset(RemoveTokens(names, tokens).removed) == multiset(names)
    ensures forall j :: 0 <= j < |RemoveTokens(names, tokens).removed| ==> RemoveTokens(names, tokens).removed[j] in names
    decreases |tokens|
  {
    if tokens != [] {
      var n := |tokens| - 1;
      RemoveMultiset(names, tokens[..n]);
      var prev := RemoveTokens(names, tokens[..n]);
      match FirstMatch(prev.rest, Key(tokens[n]))
      case Some(i) =>
        PopMultiset(prev.rest, i);
        RemovedStored(names, prev.rest, prev.removed, prev.rest[i]);
        var removed := prev.removed + [prev.rest[i]];
        assert multiset(removed) == multiset(prev.removed) + multiset{prev.rest[i]};
        forall j | 0 <= j < |removed| ensures removed[j] in names {
          if j < |prev.removed| {
            assert removed[j] == prev.removed[j];
          }
        }
      case None =>
    }
  }

  /** Popping a name takes exactly that name out. */
  lemma PopMultiset(s: seq<string>, i: nat)
    requires i < |s|
    ensures multiset(Pop(s, i)) + multiset{s[i]} == multiset(s)
  {
    assert s == s[..i] + [s[i]] + s[i + 1..];
  }

  /** A name that stays is one of the names there were. */
  lemma RemovedStored(names: seq<string>, rest: seq<string>, removed: seq<string>, x: string)
    requires multiset(rest) + multiset(removed) == multiset(names)
    requires x in rest
    ensures x in names
  {
    assert multiset(rest)[x] > 0;
    assert multiset(names)[x] > 0;
  }

  /** A token whose key an earlier token of the same /remove already had
      finds nothing left and is reported missing (main.py:138-142). */
  lemma RemoveRepeated(names: seq<string>, tokens: seq<string>)
    requires DistinctKeys(names)
    requires tokens != [] && Key(tokens[|tokens| - 1]) in Keys(tokens[..|tokens| - 1])
    ensures var prev := RemoveTokens(names, tokens[..|tokens| - 1]);
      RemoveTokens(names, tokens) == RemoveResult(prev.rest, prev.removed, prev.missing + [tokens[|tokens| - 1]])
  {
    RemoveKeys(names, tokens[..|tokens| - 1]);
  }

  /** Tokens none of whose keys is in the list change nothing and are all
      reported missing. */
  lemma {:induction false} RemoveNothing(names: seq<string>, tokens: seq<string>)
    requires Keys(tokens) !! Keys(names)
    ensures RemoveTokens(names, tokens) == RemoveResult(names, [], tokens)
    decreases |tokens|
  {
    if tokens != [] {
      var n := |tokens| - 1;
      assert Keys(tokens) == Keys(tokens[..n]) + {Key(tokens[n])};
      RemoveNothing(names, tokens[..n]);
      assert tokens[..n] + [tokens[n]] == tokens;
    }
  }

  /** Repeating a /remove takes nothing more out. */
  lemma RemoveTwice(names: seq<string>, tokens: seq<string>)
    requires DistinctKeys(names)
    ensures var rest := RemoveTokens(names, tokens).rest;
      RemoveTokens(rest, tokens) == RemoveResult(rest, [], tokens)
  {
    RemoveKeys(names, tokens);
    RemoveNothing(RemoveTokens(names, tokens).rest, tokens);
  }

  /** Removing the names an /add was given undoes it: what is left is the
      list before the /add less the names it already held under those keys. */
  lemma AddThenRemove(names: seq<string>, tokens: seq<string>)
    requires DistinctKeys(names) && AllNames(tokens)
    ensures var added := AddTokens(names, tokens).added;
      RemoveTokens(names + added, tokens).rest == Without(names, Keys(tokens))
  {
    var added := AddTokens(names, tokens).added;
    AddKeepsDistinct(names, tokens);
    RemoveIsWithout(names + added, tokens);
    WithoutConcat(names, added, Keys(tokens));
    AddedFromTokens(names, tokens);
    KeysIndex(tokens);
    forall j | 0 <= j < |added| ensures Key(added[j]) in Keys(tokens) {
      var m :| 0 <= m < |tokens| && tokens[m] == added[j];
    }
    WithoutAll(added, Keys(tokens));
    assert Without(names, Keys(tokens)) + [] == Without(names, Keys(tokens));
  }

  /** In particular an /add of names new to the list is undone exactly. */
  lemma AddThenRemoveNew(names: seq<string>, tokens: seq<string>)
    requires DistinctKeys(names) && AllNames(tokens)
    requires Keys(tokens) !! Keys(names)
    ensures var added := AddTokens(names, tokens).added;
      RemoveTokens(names + added, tokens).rest == names
  {
    AddThenRemove(names, tokens);
    KeysIndex(names);
    WithoutNone(names, Keys(tokens));
  }
}
