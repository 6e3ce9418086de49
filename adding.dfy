/** The effect of /add on the name list (main.py:87-100), as functions on
    the list and the parsed names, and what it promises. */
module Adding {
  import opened PyText
  import opened Spaces
  import opened NameArgs
  import opened CaseKeys

  /** What one /add reports: the names appended and the names turned away
      because their key was already present. */
  datatype AddResult = AddResult(added: seq<string>, skipped: seq<string>)

  /** The effect of the /add loop over `tokens` on a list holding `names`
      (main.py:90-100): each token is normalised, dropped when that leaves
      nothing, skipped when its key is already in the list or was added
      earlier in the same command, and appended otherwise. */
  function AddTokens(names: seq<string>, tokens: seq<string>): AddResult
    decreases |tokens|
  {
    if tokens == [] then AddResult([], [])
    else
      var prev := AddTokens(names, tokens[..|tokens| - 1]);
      var name := Normalize(tokens[|tokens| - 1]);
      if name == [] then prev
      else if Key(name) in Keys(names + prev.added) then AddResult(prev.added, prev.skipped + [name])
      else AddResult(prev.added + [name], prev.skipped)
  }

  /** AddTokens on one more token of `tokens`: the step the loop of
      main.py:90-100 takes. */
  lemma AddTokensNext(names: seq<string>, tokens: seq<string>, i: nat)
    requires i < |tokens|
    ensures var prev := AddTokens(names, tokens[..i]);
      var name := Normalize(tokens[i]);
      AddTokens(names, tokens[..i + 1]) ==
        if name == [] then prev
        else if Key(name) in Keys(names + prev.added) then AddResult(prev.added, prev.skipped + [name])
        else AddResult(prev.added + [name], prev.skipped)
  {
    assert tokens[..i + 1][..i] == tokens[..i];
  }

  /** The tokens whose key is new (`isNew`) or not new (`!isNew`): new means
      it is neither the key of a name of `names` nor that of an earlier
      token. */
  function Picked(names: seq<string>, tokens: seq<string>, isNew: bool): seq<string>
    decreases |tokens|
  {
    if tokens == [] then []
    else
      var n := |tokens| - 1;
      var isFresh := Key(tokens[n]) !in Keys(names) + Keys(tokens[..n]);
      Picked(names, tokens[..n], isNew) + (if isFresh == isNew then [tokens[n]] else [])
  }

  /** /add splits names into those it appends and those it skips exactly by
      whether their key is new, keeps their order, and leaves the list with
      the keys it had plus those of all the tokens. */
  lemma {:induction false} AddTokensPicks(names: seq<string>, tokens: seq<string>)
    requires AllNames(tokens)
    ensures AddTokens(names, tokens) == AddResult(Picked(names, tokens, true), Picked(names, tokens, false))
    ensures Keys(names + AddTokens(names, tokens).added) == Keys(names) + Keys(tokens)
    decreases |tokens|
  {
    if tokens == [] {
      assert names + [] == names;
    } else {
      var n := |tokens| - 1;
      AllNamesPrefix(tokens, n);
      AddTokensPicks(names, tokens[..n]);
      NormalizedFixed(tokens[n]);
      AddPicksStep(names, tokens);
    }
  }

  /** One step of AddTokensPicks: one more token. */
  lemma AddPicksStep(names: seq<string>, tokens: seq<string>)
    requires tokens != []
    requires var t := tokens[..|tokens| - 1];
      && AddTokens(names, t) == AddResult(Picked(names, t, true), Picked(names, t, false))
      && Keys(names + AddTokens(names, t).added) == Keys(names) + Keys(t)
    requires var x := tokens[|tokens| - 1]; x != [] && Normalize(x) == x
    ensures AddTokens(names, tokens) == AddResult(Picked(names, tokens, true), Picked(names, tokens, false))
    ensures Keys(names + AddTokens(names, tokens).added) == Keys(names) + Keys(tokens)
  {
    var n := |tokens| - 1;
    if Key(tokens[n]) in Keys(names) + Keys(tokens[..n]) {
      AddStepSkip(names, tokens);
    } else {
      AddStepAppend(names, tokens);
    }
  }

  /** AddPicksStep for a token whose key is already known. */
  lemma AddStepSkip(names: seq<string>, tokens: seq<string>)
    requires tokens != []
    requires var t := tokens[..|tokens| - 1];
      && AddTokens(names, t) == AddResult(Picked(names, t, true), Picked(names, t, false))
      && Keys(names + AddTokens(names, t).added) == Keys(names) + Keys(t)
    requires var x := tokens[|tokens| - 1]; x != [] && Normalize(x) == x
    requires Key(tokens[|tokens| - 1]) in Keys(names) + Keys(tokens[..|tokens| - 1])
    ensures AddTokens(names, tokens) == AddResult(Picked(names, tokens, true), Picked(names, tokens, false))
    ensures Keys(names + AddTokens(names, tokens).added) == Keys(names) + Keys(tokens)
  {
    var n := |tokens| - 1;
    var t, x := tokens[..n], tokens[n];
    var prev := AddTokens(names, t);
    var known := Keys(names) + Keys(t);
    AddTokensLast(names, tokens);
    assert Keys(tokens) == Keys(t) + {Key(x)};
    assert Picked(names, tokens, true) == Picked(names, t, true) + [];
    assert Picked(names, tokens, false) == Picked(names, t, false) + [x];
    assert known + {Key(x)} == known;
  }

  /** AddPicksStep for a token whose key is new. */
  lemma AddStepAppend(names: seq<string>, tokens: seq<string>)
    requires tokens != []
    requires var t := tokens[..|tokens| - 1];
      && AddTokens(names, t) == AddResult(Picked(names, t, true), Picked(names, t, false))
      && Keys(names + AddTokens(names, t).added) == Keys(names) + Keys(t)
    requires var x := tokens[|tokens| - 1]; x != [] && Normalize(x) == x
    requires Key(tokens[|tokens| - 1]) !in Keys(names) + Keys(tokens[..|tokens| - 1])
    ensures AddTokens(names, tokens) == AddResult(Picked(names, tokens, true), Picked(names, tokens, false))
    ensures Keys(names + AddTokens(names, tokens).added) == Keys(names) + Keys(tokens)
  {
    var n := |tokens| - 1;
    var t, x := tokens[..n], tokens[n];
    var prev := AddTokens(names, t);
    AddTokensLast(names, tokens);
    assert Keys(tokens) == Keys(t) + {Key(x)};
    KeysAppend(names + prev.added, x);
    assert names + (prev.added + [x]) == (names + prev.added) + [x];
    assert Picked(names, tokens, true) == Picked(names, t, true) + [x];
    assert Picked(names, tokens, false) == Picked(names, t, false) + [];
  }

  /** The last step of AddTokens for a token that is already a name. */
  lemma AddTokensLast(names: seq<string>, tokens: seq<string>)
    requires tokens != []
    requires var x := tokens[|tokens| - 1]; x != [] && Normalize(x) == x
    ensures var prev := AddTokens(names, tokens[..|tokens| - 1]);
      var x := tokens[|tokens| - 1];
      AddTokens(names, tokens) ==
        if Key(x) in Keys(names + prev.added) then AddResult(prev.added, prev.skipped + [x])
        else AddResult(prev.added + [x], prev.skipped)
  {
  }

  /** Appending one name adds its key. */
  lemma KeysAppend(s: seq<string>, x: string)
    ensures Keys(s + [x]) == Keys(s) + {Key(x)}
  {
    assert (s + [x])[..|s|] == s;
  }

  /** A prefix of a list of names is a list of names. */
  lemma AllNamesPrefix(ns: seq<string>, n: nat)
    requires AllNames(ns) && n <= |ns|
    ensures AllNames(ns[..n])
  {
    forall i | 0 <= i < n ensures IsName(ns[..n][i]) {
      assert ns[..n][i] == ns[i];
    }
  }

  /** Every token ends up either appended or skipped. */
  lemma {:induction false} PickedCount(names: seq<string>, tokens: seq<string>)
    ensures |Picked(names, tokens, true)| + |Picked(names, tokens, false)| == |tokens|
    decreases |tokens|
  {
    if tokens != [] {
      var n := |tokens| - 1;
      var t, x := tokens[..n], tokens[n];
      PickedCount(names, t);
      var isFresh := Key(x) !in Keys(names) + Keys(t);
      var tail := [x];
      assert Picked(names, tokens, isFresh) == Picked(names, t, isFresh) + tail;
      assert Picked(names, tokens, !isFresh) == Picked(names, t, !isFresh) + [];
    }
  }

  /** Every token ends up in exactly one of the two lists. */
  lemma {:induction false} PickedMultiset(names: seq<string>, tokens: seq<string>)
    ensures multiset(Picked(names, tokens, true)) + multiset(Picked(names, tokens, false)) == multiset(tokens)
    decreases |tokens|
  {
    if tokens != [] {
      var n := |tokens| - 1;
      var t, x := tokens[..n], tokens[n];
      PickedMultiset(names, t);
      var a, b := Picked(names, t, true), Picked(names, t, false);
      assert tokens == t + [x];
      if Key(x) !in Keys(names) + Keys(t) {
        assert Picked(names, tokens, true) == a + [x];
        assert Picked(names, tokens, false) == b + [];
      } else {
        assert Picked(names, tokens, true) == a + [];
        assert Picked(names, tokens, false) == b + [x];
      }
    }
  }

  /** Names are only appended when no name of the list shares their key, so
      the keys of the list stay distinct. */
  lemma {:induction false} AddKeepsDistinct(names: seq<string>, tokens: seq<string>)
    requires DistinctKeys(names)
    ensures DistinctKeys(names + AddTokens(names, tokens).added)
    decreases |tokens|
  {
    if tokens != [] {
      var n := |tokens| - 1;
      AddKeepsDistinct(names, tokens[..n]);
      var prev := AddTokens(names, tokens[..n]);
      var name := Normalize(tokens[n]);
      if name != [] && Key(name) !in Keys(names + prev.added) {
        DistinctAppend(names + prev.added, name);
        assert names + (prev.added + [name]) == (names + prev.added) + [name];
      }
    }
  }

  /** Appending a name whose key is absent keeps the keys distinct. */
  lemma DistinctAppend(s: seq<string>, x: string)
    requires DistinctKeys(s) && Key(x) !in Keys(s)
    ensures DistinctKeys(s + [x])
  {
    var sx := s + [x];
    KeysIndex(s);
    forall i, j | 0 <= i < j < |sx| ensures Key(sx[i]) != Key(sx[j]) {
      assert sx[i] == s[i];
      if j < |s| {
        assert sx[j] == s[j];
      }
    }
  }

  /** The names /add appends are tokens it was given. */
  lemma {:induction false} AddedFromTokens(names: seq<string>, tokens: seq<string>)
    requires AllNames(tokens)
    ensures forall i :: 0 <= i < |AddTokens(names, tokens).added| ==> AddTokens(names, tokens).added[i] in tokens
    decreases |tokens|
  {
    if tokens != [] {
      var n := |tokens| - 1;
      var t, x := tokens[..n], tokens[n];
      AllNamesPrefix(tokens, n);
      AddedFromTokens(names, t);
      NormalizedFixed(x);
      var prev := AddTokens(names, t).added;
      var added := AddTokens(names, tokens).added;
      assert added == prev || added == prev + [x];
      forall i | 0 <= i < |added| ensures added[i] in tokens {
        if i < |prev| {
          assert added[i] == prev[i];
          assert prev[i] in t;
        } else {
          assert added[i] == x;
        }
      }
    }
  }

  /** Appending names to a list of names gives a list of names. */
  lemma AllNamesConcat(a: seq<string>, b: seq<string>)
    requires AllNames(a) && AllNames(b)
    ensures AllNames(a + b)
  {
    forall i | 0 <= i < |a + b| ensures IsName((a + b)[i]) {
      if i >= |a| {
        assert (a + b)[i] == b[i - |a|];
      }
    }
  }

  /** The names /add appends are names. */
  lemma AddedAreNames(names: seq<string>, tokens: seq<string>)
    requires AllNames(names) && AllNames(tokens)
    ensures AllNames(names + AddTokens(names, tokens).added)
  {
    var added := AddTokens(names, tokens).added;
    AddedFromTokens(names, tokens);
    assert AllNames(added) by {
      forall i | 0 <= i < |added| ensures IsName(added[i]) {
        var j :| 0 <= j < |tokens| && tokens[j] == added[i];
      }
    }
    AllNamesConcat(names, added);
  }

  /** Tokens whose keys are all in the list are all turned away. */
  lemma {:induction false} PickedNoneFresh(names: seq<string>, tokens: seq<string>)
    requires Keys(tokens) <= Keys(names)
    ensures Picked(names, tokens, true) == []
    ensures Picked(names, tokens, false) == tokens
    decreases |tokens|
  {
    if tokens != [] {
      var n := |tokens| - 1;
      PickedNoneFresh(names, tokens[..n]);
    }
  }

  /** Repeating an /add appends nothing and skips every token. */
  lemma AddTwice(names: seq<string>, tokens: seq<string>)
    requires AllNames(tokens)
    ensures var once := names + AddTokens(names, tokens).added;
      AddTokens(once, tokens) == AddResult([], tokens)
  {
    var once := names + AddTokens(names, tokens).added;
    AddTokensPicks(names, tokens);
    AddTokensPicks(once, tokens);
    PickedNoneFresh(once, tokens);
  }
}
