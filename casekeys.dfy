/** Case-insensitive comparison of names: the key `str.casefold` gives a name,
    the first position of a key in a list (the search main.py:138 runs), and
    `_case_index` (main.py:34-40). */
module CaseKeys {

  datatype Option<T> = None | Some(value: T)

  /** The case-folding of one character. Python's `casefold` covers all of
      Unicode; this model folds the ASCII letters A-Z and leaves every other
      character as it is. */
  function Lower(c: char): char
  {
    if 'A' <= c <= 'Z' then (c as int + 32) as char else c
  }

  /** `s.casefold()`: the key under which names are compared. */
  function Key(s: string): (k: string)
    ensures |k| == |s|
  {
    if s == [] then [] else [Lower(s[0])] + Key(s[1..])
  }

  /** Folding a folded name changes nothing more. */
  lemma {:induction false} KeyIdempotent(s: string)
    ensures Key(Key(s)) == Key(s)
  {
    if s != [] {
      KeyIdempotent(s[1..]);
      assert Key(s)[1..] == Key(s[1..]);
    }
  }

  /** Names that differ only in the case of ASCII letters share a key. */
  lemma {:induction false} KeyIgnoresCase(s: string, t: string)
    requires |s| == |t|
    requires forall i :: 0 <= i < |s| ==> Lower(s[i]) == Lower(t[i])
    ensures Key(s) == Key(t)
  {
    if s != [] {
      KeyIgnoresCase(s[1..], t[1..]);
    }
  }

  /** The keys of the names in `names` (`{n.casefold() for n in names}`). */
  function Keys(names: seq<string>): set<string>
    decreases |names|
  {
    if names == [] then {} else Keys(names[..|names| - 1]) + {Key(names[|names| - 1])}
  }

  /** The keys are exactly those of the names, position by position. */
  lemma {:induction false} KeysIndex(names: seq<string>)
    ensures forall i :: 0 <= i < |names| ==> Key(names[i]) in Keys(names)
    ensures forall k :: k in Keys(names) ==> exists i :: 0 <= i < |names| && Key(names[i]) == k
    decreases |names|
  {
    if names != [] {
      var n := |names| - 1;
      var front := names[..n];
      KeysIndex(front);
      forall i | 0 <= i < n ensures Key(names[i]) in Keys(names) {
        assert front[i] == names[i];
      }
      forall k | k in Keys(names) ensures exists i :: 0 <= i < |names| && Key(names[i]) == k {
        if k != Key(names[n]) {
          var i :| 0 <= i < |front| && Key(front[i]) == k;
          assert front[i] == names[i];
        }
      }
    }
  }

  /** The keys of a concatenation are the keys of its parts. */
  lemma {:induction false} KeysConcat(a: seq<string>, b: seq<string>)
    ensures Keys(a + b) == Keys(a) + Keys(b)
    decreases |b|
  {
    if b == [] {
      assert a + b == a;
    } else {
      var n := |b| - 1;
      KeysConcat(a, b[..n]);
      assert (a + b)[..|a + b| - 1] == a + b[..n];
      assert (a + b)[|a + b| - 1] == b[n];
    }
  }

  /** No two names of `names` share a key. */
  ghost predicate DistinctKeys(names: seq<string>)
  {
    forall i, j :: 0 <= i < j < |names| ==> Key(names[i]) != Key(names[j])
  }

  /** The position of the first name of `names` whose key is `key`, or None
      when there is none: `next((i for i, val in enumerate(names) if
      val.casefold() == key), None)` (main.py:138). */
  function FirstMatch(names: seq<string>, key: string): (r: Option<nat>)
    ensures r.Some? ==> r.value < |names| && Key(names[r.value]) == key
    ensures r.Some? ==> forall j :: 0 <= j < r.value ==> Key(names[j]) != key
    ensures r.None? <==> key !in Keys(names)
  {
    if names == [] then None
    else
      assert Keys(names) == {Key(names[0])} + Keys(names[1..]) by {
        assert names == [names[0]] + names[1..];
        KeysConcat([names[0]], names[1..]);
        assert [names[0]][..0] == [];
      }
      if Key(names[0]) == key then Some(0)
      else
        var r := FirstMatch(names[1..], key);
        assert forall j :: 1 <= j < |names| ==> names[j] == names[1..][j - 1];
        match r
        case None => None
        case Some(i) => Some(i + 1)
  }

  /** A position holding `key` with no earlier one is the one FirstMatch finds. */
  lemma FirstMatchIs(names: seq<string>, key: string, i: nat)
    requires i < |names| && Key(names[i]) == key
    requires forall j :: 0 <= j < i ==> Key(names[j]) != key
    ensures FirstMatch(names, key) == Some(i)
  {
    KeysIndex(names);
  }

  /** `idx` maps every key of `names[..n]` to the position of its first
      occurrence. */
  ghost predicate FirstPositions(names: seq<string>, idx: map<string, nat>, n: nat)
    requires n <= |names|
  {
    && idx.Keys == Keys(names[..n])
    && (forall k :: k in idx ==> idx[k] < n && Key(names[idx[k]]) == k)
    && (forall k :: k in idx ==> forall j :: 0 <= j < idx[k] ==> Key(names[j]) != k)
  }

  /** `_case_index(names)`: every key of `names` mapped to the position of its
      first occurrence (main.py:34-40). */
  method CaseIndex(names: seq<string>) returns (idx: map<string, nat>)
    ensures idx.Keys == Keys(names)
    ensures forall k :: k in idx ==> idx[k] < |names| && Key(names[idx[k]]) == k
    ensures forall k :: k in idx ==> forall j :: 0 <= j < idx[k] ==> Key(names[j]) != k
    ensures forall k :: k in idx ==> FirstMatch(names, k) == Some(idx[k])
  {
    idx := map[];
    for i := 0 to |names|
      invariant FirstPositions(names, idx, i)
    {
      var lower := Key(names[i]);
      if lower !in idx {
        CaseIndexNew(names, idx, i);
        idx := idx[lower := i];
      } else {
        CaseIndexSeen(names, idx, i);
      }
    }
    assert names[..|names|] == names;
    CaseIndexIsFirstMatch(names, idx);
  }

  /** The step of CaseIndex for a key not seen before. */
  lemma CaseIndexNew(names: seq<string>, idx: map<string, nat>, i: nat)
    requires i < |names| && FirstPositions(names, idx, i)
    requires Key(names[i]) !in idx
    ensures FirstPositions(names, idx[Key(names[i]) := i], i + 1)
  {
    var lower := Key(names[i]);
    assert names[..i + 1][..i] == names[..i];
    KeysIndex(names[..i]);
    forall j | 0 <= j < i ensures Key(names[j]) != lower {
      assert names[..i][j] == names[j];
    }
  }

  /** The step of CaseIndex for a key seen before. */
  lemma CaseIndexSeen(names: seq<string>, idx: map<string, nat>, i: nat)
    requires i < |names| && FirstPositions(names, idx, i)
    requires Key(names[i]) in idx
    ensures FirstPositions(names, idx, i + 1)
  {
    assert names[..i + 1][..i] == names[..i];
  }

  /** The index `_case_index` builds agrees with the search FirstMatch runs. */
  lemma CaseIndexIsFirstMatch(names: seq<string>, idx: map<string, nat>)
    requires idx.Keys == Keys(names)
    requires forall k :: k in idx ==> idx[k] < |names| && Key(names[idx[k]]) == k
    requires forall k :: k in idx ==> forall j :: 0 <= j < idx[k] ==> Key(names[j]) != k
    ensures forall k :: k in idx <==> FirstMatch(names, k).Some?
    ensures forall k :: k in idx ==> FirstMatch(names, k) == Some(idx[k])
  {
    forall k | k in idx ensures FirstMatch(names, k) == Some(idx[k]) {
      FirstMatchIs(names, k, idx[k]);
    }
  }
}
