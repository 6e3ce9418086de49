/** The name list of one chat (`context.chat_data["names"]`, main.py:30-31)
    and the five commands that read or change it. */
module Store {
  import opened PyText
  import opened Spaces
  import opened NameArgs
  import opened CaseKeys
  import opened Adding
  import opened Removing

  /** The reply of /add. */
  datatype AddOutcome =
    | AddUsage                                                  // main.py:81-85
    | Added(added: seq<string>, skipped: seq<string>, total: nat)  // main.py:102-109

  /** The reply of /remove. */
  datatype RemoveOutcome =
    | NothingToRemove                                           // main.py:121-123
    | RemoveUsage                                               // main.py:127-131
    | Removed(removed: seq<string>, missing: seq<string>, total: nat)  // main.py:144-148
    | NoMatch                                                   // main.py:149-150

  /** The reply of /clear. */
  datatype ClearOutcome = AlreadyEmpty | Cleared(count: nat)

  /** One line of /list: a position counted from 1 and the name there. */
  datatype Entry = Entry(number: nat, name: string)

  /** The reply of /list. */
  datatype Listing = EmptyList | Lines(entries: seq<Entry>)

  /** The reply of /toss. */
  datatype TossOutcome = NoNames | Pays(name: string)

  /** `enumerate(names)` counted from 1 (main.py:116). */
  function Numbered(names: seq<string>): (r: seq<Entry>)
    ensures |r| == |names|
    ensures forall i :: 0 <= i < |r| ==> r[i].number == i + 1 && r[i].name == names[i]
  {
    seq(|names|, i requires 0 <= i < |names| => Entry(i + 1, names[i]))
  }

  /** The names of a listing, in its order. */
  function EntryNames(entries: seq<Entry>): (r: seq<string>)
    ensures |r| == |entries|
  {
    if entries == [] then [] else [entries[0].name] + EntryNames(entries[1..])
  }

  /** Reading the names off entries that carry `names` in order gives back
      `names`. */
  lemma {:induction false} EntryNamesOf(entries: seq<Entry>, names: seq<string>)
    requires |entries| == |names|
    requires forall i :: 0 <= i < |entries| ==> entries[i].name == names[i]
    ensures EntryNames(entries) == names
    decreases |names|
  {
    if names != [] {
      EntryNamesOf(entries[1..], names[1..]);
      assert names == [names[0]] + names[1..];
    }
  }

  /** `next((i for i, val in enumerate(names) if val.casefold() == key),
      None)`: the first position of a key, scanning from the front
      (main.py:138). */
  method FindFirst(names: seq<string>, key: string) returns (found: Option<nat>)
    ensures found == FirstMatch(names, key)
  {
    var i := 0;
    while i < |names|
      invariant i <= |names|
      invariant forall j :: 0 <= j < i ==> Key(names[j]) != key
    {
      if Key(names[i]) == key {
        FirstMatchIs(names, key, i);
        return Some(i);
      }
      i := i + 1;
    }
    KeysIndex(names);
    return None;
  }

  /** Appending to a concatenation appends to its second part. A separate
      lemma so that the loop of AddEach does not have to prove this
      sequence equality with its whole invariant in scope. */
  lemma AppendAssoc(a: seq<string>, b: seq<string>, x: string)
    ensures (a + b) + [x] == a + (b + [x])
  {
  }

  class NameList {
    /** The names of the chat, in the order they were added. */
    var names: seq<string>

    /** What every command keeps: the entries are names (non-empty,
        normalised, comma-free) and no two of them share a key. */
    ghost predicate Valid()
      reads this
    {
      DistinctKeys(names) && AllNames(names)
    }

    /** A chat that has no list yet gets an empty one (`setdefault`,
        main.py:31). */
    constructor()
      ensures Valid() && names == []
    {
      names := [];
    }

    /** /add (main.py:78-109). */
    method Add(text: string) returns (out: AddOutcome)
      requires Valid()
      modifies this
      ensures Valid()
      ensures var tokens := ParseNames(text);
        var r := AddTokens(old(names), tokens);
        if tokens == [] then out == AddUsage && names == old(names)
        else names == old(names) + r.added && out == Added(r.added, r.skipped, |names|)
    {
      var tokens := ParseNames(text);
      if tokens == [] {
        return AddUsage;
      }
      ghost var start := names;
      var added, skipped := AddEach(tokens);
      AddKeepsDistinct(start, tokens);
      AddedAreNames(start, tokens);
      out := Added(added, skipped, |names|);
    }

    /** The loop of /add over the parsed names (main.py:87-100): appends
        every new name and reports what it appended and what it skipped. */
    method AddEach(tokens: seq<string>) returns (added: seq<string>, skipped: seq<string>)
      modifies this
      ensures names == old(names) + added
      ensures AddTokens(old(names), tokens) == AddResult(added, skipped)
    {
      ghost var start := names;
      var existing := Keys(names);
      added, skipped := [], [];
      assert start + added == start;
      for i := 0 to |tokens|
        invariant names == start + added
        invariant existing == Keys(names)
        invariant AddTokens(start, tokens[..i]) == AddResult(added, skipped)
      {
        AddTokensNext(start, tokens, i);
        var name := Normalize(tokens[i]);
        if name == [] {
          continue;
        }
        var key := Key(name);
        if key in existing {
          skipped := skipped + [name];
        } else {
          KeysAppend(names, name);
          AppendAssoc(start, added, name);
          names := names + [name];
          existing := existing + {key};
          added := added + [name];
        }
      }
      assert tokens[..|tokens|] == tokens;
    }

    /** /list and its alias /names (main.py:111-117). */
    function List(): (r: Listing)
      reads this
      ensures r == EmptyList <==> names == []
      ensures r.Lines? ==> EntryNames(r.entries) == names
      ensures r.Lines? ==> forall i :: 0 <= i < |r.entries| ==> r.entries[i].number == i + 1
    {
      EntryNamesOf(Numbered(names), names);
      if names == [] then EmptyList else Lines(Numbered(names))
    }

    /** /remove (main.py:119-150). */
    method Remove(text: string) returns (out: RemoveOutcome)
      requires Valid()
      modifies this
      ensures Valid()
      ensures old(names) == [] ==> out == NothingToRemove && names == old(names)
      ensures old(names) != [] && ParseNames(text) == [] ==> out == RemoveUsage && names == old(names)
      ensures old(names) != [] && ParseNames(text) != [] ==>
        var r := RemoveTokens(old(names), ParseNames(text));
        names == r.rest && out == if r.removed != [] then Removed(r.removed, r.missing, |names|) else NoMatch
      ensures out.Removed? ==> |out.removed| + |out.missing| == |ParseNames(text)|
      ensures out.Removed? ==> out.total == |old(names)| - |out.removed|
      ensures out.Removed? ==> forall j :: 0 <= j < |out.removed| ==> out.removed[j] in old(names)
    {
      if names == [] {
        return NothingToRemove;
      }
      var tokens := ParseNames(text);
      if tokens == [] {
        return RemoveUsage;
      }
      ghost var start := names;
      var removed, missing := RemoveEach(tokens);
      RemoveKeepsNames(start, tokens);
      RemoveCounts(start, tokens);
      RemoveMultiset(start, tokens);
      if removed != [] {
        out := Removed(removed, missing, |names|);
      } else {
        out := NoMatch;
      }
    }

    /** The loop of /remove over the parsed names (main.py:133-142): takes
        out the first name matching each token and reports what it took out
        and which tokens matched nothing. */
    method RemoveEach(tokens: seq<string>) returns (removed: seq<string>, missing: seq<string>)
      modifies this
      ensures RemoveTokens(old(names), tokens) == RemoveResult(names, removed, missing)
    {
      ghost var start := names;
      removed, missing := [], [];
      for i := 0 to |tokens|
        invariant RemoveTokens(start, tokens[..i]) == RemoveResult(names, removed, missing)
      {
        RemoveTokensNext(start, tokens, i);
        var found := FindFirst(names, Key(tokens[i]));
        match found
        case Some(j) =>
          removed := removed + [names[j]];
          names := Pop(names, j);
        case None =>
          missing := missing + [tokens[i]];
      }
      assert tokens[..|tokens|] == tokens;
    }

    /** /clear (main.py:152-159). */
    method Clear() returns (out: ClearOutcome)
      modifies this
      ensures Valid() && names == []
      ensures out == if old(names) == [] then AlreadyEmpty else Cleared(|old(names)|)
    {
      if names == [] {
        return AlreadyEmpty;
      }
      var count := |names|;
      names := [];
      out := Cleared(count);
    }

    /** /toss (main.py:162-172) with the random `choice` replaced by the
        position `pick` it would draw. */
    function Toss(pick: nat): (r: TossOutcome)
      reads this
      requires names != [] ==> pick < |names|
      ensures r == NoNames <==> names == []
      ensures r.Pays? ==> r.name in names
    {
      if names == [] then NoNames else Pays(names[pick])
    }

    /** Every name of the list can be the one who pays. */
    lemma TossReaches(n: string)
      requires n in names
      ensures exists pick: nat :: pick < |names| && Toss(pick) == Pays(n)
    {
      var pick :| 0 <= pick < |names| && names[pick] == n;
      assert Toss(pick) == Pays(n);
    }

    /** Different draws name different people: the list holds no name twice,
        so a uniform draw of a position is a uniform draw of a payer. */
    lemma TossDistinct(p: nat, q: nat)
      requires Valid()
      requires p < |names| && q < |names| && p != q
      ensures Toss(p) != Toss(q)
    {
      if p < q {
        assert Key(names[p]) != Key(names[q]);
      } else {
        assert Key(names[q]) != Key(names[p]);
      }
    }
  }
}
