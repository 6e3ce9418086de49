# TabTossBot name lists in Dafny

TabTossBot is a Telegram bot that settles who pays the bill. Each chat keeps a
list of names. `/add` puts names on the list. `/list` (alias `/names`) shows
them numbered from 1. `/remove` takes names off, ignoring case. `/clear`
empties the list. `/toss` picks the person who pays.

This project models the logic behind those commands in `main.py`:

- the whitespace normaliser `_normalize_spaces`;
- the argument parser `_parse_names_args`;
- the case index `_case_index`;
- the list changes each handler makes, including its guards for an empty
  list and for a missing payload.

The Python string built-ins the code relies on are modelled in `pytext.dfy`
(module `PyText`):

- `str.isspace`, with its full table of 29 whitespace characters;
- `strip`, `lstrip` and `rstrip`, both with no argument and with a set of
  characters;
- `split()`, `split(maxsplit=1)`, `split(",")` and `join`.

Casefolding is modelled as ASCII lower-casing (`CaseKeys.Key`).

The commands are modelled by the class `Store.NameList`, a field `names: seq<string>`:

- `Add`, `Remove` and `Clear` are methods that update the field.
- `List` and `Toss` are functions that read it.
- Each method is proved against a specification function: `Adding.AddTokens`
  or `Removing.RemoveTokens`, or a plain state description in the case of
  `Clear`.
- The properties of those functions are proved as lemmas. Each of them is
  related to an independent description:
  - `Picked` for adding: by whether a key is new;
  - `Without` for removing: by which keys are dropped.
- The class invariant `Valid` says two things. Every entry is a name, that
  is, non-empty, normalised and free of commas. And no two entries share a
  case-insensitive key.

Files:

| file | module | models |
|---|---|---|
| pytext.dfy | PyText | the Python `str` operations used |
| spaces.dfy | Spaces | `_normalize_spaces` |
| args.dfy | NameArgs | `_parse_names_args` |
| casekeys.dfy | CaseKeys | `casefold`, the first-match search of `/remove`, `_case_index` |
| adding.dfy | Adding | the `/add` loop as a function, and its properties |
| removing.dfy | Removing | the `/remove` loop as a function, and its properties |
| store.dfy | Store | the per-chat list and the five commands |

Notes on the code as written:

- `main.py:125` has a comment saying `/remove` treats a payload without
  commas as a single name. The code does not do that. It uses the same
  parser as `/add`, which splits such a payload on whitespace. The model
  follows the code: `NameArgs.ParseNoComma` proves that every name parsed
  from such a payload is a single word.
- In `_parse_names_args`, the `.strip(",")` applied to each piece never
  changes anything, because no piece contains a comma. It is modelled anyway:
  `NameArgs.Pieces` states that no piece contains a comma, and
  `NameArgs.CleanIsStrip` proves that cleaning a piece is only `strip()`.
- `/add` normalises each token again, although the parser already
  normalised it (main.py:91). The model keeps that second step, and
  `Spaces.NormalizedFixed` shows it is a no-op.
- `_case_index` is not called anywhere in `main.py`. It is modelled as
  `CaseKeys.CaseIndex`. `/remove` runs its own linear search instead
  (main.py:138). `CaseKeys.CaseIndex` is proved to agree with that search,
  which is modelled as `CaseKeys.FirstMatch`.

## Model

| member | source | states |
|---|---|---|
| PyText.IsSpace | main.py:43-44 | the whitespace of `str.isspace`, shared by `\s`, `split()` and `strip()`: a predicate with no contract of its own; `PyText.OccursIsMembership` proves its table search is membership in the table of 29 characters |
| PyText.LStrip | main.py:51 | the result is no longer than the input, does not begin with a stripped character, and every character removed is one that is stripped |
| PyText.RStrip | main.py:51 | the same at the right end: the result does not end with a stripped character and everything cut off after it was stripped |
| PyText.LStripSuffix | main.py:51 | `lstrip` only removes a prefix: the result is a suffix of the input |
| PyText.RStripPrefix | main.py:51 | `rstrip` only removes a suffix: the result is a prefix of the input |
| PyText.Strip | main.py:51 | `strip` leaves a string that neither starts nor ends with a stripped character and is no longer than its input |
| PyText.StripChars | main.py:54 | stripping introduces no character |
| PyText.StripFixed | main.py:54 | a string whose ends are not stripped characters is left unchanged by `strip` |
| PyText.Word | main.py:56 | the first word is the longest whitespace-free prefix: a space-free prefix followed by whitespace or the end |
| PyText.WordPrefix | main.py:56 | a space-free string followed by whitespace or nothing is the first word |
| PyText.Split | main.py:56 | `split()` yields only non-empty pieces without whitespace |
| PyText.SplitChars | main.py:56 | the words of `split()` hold only characters of the input |
| PyText.SplitTrail | main.py:56 | trailing whitespace does not change `split()` |
| PyText.SplitStrip | main.py:56 | `t.strip().split()` equals `t.split()` |
| PyText.SplitOnce | main.py:48 | `split(maxsplit=1)` gives nothing exactly for an all-whitespace string, a first word without whitespace, and a remainder that starts with a non-space |
| PyText.SplitOnceRest | main.py:48 | the remainder after the first word holds only characters of the input |
| PyText.SplitOnceParts | main.py:48 | `split(maxsplit=1)` returns pieces of the input itself: the input is leading whitespace, the first part and trailing whitespace, or leading whitespace, the first part, at least one whitespace character and the second part; with `SplitOnce`'s own contract this fixes the result for every input |
| PyText.LStripLead | main.py:48 | `lstrip()` removes a whitespace prefix, a non-empty one when the input starts with whitespace |
| PyText.RStripTrail | main.py:51 | `rstrip()` removes a whitespace suffix |
| PyText.StripParts | main.py:51 | `strip()` removes a whitespace run from each end and nothing else |
| PyText.StripEmpty | main.py:51 | `strip()` gives the empty string exactly when the input is all whitespace |
| PyText.SplitOn | main.py:54 | `split(",")` gives at least one piece and no piece holds the separator |
| PyText.JoinOnHead | main.py:54 | text in front of the first piece stays in front of the joined string |
| PyText.JoinOnTail | main.py:54 | text after the last piece stays after the joined string |
| PyText.JoinOnSplitOn | main.py:54 | joining the pieces of `split(sep)` with `sep` gives back the string |
| PyText.SplitOnJoinOn | main.py:54 | splitting separator-free pieces joined by the separator gives back the pieces |
| Spaces.Collapse | main.py:44 | `re.sub(r'\s+', " ", s)` is empty exactly when `s` is, is no longer than `s`, and starts with whitespace exactly when `s` does |
| Spaces.CollapseWords | main.py:44 | `re.sub(r'\s+', " ", s)` is the words of `s.split()` joined by single spaces, with one space in front when `s` starts with whitespace and one behind when it holds a word and ends with whitespace |
| Spaces.CollapseSingleSpaced | main.py:44 | a string whose whitespace is single spaces between non-spaces is left unchanged by the substitution |
| Spaces.CollapseChars | main.py:44 | the substitution introduces no character other than a space |
| Spaces.Normalize | main.py:43-44 | the result has no whitespace at either end, holds no whitespace but single spaces between non-spaces, and is empty exactly when the input is all whitespace |
| Spaces.NormalizeJoinsWords | main.py:43-44 | `_normalize_spaces(s)`, substituting whitespace runs and stripping, equals `" ".join(s.split())`: the words of `s`, in order, separated by single spaces |
| Spaces.NormalizeShape | main.py:43-44 | the words joined by single spaces are normalised and empty exactly for an all-whitespace input |
| Spaces.NormalizeChars | main.py:43-44 | normalising introduces no character other than a space |
| Spaces.NormalizedFixed | main.py:43-44 | a normalised string is its own normal form |
| Spaces.NormalizeIdempotent | main.py:43-44 | normalising twice is normalising once |
| NameArgs.Pieces | main.py:53-56 | the payload is cut on commas when it has one and on whitespace otherwise, and no piece contains a comma |
| NameArgs.CleanEach | main.py:54-56 | the i-th result is `pieces[i].strip().strip(",")`, one per piece, adding no character |
| NameArgs.NonEmpty | main.py:59-60 | the filter keeps only non-empty strings, each one of its input, at most as many as there were, and drops nothing from a list with no empty string |
| NameArgs.NonEmptyKeeps | main.py:59-60 | every non-empty input string is kept, as often as it occurs: the output's multiset is the input's with the empty string removed |
| NameArgs.NonEmptyCounts | main.py:59-60 | the filter's output is, as a multiset, its input without the empty strings |
| NameArgs.NonEmptyConcat | main.py:59-60 | filtering a concatenation concatenates the filtered parts, so the kept strings stay in input order |
| NameArgs.NormalizeEach | main.py:59 | the i-th result is `_normalize_spaces(ts[i])`, one per input string, normalised and with no new character but spaces |
| NameArgs.Tokenize | main.py:52-60 | every token is non-empty, normalised and free of commas |
| NameArgs.ParseNames | main.py:47-60 | every name returned is non-empty, normalised and free of commas |
| NameArgs.NoCommaTokens | main.py:55-56 | without a comma the tokens are exactly the whitespace-separated words of the payload |
| NameArgs.CommaTokens | main.py:53-60 | with a comma in the payload, the names are the comma-separated pieces, each normalised (stripped and with inner whitespace collapsed to single spaces), the blank ones dropped, in order |
| NameArgs.CommaPieces | main.py:54-60 | for comma-free pieces, cleaning, filtering, normalising and filtering again equals normalising and filtering |
| NameArgs.CleanIsStrip | main.py:54-56 | the `.strip(",")` applied to each piece changes nothing: cleaning a piece is `strip()` |
| NameArgs.CleanPiece | main.py:54 | `t.strip().strip(",")` of a comma-free piece is `t.strip()` |
| NameArgs.NormalizeStrip | main.py:43-44 | `_normalize_spaces(t.strip())` equals `_normalize_spaces(t)` |
| NameArgs.ParseNoComma | main.py:47-60 | a message whose stripped payload holds no comma yields only names without whitespace |
| NameArgs.WordsClean | main.py:56 | cleaning comma-free words changes nothing |
| NameArgs.WordsNormal | main.py:59 | normalising words changes nothing |
| NameArgs.NameEnds | main.py:59-60 | a name has no whitespace at either end |
| NameArgs.PaddedHead | main.py:54 | `t.strip().strip(",")` of one piece that is a name with whitespace around it gives the name |
| NameArgs.PaddedClean | main.py:54 | `t.strip().strip(",")` turns each comma-free piece into its name when the piece is that name with whitespace around it |
| NameArgs.JoinedTokens | main.py:53-60 | as the usage line at main.py:83 suggests, two or more comma-free pieces joined by commas, each a name with any whitespace around it, are parsed back into exactly those names, multi-word names included |
| NameArgs.JoinedPieces | main.py:54 | two or more comma-free pieces joined by commas are cut back into those pieces |
| NameArgs.NamesNormal | main.py:59 | normalising names changes nothing |
| NameArgs.ParseCommand | main.py:48-51 | for a command word, a space and a payload, the parser reads the stripped payload |
| NameArgs.SplitOnceCommand | main.py:48 | `split(maxsplit=1)` of a command word, a space and a payload gives the command word and the payload without its leading whitespace |
| NameArgs.NoPayload | main.py:48-50 | a message that is one word with nothing after it yields no names |
| NameArgs.ParseJoined | main.py:47-60 | `/add Name1, Name2, Name3` (the usage line at main.py:83): a command word, a space and two or more names separated by commas, with any whitespace around each name, the outer whitespace included, is parsed into exactly those names |
| NameArgs.TrimPieces | main.py:51 | the joined pieces are whitespace `a`, the join of the trimmed pieces, and whitespace `d`; `strip()` of padded pieces joined by commas is the join of the same pieces with the first one's leading and the last one's trailing whitespace taken off, and those are still padded names |
| NameArgs.TrimmedPadded | main.py:51-54 | taking the leading whitespace off the first piece and the trailing whitespace off the last keeps every piece a padded name |
| NameArgs.TrimmedJoin | main.py:51-54 | the joined pieces are the outer whitespace around the join of the trimmed pieces |
| NameArgs.JoinEnds | main.py:51 | the join of the trimmed pieces starts with the first name and ends with the last, so with a non-space at both ends |
| NameArgs.TrimmedStripped | main.py:51 | `strip()` of whitespace, a string with non-space ends, and whitespace gives that string |
| NameArgs.PadHead | main.py:54 | the first piece without its leading whitespace has no comma and strips to its name |
| NameArgs.PadLast | main.py:54 | the last piece without its trailing whitespace has no comma and strips to its name |
| NameArgs.JoinOnWrap | main.py:54 | text in front of the first piece and after the last stays outside the join |
| CaseKeys.Key | main.py:37 | the key of a name has the name's length |
| CaseKeys.KeyIdempotent | main.py:37 | folding a key again changes nothing |
| CaseKeys.KeyIgnoresCase | main.py:37 | names that differ only in letter case share a key |
| CaseKeys.Keys | main.py:87 | `{n.casefold() for n in names}`, built name by name: a function with no contract of its own; `CaseKeys.KeysIndex` and `CaseKeys.KeysConcat` state what it holds |
| CaseKeys.KeysIndex | main.py:87 | `{n.casefold() for n in names}` holds the key of every name and nothing else |
| CaseKeys.KeysConcat | main.py:99 | the keys of a concatenation are the union of the keys of its parts |
| CaseKeys.FirstMatch | main.py:138 | the search finds a position holding the key with no earlier one, and finds nothing exactly when no name has the key |
| CaseKeys.FirstMatchIs | main.py:138 | the first position holding the key is the one found |
| CaseKeys.CaseIndex | main.py:34-40 | the map's keys are exactly the keys of the names, each mapped to the smallest position holding it, every position below the length |
| CaseKeys.CaseIndexIsFirstMatch | main.py:34-40 | the index agrees with the first-match search for every key |
| Adding.AddTokens | main.py:87-100 | the `/add` loop as a function over the tokens, with no contract of its own; `Adding.AddTokensPicks`, `Adding.PickedCount`, `Adding.PickedMultiset`, `Adding.AddKeepsDistinct` and the other `Adding` lemmas below state its properties |
| Adding.AddTokensPicks | main.py:87-100 | `/add` appends exactly the tokens whose key is neither stored nor that of an earlier token, skips exactly the others, both in input order; the stored keys become the old ones plus those of all tokens |
| Adding.PickedCount | main.py:90-100 | every token lands in added or skipped: the two counts add up to the number of tokens |
| Adding.PickedMultiset | main.py:90-100 | added and skipped together are the tokens, each exactly once |
| Adding.AddKeepsDistinct | main.py:94-100 | if no two stored names share a key, none do after `/add` |
| Adding.AddedFromTokens | main.py:98-100 | every name appended is one of the tokens given |
| Adding.AddedAreNames | main.py:98-100 | after `/add` every entry is still a name |
| Adding.PickedNoneFresh | main.py:95-96 | tokens whose keys are all stored are all skipped |
| Adding.AddTwice | main.py:87-100 | repeating an `/add` appends nothing and skips every token |
| Adding.KeysAppend | main.py:98-99 | appending a name adds its key to the set of keys |
| Removing.RemoveTokens | main.py:136-142 | the `/remove` loop as a function over the tokens, with no contract of its own; `Removing.RemoveIsWithout`, `Removing.RemoveCounts`, `Removing.RemoveMultiset`, `Removing.RemoveReports` and the other `Removing` lemmas below state its properties |
| Removing.Pop | main.py:140 | `names.pop(i)` keeps every name before `i` and shifts every name after it down by one |
| Removing.WithoutMembers | main.py:136-142 | the reference list keeps exactly the names whose key is not dropped |
| Removing.PopIsWithout | main.py:138-140 | in a list with distinct keys, popping the first match of a key is dropping that key |
| Removing.RemoveIsWithout | main.py:136-142 | on a list with distinct keys, `/remove` leaves exactly the names whose key no token has, in their stored order |
| Removing.RemoveKeys | main.py:136-142 | the keys left are the old keys less those of the tokens |
| Removing.RemoveKeepsNames | main.py:136-142 | after `/remove` every entry is still a name and no two share a key |
| Removing.RemoveCounts | main.py:136-142 | removed plus missing is the number of tokens, and the new length is the old length less the number removed |
| Removing.RemoveMultiset | main.py:140 | each name removed is a stored name in its stored spelling: the removed names and those left are exactly the old names, as a multiset |
| Removing.RemoveReports | main.py:136-142 | every name removed has the key of some token, and every name reported missing is a token |
| Removing.RemoveRepeated | main.py:138-142 | a token whose key an earlier token already matched is reported missing |
| Removing.RemoveNothing | main.py:136-142 | tokens with no stored key change nothing and are all reported missing |
| Removing.RemoveTwice | main.py:136-142 | repeating a `/remove` removes nothing more |
| Removing.AddThenRemove | main.py:87-142 | removing the names an `/add` was given leaves the old list less the names that already had those keys |
| Removing.AddThenRemoveNew | main.py:87-142 | an `/add` of names new to the list is undone exactly by removing them |
| Store.Numbered | main.py:116 | the listing has one line per name, the i-th name numbered i+1 |
| Store.EntryNamesOf | main.py:116 | reading the names off the listing gives the list back, in order |
| Store.FindFirst | main.py:138 | the linear search returns the first position holding the key, or nothing |
| Store.NameList.constructor | main.py:30-31 | a chat with no list starts with an empty one |
| Store.NameList.Add | main.py:78-109 | no names parsed: usage reply, list unchanged; otherwise the list becomes the old list followed by exactly the added names; the reply carries added, skipped and the new total; the invariant is kept |
| Store.NameList.AddEach | main.py:87-100 | the loop appends what `AddTokens` adds and reports its added and skipped names |
| Store.NameList.List | main.py:111-117 | empty list: the empty reply; otherwise one line per name in stored order, numbered from 1 |
| Store.NameList.Remove | main.py:119-150 | empty list: nothing-to-remove reply before parsing; no names parsed: usage reply; otherwise the list becomes what `RemoveTokens` leaves; the reply is the removed and missing names with the new total when something was removed, and no-match otherwise; removed plus missing is the number of parsed names, the total is the old length less the number removed, and every removed name is an old stored name; the invariant is kept |
| Store.NameList.RemoveEach | main.py:133-142 | the loop leaves the list, removed and missing names that `RemoveTokens` describes |
| Store.NameList.Clear | main.py:152-159 | empty list: already-empty reply; otherwise it reports the old count; either way the list ends empty |
| Store.NameList.Toss | main.py:162-172 | empty list: the no-names reply; otherwise the payer is a name of the list |
| Store.NameList.TossReaches | main.py:170 | every name of the list is the payer for some draw |
| Store.NameList.TossDistinct | main.py:170 | different draws give different payers, so a uniform draw is fair to every name |

## Left out

- Telegram plumbing is not modelled: `Update`, `reply_text`, `Application`,
  handler registration and polling (main.py:64-76, 176-206). The commands
  return structured reply values instead of sending text.
- `/start` and `/help` only send fixed text, so they are not modelled.
- `async`/`await` is not modelled: the handlers have no concurrency logic.
- Storage is not modelled: the pickle file (main.py:179-186) and loading the
  token from `.env` (main.py:21-28). These are external I/O.
- response.py is not part of this model. It reads reply templates from a JSON
  file and fills a random one with the payer's name. That is I/O and
  randomness.
- The exact reply texts are not modelled. Each reply is a datatype value
  holding the names and counts it would print.
- Store.NameList.Toss: `choice(names)` is replaced by the position `pick` it
  would draw. The model does not cover the randomness, only which names can
  be drawn.
- CaseKeys.Key: this is a weaker stand-in for `str.casefold`. It folds only
  the ASCII letters A-Z. Unicode case folding, for example of `ß` or Greek
  letters, is not modelled.
- PyText.IsSpace: this follows the table of characters `str.isspace` accepts.
  The `\s` class of `re` and `split()`/`strip()` use that same table for
  `str` patterns. Unicode normalisation is not modelled.
- Store.NameList: the model treats the list as owned by one chat object. The
  shared list that `setdefault` hands to every handler, which is the same
  Python object, is this field.
