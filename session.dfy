/** The rules of vault/manager.py once the prompts are stripped away: how a credential is
    picked from the numbered list, how the key/value prompts build an entries dict, and how
    do_update merges the typed answers into the old entries. Typed input is a sequence of
    lines; a reader returns what it built and the lines it did not consume, and input()
    at the end of the lines raises EOFError. */
module Session {
  import opened Outcomes
  import opened PyStr
  import opened PyDict
  import opened CredentialStore
  import UI

  /** Python's s[k] for -|s| <= k < |s|: a negative index counts from the end. */
  function PyIndex<T>(s: seq<T>, k: int): T
    requires -|s| <= k < |s|
  {
    if k < 0 then s[|s| + k] else s[k]
  }

  /** pick_credential as written: None for an empty table, a choice that is not a number
      (None here) or a choice outside 0..n; otherwise credentials[choice - 1]. */
  function PickCredential(credentials: seq<Fetched>, choice: Option<int>): (r: Option<Fetched>)
    ensures r.Some? <==> credentials != [] && choice.Some? && 0 <= choice.value <= |credentials|
    ensures r.Some? ==> r.value in credentials
  {
    if credentials == [] || choice.None? then None
    else if choice.value < 0 || choice.value > |credentials| then None
    else Some(PyIndex(credentials, choice.value - 1))
  }

  /** The choices 1..n pick the rows in the order they were listed. */
  lemma PickInRange(credentials: seq<Fetched>, choice: int)
    requires 1 <= choice <= |credentials|
    ensures PickCredential(credentials, Some(choice)) == Some(credentials[choice - 1])
  {
  }

  /** An empty table, a non-number and a choice below 0 or above n pick nothing. */
  lemma PickRejects(credentials: seq<Fetched>, choice: Option<int>)
    requires credentials == [] || choice.None? || choice.value < 0 || choice.value > |credentials|
    ensures PickCredential(credentials, choice) == None
  {
  }

  /** The off-by-one: the range check lets 0 through, and credentials[-1] is the last row. */
  lemma PickZeroIsLast(credentials: seq<Fetched>)
    requires credentials != []
    ensures PickCredential(credentials, Some(0)) == Some(credentials[|credentials| - 1])
  {
  }

  /** pick_credential with the range check the prompt "Choose from [1-n]" announces. */
  function PickCredentialFixed(credentials: seq<Fetched>, choice: Option<int>): (r: Option<Fetched>)
    ensures r.Some? <==> choice.Some? && 1 <= choice.value <= |credentials|
    ensures r.Some? ==> r.value == credentials[choice.value - 1]
  {
    if credentials == [] || choice.None? then None
    else if choice.value < 1 || choice.value > |credentials| then None
    else Some(credentials[choice.value - 1])
  }

  /** The fixed pick agrees with the original everywhere except at 0. */
  lemma PickFixedAgrees(credentials: seq<Fetched>, choice: Option<int>)
    requires choice != Some(0)
    ensures PickCredentialFixed(credentials, choice) == PickCredential(credentials, choice)
  {
  }

  /** The listed position pick_credential returns, as the commands index it: choice - 1,
      which for the choice 0 is Python's index -1, the last row. */
  function PickedIndex(credentials: seq<Fetched>, choice: Option<int>): (r: Option<nat>)
    ensures r.Some? <==> PickCredential(credentials, choice).Some?
    ensures r.Some? ==> r.value < |credentials| && PickCredential(credentials, choice) == Some(credentials[r.value])
    ensures r.Some? ==> choice == Some(r.value + 1) || (choice == Some(0) && r.value == |credentials| - 1)
  {
    if PickCredential(credentials, choice).None? then None
    else if choice.value == 0 then Some(|credentials| - 1)
    else Some(choice.value - 1)
  }

  /** rest is what is left of inputs after some lines were read. */
  predicate IsTail(rest: seq<string>, inputs: seq<string>)
  {
    |rest| <= |inputs| && rest == inputs[|inputs| - |rest|..]
  }

  /** rest is what is left of inputs after at least one line was read. */
  predicate Consumed(inputs: seq<string>, rest: seq<string>)
  {
    |rest| < |inputs| && IsTail(rest, inputs)
  }

  /** What is left after reading on from line k of inputs is left of inputs. */
  lemma TailOfDrop(inputs: seq<string>, k: nat, rest: seq<string>)
    requires k <= |inputs| && IsTail(rest, inputs[k..])
    ensures IsTail(rest, inputs)
  {
    assert inputs[k..][|inputs| - k - |rest|..] == inputs[|inputs| - |rest|..];
  }

  /** big starts with small. */
  predicate Extends(big: Entries, small: Entries)
  {
    |small| <= |big| && forall i :: 0 <= i < |small| ==> big[i] == small[i]
  }

  /** The "Key: " / "Value: " loop of do_add and do_update, from the dict built so far: an
      empty key ends it once there is a pair, a key already present is refused and asked
      again, an empty key with no pair yet is asked again, any other key takes the next line
      as its value. */
  function CollectEntries(entries: Entries, inputs: seq<string>): (r: Result<(Entries, seq<string>)>)
    ensures r.Err? ==> r.error == EOFError
    ensures r.Ok? ==> |r.value.1| < |inputs|
    decreases |inputs|
  {
    if inputs == [] then Err(EOFError)
    else
      var key := inputs[0];
      if key == "" && |entries| > 0 then Ok((entries, inputs[1..]))
      else if HasKey(entries, key) || key == "" then CollectEntries(entries, inputs[1..])
      else if |inputs| < 2 then Err(EOFError)
      else CollectEntries(Put(entries, key, inputs[1]), inputs[2..])
  }

  /** The loop reads its lines from the front: what it leaves is the rest of the input. */
  lemma {:induction false} CollectEntriesConsumes(entries: Entries, inputs: seq<string>)
    requires CollectEntries(entries, inputs).Ok?
    ensures Consumed(inputs, CollectEntries(entries, inputs).value.1)
    decreases |inputs|
  {
    var key := inputs[0];
    if key == "" && |entries| > 0 {
    } else if HasKey(entries, key) || key == "" {
      CollectEntriesConsumes(entries, inputs[1..]);
      TailOfDrop(inputs, 1, CollectEntries(entries, inputs).value.1);
    } else {
      CollectEntriesConsumes(Put(entries, key, inputs[1]), inputs[2..]);
      TailOfDrop(inputs, 2, CollectEntries(entries, inputs).value.1);
    }
  }

  /** The loop yields at least one pair, keeps the pairs it started with, and adds only
      pairs with non-empty keys. */
  lemma {:induction false} CollectEntriesGrows(entries: Entries, inputs: seq<string>)
    requires CollectEntries(entries, inputs).Ok?
    ensures
      var collected := CollectEntries(entries, inputs).value.0;
      && |collected| >= 1 && Extends(collected, entries)
      && forall i :: |entries| <= i < |collected| ==> collected[i].0 != ""
    decreases |inputs|
  {
    var key := inputs[0];
    if key == "" && |entries| > 0 {
    } else if HasKey(entries, key) || key == "" {
      CollectEntriesGrows(entries, inputs[1..]);
    } else {
      var grown := Put(entries, key, inputs[1]);
      assert grown == entries + [(key, inputs[1])];
      CollectEntriesGrows(grown, inputs[2..]);
    }
  }

  /** The loop as the source runs it. */
  method ReadEntries(entries: Entries, inputs: seq<string>) returns (r: Result<(Entries, seq<string>)>)
    ensures r == CollectEntries(entries, inputs)
  {
    var current, lines := entries, inputs;
    while true
      invariant CollectEntries(current, lines) == CollectEntries(entries, inputs)
      decreases |lines|
    {
      if lines == [] {
        return Err(EOFError);
      }
      var key := lines[0];
      lines := lines[1..];
      if key == "" && |current| > 0 {
        return Ok((current, lines));
      }
      if HasKey(current, key) {
        continue;            // "'key' was already used"
      }
      if key == "" && |current| == 0 {
        continue;            // "Must add atleast 1 key-value pair"
      }
      if lines == [] {
        return Err(EOFError);
      }
      var value := lines[0];
      lines := lines[1..];
      current := Put(current, key, value);
    }
  }

  /** A key that is already present is refused: its value is not asked for and the dict
      is unchanged; the next line is read as a key again. */
  lemma RepeatedKeyRefused(entries: Entries, inputs: seq<string>)
    requires inputs != [] && inputs[0] != "" && HasKey(entries, inputs[0])
    ensures CollectEntries(entries, inputs) == CollectEntries(entries, inputs[1..])
  {
  }

  /** The key to keep for an old entry: the stripped answer, or the old key when blank. */
  function KeepOr(answer: string, prior: string): string
  {
    if Strip(answer) != "" then Strip(answer) else prior
  }

  /** `new_key or key` and `new_value or value`: a blank answer keeps the old part, any other
      gives its stripped text, which is never empty. */
  lemma KeepOrKeeps(answer: string, prior: string)
    ensures Blank(answer) ==> KeepOr(answer, prior) == prior
    ensures !Blank(answer) ==> KeepOr(answer, prior) == Strip(answer) && Strip(answer) != ""
  {
    StripShape(answer);
  }

  /** do_update's loop over the old items(): a key answer of "del" drops the entry and asks
      no value; otherwise a blank key answer keeps the old key and a blank value answer the
      old value, and the pair is assigned into the new dict. */
  function Merge(prior: Entries, acc: Entries, inputs: seq<string>): (r: Result<(Entries, seq<string>)>)
    ensures r.Err? ==> r.error == EOFError
    ensures r.Ok? ==> |r.value.1| <= |inputs|
    decreases |prior|
  {
    if prior == [] then Ok((acc, inputs))
    else if inputs == [] then Err(EOFError)
    else if Strip(inputs[0]) == "del" then Merge(prior[1..], acc, inputs[1..])
    else if |inputs| < 2 then Err(EOFError)
    else Merge(prior[1..], Put(acc, KeepOr(inputs[0], prior[0].0), KeepOr(inputs[1], prior[0].1)), inputs[2..])
  }

  /** The merge reads its lines from the front: what it leaves is the rest of the input. */
  lemma {:induction false} MergeConsumes(prior: Entries, acc: Entries, inputs: seq<string>)
    requires Merge(prior, acc, inputs).Ok?
    ensures IsTail(Merge(prior, acc, inputs).value.1, inputs)
    decreases |prior|
  {
    if prior != [] {
      var rest := Merge(prior, acc, inputs).value.1;
      if Strip(inputs[0]) == "del" {
        MergeConsumes(prior[1..], acc, inputs[1..]);
        TailOfDrop(inputs, 1, rest);
      } else {
        MergeConsumes(prior[1..], Put(acc, KeepOr(inputs[0], prior[0].0), KeepOr(inputs[1], prior[0].1)), inputs[2..]);
        TailOfDrop(inputs, 2, rest);
      }
    }
  }

  /** The merge never yields more entries than it started with plus the old ones. */
  lemma {:induction false} MergeSize(prior: Entries, acc: Entries, inputs: seq<string>)
    requires Merge(prior, acc, inputs).Ok?
    ensures |Merge(prior, acc, inputs).value.0| <= |acc| + |prior|
    decreases |prior|
  {
    if prior != [] {
      if Strip(inputs[0]) == "del" {
        MergeSize(prior[1..], acc, inputs[1..]);
      } else {
        MergeSize(prior[1..], Put(acc, KeepOr(inputs[0], prior[0].0), KeepOr(inputs[1], prior[0].1)), inputs[2..]);
      }
    }
  }

  method MergeEntries(prior: Entries, inputs: seq<string>) returns (r: Result<(Entries, seq<string>)>)
    ensures r == Merge(prior, [], inputs)
  {
    var merged: Entries := [];
    var lines := inputs;
    var i := 0;
    while i < |prior|
      invariant i <= |prior|
      invariant Merge(prior[i..], merged, lines) == Merge(prior, [], inputs)
    {
      var (key, value) := prior[i];
      if lines == [] {
        return Err(EOFError);
      }
      var newKey := Strip(lines[0]);
      lines := lines[1..];
      if newKey == "del" {
        assert prior[i..][1..] == prior[i + 1..];
        i := i + 1;
        continue;
      }
      if lines == [] {
        return Err(EOFError);
      }
      var newValue := Strip(lines[0]);
      lines := lines[1..];
      assert prior[i..][1..] == prior[i + 1..];
      merged := Put(merged, if newKey != "" then newKey else key, if newValue != "" then newValue else value);
      i := i + 1;
    }
    assert prior[i..] == [];
    r := Ok((merged, lines));
  }

  /** Leaving every key and value prompt blank keeps the entries as they were: each old entry
      is assigned after those already kept, and two lines are read per entry. */
  lemma {:induction false} MergeBlankKeepsAll(prior: Entries, acc: Entries, inputs: seq<string>)
    requires UniqueKeys(acc + prior) && |inputs| >= 2 * |prior|
    requires forall i :: 0 <= i < 2 * |prior| ==> Blank(inputs[i])
    ensures Merge(prior, acc, inputs) == Ok((acc + prior, inputs[2 * |prior|..]))
    decreases |prior|
  {
    if prior == [] {
      assert acc + prior == acc;
    } else {
      var all := acc + prior;
      assert forall i :: 0 <= i < |acc| ==> acc[i].0 == all[i].0 != all[|acc|].0 == prior[0].0;
      var grown := Put(acc, prior[0].0, prior[0].1);
      assert grown == acc + [prior[0]];
      assert grown + prior[1..] == all;
      var rest := inputs[2..];
      forall i | 0 <= i < 2 * |prior[1..]|
        ensures Blank(rest[i])
      {
        assert rest[i] == inputs[i + 2];
      }
      assert rest[2 * |prior[1..]|..] == inputs[2 * |prior|..];
      MergeBlankUnfold(prior, acc, inputs);
      MergeBlankKeepsAll(prior[1..], grown, rest);
    }
  }

  /** Two blank answers assign the first old entry as it was. */
  lemma MergeBlankUnfold(prior: Entries, acc: Entries, inputs: seq<string>)
    requires prior != [] && |inputs| >= 2 && Blank(inputs[0]) && Blank(inputs[1])
    ensures Merge(prior, acc, inputs) == Merge(prior[1..], Put(acc, prior[0].0, prior[0].1), inputs[2..])
  {
    StripShape(inputs[0]);
    StripShape(inputs[1]);
  }

  /** Answering "del" to every key prompt drops every entry. */
  lemma {:induction false} MergeDelDropsAll(prior: Entries, acc: Entries, inputs: seq<string>)
    requires |inputs| >= |prior| && forall i :: 0 <= i < |prior| ==> Strip(inputs[i]) == "del"
    ensures Merge(prior, acc, inputs) == Ok((acc, inputs[|prior|..]))
    decreases |prior|
  {
    if prior != [] {
      MergeDelDropsAll(prior[1..], acc, inputs[1..]);
      assert inputs[1..][|prior| - 1..] == inputs[|prior|..];
    }
  }

  /** The answers typed for one old entry of do_update: the key answer and, unless the key
      answer is "del", the value answer. */
  datatype Answer = Answer(key: string, value: string)

  predicate Drops(a: Answer)
  {
    Strip(a.key) == "del"
  }

  /** The lines typed for a sequence of answers, one entry after the other. */
  function Lines(answers: seq<Answer>): seq<string>
  {
    if answers == [] then []
    else (if Drops(answers[0]) then [answers[0].key] else [answers[0].key, answers[0].value]) + Lines(answers[1..])
  }

  /** The pairs do_update's loop assigns into the new dict, in order: every old entry that
      is not dropped, its key and its value each replaced by the answer unless that is blank. */
  function Revised(prior: seq<Pair>, answers: seq<Answer>): seq<Pair>
    requires |answers| == |prior|
  {
    if prior == [] then []
    else if Drops(answers[0]) then Revised(prior[1..], answers[1..])
    else [(KeepOr(answers[0].key, prior[0].0), KeepOr(answers[0].value, prior[0].1))] + Revised(prior[1..], answers[1..])
  }

  /** The pairs assigned one after the other, `e[k] = v`. */
  function PutAll(acc: Entries, pairs: seq<Pair>): Entries
    decreases |pairs|
  {
    if pairs == [] then acc else PutAll(Put(acc, pairs[0].0, pairs[0].1), pairs[1..])
  }

  /** The merge assigns the revised pairs in order and reads exactly the answers' lines. */
  lemma {:induction false} MergeAssigns(prior: Entries, acc: Entries, answers: seq<Answer>, rest: seq<string>)
    requires |answers| == |prior|
    ensures Merge(prior, acc, Lines(answers) + rest) == Ok((PutAll(acc, Revised(prior, answers)), rest))
  {
    if prior == [] {
      assert Lines(answers) + rest == rest;
    } else {
      var a := answers[0];
      var inputs := Lines(answers) + rest;
      var tail := Lines(answers[1..]) + rest;
      if Drops(a) {
        assert inputs[0] == a.key && inputs[1..] == tail;
        MergeAssigns(prior[1..], acc, answers[1..], rest);
      } else {
        assert inputs[0] == a.key && inputs[1] == a.value && inputs[2..] == tail;
        var pair := (KeepOr(a.key, prior[0].0), KeepOr(a.value, prior[0].1));
        MergeAssigns(prior[1..], Put(acc, pair.0, pair.1), answers[1..], rest);
        assert ([pair] + Revised(prior[1..], answers[1..]))[1..] == Revised(prior[1..], answers[1..]);
      }
    }
  }

  /** Assigning pairs whose keys are all different, and none of them present, appends them. */
  lemma {:induction false} PutAllFresh(acc: Entries, pairs: seq<Pair>)
    requires UniqueKeys(acc + pairs)
    ensures PutAll(acc, pairs) == acc + pairs
    decreases |pairs|
  {
    if pairs != [] {
      var all := acc + pairs;
      assert forall i :: 0 <= i < |acc| ==> acc[i].0 == all[i].0 != all[|acc|].0 == pairs[0].0;
      var grown := Put(acc, pairs[0].0, pairs[0].1);
      assert grown == acc + [pairs[0]];
      assert grown + pairs[1..] == all;
      PutAllFresh(grown, pairs[1..]);
    }
  }

  /** With no "del", each old entry gives one revised pair in its place. */
  lemma {:induction false} RevisedKeepsAll(prior: seq<Pair>, answers: seq<Answer>)
    requires |answers| == |prior| && forall i :: 0 <= i < |answers| ==> !Drops(answers[i])
    ensures |Revised(prior, answers)| == |prior|
    ensures forall i :: 0 <= i < |prior| ==>
      Revised(prior, answers)[i] == (KeepOr(answers[i].key, prior[i].0), KeepOr(answers[i].value, prior[i].1))
  {
    if prior != [] {
      assert !Drops(answers[0]);
      forall i | 0 <= i < |answers| - 1 ensures !Drops(answers[1..][i]) {
        assert answers[1..][i] == answers[i + 1];
      }
      RevisedKeepsAll(prior[1..], answers[1..]);
    }
  }

  /** Without "del", when the keys the answers leave are all different, entry i of the new
      dict is old entry i with its key and its value each replaced by a non-blank answer:
      a blank key keeps the old key, a blank value the old value, under either key. */
  lemma MergeRevises(prior: Entries, answers: seq<Answer>, rest: seq<string>)
    requires |answers| == |prior| && forall i :: 0 <= i < |answers| ==> !Drops(answers[i])
    requires forall i, j :: 0 <= i < j < |prior| ==> KeepOr(answers[i].key, prior[i].0) != KeepOr(answers[j].key, prior[j].0)
    ensures Merge(prior, [], Lines(answers) + rest).Ok?
    ensures
      var (merged, left) := Merge(prior, [], Lines(answers) + rest).value;
      && left == rest && |merged| == |prior|
      && forall i :: 0 <= i < |prior| ==>
        merged[i] == (KeepOr(answers[i].key, prior[i].0), KeepOr(answers[i].value, prior[i].1))
  {
    var revised := Revised(prior, answers);
    RevisedKeepsAll(prior, answers);
    assert UniqueKeys([] + revised) by {
      assert [] + revised == revised;
    }
    PutAllFresh([], revised);
    assert PutAll([], revised) == revised;
    MergeAssigns(prior, [], answers, rest);
  }

  /** Blank key answers keep every old key in its place, whatever the value answers are. */
  lemma MergeBlankKeysKeepOrder(prior: Entries, answers: seq<Answer>, rest: seq<string>)
    requires |answers| == |prior| && forall i :: 0 <= i < |answers| ==> Blank(answers[i].key)
    ensures Merge(prior, [], Lines(answers) + rest).Ok?
    ensures
      var (merged, left) := Merge(prior, [], Lines(answers) + rest).value;
      && left == rest && |merged| == |prior|
      && forall i :: 0 <= i < |prior| ==> merged[i] == (prior[i].0, KeepOr(answers[i].value, prior[i].1))
  {
    forall i | 0 <= i < |answers|
      ensures !Drops(answers[i]) && KeepOr(answers[i].key, prior[i].0) == prior[i].0
    {
      StripShape(answers[i].key);
    }
    MergeRevises(prior, answers, rest);
  }

  /** "del" for entry j drops exactly that entry when the other answers keep theirs. */
  lemma {:induction false} RevisedDropsOne(prior: seq<Pair>, answers: seq<Answer>, j: nat)
    requires |answers| == |prior| && j < |prior| && Drops(answers[j])
    requires forall i :: 0 <= i < |prior| && i != j ==> Blank(answers[i].key) && Blank(answers[i].value)
    ensures Revised(prior, answers) == prior[..j] + prior[j + 1..]
  {
    if j == 0 {
      RevisedKeepsAll(prior[1..], answers[1..]) by {
        forall i | 0 <= i < |answers| - 1 ensures !Drops(answers[1..][i]) {
          assert answers[1..][i] == answers[i + 1];
          StripShape(answers[i + 1].key);
        }
      }
      forall i | 0 <= i < |prior| - 1
        ensures Revised(prior[1..], answers[1..])[i] == prior[1..][i]
      {
        assert answers[1..][i] == answers[i + 1];
        StripShape(answers[i + 1].key);
        StripShape(answers[i + 1].value);
      }
    } else {
      StripShape(answers[0].key);
      StripShape(answers[0].value);
      forall i | 0 <= i < |prior| - 1 && i != j - 1
        ensures Blank(answers[1..][i].key) && Blank(answers[1..][i].value)
      {
        assert answers[1..][i] == answers[i + 1];
      }
      RevisedDropsOne(prior[1..], answers[1..], j - 1);
      assert prior[1..][..j - 1] == prior[1..j] && prior[1..][j..] == prior[j + 1..];
      assert [prior[0]] + prior[1..j] == prior[..j];
    }
  }

  lemma WithoutKeepsUnique(prior: Entries, j: nat)
    requires j < |prior|
    ensures UniqueKeys(prior[..j] + prior[j + 1..])
  {
    var kept := prior[..j] + prior[j + 1..];
    forall a, b | 0 <= a < b < |kept| ensures kept[a].0 != kept[b].0 {
      var a', b' := if a < j then a else a + 1, if b < j then b else b + 1;
      assert kept[a] == prior[a'] && kept[b] == prior[b'];
    }
  }

  /** A "del" for one old entry, blank answers for all the others: the new dict is the old
      one without that entry, in the old order. */
  lemma MergeDropsOne(prior: Entries, answers: seq<Answer>, j: nat, rest: seq<string>)
    requires |answers| == |prior| && j < |prior| && Drops(answers[j])
    requires forall i :: 0 <= i < |prior| && i != j ==> Blank(answers[i].key) && Blank(answers[i].value)
    ensures Merge(prior, [], Lines(answers) + rest).Ok?
    ensures Merge(prior, [], Lines(answers) + rest).value == (prior[..j] + prior[j + 1..], rest)
  {
    MergeAssigns(prior, [], answers, rest);
    RevisedDropsOne(prior, answers, j);
    var kept := prior[..j] + prior[j + 1..];
    WithoutKeepsUnique(prior, j);
    assert [] + kept == kept;
    PutAllFresh([], kept);
  }

  /** A blank name answer keeps the old name (new_name is None), any other the stripped one. */
  function NewNameOf(answer: string): (r: Option<string>)
    ensures r.None? <==> Blank(answer)
    ensures r.Some? ==> r.value == Strip(answer) && r.value != ""
  {
    StripShape(answer);
    var s := Strip(answer);
    if s == "" then None else Some(s)
  }

  /** do_add's name prompt refuses an answer that strips to nothing or to a name in use. */
  predicate Refused(rows: seq<Credential>, answer: string)
  {
    Strip(answer) == "" || NameIndex(rows, Strip(answer)).Some?
  }

  /** An answer is refused iff it is blank or its stripped text is the name of a row, which
      is what db.exists reports. */
  lemma RefusedExactly(rows: seq<Credential>, answer: string)
    ensures Refused(rows, answer) <==>
      Blank(answer) || exists i :: 0 <= i < |rows| && rows[i].name == Strip(answer)
  {
    StripShape(answer);
  }

  /** do_add's "Name: " loop: the first answer not refused, stripped. */
  function AcceptName(rows: seq<Credential>, inputs: seq<string>): (r: Result<(string, seq<string>)>)
    ensures r.Err? ==> r.error == EOFError
    ensures r.Ok? ==> |r.value.1| < |inputs|
    decreases |inputs|
  {
    if inputs == [] then Err(EOFError)
    else if Refused(rows, inputs[0]) then AcceptName(rows, inputs[1..])
    else Ok((Strip(inputs[0]), inputs[1..]))
  }

  /** The loop reads its lines from the front: what it leaves is the rest of the input. */
  lemma {:induction false} AcceptNameConsumes(rows: seq<Credential>, inputs: seq<string>)
    requires AcceptName(rows, inputs).Ok?
    ensures Consumed(inputs, AcceptName(rows, inputs).value.1)
    decreases |inputs|
  {
    if Refused(rows, inputs[0]) {
      AcceptNameConsumes(rows, inputs[1..]);
      TailOfDrop(inputs, 1, AcceptName(rows, inputs).value.1);
    }
  }

  /** The accepted name is the first answer not refused, stripped: non-empty and unused,
      and every answer before it was refused. */
  lemma {:induction false} AcceptNameAccepts(rows: seq<Credential>, inputs: seq<string>)
    requires AcceptName(rows, inputs).Ok?
    ensures
      var (name, rest) := AcceptName(rows, inputs).value;
      var n := |inputs| - |rest| - 1;
      && name == Strip(inputs[n]) && name != "" && NameIndex(rows, name).None?
      && forall j :: 0 <= j < n ==> Refused(rows, inputs[j])
    decreases |inputs|
  {
    if Refused(rows, inputs[0]) {
      AcceptNameAccepts(rows, inputs[1..]);
      var rest := AcceptName(rows, inputs).value.1;
      RefusedShift(rows, inputs, |inputs| - |rest| - 1);
    }
  }

  /** The loop runs out of input only when every answer was refused. */
  lemma {:induction false} AcceptNameExhausted(rows: seq<Credential>, inputs: seq<string>)
    requires AcceptName(rows, inputs).Err?
    ensures forall j :: 0 <= j < |inputs| ==> Refused(rows, inputs[j])
    decreases |inputs|
  {
    if inputs != [] {
      AcceptNameExhausted(rows, inputs[1..]);
      RefusedShift(rows, inputs, |inputs|);
    }
  }

  lemma RefusedShift(rows: seq<Credential>, inputs: seq<string>, n: nat)
    requires 1 <= n <= |inputs| && Refused(rows, inputs[0])
    requires forall j :: 0 <= j < n - 1 ==> Refused(rows, inputs[1..][j])
    ensures forall j :: 0 <= j < n ==> Refused(rows, inputs[j])
  {
    forall j | 1 <= j < n
      ensures Refused(rows, inputs[j])
    {
      assert Refused(rows, inputs[1..][j - 1]);
    }
  }

  /** How a command's prompts end, before the table is touched. */
  datatype Decision<+T> = Unpicked | Declined | Confirmed(plan: T)

  /** do_update's answers: the listed position picked, new_name, and the new dict. */
  datatype Edit = Edit(index: nat, newName: Option<string>, entries: Entries)

  /** The answer to a final "(Y|n)" confirmation prompt. */
  function Confirm(lines: seq<string>): (r: Result<bool>)
    ensures r.Err? <==> lines == []
    ensures r.Ok? ==> r.value == UI.YesOrNo(lines[0])
  {
    if lines == [] then Err(EOFError) else Ok(UI.YesOrNo(lines[0]))
  }

  /** do_add's prompts over the current table: a fresh name, at least one pair, and the
      answer to "Save it?". */
  function AddPlan(rows: seq<Credential>, inputs: seq<string>): (r: Result<Decision<(string, Entries)>>)
    ensures r.Err? ==> r.error == EOFError
    ensures r.Ok? ==> !r.value.Unpicked?
  {
    var named := AcceptName(rows, inputs);
    if named.Err? then Err(named.error)
    else
      var collected := CollectEntries([], named.value.1);
      if collected.Err? then Err(collected.error)
      else
        var confirmed := Confirm(collected.value.1);
        if confirmed.Err? then Err(confirmed.error)
        else if confirmed.value then Ok(Confirmed((named.value.0, collected.value.0)))
        else Ok(Declined)
  }

  /** What do_add saves: a non-empty name no row has, and at least one pair, none with an
      empty key. */
  lemma AddPlanConfirmed(rows: seq<Credential>, inputs: seq<string>)
    requires AddPlan(rows, inputs).Ok? && AddPlan(rows, inputs).value.Confirmed?
    ensures
      var (name, entries) := AddPlan(rows, inputs).value.plan;
      && name != "" && NameIndex(rows, name).None? && |entries| >= 1
      && forall i :: 0 <= i < |entries| ==> entries[i].0 != ""
  {
    AcceptNameAccepts(rows, inputs);
    CollectEntriesGrows([], AcceptName(rows, inputs).value.1);
  }

  /** do_update's prompts once a credential is picked: the name answer, the per-entry
      merge, the new pairs and the answer to "Update it?". */
  function Revise(picked: Fetched, inputs: seq<string>): (r: Result<Option<(Option<string>, Entries)>>)
    ensures r.Err? ==> r.error == EOFError
    ensures r.Ok? && r.value.Some? ==> |r.value.value.1| >= 1
  {
    if inputs == [] then Err(EOFError)
    else
      var merged := Merge(picked.parsedEntries, [], inputs[1..]);
      if merged.Err? then Err(merged.error)
      else
        var collected := CollectEntries(merged.value.0, merged.value.1);
        if collected.Err? then Err(collected.error)
        else
          var confirmed := Confirm(collected.value.1);
          if confirmed.Err? then Err(confirmed.error)
          else if confirmed.value then
            CollectEntriesGrows(merged.value.0, merged.value.1);
            Ok(Some((NewNameOf(inputs[0]), collected.value.0)))
          else Ok(None)
  }

  /** do_update's prompts over the listing: the pick as pick_credential makes it, then Revise
      on the picked credential. */
  function UpdatePlan(credentials: seq<Fetched>, choice: Option<int>, inputs: seq<string>): (r: Result<Decision<Edit>>)
    ensures r.Err? ==> r.error == EOFError
    ensures r == Ok(Unpicked) <==> PickCredential(credentials, choice).None?
    ensures r.Ok? && r.value.Confirmed? ==>
      && r.value.plan.index < |credentials|
      && PickCredential(credentials, choice) == Some(credentials[r.value.plan.index])
      && (choice == Some(r.value.plan.index + 1) || (choice == Some(0) && r.value.plan.index == |credentials| - 1))
      && |r.value.plan.entries| >= 1
  {
    var picked := PickedIndex(credentials, choice);
    if picked.None? then Ok(Unpicked)
    else
      var revised := Revise(credentials[picked.value], inputs);
      if revised.Err? then Err(revised.error)
      else if revised.value.None? then Ok(Declined)
      else Ok(Confirmed(Edit(picked.value, revised.value.value.0, revised.value.value.1)))
  }

  /** do_delete's prompts over the listing: the pick as pick_credential makes it and the
      answer to "Delete it?". */
  function DeletePlan(credentials: seq<Fetched>, choice: Option<int>, inputs: seq<string>): (r: Result<Decision<nat>>)
    ensures r.Err? ==> r.error == EOFError
    ensures r == Ok(Unpicked) <==> PickCredential(credentials, choice).None?
    ensures r.Ok? && r.value.Confirmed? ==>
      && r.value.plan < |credentials|
      && PickCredential(credentials, choice) == Some(credentials[r.value.plan])
      && (choice == Some(r.value.plan + 1) || (choice == Some(0) && r.value.plan == |credentials| - 1))
  {
    var picked := PickedIndex(credentials, choice);
    if picked.None? then Ok(Unpicked)
    else
      var confirmed := Confirm(inputs);
      if confirmed.Err? then Err(confirmed.error)
      else if confirmed.value then Ok(Confirmed(picked.value))
      else Ok(Declined)
  }

  /** The off-by-one reaches the table: on a non-empty listing, the choice 0 and a "yes"
      delete the last row, and the corrected pick would have left the table alone. */
  lemma DeleteZeroRemovesLast(credentials: seq<Fetched>, inputs: seq<string>)
    requires credentials != [] && inputs != [] && UI.YesOrNo(inputs[0])
    ensures DeletePlan(credentials, Some(0), inputs) == Ok(Confirmed(|credentials| - 1))
    ensures PickCredentialFixed(credentials, Some(0)).None?
  {
  }
}
