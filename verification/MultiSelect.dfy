/** The search multi-select field: a list that every search rebuilds, and a selection that no search may change. */
module MultiSelect {
  datatype Choice = Choice(caption: string, value: string)

  datatype SearchResult = Failed | Found(keys: seq<string>, captions: seq<string>)

  datatype Mode = Searching | Selecting

  datatype Message =
    | Result(query: string, result: SearchResult)
    | Typed(input: string)
    | Enter | ShiftTab | Up | Down | Toggle
    | Other

  datatype Field = Field(
    defaults: seq<string>, persistent: seq<string>,
    options: seq<Choice>, selected: map<string, bool>, captions: map<string, string>,
    lastQuery: string, input: string, mode: Mode, loading: bool, cursor: int, failed: bool)

  // ---------------------------------------------------------------- lists without repeats

  predicate On(selected: map<string, bool>, key: string) {
    key in selected && selected[key]
  }

  predicate Distinct(keys: seq<string>) {
    forall i, j :: 0 <= i < j < |keys| ==> keys[i] != keys[j]
  }

  function Filter(keys: seq<string>, selected: map<string, bool>): seq<string> {
    if keys == [] then []
    else
      var last := |keys| - 1;
      Filter(keys[..last], selected) + if On(selected, keys[last]) then [keys[last]] else []
  }

  /** `list` extended by those of `keys` that it does not have yet. */
  function Add(list: seq<string>, keys: seq<string>): seq<string>
    decreases |keys|
  {
    if keys == [] then list
    else Add(if keys[0] in list then list else list + [keys[0]], keys[1..])
  }

  lemma {:induction false} AddSnoc(list: seq<string>, keys: seq<string>, key: string)
    ensures Add(list, keys + [key]) == Add(Add(list, keys), [key])
    decreases |keys|
  {
    if keys == [] {
      assert keys + [key] == [key];
    } else {
      assert (keys + [key])[1..] == keys[1..] + [key];
      AddSnoc(if keys[0] in list then list else list + [keys[0]], keys[1..], key);
    }
  }

  lemma {:induction false} AddFacts(list: seq<string>, keys: seq<string>)
    ensures list <= Add(list, keys)
    ensures Distinct(list) ==> Distinct(Add(list, keys))
    ensures forall k :: k in Add(list, keys) <==> k in list || k in keys
    decreases |keys|
  {
    if keys == [] {
    } else {
      AddFacts(if keys[0] in list then list else list + [keys[0]], keys[1..]);
      assert forall k :: k in keys <==> k == keys[0] || k in keys[1..];
    }
  }

  lemma {:induction false} AddNothing(list: seq<string>, keys: seq<string>)
    requires forall k :: k in keys ==> k in list
    ensures Add(list, keys) == list
    decreases |keys|
  {
    if keys != [] {
      AddNothing(list, keys[1..]);
    }
  }

  /** Adding a list without repeats to its own prefix gives the list. */
  lemma {:induction false} AddRest(list: seq<string>, rest: seq<string>)
    requires Distinct(list + rest)
    ensures Add(list, rest) == list + rest
    decreases |rest|
  {
    if rest == [] {
      assert list + rest == list;
    } else {
      assert list + [rest[0]] + rest[1..] == list + rest;
      assert (list + rest)[|list|] == rest[0] && forall i :: 0 <= i < |list| ==> (list + rest)[i] == list[i];
      AddRest(list + [rest[0]], rest[1..]);
    }
  }

  lemma AddWhole(prefix: seq<string>, list: seq<string>)
    requires prefix <= list && Distinct(list)
    ensures Add(prefix, list) == list
  {
    var rest := list[|prefix|..];
    assert list == prefix + rest;
    AddConcat(prefix, prefix, rest);
    AddNothing(prefix, prefix);
    AddRest(prefix, rest);
  }

  lemma {:induction false} AddConcat(list: seq<string>, a: seq<string>, b: seq<string>)
    ensures Add(list, a + b) == Add(Add(list, a), b)
    decreases |a|
  {
    if a == [] {
      assert a + b == b;
    } else {
      assert (a + b)[1..] == a[1..] + b;
      AddConcat(if a[0] in list then list else list + [a[0]], a[1..], b);
    }
  }

  lemma {:induction false} FilterFacts(keys: seq<string>, selected: map<string, bool>)
    ensures forall k :: k in Filter(keys, selected) <==> k in keys && On(selected, k)
    ensures (forall k :: k in keys ==> On(selected, k)) ==> Filter(keys, selected) == keys
  {
    if keys == [] {
    } else {
      var last := |keys| - 1;
      var front := keys[..last];
      FilterFacts(front, selected);
      assert keys == front + [keys[last]];
      assert forall k :: k in keys <==> k in front || k == keys[last];
    }
  }

  lemma FilterSnoc(keys: seq<string>, key: string, selected: map<string, bool>)
    ensures Filter(keys + [key], selected) == Filter(keys, selected) + if On(selected, key) then [key] else []
  {
    assert (keys + [key])[..|keys|] == keys;
  }

  /** Filtering commutes with adding. */
  lemma {:induction false} FilterAdd(list: seq<string>, keys: seq<string>, selected: map<string, bool>)
    ensures Filter(Add(list, keys), selected) == Add(Filter(list, selected), Filter(keys, selected))
    decreases |keys|
  {
    if keys == [] {
    } else {
      var last := |keys| - 1;
      var shorter, key := keys[..last], keys[last];
      FilterAdd(list, shorter, selected);
      AddSnoc(list, shorter, key);
      assert keys == shorter + [key];
      var so := Add(list, shorter);
      FilterFacts(so, selected);
      FilterSnoc(so, key, selected);
      if On(selected, key) {
        AddSnoc(Filter(list, selected), Filter(shorter, selected), key);
        assert Add(so, [key]) == if key in so then so else so + [key];
      } else {
        assert Filter(keys, selected) == Filter(shorter, selected);
        assert Add(so, [key]) == if key in so then so else so + [key];
      }
    }
  }

  // ---------------------------------------------------------------- the field

  function Values(options: seq<Choice>): (r: seq<string>)
    ensures |r| == |options| && forall i :: 0 <= i < |options| ==> r[i] == options[i].value
  {
    seq(|options|, i requires 0 <= i < |options| => options[i].value)
  }

  /** The selected keys: the defaults first, then the others in the order of the list. */
  function SelectedKeys(f: Field): seq<string> {
    Add(Add([], Filter(f.defaults, f.selected)), Filter(Values(f.options), f.selected))
  }

  function Caption(captions: map<string, string>, key: string): string {
    if key in captions && captions[key] != "" then captions[key] else key
  }

  /** `options` extended by those of `more` whose value it does not have yet. */
  function AddChoices(options: seq<Choice>, more: seq<Choice>): seq<Choice>
    decreases |more|
  {
    if more == [] then options
    else AddChoices(if more[0].value in Values(options) then options else options + [more[0]], more[1..])
  }

  function Captioned(keys: seq<string>, captions: map<string, string>): (r: seq<Choice>)
    ensures |r| == |keys| && Values(r) == keys
  {
    seq(|keys|, i requires 0 <= i < |keys| => Choice(Caption(captions, keys[i]), keys[i]))
  }

  function Results(keys: seq<string>, captions: seq<string>): (r: seq<Choice>)
    requires |keys| == |captions|
    ensures |r| == |keys| && Values(r) == keys
  {
    seq(|keys|, i requires 0 <= i < |keys| =>
      Choice(if captions[i] == "" then keys[i] else captions[i], keys[i]))
  }

  function Remember(captions: map<string, string>, keys: seq<string>, shown: seq<string>): map<string, string>
    requires |keys| == |shown|
  {
    if keys == [] then captions
    else
      var last := |keys| - 1;
      Remember(captions, keys[..last], shown[..last])[keys[last] := shown[last]]
  }

  function Apply(f: Field, query: string, result: SearchResult): Field {
    var g := f.(loading := false, lastQuery := query);
    if result.Failed? || |result.keys| != |result.captions| then g.(failed := true)
    else
      var captions := Remember(f.captions, result.keys, result.captions);
      var first := AddChoices([], Captioned(SelectedKeys(f), captions));
      var second := AddChoices(first, Results(result.keys, result.captions));
      g.(captions := captions, options := AddChoices(second, Captioned(f.persistent, captions)),
         cursor := 0, failed := false)
  }

  function Next(f: Field, m: Message): Field {
    if m.Result? then Apply(f, m.query, m.result).(mode := Selecting)
    else if f.loading then f
    else if f.mode == Searching then
      match m
      case Enter => if f.input == f.lastQuery then f.(mode := Selecting) else f.(input := "", loading := true)
      case Typed(input) => f.(input := input)
      case _ => f
    else
      match m
      case ShiftTab => f.(mode := Searching)
      case Up => if f.cursor > 0 then f.(cursor := f.cursor - 1) else f
      case Down => if f.cursor < |f.options| - 1 then f.(cursor := f.cursor + 1) else f
      case Toggle =>
        if |f.options| > 0 && 0 <= f.cursor < |f.options| then
          f.(selected := Flip(f.selected, f.options[f.cursor].value))
        else f
      case _ => f
  }

  function Flip(selected: map<string, bool>, key: string): map<string, bool> {
    if On(selected, key) then selected - {key} else selected[key := true]
  }

  predicate Valid(f: Field) {
    && Distinct(Values(f.options))
    && 0 <= f.cursor && (f.cursor < |f.options| || (f.options == [] && f.cursor == 0))
    && (forall k :: k in f.selected ==> f.selected[k] && (k in f.defaults || k in Values(f.options)))
  }

  function Start(defaults: seq<string>, persistent: seq<string>, result: SearchResult): Field {
    Apply(Field(defaults, persistent, [], map k | k in defaults :: true, map[], "", "", Searching, false, 0, false),
          "", result)
  }

  // ---------------------------------------------------------------- what holds

  /** The list of selected keys has no repeats and is exactly the selection. */
  lemma SelectedKeysExact(f: Field)
    requires Valid(f)
    ensures Distinct(SelectedKeys(f))
    ensures forall k :: k in SelectedKeys(f) <==> On(f.selected, k)
    ensures forall k :: k in SelectedKeys(f) <==> k in f.selected
  {
    FilterFacts(f.defaults, f.selected);
    FilterFacts(Values(f.options), f.selected);
    AddFacts([], Filter(f.defaults, f.selected));
    AddFacts(Add([], Filter(f.defaults, f.selected)), Filter(Values(f.options), f.selected));
  }

  lemma {:induction false} ValuesOfAdd(options: seq<Choice>, more: seq<Choice>)
    ensures Values(AddChoices(options, more)) == Add(Values(options), Values(more))
    decreases |more|
  {
    if more == [] {
    } else {
      var options' := if more[0].value in Values(options) then options else options + [more[0]];
      ValuesOfAdd(options', more[1..]);
      assert Values(options + [more[0]]) == Values(options) + [more[0].value];
      assert Values(more)[1..] == Values(more[1..]);
    }
  }

  /** After a good search the list is: what is selected, then the results, then the persistent keys, no key twice. */
  lemma ListAfterSearch(f: Field, query: string, result: SearchResult)
    requires result.Found? && |result.keys| == |result.captions| && Valid(f)
    ensures Values(Apply(f, query, result).options) == Add(Add(SelectedKeys(f), result.keys), f.persistent)
  {
    var captions := Remember(f.captions, result.keys, result.captions);
    var first := Captioned(SelectedKeys(f), captions);
    var second := AddChoices(AddChoices([], first), Results(result.keys, result.captions));
    ValuesOfAdd([], first);
    SelectedKeysExact(f);
    AddWhole([], SelectedKeys(f));
    assert Values([]) == [];
    ValuesOfAdd(AddChoices([], first), Results(result.keys, result.captions));
    ValuesOfAdd(second, Captioned(f.persistent, captions));
  }

  /** No search result, good, failed or mismatched, changes the list of selected keys, not even its order. */
  lemma SearchKeepsSelection(f: Field, query: string, result: SearchResult)
    requires Valid(f)
    ensures SelectedKeys(Apply(f, query, result)) == SelectedKeys(f)
    ensures Apply(f, query, result).selected == f.selected && Valid(Apply(f, query, result))
  {
    if result.Found? && |result.keys| == |result.captions| {
      var g, before := Apply(f, query, result), SelectedKeys(f);
      var keys := Add(before, result.keys);
      ListAfterSearch(f, query, result);
      SelectedKeysExact(f);
      AddFacts(before, result.keys);
      AddFacts(keys, f.persistent);
      FilterAdd(keys, f.persistent, f.selected);
      FilterAdd(before, result.keys, f.selected);
      FilterFacts(before, f.selected);
      FilterFacts(result.keys, f.selected);
      FilterFacts(f.persistent, f.selected);
      assert Filter(Values(g.options), f.selected) == before by {
        AddNothing(before, Filter(result.keys, f.selected));
        AddNothing(before, Filter(f.persistent, f.selected));
      }
      var defaults := Add([], Filter(f.defaults, f.selected));
      AddFacts(defaults, Filter(Values(f.options), f.selected));
      AddWhole(defaults, before);
    }
  }

  lemma NextKeepsValid(f: Field, m: Message)
    requires Valid(f)
    ensures Valid(Next(f, m))
    ensures Next(f, m).defaults == f.defaults
  {
    if m.Result? {
      SearchKeepsSelection(f, m.query, m.result);
    } else if !f.loading && f.mode == Selecting && m.Toggle? && f.options != [] {
      assert f.options[f.cursor].value == Values(f.options)[f.cursor];
    }
  }

  lemma StartsValid(defaults: seq<string>, persistent: seq<string>, result: SearchResult)
    ensures Valid(Start(defaults, persistent, result))
    ensures SelectedKeys(Start(defaults, persistent, result)) == Add([], defaults)
  {
    var f := Field(defaults, persistent, [], map k | k in defaults :: true, map[], "", "", Searching, false, 0, false);
    FilterFacts(defaults, f.selected);
    assert SelectedKeys(f) == Add([], defaults) by {
      AddFacts([], defaults);
      assert Filter(Values(f.options), f.selected) == [];
    }
    SearchKeepsSelection(f, "", result);
  }

  // ---------------------------------------------------------------- runs

  function Run(f: Field, ms: seq<Message>): Field
    decreases |ms|
  {
    if ms == [] then f else Next(Run(f, ms[..|ms| - 1]), ms[|ms| - 1])
  }

  /** The key that a message toggles, if it toggles one. */
  function Toggles(f: Field, m: Message): (keys: seq<string>)
    ensures |keys| <= 1
  {
    if m.Toggle? && !f.loading && f.mode == Selecting && 0 <= f.cursor < |f.options|
    then [f.options[f.cursor].value] else []
  }

  /** The keys toggled in a run, in order. */
  function Toggled(f: Field, ms: seq<Message>): seq<string>
    decreases |ms|
  {
    if ms == [] then []
    else Toggled(f, ms[..|ms| - 1]) + Toggles(Run(f, ms[..|ms| - 1]), ms[|ms| - 1])
  }

  function Count(keys: seq<string>, key: string): nat {
    if keys == [] then 0 else Count(keys[..|keys| - 1], key) + if keys[|keys| - 1] == key then 1 else 0
  }

  predicate Even(n: nat) {
    n == 0 || !Even(n - 1)
  }

  lemma EvenAfter(keys: seq<string>, more: seq<string>, key: string)
    requires |more| <= 1
    ensures Even(Count(keys + more, key)) == (Even(Count(keys, key)) != (key in more))
  {
    if more == [] {
      assert keys + more == keys;
    } else {
      assert (keys + more)[..|keys|] == keys;
    }
  }

  /** One message flips the toggled key, if any, and leaves the rest of the selection; without one the list is the
      same sequence. */
  lemma NextSelection(f: Field, m: Message)
    requires Valid(f)
    ensures Valid(Next(f, m))
    ensures forall k :: k in SelectedKeys(Next(f, m)) <==> (k in SelectedKeys(f)) != (k in Toggles(f, m))
    ensures Toggles(f, m) == [] ==> SelectedKeys(Next(f, m)) == SelectedKeys(f)
  {
    NextKeepsValid(f, m);
    if m.Result? {
      SearchKeepsSelection(f, m.query, m.result);
    } else if Toggles(f, m) == [] {
      assert Next(f, m).selected == f.selected && Next(f, m).options == f.options;
    } else {
      SelectedKeysExact(f);
      SelectedKeysExact(Next(f, m));
      assert Next(f, m).selected == Flip(f.selected, f.options[f.cursor].value);
    }
  }

  /** Over any run of searches, cursor moves and toggles a key ends up selected exactly if it was at the start and was
      toggled an even number of times, or was not and was toggled an odd number of times; the list without repeats
      shows exactly that; the options stay distinct and the cursor stays on one of them. */
  lemma {:induction false} SelectionOverRuns(f: Field, ms: seq<Message>, key: string)
    requires Valid(f)
    ensures Valid(Run(f, ms)) && Distinct(SelectedKeys(Run(f, ms)))
    ensures key in SelectedKeys(Run(f, ms)) <==> (key in SelectedKeys(f)) == Even(Count(Toggled(f, ms), key))
    decreases |ms|
  {
    SelectedKeysExact(f);
    if ms == [] {
    } else {
      var g, m := Run(f, ms[..|ms| - 1]), ms[|ms| - 1];
      SelectionOverRuns(f, ms[..|ms| - 1], key);
      NextSelection(g, m);
      SelectedKeysExact(Next(g, m));
      EvenAfter(Toggled(f, ms[..|ms| - 1]), Toggles(g, m), key);
    }
  }

  /** As long as nothing is toggled the list of selected keys stays the same sequence. */
  lemma {:induction false} OrderOverRuns(f: Field, ms: seq<Message>)
    requires Valid(f) && Toggled(f, ms) == []
    ensures Valid(Run(f, ms)) && SelectedKeys(Run(f, ms)) == SelectedKeys(f)
    decreases |ms|
  {
    if ms == [] {
    } else {
      OrderOverRuns(f, ms[..|ms| - 1]);
      NextSelection(Run(f, ms[..|ms| - 1]), ms[|ms| - 1]);
    }
  }

  // ---------------------------------------------------------------- captions

  /** An option shows the caption that the search gave for its key, or the one remembered for it, or its key if that is
      empty. */
  predicate Shows(c: Choice, remembered: map<string, string>, keys: seq<string>, captions: seq<string>)
    requires |keys| == |captions|
  {
    if c.value in keys then
      exists i :: 0 <= i < |keys| && keys[i] == c.value &&
                  c.caption == if captions[i] != "" then captions[i] else c.value
    else c.caption == if c.value in remembered && remembered[c.value] != "" then remembered[c.value] else c.value
  }

  lemma {:induction false} RemembersLast(remembered: map<string, string>, keys: seq<string>, captions: seq<string>,
                                         k: string)
    requires |keys| == |captions|
    ensures k !in keys ==>
              (k in Remember(remembered, keys, captions) <==> k in remembered) &&
              (k in remembered ==> Remember(remembered, keys, captions)[k] == remembered[k])
    ensures k in keys ==>
              k in Remember(remembered, keys, captions) &&
              exists i :: 0 <= i < |keys| && keys[i] == k && Remember(remembered, keys, captions)[k] == captions[i]
  {
    if keys != [] {
      var last := |keys| - 1;
      RemembersLast(remembered, keys[..last], captions[..last], k);
      assert keys[last] == k ==> Remember(remembered, keys, captions)[k] == captions[last];
      if k in keys && keys[last] != k {
        var i :| 0 <= i < last && keys[..last][i] == k &&
                 Remember(remembered, keys, captions)[k] == captions[..last][i];
        assert keys[i] == k && captions[i] == captions[..last][i];
      }
    }
  }

  lemma {:induction false} ChoicesFrom(options: seq<Choice>, more: seq<Choice>, c: Choice)
    requires c in AddChoices(options, more)
    ensures c in options || c in more
    decreases |more|
  {
    if more != [] {
      ChoicesFrom(if more[0].value in Values(options) then options else options + [more[0]], more[1..], c);
    }
  }

  lemma CaptionedShows(remembered: map<string, string>, keys: seq<string>, captions: seq<string>, k: string)
    requires |keys| == |captions|
    ensures Shows(Choice(Caption(Remember(remembered, keys, captions), k), k), remembered, keys, captions)
  {
    RemembersLast(remembered, keys, captions, k);
  }

  /** After a good search every option shows its caption: the one just given, or one given earlier, or its key. */
  lemma CaptionsAfterSearch(f: Field, query: string, result: SearchResult, c: Choice)
    requires result.Found? && |result.keys| == |result.captions| && c in Apply(f, query, result).options
    ensures Shows(c, f.captions, result.keys, result.captions)
  {
    var captions := Remember(f.captions, result.keys, result.captions);
    var first := AddChoices([], Captioned(SelectedKeys(f), captions));
    var second := AddChoices(first, Results(result.keys, result.captions));
    ChoicesFrom(second, Captioned(f.persistent, captions), c);
    if c in second { ChoicesFrom(first, Results(result.keys, result.captions), c); }
    if c in first { ChoicesFrom([], Captioned(SelectedKeys(f), captions), c); }
    CaptionedShows(f.captions, result.keys, result.captions, c.value);
  }

  // ---------------------------------------------------------------- keys

  function Times(m: Message, n: nat): (r: seq<Message>)
    ensures |r| == n && forall i :: 0 <= i < n ==> r[i] == m
  {
    seq(n, i => m)
  }

  lemma OneMoreTime(f: Field, m: Message, n: nat)
    requires n > 0
    ensures Run(f, Times(m, n)) == Next(Run(f, Times(m, n - 1)), m)
  {
    assert Times(m, n)[..n - 1] == Times(m, n - 1);
  }

  predicate Choosing(f: Field) {
    f.mode == Selecting && !f.loading && 0 <= f.cursor < |f.options|
  }

  /** Moving down goes one option further each time, as far as the last, and changes nothing else. */
  lemma {:induction false} MovesDown(f: Field, n: nat)
    requires Choosing(f)
    ensures Run(f, Times(Down, n)) ==
            f.(cursor := if f.cursor + n < |f.options| then f.cursor + n else |f.options| - 1)
  {
    if n > 0 {
      MovesDown(f, n - 1);
      OneMoreTime(f, Down, n);
    }
  }

  /** Moving up goes back, as far as the first. */
  lemma {:induction false} MovesUp(f: Field, n: nat)
    requires Choosing(f)
    ensures Run(f, Times(Up, n)) == f.(cursor := if f.cursor < n then 0 else f.cursor - n)
  {
    if n > 0 {
      MovesUp(f, n - 1);
      OneMoreTime(f, Up, n);
    }
  }

  /** While a search is under way nothing but its result has an effect. */
  lemma {:induction false} LoadingIgnoresKeys(f: Field, ms: seq<Message>)
    requires f.loading && forall i :: 0 <= i < |ms| ==> !ms[i].Result?
    ensures Run(f, ms) == f
    decreases |ms|
  {
    if ms != [] { LoadingIgnoresKeys(f, ms[..|ms| - 1]); }
  }

  /** Typing a text and confirming it starts a search, which ends with its result whatever is pressed meanwhile; the
      list is opened at once if the text is that of the last search. */
  lemma TypedSearch(f: Field, text: string, meanwhile: seq<Message>, result: SearchResult)
    requires f.mode == Searching && !f.loading && forall i :: 0 <= i < |meanwhile| ==> !meanwhile[i].Result?
    ensures Run(f, [Typed(text), Enter]) ==
            if text == f.lastQuery then f.(input := text, mode := Selecting) else f.(input := "", loading := true)
    ensures text != f.lastQuery ==>
              var end := Run(f, [Typed(text), Enter] + meanwhile + [Result(text, result)]);
              end.mode == Selecting && !end.loading && end.lastQuery == text && end.input == "" &&
              end.selected == f.selected &&
              (end.failed <==> result.Failed? || |result.keys| != |result.captions|) &&
              (end.failed ==> end.options == f.options && end.captions == f.captions && end.cursor == f.cursor)
  {
    var typed := [Typed(text), Enter];
    assert typed[..1] == [Typed(text)] && [Typed(text)][..0] == [];
    assert Run(f, typed[..1]) == f.(input := text);
    if text != f.lastQuery {
      RunConcat(f, typed, meanwhile);
      LoadingIgnoresKeys(Run(f, typed), meanwhile);
      var all := typed + meanwhile + [Result(text, result)];
      assert all[..|all| - 1] == typed + meanwhile;
    }
  }

  lemma {:induction false} RunConcat(f: Field, a: seq<Message>, b: seq<Message>)
    ensures Run(f, a + b) == Run(Run(f, a), b)
    decreases |b|
  {
    if b == [] {
      assert a + b == a;
    } else {
      assert (a + b)[..|a + b| - 1] == a + b[..|b| - 1];
      RunConcat(f, a, b[..|b| - 1]);
    }
  }

  // ---------------------------------------------------------------- the object

  lemma {:induction false} AddChoicesSnoc(options: seq<Choice>, more: seq<Choice>, c: Choice)
    ensures AddChoices(options, more + [c]) ==
            var so := AddChoices(options, more); if c.value in Values(so) then so else so + [c]
    decreases |more|
  {
    if more == [] {
      assert more + [c] == [c];
    } else {
      assert (more + [c])[1..] == more[1..] + [c];
      AddChoicesSnoc(if more[0].value in Values(options) then options else options + [more[0]], more[1..], c);
    }
  }

  lemma NextSelected(list: seq<string>, keys: seq<string>, i: nat, selected: map<string, bool>)
    requires i < |keys|
    ensures Add(list, Filter(keys[..i + 1], selected)) ==
            var so := Add(list, Filter(keys[..i], selected));
            if On(selected, keys[i]) && keys[i] !in so then so + [keys[i]] else so
  {
    assert keys[..i + 1] == keys[..i] + [keys[i]];
    FilterSnoc(keys[..i], keys[i], selected);
    if On(selected, keys[i]) {
      AddSnoc(list, Filter(keys[..i], selected), keys[i]);
    } else {
      assert Filter(keys[..i + 1], selected) == Filter(keys[..i], selected);
    }
  }

  class MultiSelectSearchField {
    const defaults: seq<string>
    const persistent: seq<string>
    var options: seq<Choice>
    var selected: map<string, bool>
    var captions: map<string, string>
    var lastQuery: string
    var input: string
    var mode: Mode
    var loading: bool
    var cursor: int
    var failed: bool

    function State(): Field
      reads this
    {
      Field(defaults, persistent, options, selected, captions, lastQuery, input, mode, loading, cursor, failed)
    }

    constructor (defaults: seq<string>, persistent: seq<string>, first: SearchResult)
      ensures State() == Start(defaults, persistent, first) && Valid(State())
    {
      this.defaults, this.persistent := defaults, persistent;
      options, captions, lastQuery, input := [], map[], "", "";
      mode, loading, cursor, failed := Searching, false, 0, false;
      new;
      selected := map[];
      for i := 0 to |defaults|
        invariant selected == map k | k in defaults[..i] :: true
        invariant State() == Field(defaults, persistent, [], selected, map[], "", "", Searching, false, 0, false)
      {
        selected := selected[defaults[i] := true];
      }
      assert defaults[..|defaults|] == defaults;
      ApplySearchResult("", first);
      StartsValid(defaults, persistent, first);
    }

    /** Appends the selected ones of `keys` that are not yet seen. */
    method AppendSelected(list: seq<string>, seen: set<string>, keys: seq<string>)
      returns (list': seq<string>, seen': set<string>)
      requires seen == set k | k in list
      ensures list' == Add(list, Filter(keys, selected)) && seen' == set k | k in list'
    {
      list', seen' := list, seen;
      for i := 0 to |keys|
        invariant list' == Add(list, Filter(keys[..i], selected))
        invariant seen' == set k | k in list'
      {
        NextSelected(list, keys, i, selected);
        if On(selected, keys[i]) && keys[i] !in seen' {
          list' := list' + [keys[i]];
          seen' := seen' + {keys[i]};
        }
      }
      assert keys[..|keys|] == keys;
    }

    method ListSelected() returns (keys: seq<string>)
      ensures keys == SelectedKeys(State())
    {
      var seen;
      keys, seen := AppendSelected([], {}, defaults);
      keys, seen := AppendSelected(keys, seen, Values(options));
    }

    /** Appends those of `more` that are not yet seen. */
    static method AppendUnseen(options: seq<Choice>, seen: set<string>, more: seq<Choice>)
      returns (options': seq<Choice>, seen': set<string>)
      requires seen == set k | k in Values(options)
      ensures options' == AddChoices(options, more) && seen' == set k | k in Values(options')
    {
      options', seen' := options, seen;
      for i := 0 to |more|
        invariant options' == AddChoices(options, more[..i])
        invariant seen' == set k | k in Values(options')
      {
        assert more[..i + 1] == more[..i] + [more[i]];
        AddChoicesSnoc(options, more[..i], more[i]);
        if more[i].value !in seen' {
          assert Values(options' + [more[i]]) == Values(options') + [more[i].value];
          options' := options' + [more[i]];
          seen' := seen' + {more[i].value};
        }
      }
      assert more[..|more|] == more;
    }

    method RememberCaptions(keys: seq<string>, shown: seq<string>)
      requires |keys| == |shown|
      modifies this`captions
      ensures captions == Remember(old(captions), keys, shown)
    {
      for i := 0 to |keys|
        invariant captions == Remember(old(captions), keys[..i], shown[..i])
      {
        assert keys[..i + 1][..i] == keys[..i] && shown[..i + 1][..i] == shown[..i];
        captions := captions[keys[i] := shown[i]];
      }
      assert keys[..|keys|] == keys && shown[..|keys|] == shown;
    }

    /** The selected keys first, then the results, then the persistent options. */
    method BuildOptions(keys: seq<string>, shown: seq<string>) returns (built: seq<Choice>)
      requires |keys| == |shown|
      ensures var first := AddChoices([], Captioned(SelectedKeys(State()), captions));
              built == AddChoices(AddChoices(first, Results(keys, shown)), Captioned(persistent, captions))
    {
      var chosen := ListSelected();
      var seen;
      built, seen := AppendUnseen([], {}, Captioned(chosen, captions));
      built, seen := AppendUnseen(built, seen, Results(keys, shown));
      built, seen := AppendUnseen(built, seen, Captioned(persistent, captions));
    }

    method ApplySearchResult(query: string, result: SearchResult)
      modifies this
      ensures State() == Apply(old(State()), query, result)
    {
      loading := false;
      lastQuery := query;
      if result.Failed? || |result.keys| != |result.captions| {
        failed := true;
        return;
      }
      RememberCaptions(result.keys, result.captions);
      assert SelectedKeys(State()) == SelectedKeys(old(State()));
      var built := BuildOptions(result.keys, result.captions);
      options := built;
      cursor := 0;
      failed := false;
    }

    /** One message. A key press while a search is loading is ignored. */
    method Update(m: Message)
      requires Valid(State())
      modifies this
      ensures State() == Next(old(State()), m) && Valid(State())
    {
      NextKeepsValid(State(), m);
      if m.Result? {
        ApplySearchResult(m.query, m.result);
        mode := Selecting;
      } else if !loading {
        match mode {
          case Searching => UpdateSearch(m);
          case Selecting => UpdateSelect(m);
        }
      }
    }

    method UpdateSearch(m: Message)
      requires Valid(State()) && !m.Result? && !loading && mode == Searching
      modifies this
      ensures State() == Next(old(State()), m)
    {
      if m.Enter? {
        if input == lastQuery {
          mode := Selecting;
          return;
        }
        input := "";
        loading := true;
      } else if m.Typed? {
        input := m.input;
      }
    }

    method UpdateSelect(m: Message)
      requires Valid(State()) && !m.Result? && !loading && mode == Selecting
      modifies this
      ensures State() == Next(old(State()), m)
    {
      if m.ShiftTab? {
        mode := Searching;
      } else if m.Up? {
        if cursor > 0 { cursor := cursor - 1; }
      } else if m.Down? {
        if cursor < |options| - 1 { cursor := cursor + 1; }
      } else if m.Toggle? {
        if |options| > 0 {
          var k := options[cursor].value;
          selected := selected[k := !On(selected, k)];
          if !selected[k] { selected := selected - {k}; }
          assert selected == Flip(old(selected), k);
        }
      }
    }
  }
}
