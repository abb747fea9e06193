/** Reading resolved signals (runtime/src/envd/server/dispatch.rs): one grouped request per
    instance, its answers scattered back to where each signal stands in the result. */
module EnvReads {
  import opened Common
  import opened SignalCatalog

  type Value = real

  datatype Answer = Answer(id: nat, value: Value)

  datatype Reading = Reading(instance: string, localId: nat, name: string, value: Value)

  datatype ReadError = MissingWorker | WorkerFailed | CountMismatch | IdMismatch | MissingValue

  /** One wanted signal of a group: where it stands in the result, and its id in its instance. */
  datatype Item = Item(output: nat, localId: nat)

  /** What each connected instance answers to a list of ids. */
  datatype Workers = Workers(names: set<string>, answer: (string, seq<nat>) -> Option<seq<Answer>>)

  predicate Indexes(resolved: seq<nat>, entries: seq<Entry>) {
    forall i :: 0 <= i < |resolved| ==> resolved[i] < |entries|
  }

  /** The instance of the k-th wanted signal. */
  function Owner(resolved: seq<nat>, entries: seq<Entry>, k: nat): string
    requires Indexes(resolved, entries) && k < |resolved|
  {
    entries[resolved[k]].instance
  }

  /** The items of one instance among the first n wanted signals, in their order. */
  function Group(resolved: seq<nat>, entries: seq<Entry>, instance: string, n: nat): seq<Item>
    requires Indexes(resolved, entries) && n <= |resolved|
    decreases n
  {
    if n == 0 then []
    else
      Group(resolved, entries, instance, n - 1)
      + (if Owner(resolved, entries, n - 1) == instance then [Item(n - 1, entries[resolved[n - 1]].localId)] else [])
  }

  /** How many wanted signals of the same instance come before the k-th. */
  function Rank(resolved: seq<nat>, entries: seq<Entry>, k: nat): nat
    requires Indexes(resolved, entries) && k < |resolved|
  {
    |Group(resolved, entries, Owner(resolved, entries, k), k)|
  }

  function Ids(items: seq<Item>): seq<nat> {
    seq(|items|, i requires 0 <= i < |items| => items[i].localId)
  }

  predicate Matches(ids: seq<nat>, answers: seq<Answer>) {
    |answers| == |ids| && forall i :: 0 <= i < |ids| ==> answers[i].id == ids[i]
  }

  // ----- where the items of a group stand

  lemma {:induction false} GroupHolds(resolved: seq<nat>, entries: seq<Entry>, k: nat, n: nat)
    requires Indexes(resolved, entries) && k < n <= |resolved|
    ensures var items := Group(resolved, entries, Owner(resolved, entries, k), n);
            Rank(resolved, entries, k) < |items|
            && items[Rank(resolved, entries, k)] == Item(k, entries[resolved[k]].localId)
    decreases n
  {
    if k < n - 1 {
      GroupHolds(resolved, entries, k, n - 1);
    }
  }

  /** Every item of a group is a wanted signal of the instance, at its rank. */
  lemma {:induction false} GroupItems(resolved: seq<nat>, entries: seq<Entry>, instance: string, n: nat, j: nat)
    requires Indexes(resolved, entries) && n <= |resolved| && j < |Group(resolved, entries, instance, n)|
    ensures var k := Group(resolved, entries, instance, n)[j].output;
            && k < n && Owner(resolved, entries, k) == instance && Rank(resolved, entries, k) == j
            && Group(resolved, entries, instance, n)[j] == Item(k, entries[resolved[k]].localId)
    decreases n
  {
    if j < |Group(resolved, entries, instance, n - 1)| {
      GroupItems(resolved, entries, instance, n - 1, j);
    }
  }

  // ----- the simple form

  /** The answers an instance gives to its whole group. */
  function AnswersOf(resolved: seq<nat>, entries: seq<Entry>, w: Workers, instance: string): Option<seq<Answer>>
    requires Indexes(resolved, entries)
  {
    w.answer(instance, Ids(Group(resolved, entries, instance, |resolved|)))
  }

  predicate Serves(resolved: seq<nat>, entries: seq<Entry>, w: Workers, instance: string)
    requires Indexes(resolved, entries)
  {
    && instance in w.names && AnswersOf(resolved, entries, w, instance).Some?
    && Matches(Ids(Group(resolved, entries, instance, |resolved|)), AnswersOf(resolved, entries, w, instance).value)
  }

  /** An instance serves its group only if it is connected, answers, and gives as many answers
      as there are items, each under the id of its item. */
  lemma ServesIff(resolved: seq<nat>, entries: seq<Entry>, w: Workers, instance: string)
    requires Indexes(resolved, entries)
    ensures var items := Group(resolved, entries, instance, |resolved|);
            Serves(resolved, entries, w, instance) <==>
              && instance in w.names
              && match w.answer(instance, seq(|items|, i requires 0 <= i < |items| => items[i].localId))
                 case None => false
                 case Some(answers) =>
                   |answers| == |items| && forall i :: 0 <= i < |items| ==> answers[i].id == items[i].localId
  {
    var items := Group(resolved, entries, instance, |resolved|);
    assert Ids(items) == seq(|items|, i requires 0 <= i < |items| => items[i].localId);
    hide Group;
  }

  /** The reading of the k-th wanted signal, from its instance's answers. */
  function ReadingAt(resolved: seq<nat>, entries: seq<Entry>, w: Workers, k: nat): Reading
    requires Indexes(resolved, entries) && k < |resolved| && Serves(resolved, entries, w, Owner(resolved, entries, k))
  {
    var e := entries[resolved[k]];
    GroupHolds(resolved, entries, k, |resolved|);
    Reading(e.instance, e.localId, e.qualifiedName,
            AnswersOf(resolved, entries, w, e.instance).value[Rank(resolved, entries, k)].value)
  }

  /** Instances that answer every id with that signal's value. */
  ghost predicate Honest(w: Workers, read: (string, nat) -> Value) {
    forall instance, ids :: instance in w.names ==>
      w.answer(instance, ids) == Some(seq(|ids|, i requires 0 <= i < |ids| => Answer(ids[i], read(instance, ids[i]))))
  }

  /** With honest instances, the grouped read gives each signal's own value. */
  lemma HonestReading(resolved: seq<nat>, entries: seq<Entry>, w: Workers, read: (string, nat) -> Value, k: nat)
    requires Indexes(resolved, entries) && k < |resolved| && Honest(w, read)
    requires Owner(resolved, entries, k) in w.names
    ensures Serves(resolved, entries, w, Owner(resolved, entries, k))
    ensures var e := entries[resolved[k]];
            ReadingAt(resolved, entries, w, k) == Reading(e.instance, e.localId, e.qualifiedName, read(e.instance, e.localId))
  {
    GroupHolds(resolved, entries, k, |resolved|);
    var instance := Owner(resolved, entries, k);
    var ids := Ids(Group(resolved, entries, instance, |resolved|));
    var rank := Rank(resolved, entries, k);
    assert w.answer(instance, ids).value[rank] == Answer(ids[rank], read(instance, ids[rank]));
  }

  // ----- the grouped read

  /** The groups of the first n wanted signals. */
  ghost predicate Grouped(resolved: seq<nat>, entries: seq<Entry>, groups: map<string, seq<Item>>, n: nat)
    requires Indexes(resolved, entries) && n <= |resolved|
  {
    && (forall k :: 0 <= k < n ==> Owner(resolved, entries, k) in groups)
    && (forall instance :: instance in groups ==> groups[instance] == Group(resolved, entries, instance, n) != [])
  }

  method GroupByInstance(resolved: seq<nat>, entries: seq<Entry>) returns (groups: map<string, seq<Item>>)
    requires Indexes(resolved, entries)
    ensures Grouped(resolved, entries, groups, |resolved|)
  {
    hide Grouped;
    groups := map[];
    var n := 0;
    NothingGrouped(resolved, entries);
    while n < |resolved|
      invariant n <= |resolved| && Grouped(resolved, entries, groups, n)
    {
      var entry := entries[resolved[n]];
      var items := if entry.instance in groups then groups[entry.instance] else [];
      GroupOneMore(resolved, entries, groups, n);
      groups := groups[entry.instance := items + [Item(n, entry.localId)]];
      n := n + 1;
    }
  }

  lemma NothingGrouped(resolved: seq<nat>, entries: seq<Entry>)
    requires Indexes(resolved, entries)
    ensures Grouped(resolved, entries, map[], 0)
  {
  }

  lemma GroupOneMore(resolved: seq<nat>, entries: seq<Entry>, groups: map<string, seq<Item>>, n: nat)
    requires Indexes(resolved, entries) && n < |resolved| && Grouped(resolved, entries, groups, n)
    ensures var e := entries[resolved[n]];
            var items := if e.instance in groups then groups[e.instance] else [];
            Grouped(resolved, entries, groups[e.instance := items + [Item(n, e.localId)]], n + 1)
  {
    var e := entries[resolved[n]];
    var items := if e.instance in groups then groups[e.instance] else [];
    var more := groups[e.instance := items + [Item(n, e.localId)]];
    if e.instance !in groups {
      NoGroup(resolved, entries, e.instance, n);
    }
    assert items == Group(resolved, entries, e.instance, n);
    forall instance | instance in more ensures more[instance] == Group(resolved, entries, instance, n + 1) != [] {
      GroupSnoc(resolved, entries, instance, n);
    }
  }

  lemma GroupSnoc(resolved: seq<nat>, entries: seq<Entry>, instance: string, n: nat)
    requires Indexes(resolved, entries) && n < |resolved|
    ensures Group(resolved, entries, instance, n + 1) ==
            if Owner(resolved, entries, n) == instance
            then Group(resolved, entries, instance, n) + [Item(n, entries[resolved[n]].localId)]
            else Group(resolved, entries, instance, n)
  {
  }

  lemma {:induction false} NoGroup(resolved: seq<nat>, entries: seq<Entry>, instance: string, n: nat)
    requires Indexes(resolved, entries) && n <= |resolved|
    requires forall k :: 0 <= k < n ==> Owner(resolved, entries, k) != instance
    ensures Group(resolved, entries, instance, n) == []
    decreases n
  {
    if n > 0 {
      NoGroup(resolved, entries, instance, n - 1);
    }
  }

  method ValidateAnswers(ids: seq<nat>, answers: seq<Answer>) returns (r: Result<(), ReadError>)
    ensures r.Ok? <==> Matches(ids, answers)
    ensures r.Ok? <==> |answers| == |ids| && forall i :: 0 <= i < |ids| ==> answers[i].id == ids[i]
    ensures r == Err(CountMismatch) <==> |answers| != |ids|
    ensures r.Err? ==> r.error == CountMismatch || r.error == IdMismatch
  {
    if |answers| != |ids| {
      return Err(CountMismatch);
    }
    var idx := 0;
    while idx < |ids|
      invariant idx <= |ids| && forall i :: 0 <= i < idx ==> answers[i].id == ids[i]
    {
      if answers[idx].id != ids[idx] {
        return Err(IdMismatch);
      }
      idx := idx + 1;
    }
    r := Ok(());
  }

  /** What stands at position k once the instances in `todo` are still to be read. */
  ghost predicate FilledOutside(resolved: seq<nat>, entries: seq<Entry>, w: Workers, todo: set<string>,
                                values: seq<Option<Reading>>)
    requires Indexes(resolved, entries) && |values| == |resolved|
  {
    forall k :: 0 <= k < |resolved| && Owner(resolved, entries, k) !in todo ==>
      Serves(resolved, entries, w, Owner(resolved, entries, k))
      && values[k] == Some(ReadingAt(resolved, entries, w, k))
  }

  /** Scatters one instance's answers. */
  method Scatter(resolved: seq<nat>, entries: seq<Entry>, w: Workers, items: seq<Item>, instance: string,
                 answers: seq<Answer>, values: array<Option<Reading>>)
    requires Indexes(resolved, entries) && values.Length == |resolved| && Serves(resolved, entries, w, instance)
    requires items == Group(resolved, entries, instance, |resolved|)
    requires Some(answers) == AnswersOf(resolved, entries, w, instance)
    modifies values
    ensures forall k :: 0 <= k < |resolved| ==>
              values[k] == if Owner(resolved, entries, k) == instance then Some(ReadingAt(resolved, entries, w, k))
                           else old(values[k])
  {
    var j := 0;
    while j < |items|
      invariant j <= |items|
      invariant forall k :: 0 <= k < |resolved| && Owner(resolved, entries, k) == instance
                            && Rank(resolved, entries, k) < j ==>
                  values[k] == Some(ReadingAt(resolved, entries, w, k))
      invariant forall k :: 0 <= k < |resolved| && Owner(resolved, entries, k) != instance ==> values[k] == old(values[k])
    {
      GroupItems(resolved, entries, instance, |resolved|, j);
      var entry := entries[resolved[items[j].output]];
      values[items[j].output] := Some(Reading(entry.instance, entry.localId, entry.qualifiedName, answers[j].value));
      forall k | 0 <= k < |resolved| && Owner(resolved, entries, k) == instance && Rank(resolved, entries, k) < j + 1
        ensures values[k] == Some(ReadingAt(resolved, entries, w, k))
      {
        GroupHolds(resolved, entries, k, |resolved|);
      }
      j := j + 1;
    }
    forall k | 0 <= k < |resolved| && Owner(resolved, entries, k) == instance
      ensures values[k] == Some(ReadingAt(resolved, entries, w, k))
    {
      GroupHolds(resolved, entries, k, |resolved|);
    }
  }

  /** Succeeds exactly when every instance concerned serves its group; then position i holds
      the reading of the i-th resolved signal. No position is ever left empty. */
  method ReadEnvSignalValues(resolved: seq<nat>, entries: seq<Entry>, w: Workers)
    returns (r: Result<seq<Reading>, ReadError>)
    requires Indexes(resolved, entries)
    ensures r.Ok? <==> forall k :: 0 <= k < |resolved| ==> Serves(resolved, entries, w, Owner(resolved, entries, k))
    ensures r.Ok? ==> |r.value| == |resolved| &&
                      forall k :: 0 <= k < |resolved| ==> r.value[k] == ReadingAt(resolved, entries, w, k)
    ensures r != Err(MissingValue)
  {
    hide Group, Serves, ReadingAt;
    var groups := GroupByInstance(resolved, entries);
    var values := new Option<Reading>[|resolved|](_ => None);
    var todo := groups.Keys;
    while todo != {}
      invariant todo <= groups.Keys && FilledOutside(resolved, entries, w, todo, values[..])
      decreases todo
    {
      var instance :| instance in todo;
      var items := groups[instance];
      var concerned := Concerned(resolved, entries, instance);
      if instance !in w.names {
        NotServed(resolved, entries, w, instance);
        return Err(MissingWorker);
      }
      var ids := Ids(items);
      var answered := w.answer(instance, ids);
      if answered.None? {
        NotServed(resolved, entries, w, instance);
        return Err(WorkerFailed);
      }
      var checked := ValidateAnswers(ids, answered.value);
      if checked.Err? {
        NotServed(resolved, entries, w, instance);
        return Err(checked.error);
      }
      IsServed(resolved, entries, w, instance);
      Scatter(resolved, entries, w, items, instance, answered.value, values);
      todo := todo - {instance};
    }
    r := Collect(resolved, entries, w, values[..]);
  }

  lemma Concerned(resolved: seq<nat>, entries: seq<Entry>, instance: string) returns (k: nat)
    requires Indexes(resolved, entries) && Group(resolved, entries, instance, |resolved|) != []
    ensures k < |resolved| && Owner(resolved, entries, k) == instance
  {
    GroupItems(resolved, entries, instance, |resolved|, 0);
    k := Group(resolved, entries, instance, |resolved|)[0].output;
  }

  lemma NotServed(resolved: seq<nat>, entries: seq<Entry>, w: Workers, instance: string)
    requires Indexes(resolved, entries)
    requires instance !in w.names || AnswersOf(resolved, entries, w, instance).None?
             || !Matches(Ids(Group(resolved, entries, instance, |resolved|)), AnswersOf(resolved, entries, w, instance).value)
    ensures !Serves(resolved, entries, w, instance)
  {
  }

  lemma IsServed(resolved: seq<nat>, entries: seq<Entry>, w: Workers, instance: string)
    requires Indexes(resolved, entries) && instance in w.names && AnswersOf(resolved, entries, w, instance).Some?
    requires Matches(Ids(Group(resolved, entries, instance, |resolved|)), AnswersOf(resolved, entries, w, instance).value)
    ensures Serves(resolved, entries, w, instance)
  {
  }

  /** Turns the filled positions into the result. */
  method Collect(resolved: seq<nat>, entries: seq<Entry>, w: Workers, values: seq<Option<Reading>>)
    returns (r: Result<seq<Reading>, ReadError>)
    requires Indexes(resolved, entries) && |values| == |resolved| && FilledOutside(resolved, entries, w, {}, values)
    ensures r.Ok? && |r.value| == |resolved|
    ensures forall k :: 0 <= k < |resolved| ==>
              Serves(resolved, entries, w, Owner(resolved, entries, k)) && r.value[k] == ReadingAt(resolved, entries, w, k)
  {
    hide Serves, ReadingAt;
    var out := [];
    var k := 0;
    while k < |values|
      invariant k <= |values| && |out| == k
      invariant forall i :: 0 <= i < k ==> Some(out[i]) == values[i]
    {
      if values[k].None? {
        return Err(MissingValue);
      }
      out := out + [values[k].value];
      k := k + 1;
    }
    r := Ok(out);
  }

  // ----- env `get`, from selectors to values

  datatype GetError = BadSelectors(catalog: CatalogError) | BadRead(read: ReadError)

  predicate AllBelow(xs: seq<nat>, bound: nat) {
    forall i :: 0 <= i < |xs| ==> xs[i] < bound
  }

  lemma ResolvedBelow(entries: seq<Entry>, selector: string, g: Globs)
    ensures Resolved(entries, selector, g).Ok? ==> AllBelow(Resolved(entries, selector, g).value, |entries|)
  {
    hide Scan, FindName, SplitOnce, ContainsGlob, AscendsBelow;
    if SplitOnce(selector).Some? {
      var (instance, signal) := SplitOnce(selector).value;
      FoundHasName(entries, instance + ":" + signal, |entries|);
      ScanBelow(entries, instance, signal, g);
    }
  }

  lemma ScanBelow(entries: seq<Entry>, instance: string, signal: string, g: Globs)
    ensures AllBelow(Scan(entries, instance, signal, g, |entries|), |entries|)
  {
    ScanAscends(entries, instance, signal, g, |entries|);
  }

  lemma {:induction false} GatheredBelow(entries: seq<Entry>, selectors: seq<string>, g: Globs)
    ensures Gathered(entries, selectors, g).Ok? ==> AllBelow(Gathered(entries, selectors, g).value, |entries|)
  {
    if selectors != [] && Gathered(entries, selectors, g).Ok? {
      ResolvedBelow(entries, selectors[0], g);
      GatheredBelow(entries, selectors[1..], g);
      hide Resolved;
    }
  }

  lemma {:induction false} FirstsBelow(xs: seq<nat>, bound: nat)
    requires AllBelow(xs, bound)
    ensures AllBelow(Firsts(xs), bound)
    decreases |xs|
  {
    if xs != [] {
      FirstsBelow(xs[..|xs| - 1], bound);
    }
  }

  /** The signals that selectors stand for, all of them in the catalog. */
  function Wanted(entries: seq<Entry>, selectors: seq<string>, g: Globs): (r: Result<seq<nat>, CatalogError>)
    ensures r.Ok? ==> Indexes(r.value, entries)
  {
    if selectors == [] then Err(NoSelectors)
    else
      match Gathered(entries, selectors, g)
      case Err(e) => Err(e)
      case Ok(all) =>
        GatheredBelow(entries, selectors, g);
        FirstsBelow(all, |entries|);
        Ok(Firsts(all))
  }

  /** Env `get` as a whole: it succeeds exactly when the selectors resolve and every instance
      concerned serves its group, and then position i holds the reading of the i-th signal in
      the order of first occurrence. */
  method EnvGet(catalog: Catalog, selectors: seq<string>, g: Globs, w: Workers) returns (r: Result<seq<Reading>, GetError>)
    requires catalog.Valid()
    ensures r.Ok? <==>
              var wanted := Wanted(catalog.entries, selectors, g);
              wanted.Ok? && forall k :: 0 <= k < |wanted.value| ==>
                Serves(wanted.value, catalog.entries, w, Owner(wanted.value, catalog.entries, k))
    ensures r.Ok? ==>
              var wanted := Wanted(catalog.entries, selectors, g).value;
              |r.value| == |wanted| &&
              forall k :: 0 <= k < |wanted| ==> r.value[k] == ReadingAt(wanted, catalog.entries, w, k)
    ensures r != Err(BadRead(MissingValue))
  {
    hide Serves, ReadingAt, Gathered, Firsts;
    var resolved := catalog.ResolveSelectors(selectors, g);
    assert resolved == Wanted(catalog.entries, selectors, g);
    if resolved.Err? {
      return Err(BadSelectors(resolved.error));
    }
    var values := ReadEnvSignalValues(resolved.value, catalog.entries, w);
    if values.Err? {
      return Err(BadRead(values.error));
    }
    r := Ok(values.value);
  }

  /** With honest, connected instances `get` succeeds for all selectors that resolve, and
      gives each signal's own value. */
  lemma HonestGet(entries: seq<Entry>, selectors: seq<string>, g: Globs, w: Workers, read: (string, nat) -> Value, k: nat)
    requires Honest(w, read) && Wanted(entries, selectors, g).Ok? && k < |Wanted(entries, selectors, g).value|
    requires forall i :: 0 <= i < |entries| ==> entries[i].instance in w.names
    ensures var wanted := Wanted(entries, selectors, g).value;
            var e := entries[wanted[k]];
            && Serves(wanted, entries, w, e.instance)
            && ReadingAt(wanted, entries, w, k) == Reading(e.instance, e.localId, e.qualifiedName, read(e.instance, e.localId))
  {
    HonestReading(Wanted(entries, selectors, g).value, entries, w, read, k);
  }
}
