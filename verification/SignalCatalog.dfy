/** The env's signal catalog and its selectors (runtime/src/signal_selectors.rs). Glob
    matching is left to a parameter. */
module SignalCatalog {
  import opened Common

  datatype Entry = Entry(instance: string, localId: nat, signalName: string, qualifiedName: string)

  datatype CatalogError =
    | ReservedColon
    | BadQualifiedName
    | Duplicate
    | InvalidSelector
    | LocalId
    | NotFound
    | BadGlob
    | NoMatch
    | NoSelectors

  // ----- the order of names

  /** Byte order of strings. */
  predicate AtMost(a: string, b: string) {
    a == [] || (b != [] && (a[0] < b[0] || (a[0] == b[0] && AtMost(a[1..], b[1..]))))
  }

  lemma {:induction false} Total(a: string, b: string)
    ensures AtMost(a, b) || AtMost(b, a)
  {
    if a != [] && b != [] {
      Total(a[1..], b[1..]);
    }
  }

  lemma {:induction false} Antisymmetric(a: string, b: string)
    requires AtMost(a, b) && AtMost(b, a)
    ensures a == b
  {
    if a != [] {
      Antisymmetric(a[1..], b[1..]);
      assert a == [a[0]] + a[1..] && b == [b[0]] + b[1..];
    }
  }

  lemma {:induction false} Transitive(a: string, b: string, c: string)
    requires AtMost(a, b) && AtMost(b, c)
    ensures AtMost(a, c)
  {
    if a != [] && a[0] == b[0] == c[0] {
      Transitive(a[1..], b[1..], c[1..]);
    }
  }

  predicate Ordered(entries: seq<Entry>) {
    forall i, j :: 0 <= i < j < |entries| ==> AtMost(entries[i].qualifiedName, entries[j].qualifiedName)
  }

  predicate DistinctNames(entries: seq<Entry>) {
    forall i, j :: 0 <= i < j < |entries| ==> entries[i].qualifiedName != entries[j].qualifiedName
  }

  /** Names with a common beginning are ordered by what follows: the shorter one first if
      nothing does, otherwise by the first differing character. */
  lemma {:induction false} OrderAfterPrefix(p: string, a: string, b: string)
    ensures AtMost(p + a, p + b) <==> a == [] || (b != [] && (a[0] < b[0] || (a[0] == b[0] && AtMost(a[1..], b[1..]))))
  {
    if p == [] {
      assert p + a == a && p + b == b;
    } else {
      assert (p + a)[1..] == p[1..] + a && (p + b)[1..] == p[1..] + b;
      OrderAfterPrefix(p[1..], a, b);
    }
  }

  /** Where a new entry goes: after everything not greater. */
  method Insert(entries: seq<Entry>, e: Entry) returns (r: seq<Entry>)
    requires Ordered(entries)
    ensures Ordered(r) && multiset(r) == multiset(entries) + multiset{e}
  {
    hide AtMost;
    var i := |entries|;
    while i > 0 && !AtMost(entries[i - 1].qualifiedName, e.qualifiedName)
      invariant 0 <= i <= |entries|
      invariant forall j :: i <= j < |entries| ==> AtMost(e.qualifiedName, entries[j].qualifiedName)
    {
      Total(entries[i - 1].qualifiedName, e.qualifiedName);
      i := i - 1;
    }
    forall j | 0 <= j < i ensures AtMost(entries[j].qualifiedName, e.qualifiedName) {
      if j < i - 1 {
        Transitive(entries[j].qualifiedName, entries[i - 1].qualifiedName, e.qualifiedName);
      }
    }
    Inserted(entries, e, i);
    r := entries[..i] + [e] + entries[i..];
  }

  lemma Inserted(entries: seq<Entry>, e: Entry, i: nat)
    requires Ordered(entries) && i <= |entries|
    requires forall j :: 0 <= j < i ==> AtMost(entries[j].qualifiedName, e.qualifiedName)
    requires forall j :: i <= j < |entries| ==> AtMost(e.qualifiedName, entries[j].qualifiedName)
    ensures var r := entries[..i] + [e] + entries[i..];
            Ordered(r) && multiset(r) == multiset(entries) + multiset{e}
  {
    hide AtMost;
    assert entries == entries[..i] + entries[i..];
  }

  method Sort(entries: seq<Entry>) returns (r: seq<Entry>)
    ensures Ordered(r) && multiset(r) == multiset(entries)
  {
    r := [];
    var i := 0;
    while i < |entries|
      invariant i <= |entries| && Ordered(r) && multiset(r) == multiset(entries[..i])
    {
      r := Insert(r, entries[i]);
      assert entries[..i + 1] == entries[..i] + [entries[i]];
      i := i + 1;
    }
    assert entries[..i] == entries;
  }

  lemma FirstIsLeast(a: seq<Entry>, b: seq<Entry>)
    requires Ordered(a) && Ordered(b) && multiset(a) == multiset(b) && a != [] && b != []
    ensures AtMost(a[0].qualifiedName, b[0].qualifiedName)
  {
    assert b[0] in multiset(b);
    assert b[0] in a;
    var i :| 0 <= i < |a| && a[i] == b[0];
    if i == 0 {
      Total(a[0].qualifiedName, a[0].qualifiedName);
    }
  }

  lemma SameFirst(a: seq<Entry>, b: seq<Entry>)
    requires Ordered(a) && Ordered(b) && DistinctNames(a) && multiset(a) == multiset(b) && a != [] && b != []
    ensures a[0] == b[0]
  {
    FirstIsLeast(a, b);
    FirstIsLeast(b, a);
    Antisymmetric(a[0].qualifiedName, b[0].qualifiedName);
    assert b[0] in multiset(b);
    assert b[0] in a;
  }

  lemma Tail(a: seq<Entry>)
    requires a != [] && Ordered(a)
    ensures Ordered(a[1..]) && multiset(a[1..]) == multiset(a) - multiset{a[0]}
    ensures DistinctNames(a) ==> DistinctNames(a[1..])
  {
    assert a == [a[0]] + a[1..];
  }

  /** Distinct names have one order: the catalog does not depend on how instances were listed. */
  lemma {:induction false} OrderIsOne(a: seq<Entry>, b: seq<Entry>)
    requires Ordered(a) && Ordered(b) && DistinctNames(a) && multiset(a) == multiset(b)
    ensures a == b
  {
    hide AtMost, Ordered, DistinctNames;
    assert |a| == |multiset(a)| && |b| == |multiset(b)|;
    if a != [] {
      SameFirst(a, b);
      Tail(a);
      Tail(b);
      OrderIsOne(a[1..], b[1..]);
      assert a == [a[0]] + a[1..] && b == [b[0]] + b[1..];
    }
  }

  // ----- selectors

  datatype Globs = Globs(compiles: string -> bool, matches: (string, string) -> bool)

  predicate ContainsGlob(s: string) {
    '*' in s || '?' in s || '[' in s
  }

  /** The parts before and after the first colon. */
  function SplitOnce(s: string): (r: Option<(string, string)>)
    ensures r.None? <==> ':' !in s
    ensures r.Some? ==> ':' !in r.value.0 && s == r.value.0 + ":" + r.value.1
  {
    if s == [] then None
    else if s[0] == ':' then
      assert s == [] + ":" + s[1..];
      Some(([], s[1..]))
    else
      match SplitOnce(s[1..])
      case None => None
      case Some((a, b)) =>
        assert s == [s[0]] + s[1..];
        Some(([s[0]] + a, b))
  }

  predicate Selected(pattern: string, value: string, g: Globs) {
    if ContainsGlob(pattern) then g.matches(pattern, value) else value == pattern
  }

  /** A linear scan of the first n entries. */
  function Scan(entries: seq<Entry>, instance: string, signal: string, g: Globs, n: nat): seq<nat>
    requires n <= |entries|
  {
    if n == 0 then []
    else
      Scan(entries, instance, signal, g, n - 1)
      + (if Selected(instance, entries[n - 1].instance, g) && Selected(signal, entries[n - 1].signalName, g)
         then [n - 1] else [])
  }

  function FindName(entries: seq<Entry>, name: string, n: nat): Option<nat>
    requires n <= |entries|
  {
    if n == 0 then None
    else if entries[n - 1].qualifiedName == name then Some(n - 1)
    else FindName(entries, name, n - 1)
  }

  function Resolved(entries: seq<Entry>, selector: string, g: Globs): Result<seq<nat>, CatalogError> {
    if selector == "*" then Ok(seq(|entries|, i => i))
    else
      match SplitOnce(selector)
      case None => Err(InvalidSelector)
      case Some((instance, signal)) =>
        if instance == "" || signal == "" then Err(InvalidSelector)
        else if signal[0] == '#' then Err(LocalId)
        else if !ContainsGlob(instance) && !ContainsGlob(signal) then
          match FindName(entries, instance + ":" + signal, |entries|)
          case None => Err(NotFound)
          case Some(i) => Ok([i])
        else if ContainsGlob(instance) && !g.compiles(instance) then Err(BadGlob)
        else if ContainsGlob(signal) && !g.compiles(signal) then Err(BadGlob)
        else
          var out := Scan(entries, instance, signal, g, |entries|);
          if out == [] then Err(NoMatch) else Ok(out)
  }

  lemma {:induction false} NameAt(entries: seq<Entry>, i: nat, n: nat)
    requires DistinctNames(entries) && i < n <= |entries|
    ensures FindName(entries, entries[i].qualifiedName, n) == Some(i)
    decreases n
  {
    if i < n - 1 {
      NameAt(entries, i, n - 1);
    }
  }

  lemma NameFound(entries: seq<Entry>, i: nat)
    requires DistinctNames(entries) && i < |entries|
    ensures FindName(entries, entries[i].qualifiedName, |entries|) == Some(i)
  {
    NameAt(entries, i, |entries|);
  }

  lemma {:induction false} NoName(entries: seq<Entry>, name: string, n: nat)
    requires n <= |entries| && forall i :: 0 <= i < n ==> entries[i].qualifiedName != name
    ensures FindName(entries, name, n) == None
    decreases n
  {
    if n > 0 {
      NoName(entries, name, n - 1);
    }
  }

  lemma NameMissing(entries: seq<Entry>, name: string)
    requires forall i :: 0 <= i < |entries| ==> entries[i].qualifiedName != name
    ensures FindName(entries, name, |entries|) == None
  {
    NoName(entries, name, |entries|);
  }

  /** The names the env gives its entries: instance, colon, signal, and no colon in the instance. */
  predicate WellNamed(e: Entry) {
    e.qualifiedName == e.instance + ":" + e.signalName && ':' !in e.instance
  }

  lemma FirstColon(a: string, b: string)
    requires ':' !in a
    ensures var s := a + ":" + b;
            s[|a|] == ':' && s[..|a|] == a && s[|a| + 1..] == b && forall k :: 0 <= k < |a| ==> s[k] != ':'
  {
    assert forall k :: 0 <= k < |a| ==> a[k] in a;
  }

  lemma SplitIsUnique(a: string, b: string, c: string, d: string)
    requires ':' !in a && ':' !in c && a + ":" + b == c + ":" + d
    ensures a == c && b == d
  {
    FirstColon(a, b);
    FirstColon(c, d);
  }

  /** For well-named entries, naming one signal exactly finds what a linear scan of instances
      and signals finds. */
  lemma {:induction false} ExactIsScan(entries: seq<Entry>, instance: string, signal: string, g: Globs, n: nat)
    requires DistinctNames(entries) && n <= |entries| && forall i :: 0 <= i < |entries| ==> WellNamed(entries[i])
    requires ':' !in instance && !ContainsGlob(instance) && !ContainsGlob(signal)
    ensures Scan(entries, instance, signal, g, n) == AsScan(FindName(entries, instance + ":" + signal, n))
    decreases n
  {
    if n > 0 {
      var e := entries[n - 1];
      ExactIsScan(entries, instance, signal, g, n - 1);
      if e.qualifiedName == instance + ":" + signal {
        SplitIsUnique(e.instance, e.signalName, instance, signal);
        NoName(entries, e.qualifiedName, n - 1);
        assert [] + [n - 1] == [n - 1];
      }
    }
  }

  // ----- exactly when exact lookup and scan agree

  /** The selectors that name one signal: the parts a selector without globs can have. */
  predicate ExactParts(instance: string, signal: string) {
    && instance != "" && signal != "" && signal[0] != '#' && ':' !in instance
    && !ContainsGlob(instance) && !ContainsGlob(signal)
  }

  function AsScan(found: Option<nat>): seq<nat> {
    match found
    case None => []
    case Some(i) => [i]
  }

  /** For every exact selector, the lookup by name finds what a scan finds. */
  ghost predicate LookupIsScan(entries: seq<Entry>, g: Globs) {
    forall instance, signal :: ExactParts(instance, signal) ==> PartsAgree(entries, instance, signal, g)
  }

  predicate PartsAgree(entries: seq<Entry>, instance: string, signal: string, g: Globs) {
    Scan(entries, instance, signal, g, |entries|) == AsScan(FindName(entries, instance + ":" + signal, |entries|))
  }

  /** No exact selector names the entry, neither by its parts nor by its qualified name. */
  predicate OutOfReach(e: Entry) {
    && !ExactParts(e.instance, e.signalName)
    && match SplitOnce(e.qualifiedName)
       case None => true
       case Some((instance, signal)) => !ExactParts(instance, signal)
  }

  predicate Harmless(e: Entry) {
    WellNamed(e) || OutOfReach(e)
  }

  /** A name is found where some entry has it. */
  lemma {:induction false} FoundHasName(entries: seq<Entry>, name: string, n: nat)
    requires n <= |entries|
    ensures FindName(entries, name, n).Some? ==>
              FindName(entries, name, n).value < n && entries[FindName(entries, name, n).value].qualifiedName == name
    ensures FindName(entries, name, n).None? ==> forall i :: 0 <= i < n ==> entries[i].qualifiedName != name
    decreases n
  {
    if n > 0 {
      FoundHasName(entries, name, n - 1);
    }
  }

  lemma SplitOf(instance: string, signal: string)
    requires ':' !in instance
    ensures SplitOnce(instance + ":" + signal) == Some((instance, signal))
  {
    var s := instance + ":" + signal;
    assert s[|instance|] == ':';
    var parts := SplitOnce(s).value;
    SplitIsUnique(parts.0, parts.1, instance, signal);
  }

  /** An entry an exact selector names by its parts is named by it in full as well, and the
      other way round, exactly when the entry is harmless. */
  lemma HarmlessMeans(e: Entry, instance: string, signal: string)
    requires Harmless(e) && ExactParts(instance, signal)
    ensures e.instance == instance && e.signalName == signal <==> e.qualifiedName == instance + ":" + signal
  {
    SplitOf(instance, signal);
    if WellNamed(e) && e.qualifiedName == instance + ":" + signal {
      SplitIsUnique(e.instance, e.signalName, instance, signal);
    }
  }

  lemma {:induction false} HarmlessAgree(entries: seq<Entry>, instance: string, signal: string, g: Globs, n: nat)
    requires DistinctNames(entries) && n <= |entries| && ExactParts(instance, signal)
    requires forall i :: 0 <= i < |entries| ==> Harmless(entries[i])
    ensures Scan(entries, instance, signal, g, n) == AsScan(FindName(entries, instance + ":" + signal, n))
    decreases n
  {
    if n > 0 {
      var e := entries[n - 1];
      HarmlessAgree(entries, instance, signal, g, n - 1);
      HarmlessMeans(e, instance, signal);
      if e.qualifiedName == instance + ":" + signal {
        NoName(entries, e.qualifiedName, n - 1);
        assert [] + [n - 1] == [n - 1];
      }
    }
  }

  /** An entry that is not harmless is told apart by an exact selector. */
  lemma HarmfulTellsApart(entries: seq<Entry>, i: nat, g: Globs)
    requires DistinctNames(entries) && i < |entries| && !Harmless(entries[i])
    ensures !LookupIsScan(entries, g)
  {
    var e := entries[i];
    if ExactParts(e.instance, e.signalName) {
      ScanFindsAll(entries, e.instance, e.signalName, g, |entries|, i);
      FoundHasName(entries, e.instance + ":" + e.signalName, |entries|);
      assert !PartsAgree(entries, e.instance, e.signalName, g);
    } else {
      var (instance, signal) := SplitOnce(e.qualifiedName).value;
      NameFound(entries, i);
      ScanFindsAll(entries, instance, signal, g, |entries|, i);
      assert e.qualifiedName == instance + ":" + signal;
      assert i in AsScan(FindName(entries, instance + ":" + signal, |entries|));
      assert !PartsAgree(entries, instance, signal, g);
    }
  }

  /** Exact lookup and scan agree on every exact selector exactly when each entry either is
      named instance, colon, signal with no colon in the instance, or is out of reach of
      exact selectors altogether. */
  lemma LookupIsScanIff(entries: seq<Entry>, g: Globs)
    requires DistinctNames(entries)
    ensures LookupIsScan(entries, g) <==> forall i :: 0 <= i < |entries| ==> Harmless(entries[i])
  {
    if forall i :: 0 <= i < |entries| ==> Harmless(entries[i]) {
      forall instance, signal | ExactParts(instance, signal) ensures PartsAgree(entries, instance, signal, g) {
        HarmlessAgree(entries, instance, signal, g, |entries|);
      }
    } else {
      var i :| 0 <= i < |entries| && !Harmless(entries[i]);
      HarmfulTellsApart(entries, i, g);
    }
  }

  /** No entry that `build` takes is found by a scan for a signal with a colon, whatever its
      instance; only its name can be looked up. */
  lemma {:induction false} ColonNeverScanned(entries: seq<Entry>, instance: string, signal: string, g: Globs, n: nat)
    requires n <= |entries| && forall i :: 0 <= i < |entries| ==> Acceptable(entries[i])
    requires ':' in signal && !ContainsGlob(signal)
    ensures Scan(entries, instance, signal, g, n) == []
    decreases n
  {
    if n > 0 {
      ColonNeverScanned(entries, instance, signal, g, n - 1);
      assert entries[n - 1].signalName != signal;
    }
  }

  /** Whenever a colon is left in the signal part of a qualified name, that is, with a colon
      in the instance name or in what follows it, the selector that spells the name finds the
      entry and no scan for its parts does. */
  lemma ColonInInstance(entries: seq<Entry>, i: nat, instance: string, signal: string, g: Globs)
    requires DistinctNames(entries) && i < |entries| && forall j :: 0 <= j < |entries| ==> Acceptable(entries[j])
    requires entries[i].qualifiedName == instance + ":" + signal && ':' in signal && ExactParts(instance, signal)
    ensures Resolved(entries, entries[i].qualifiedName, g) == Ok([i])
    ensures Scan(entries, instance, signal, g, |entries|) == []
  {
    var name := entries[i].qualifiedName;
    assert name[|instance|] == ':';
    SplitOf(instance, signal);
    NameFound(entries, i);
    ColonNeverScanned(entries, instance, signal, g, |entries|);
    hide SplitOnce, FindName, Scan, DistinctNames;
  }

  /** Entries that `build` takes and that are not harmless: one with a colon in its instance. */
  lemma HarmfulColonExample(e: Entry)
    requires e == Entry("a:b", 0, "c", "a:b:c")
    ensures Acceptable(e) && !Harmless(e)
  {
    assert e.qualifiedName[..3] == e.instance;
    ReachedByName(e, "a", "b:c");
  }

  lemma ReachedByName(e: Entry, instance: string, signal: string)
    requires e.qualifiedName == instance + ":" + signal && ExactParts(instance, signal) && ':' in e.instance
    ensures !Harmless(e)
  {
    SplitOf(instance, signal);
    hide SplitOnce;
  }

  /** And one without, whose qualified name does not end in its own signal name. */
  lemma HarmfulNameExample(e: Entry)
    requires e == Entry("a", 0, "y", "a:x")
    ensures Acceptable(e) && !Harmless(e)
  {
    assert e.qualifiedName[..1] == e.instance;
    hide SplitOnce;
    assert e.instance + ":" + e.signalName == "a:y";
    assert e.qualifiedName[2] == 'x' && "a:y"[2] == 'y';
    assert ExactParts(e.instance, e.signalName);
  }

  /** A scan returns exactly the matching entries. */
  lemma {:induction false} ScanFindsAll(entries: seq<Entry>, instance: string, signal: string, g: Globs, n: nat, i: nat)
    requires n <= |entries|
    ensures i in Scan(entries, instance, signal, g, n) <==>
            i < n && Selected(instance, entries[i].instance, g) && Selected(signal, entries[i].signalName, g)
    decreases n
  {
    if n > 0 {
      ScanFindsAll(entries, instance, signal, g, n - 1, i);
    }
  }

  /** Every element lies below the bound, and they ascend. */
  predicate AscendsBelow(xs: seq<nat>, bound: nat) {
    && (forall i :: 0 <= i < |xs| ==> xs[i] < bound)
    && (forall i, j :: 0 <= i < j < |xs| ==> xs[i] < xs[j])
  }

  /** The indices of a scan ascend, so none is repeated. */
  lemma {:induction false} ScanAscends(entries: seq<Entry>, instance: string, signal: string, g: Globs, n: nat)
    requires n <= |entries|
    ensures AscendsBelow(Scan(entries, instance, signal, g, n), n)
    decreases n
  {
    if n > 0 {
      ScanAscends(entries, instance, signal, g, n - 1);
      AscendsFurther(Scan(entries, instance, signal, g, n - 1), n - 1);
    }
  }

  lemma AscendsFurther(xs: seq<nat>, bound: nat)
    requires AscendsBelow(xs, bound)
    ensures AscendsBelow(xs + [bound], bound + 1) && AscendsBelow(xs + [], bound + 1)
  {
    assert xs + [] == xs;
  }

  // ----- what a selector stands for

  predicate Plain(s: string) {
    '*' !in s && '?' !in s && '[' !in s
  }

  /** A part of a selector names its own text, or what its pattern matches. */
  predicate Names(part: string, value: string, g: Globs) {
    if Plain(part) then part == value else g.matches(part, value)
  }

  lemma NamesIsSelected(part: string, value: string, g: Globs)
    ensures Names(part, value, g) <==> Selected(part, value, g)
    ensures Plain(part) <==> !ContainsGlob(part)
  {
  }

  /** A star alone stands for all entries in their order; other text without a colon for none. */
  lemma WholeSelector(entries: seq<Entry>, selector: string, g: Globs)
    requires ':' !in selector
    ensures selector == "*" ==> Resolved(entries, selector, g).Ok? && |Resolved(entries, selector, g).value| == |entries|
                                && forall i :: 0 <= i < |entries| ==> Resolved(entries, selector, g).value[i] == i
    ensures selector != "*" ==> Resolved(entries, selector, g) == Err(InvalidSelector)
  {
    hide SplitOnce;
  }

  /** What is wrong with a selector in two parts, told before anything is looked up. */
  function Malformed(instance: string, signal: string): Option<CatalogError> {
    if instance == "" || signal == "" then Some(InvalidSelector)
    else if signal[0] == '#' then Some(LocalId)
    else None
  }

  /** Two plain parts name the one entry with that qualified name, if there is one. */
  lemma PlainSelector(entries: seq<Entry>, instance: string, signal: string, g: Globs)
    requires ':' !in instance && Plain(instance) && Plain(signal)
    ensures var r, name := Resolved(entries, instance + ":" + signal, g), instance + ":" + signal;
            match Malformed(instance, signal)
            case Some(error) => r == Err(error)
            case None =>
              match r
              case Ok(found) => |found| == 1 && found[0] < |entries| && entries[found[0]].qualifiedName == name
              case Err(error) => error == NotFound && forall i :: 0 <= i < |entries| ==> entries[i].qualifiedName != name
  {
    NotAStar(instance, signal);
    SplitOf(instance, signal);
    FoundHasName(entries, instance + ":" + signal, |entries|);
    NamesIsSelected(instance, "", g);
    NamesIsSelected(signal, "", g);
    hide SplitOnce, FindName, Plain, ContainsGlob;
  }

  lemma NotAStar(instance: string, signal: string)
    ensures instance + ":" + signal != "*"
  {
    assert (instance + ":" + signal)[|instance|] == ':';
  }

  predicate Bad(part: string, g: Globs) {
    !Plain(part) && !g.compiles(part)
  }

  /** With a pattern in either part, a selector stands for exactly the entries whose instance
      and signal the parts name, in ascending order, and for an error if a pattern is bad or
      nothing is named. */
  lemma PatternSelector(entries: seq<Entry>, instance: string, signal: string, g: Globs)
    requires ':' !in instance && !(Plain(instance) && Plain(signal)) && Malformed(instance, signal).None?
    ensures var r := Resolved(entries, instance + ":" + signal, g);
            && (r == Err(BadGlob) <==> Bad(instance, g) || Bad(signal, g))
            && (r.Err? ==> r.error == BadGlob || r.error == NoMatch)
            && (r == Err(NoMatch) ==> forall i :: 0 <= i < |entries| ==> !(NamedBy(entries[i], instance, signal, g)))
            && (r.Ok? ==> AscendsBelow(r.value, |entries|) && r.value != []
                          && forall i: nat :: i in r.value <==> i < |entries| && NamedBy(entries[i], instance, signal, g))
  {
    NotAStar(instance, signal);
    SplitOf(instance, signal);
    NamesIsSelected(instance, "", g);
    NamesIsSelected(signal, "", g);
    ScanAscends(entries, instance, signal, g, |entries|);
    var found := Scan(entries, instance, signal, g, |entries|);
    forall i: nat ensures i in found <==> i < |entries| && NamedBy(entries[i], instance, signal, g) {
      ScanFindsAll(entries, instance, signal, g, |entries|, i);
      if i < |entries| {
        NamesIsSelected(instance, entries[i].instance, g);
        NamesIsSelected(signal, entries[i].signalName, g);
      }
    }
    hide SplitOnce, Scan, FindName, Plain, ContainsGlob, NamedBy, AscendsBelow;
  }

  predicate NamedBy(e: Entry, instance: string, signal: string, g: Globs) {
    Names(instance, e.instance, g) && Names(signal, e.signalName, g)
  }

  // ----- several selectors

  /** The matches of all selectors, one after the other. */
  function Gathered(entries: seq<Entry>, selectors: seq<string>, g: Globs): Result<seq<nat>, CatalogError> {
    if selectors == [] then Ok([])
    else
      match Resolved(entries, selectors[0], g)
      case Err(e) => Err(e)
      case Ok(first) => Prepend(first, Gathered(entries, selectors[1..], g))
  }

  /** Several selectors stand for what each of them stands for, one after the other; the first
      that stands for an error fails them all. */
  lemma {:induction false} GatheredMeans(entries: seq<Entry>, selectors: seq<string>, g: Globs)
    ensures Gathered(entries, selectors, g).Ok? <==>
            forall k :: 0 <= k < |selectors| ==> Resolved(entries, selectors[k], g).Ok?
    ensures Gathered(entries, selectors, g).Ok? ==>
              forall x :: x in Gathered(entries, selectors, g).value <==>
                exists k :: 0 <= k < |selectors| && x in Resolved(entries, selectors[k], g).value
    ensures Gathered(entries, selectors, g).Err? ==>
              exists k :: && 0 <= k < |selectors|
                          && Resolved(entries, selectors[k], g) == Err(Gathered(entries, selectors, g).error)
                          && forall j :: 0 <= j < k ==> Resolved(entries, selectors[j], g).Ok?
  {
    hide Resolved;
    if selectors != [] {
      var first, rest := Resolved(entries, selectors[0], g), Gathered(entries, selectors[1..], g);
      GatheredMeans(entries, selectors[1..], g);
      assert forall k :: 1 <= k < |selectors| ==> selectors[k] == selectors[1..][k - 1];
      assert forall k :: 0 <= k < |selectors| - 1 ==> selectors[1..][k] == selectors[k + 1];
      if first.Ok? && rest.Ok? {
        forall x
          ensures x in Gathered(entries, selectors, g).value <==>
                  exists k :: 0 <= k < |selectors| && x in Resolved(entries, selectors[k], g).value
        {
          if x in rest.value {
            var k :| 0 <= k < |selectors[1..]| && x in Resolved(entries, selectors[1..][k], g).value;
            assert x in Resolved(entries, selectors[k + 1], g).value;
          }
        }
      } else if first.Ok? {
        var k :| && 0 <= k < |selectors[1..]| && Resolved(entries, selectors[1..][k], g) == Err(rest.error)
                 && forall j :: 0 <= j < k ==> Resolved(entries, selectors[1..][j], g).Ok?;
        assert Resolved(entries, selectors[k + 1], g) == Err(rest.error);
      }
    }
  }

  lemma GatheredNothing(first: seq<nat>)
    ensures Prepend<nat, CatalogError>(first, Ok([])) == Ok(first)
  {
    assert first + [] == first;
  }

  lemma GatherStep(entries: seq<Entry>, selectors: seq<string>, i: nat, g: Globs, done: seq<nat>)
    requires i < |selectors|
    ensures Prepend(done, Gathered(entries, selectors[i..], g)) ==
            match Resolved(entries, selectors[i], g)
            case Err(e) => Err(e)
            case Ok(now) => Prepend(done + now, Gathered(entries, selectors[i + 1..], g))
  {
    assert selectors[i..][0] == selectors[i] && selectors[i..][1..] == selectors[i + 1..];
    if Resolved(entries, selectors[i], g).Ok? {
      PrependTwice(done, Resolved(entries, selectors[i], g).value, Gathered(entries, selectors[i + 1..], g));
    }
  }

  /** Every element once, where it first occurs. */
  function Firsts(xs: seq<nat>): seq<nat>
    decreases |xs|
  {
    if xs == [] then []
    else
      var front, last := xs[..|xs| - 1], xs[|xs| - 1];
      Firsts(front) + (if last in front then [] else [last])
  }

  lemma FirstsOfNothing()
    ensures Firsts([]) == []
  {
  }

  lemma FirstsSnoc(xs: seq<nat>, x: nat)
    ensures Firsts(xs + [x]) == Firsts(xs) + (if x in xs then [] else [x])
  {
    assert (xs + [x])[..|xs|] == xs;
  }

  function FirstIndex(xs: seq<nat>, x: nat): (k: nat)
    requires x in xs
    ensures k < |xs| && xs[k] == x && forall j :: 0 <= j < k ==> xs[j] != x
  {
    if xs[0] == x then 0 else 1 + FirstIndex(xs[1..], x)
  }

  lemma FirstIndexSnoc(front: seq<nat>, last: nat, x: nat)
    requires x in front || x == last
    ensures x in front + [last]
    ensures FirstIndex(front + [last], x) == if x in front then FirstIndex(front, x) else |front|
  {
    hide FirstIndex;
    var all := front + [last];
    var k := FirstIndex(all, x);
    assert forall j :: 0 <= j < |front| ==> all[j] == front[j];
    if x in front {
      assert all[FirstIndex(front, x)] == x;
      assert k <= FirstIndex(front, x);
      assert front[k] == x;
    } else {
      assert all[|front|] == x;
      assert forall j :: 0 <= j < |front| ==> all[j] != x;
    }
  }

  /** The members of r occur in xs for the first time in the order of r. */
  predicate OccursInOrder(xs: seq<nat>, r: seq<nat>) {
    && (forall i :: 0 <= i < |r| ==> r[i] in xs)
    && (forall i, j :: 0 <= i < j < |r| ==> FirstIndex(xs, r[i]) < FirstIndex(xs, r[j]))
  }

  lemma OrderGrows(front: seq<nat>, last: nat, r: seq<nat>)
    requires OccursInOrder(front, r)
    ensures OccursInOrder(front + [last], r)
    ensures last !in front ==> OccursInOrder(front + [last], r + [last])
  {
    hide FirstIndex;
    forall i | 0 <= i < |r|
      ensures r[i] in front + [last] && FirstIndex(front + [last], r[i]) == FirstIndex(front, r[i]) < |front|
    {
      FirstIndexSnoc(front, last, r[i]);
    }
    FirstIndexSnoc(front, last, last);
  }

  lemma {:induction false} SameMembersOnce(xs: seq<nat>, x: nat)
    ensures x in Firsts(xs) <==> x in xs
    decreases |xs|
  {
    if xs != [] {
      var front, last := xs[..|xs| - 1], xs[|xs| - 1];
      SameMembersOnce(front, x);
      assert xs == front + [last];
    }
  }

  /** The result has the same elements, each once, in the order of their first occurrences. */
  lemma {:induction false} FirstsInOrder(xs: seq<nat>)
    ensures forall x :: x in Firsts(xs) <==> x in xs
    ensures forall i, j :: 0 <= i < j < |Firsts(xs)| ==>
              Firsts(xs)[i] in xs && Firsts(xs)[j] in xs && FirstIndex(xs, Firsts(xs)[i]) < FirstIndex(xs, Firsts(xs)[j])
  {
    forall x ensures x in Firsts(xs) <==> x in xs {
      SameMembersOnce(xs, x);
    }
    hide Firsts, FirstIndex;
    FirstsOrdered(xs);
  }

  lemma {:induction false} FirstsOrdered(xs: seq<nat>)
    ensures OccursInOrder(xs, Firsts(xs))
    decreases |xs|
  {
    if xs != [] {
      var front, last := xs[..|xs| - 1], xs[|xs| - 1];
      assert xs == front + [last] && Firsts(xs) == Firsts(front) + (if last in front then [] else [last]);
      FirstsOrdered(front);
      hide Firsts, OccursInOrder, FirstIndex;
      OrderGrows(front, last, Firsts(front));
      assert Firsts(front) + [] == Firsts(front);
    }
  }

  // ----- the catalog

  predicate Qualifies(e: Entry) {
    && e.instance <= e.qualifiedName
    && var rest := e.qualifiedName[|e.instance|..]; rest != [] && rest[0] == ':'
  }

  predicate Acceptable(e: Entry) {
    ':' !in e.signalName && Qualifies(e)
  }

  /** An entry is taken when its signal name has no colon and its qualified name is its
      instance, a colon, and something. */
  lemma AcceptableIff(e: Entry)
    ensures Acceptable(e) <==> ':' !in e.signalName && exists rest :: e.qualifiedName == e.instance + ":" + rest
  {
    if Qualifies(e) {
      var n := |e.instance|;
      assert e.qualifiedName == e.instance + ":" + e.qualifiedName[n..][1..];
    }
    forall rest | e.qualifiedName == e.instance + ":" + rest ensures Qualifies(e) {
      assert e.qualifiedName[|e.instance|..] == ":" + rest;
    }
  }

  class Catalog {
    var entries: seq<Entry>
    var index: map<string, nat>

    /** The index holds every name exactly where the list has it. */
    predicate Valid()
      reads this
    {
      && DistinctNames(entries) && Ordered(entries)
      && (forall i :: 0 <= i < |entries| ==> Acceptable(entries[i]))
      && (forall i :: 0 <= i < |entries| ==>
            entries[i].qualifiedName in index && index[entries[i].qualifiedName] == i)
      && (forall name :: name in index ==> index[name] < |entries| && entries[index[name]].qualifiedName == name)
    }

    constructor ()
      ensures entries == [] && index == map[]
    {
      entries, index := [], map[];
    }

    /** Accepts exactly the entry lists whose names are acceptable and distinct. */
    method Build(given: seq<Entry>) returns (r: Result<(), CatalogError>)
      modifies this
      ensures r.Ok? ==> Valid() && multiset(entries) == multiset(given)
      ensures r.Ok? <==> DistinctNames(given) && forall i :: 0 <= i < |given| ==> Acceptable(given[i])
    {
      hide AtMost, Ordered, Qualifies;
      var sorted := Sort(given);
      SameMembers(given, sorted);
      var found: map<string, nat> := map[];
      var idx := 0;
      while idx < |sorted|
        invariant idx <= |sorted| && forall i :: 0 <= i < idx ==> Acceptable(sorted[i])
        invariant forall i :: 0 <= i < idx ==> sorted[i].qualifiedName in found && found[sorted[i].qualifiedName] == i
        invariant forall name :: name in found ==> found[name] < idx && sorted[found[name]].qualifiedName == name
      {
        var e := sorted[idx];
        if ':' in e.signalName {
          return Err(ReservedColon);
        }
        if !Qualifies(e) {
          return Err(BadQualifiedName);
        }
        if e.qualifiedName in found {
          assert !DistinctNames(sorted);
          return Err(Duplicate);
        }
        found := found[e.qualifiedName := idx];
        idx := idx + 1;
      }
      forall i, j | 0 <= i < j < |sorted| ensures sorted[i].qualifiedName != sorted[j].qualifiedName {
        assert found[sorted[i].qualifiedName] == i && found[sorted[j].qualifiedName] == j;
      }
      entries, index := sorted, found;
      r := Ok(());
    }

    /** The indices a selector stands for, found through the index where it names one signal. */
    method ResolveSelectorIndices(selector: string, g: Globs) returns (r: Result<seq<nat>, CatalogError>)
      requires Valid()
      ensures r == Resolved(entries, selector, g)
    {
      hide AtMost, Acceptable;
      if selector == "*" {
        return Ok(seq(|entries|, i => i));
      }
      var parts := SplitOnce(selector);
      if parts.None? {
        return Err(InvalidSelector);
      }
      var (instance, signal) := parts.value;
      if instance == "" || signal == "" {
        return Err(InvalidSelector);
      }
      if signal[0] == '#' {
        return Err(LocalId);
      }
      if !ContainsGlob(instance) && !ContainsGlob(signal) {
        var qualified := instance + ":" + signal;
        if qualified in index {
          NameFound(entries, index[qualified]);
          return Ok([index[qualified]]);
        }
        NameMissing(entries, qualified);
        return Err(NotFound);
      }
      if ContainsGlob(instance) && !g.compiles(instance) {
        return Err(BadGlob);
      }
      if ContainsGlob(signal) && !g.compiles(signal) {
        return Err(BadGlob);
      }
      var out := [];
      var idx := 0;
      while idx < |entries|
        invariant idx <= |entries| && out == Scan(entries, instance, signal, g, idx)
      {
        if Selected(instance, entries[idx].instance, g) && Selected(signal, entries[idx].signalName, g) {
          out := out + [idx];
        }
        idx := idx + 1;
      }
      r := if out == [] then Err(NoMatch) else Ok(out);
    }

    /** All selectors, each signal once, at its first occurrence. */
    method ResolveSelectors(selectors: seq<string>, g: Globs) returns (r: Result<seq<nat>, CatalogError>)
      requires Valid()
      ensures r == if selectors == [] then Err(NoSelectors)
                   else match Gathered(entries, selectors, g)
                        case Err(e) => Err(e)
                        case Ok(all) => Ok(Firsts(all))
    {
      hide Resolved, AtMost, Prepend, Firsts;
      if selectors == [] {
        return Err(NoSelectors);
      }
      FirstsOfNothing();
      var resolved: seq<nat> := [];
      var seen: set<nat> := {};
      ghost var all: seq<nat> := [];
      var i := 0;
      PrependTwice([], [], Gathered(entries, selectors, g));
      assert selectors[0..] == selectors;
      while i < |selectors|
        invariant i <= |selectors| && resolved == Firsts(all) && (forall x :: x in seen <==> x in all)
        invariant Gathered(entries, selectors, g) == Prepend(all, Gathered(entries, selectors[i..], g))
      {
        GatherStep(entries, selectors, i, g, all);
        var indices := ResolveSelectorIndices(selectors[i], g);
        if indices.Err? {
          return Err(indices.error);
        }
        ghost var before := all;
        var k := 0;
        while k < |indices.value|
          invariant k <= |indices.value| && all == before + indices.value[..k]
          invariant resolved == Firsts(all) && forall x :: x in seen <==> x in all
        {
          var index := indices.value[k];
          FirstsSnoc(all, index);
          if index !in seen {
            seen := seen + {index};
            resolved := resolved + [index];
          }
          assert indices.value[..k + 1] == indices.value[..k] + [index];
          all := all + [index];
          k := k + 1;
        }
        assert indices.value[..k] == indices.value;
        i := i + 1;
      }
      assert selectors[i..] == [];
      GatheredNothing(all);
      r := Ok(resolved);
    }
  }

  lemma SameMembers(a: seq<Entry>, b: seq<Entry>)
    requires multiset(a) == multiset(b)
    ensures (forall i :: 0 <= i < |a| ==> Acceptable(a[i])) <==> (forall i :: 0 <= i < |b| ==> Acceptable(b[i]))
    ensures DistinctNames(a) <==> DistinctNames(b)
  {
    Members(a, b);
    Members(b, a);
    DistinctIff(a);
    DistinctIff(b);
  }

  lemma Members(a: seq<Entry>, b: seq<Entry>)
    requires multiset(a) == multiset(b)
    ensures (forall i :: 0 <= i < |a| ==> Acceptable(a[i])) ==> forall i :: 0 <= i < |b| ==> Acceptable(b[i])
  {
    forall i | 0 <= i < |b| ensures b[i] in a {
      assert b[i] in multiset(b);
    }
  }

  /** Distinctness, said of the members and their counts. */
  predicate DistinctMembers(m: multiset<Entry>) {
    (forall e :: e in m ==> m[e] == 1) && forall e, f :: e in m && f in m && e != f ==> e.qualifiedName != f.qualifiedName
  }

  lemma TwiceCounts(s: seq<Entry>, i: nat, j: nat)
    requires i < j < |s| && s[i] == s[j]
    ensures multiset(s)[s[i]] >= 2
  {
    assert s == s[..j] + [s[j]] + s[j + 1..];
    assert s[..j][i] in multiset(s[..j]);
  }

  lemma CountsTwice(s: seq<Entry>, e: Entry)
    requires multiset(s)[e] >= 2
    ensures exists i, j :: 0 <= i < j < |s| && s[i] == e && s[j] == e
  {
    assert e in s;
    var i :| 0 <= i < |s| && s[i] == e;
    var before, after := s[..i], s[i + 1..];
    assert s == before + [e] + after;
    if e in multiset(before) {
      var j :| 0 <= j < |before| && before[j] == e;
      assert s[j] == e && j < i;
    } else {
      assert e in multiset(after);
      var j :| 0 <= j < |after| && after[j] == e;
      assert s[i + 1 + j] == e;
    }
  }

  lemma DistinctIff(s: seq<Entry>)
    ensures DistinctNames(s) <==> DistinctMembers(multiset(s))
  {
    if DistinctNames(s) {
      forall e | e in multiset(s) ensures multiset(s)[e] == 1 {
        if multiset(s)[e] >= 2 {
          CountsTwice(s, e);
        }
      }
      forall e, f | e in multiset(s) && f in multiset(s) && e != f ensures e.qualifiedName != f.qualifiedName {
        assert e in s && f in s;
      }
    }
    if DistinctMembers(multiset(s)) {
      forall i, j | 0 <= i < j < |s| ensures s[i].qualifiedName != s[j].qualifiedName {
        assert s[i] in multiset(s) && s[j] in multiset(s);
        if s[i] == s[j] {
          TwiceCounts(s, i, j);
        }
      }
    }
  }
}
