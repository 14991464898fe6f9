/** Commit paths of nxextract.py: what the tests on strings say about path components. */
module InstallPaths {
  import opened Wrappers

  type Path = seq<string>

  // ---- value.split("/") and "/".join(parts) ----

  function Split(s: string): (parts: Path)
    ensures parts != []
  {
    if s == "" then [""]
    else
      var rest := Split(s[1..]);
      if s[0] == '/' then [""] + rest else [[s[0]] + rest[0]] + rest[1..]
  }

  function Join(parts: Path): string
    requires parts != []
  {
    if |parts| == 1 then parts[0] else parts[0] + "/" + Join(parts[1..])
  }

  lemma JoinMore(part: string, rest: Path)
    requires rest != []
    ensures Join([part] + rest) == part + "/" + Join(rest)
  {
    assert ([part] + rest)[1..] == rest;
  }

  lemma JoinInto(front: string, rest: Path)
    requires rest != []
    ensures Join([front + rest[0]] + rest[1..]) == front + Join(rest)
  {
    if |rest| > 1 {
      JoinMore(front + rest[0], rest[1..]);
    }
  }

  lemma {:induction false} JoinSplit(s: string)
    ensures Join(Split(s)) == s
  {
    if s != "" {
      hide Split, Join;
      JoinSplit(s[1..]);
      SplitUnfolds(s);
      var rest := Split(s[1..]);
      assert s == [s[0]] + s[1..];
      if s[0] == '/' {
        JoinMore("", rest);
      } else {
        JoinInto([s[0]], rest);
      }
    }
  }

  lemma SplitUnfolds(s: string)
    requires s != ""
    ensures var rest := Split(s[1..]);
            Split(s) == if s[0] == '/' then [""] + rest else [[s[0]] + rest[0]] + rest[1..]
  {
  }

  /** A separator splits a string into the parts before it and the parts after it. */
  lemma {:induction false} SplitAt(a: string, b: string)
    ensures Split(a + "/" + b) == Split(a) + Split(b)
  {
    hide Split;
    var s := a + "/" + b;
    SplitUnfolds(s);
    if a == "" {
      assert s[1..] == b;
      SplitEmpty(a);
    } else {
      SplitUnfolds(a);
      SplitAt(a[1..], b);
      assert s[1..] == a[1..] + "/" + b && s[0] == a[0];
      Regroup(Split(a[1..]), Split(b));
    }
  }

  lemma SplitEmpty(s: string)
    requires s == ""
    ensures Split(s) == [""]
  {
  }

  lemma Regroup(a: Path, b: Path)
    requires a != []
    ensures (a + b)[0] == a[0] && (a + b)[1..] == a[1..] + b
  {
  }

  lemma {:induction false} JoinBoth(a: Path, b: Path)
    requires a != [] && b != []
    ensures Join(a + b) == Join(a) + "/" + Join(b)
  {
    if |a| == 1 {
      assert (a + b)[1..] == b;
    } else {
      JoinBoth(a[1..], b);
      assert (a + b)[1..] == a[1..] + b;
    }
  }

  predicate StartsWith(s: string, prefix: string) {
    |prefix| <= |s| && s[..|prefix|] == prefix
  }

  predicate ProperPrefix(a: Path, b: Path) {
    |a| < |b| && b[..|a|] == a
  }

  /** left.startswith(right + "/") tests whether left lies below right. */
  lemma BelowMeansPrefix(left: string, right: string)
    ensures StartsWith(left, right + "/") <==> ProperPrefix(Split(right), Split(left))
  {
    if StartsWith(left, right + "/") {
      var rest := left[|right| + 1..];
      assert left == right + "/" + rest;
      SplitAt(right, rest);
    }
    if ProperPrefix(Split(right), Split(left)) {
      var rest := Split(left)[|Split(right)|..];
      assert Split(left) == Split(right) + rest;
      JoinBoth(Split(right), rest);
      JoinSplit(left);
      JoinSplit(right);
    }
  }

  lemma SplitInjective(left: string, right: string)
    ensures left == right <==> Split(left) == Split(right)
  {
    JoinSplit(left);
    JoinSplit(right);
  }

  // ---- validate_relative_path and _expand_commit_paths ----

  predicate PlainText(s: string) {
    forall i :: 0 <= i < |s| ==> s[i] != '\\' && s[i] as int >= 32
  }

  predicate ValidRelative(s: string) {
    && PlainText(s) && s != "" && s[0] != '/'
    && forall part :: part in Split(s) ==> part != "" && part != "." && part != ".."
  }

  predicate Overlap(left: string, right: string) {
    left == right || StartsWith(left, right + "/") || StartsWith(right, left + "/")
  }

  /** No path is another, or lies below another. */
  ghost predicate PrefixFree(paths: seq<Path>) {
    forall i, j :: 0 <= i < |paths| && 0 <= j < |paths| && i != j ==> !(paths[i] <= paths[j])
  }

  function SplitAll(values: seq<string>): (paths: seq<Path>)
    ensures |paths| == |values|
  {
    seq(|values|, i requires 0 <= i < |values| => Split(values[i]))
  }

  lemma OverlapMeansPrefix(left: string, right: string)
    ensures Overlap(left, right) <==> Split(left) <= Split(right) || Split(right) <= Split(left)
  {
    BelowMeansPrefix(left, right);
    BelowMeansPrefix(right, left);
    SplitInjective(left, right);
  }

  /** The expanded paths are accepted if and only if all are valid and no two overlap as component lists. */
  method ExpandCommitPaths(values: seq<string>) returns (paths: Option<seq<Path>>)
    ensures paths.Some? <==> (forall i :: 0 <= i < |values| ==> ValidRelative(values[i])) && PrefixFree(SplitAll(values))
    ensures paths.Some? ==> paths.value == SplitAll(values)
  {
    var k := 0;
    while k < |values|
      invariant k <= |values|
      invariant forall i :: 0 <= i < k ==> ValidRelative(values[i])
    {
      if !ValidRelative(values[k]) {
        return None;
      }
      k := k + 1;
    }
    var index := 0;
    while index < |values|
      invariant index <= |values|
      invariant forall i, j :: 0 <= i < index && i < j < |values| ==> !Overlap(values[i], values[j])
    {
      var other := index + 1;
      while other < |values|
        invariant index < other <= |values|
        invariant forall j :: index < j < other ==> !Overlap(values[index], values[j])
      {
        if Overlap(values[index], values[other]) {
          OverlapMeansPrefix(values[index], values[other]);
          assert SplitAll(values)[index] == Split(values[index]) && SplitAll(values)[other] == Split(values[other]);
          return None;
        }
        other := other + 1;
      }
      index := index + 1;
    }
    NoOverlap(values);
    paths := Some(SplitAll(values));
  }

  lemma NoOverlap(values: seq<string>)
    requires forall i, j :: 0 <= i < j < |values| ==> !Overlap(values[i], values[j])
    ensures PrefixFree(SplitAll(values))
  {
    var paths := SplitAll(values);
    forall i, j | 0 <= i < |paths| && 0 <= j < |paths| && i != j
      ensures !(paths[i] <= paths[j])
    {
      OverlapMeansPrefix(values[if i < j then i else j], values[if i < j then j else i]);
    }
  }

  // ---- _under_any_commit ----

  predicate UnderCommit(destination: string, root: string) {
    destination == root || StartsWith(destination, root + "/")
  }

  method UnderAnyCommit(destination: string, roots: seq<string>) returns (under: bool)
    ensures under <==> exists i :: 0 <= i < |roots| && Split(roots[i]) <= Split(destination)
  {
    var k := 0;
    while k < |roots|
      invariant k <= |roots|
      invariant forall i :: 0 <= i < k ==> !(Split(roots[i]) <= Split(destination))
    {
      UnderMeansPrefix(destination, roots[k]);
      if UnderCommit(destination, roots[k]) {
        return true;
      }
      k := k + 1;
    }
    under := false;
  }

  lemma UnderMeansPrefix(destination: string, root: string)
    ensures UnderCommit(destination, root) <==> Split(root) <= Split(destination)
  {
    BelowMeansPrefix(destination, root);
    SplitInjective(destination, root);
  }

  /** Two roots of one destination are the same. */
  lemma OneRoot(paths: seq<Path>, i: nat, j: nat, destination: Path)
    requires PrefixFree(paths) && i < |paths| && j < |paths|
    requires paths[i] <= destination && paths[j] <= destination
    ensures i == j
  {
    Comparable(paths[i], paths[j], destination);
  }

  lemma Comparable(a: Path, b: Path, below: Path)
    requires a <= below && b <= below
    ensures a <= b || b <= a
  {
    assert a == below[..|a|] && b == below[..|b|];
  }

  // ---- build_plan_for ----

  /** A selected item: where it goes, that without letter case, and what it is. */
  datatype Planned = Planned(destination: string, folded: string, identity: int)

  /** Exactly one commit path lies at or above the destination. */
  ghost predicate HasOneRoot(paths: seq<Path>, destination: string) {
    exists i :: 0 <= i < |paths| && paths[i] <= Split(destination)
      && forall j :: 0 <= j < |paths| && paths[j] <= Split(destination) ==> j == i
  }

  ghost predicate SomeRoot(values: seq<string>, destination: string) {
    exists i :: 0 <= i < |values| && Split(values[i]) <= Split(destination)
  }

  /** No two items go to one place, but for letter case, unless they are the same. */
  predicate Compatible(items: seq<Planned>) {
    forall i, j :: 0 <= i < j < |items| && items[i].folded == items[j].folded ==> items[i].identity == items[j].identity
  }

  predicate Places(items: seq<Planned>, folded: string) {
    exists i :: 0 <= i < |items| && items[i].folded == folded
  }

  /** The first item for every place, in order. */
  function Firsts(items: seq<Planned>): seq<Planned> {
    if items == [] then []
    else
      var before, last := Firsts(items[..|items| - 1]), items[|items| - 1];
      if Places(before, last.folded) then before else before + [last]
  }

  lemma {:induction false} FirstsPlace(items: seq<Planned>)
    ensures forall i :: 0 <= i < |Firsts(items)| ==> Firsts(items)[i] in items
    ensures forall i, j :: 0 <= i < j < |Firsts(items)| ==> Firsts(items)[i].folded != Firsts(items)[j].folded
    ensures forall i :: 0 <= i < |items| ==> Places(Firsts(items), items[i].folded)
    ensures items != [] ==> Firsts(items) != []
  {
    if items != [] {
      var front, last := items[..|items| - 1], items[|items| - 1];
      FirstsPlace(front);
      var before, all := Firsts(front), Firsts(items);
      assert last in items && forall x :: x in front ==> x in items;
      if !Places(before, last.folded) {
        assert all[|before|].folded == last.folded;
      }
      forall i | 0 <= i < |items|
        ensures Places(all, items[i].folded)
      {
        if i < |items| - 1 {
          assert front[i] == items[i];
          var k :| 0 <= k < |before| && before[k].folded == front[i].folded;
          assert all[k] == before[k];
        }
      }
    }
  }

  /** The dictionary of the items done so far, which holds what each place is for. */
  predicate Recorded(destinations: map<string, int>, done: seq<Planned>) {
    && (forall f :: f in destinations ==> Places(done, f))
    && (forall j :: 0 <= j < |done| ==>
          done[j].folded in destinations && destinations[done[j].folded] == done[j].identity)
  }

  lemma FirstsNext(done: seq<Planned>, item: Planned)
    ensures Firsts(done + [item]) == if Places(done, item.folded) then Firsts(done) else Firsts(done) + [item]
  {
    assert (done + [item])[..|done|] == done;
    FirstsPlace(done);
    if Places(Firsts(done), item.folded) {
      var i :| 0 <= i < |Firsts(done)| && Firsts(done)[i].folded == item.folded;
      assert Firsts(done)[i] in done;
    }
    if Places(done, item.folded) {
      var i :| 0 <= i < |done| && done[i].folded == item.folded;
      assert Places(Firsts(done), done[i].folded);
    }
  }

  lemma RecordedNext(destinations: map<string, int>, done: seq<Planned>, item: Planned)
    requires Recorded(destinations, done)
    ensures item.folded in destinations <==> Places(done, item.folded)
    ensures item.folded !in destinations ==> Recorded(destinations[item.folded := item.identity], done + [item])
    ensures item.folded in destinations && destinations[item.folded] == item.identity ==> Recorded(destinations, done + [item])
    ensures item.folded in destinations && destinations[item.folded] != item.identity ==> !Compatible(done + [item])
  {
    var more := done + [item];
    forall f
      ensures Places(more, f) <==> Places(done, f) || f == item.folded
    {
      if Places(done, f) {
        var i :| 0 <= i < |done| && done[i].folded == f;
        assert more[i].folded == f;
      }
      assert more[|done|] == item;
    }
    if item.folded in destinations && destinations[item.folded] != item.identity {
      var i :| 0 <= i < |done| && done[i].folded == item.folded;
      assert more[i] == done[i] && more[|done|] == item;
    }
  }

  lemma RecordedCompatible(destinations: map<string, int>, done: seq<Planned>)
    requires Recorded(destinations, done)
    ensures Compatible(done)
  {
  }

  lemma CompatiblePrefix(items: seq<Planned>, k: nat)
    requires k <= |items| && Compatible(items)
    ensures Compatible(items[..k])
  {
  }

  /** The loop of build_plan_for over the items selected; nothing if it raises an error. */
  method PlanItems(values: seq<string>, selected: seq<Planned>) returns (items: Option<seq<Planned>>)
    ensures items.Some? <==>
              (forall k :: 0 <= k < |selected| ==> SomeRoot(values, selected[k].destination)) && Compatible(selected)
    ensures items.Some? ==> items.value == Firsts(selected)
  {
    hide Split, Compatible, Recorded, Firsts, Places;
    var planned, destinations := [], map[];
    NothingRecorded();
    var k := 0;
    while k < |selected|
      invariant k <= |selected| && planned == Firsts(selected[..k]) && Recorded(destinations, selected[..k])
      invariant forall j :: 0 <= j < k ==> SomeRoot(values, selected[j].destination)
    {
      var item := selected[k];
      assert selected[..k + 1] == selected[..k] + [item];
      FirstsNext(selected[..k], item);
      RecordedNext(destinations, selected[..k], item);
      var under := UnderAnyCommit(item.destination, values);
      if !under {
        return None;
      }
      if item.folded in destinations {
        if destinations[item.folded] != item.identity {
          if Compatible(selected) {
            CompatiblePrefix(selected, k + 1);
          }
          return None;
        }
      } else {
        destinations := destinations[item.folded := item.identity];
        planned := planned + [item];
      }
      k := k + 1;
    }
    assert selected[..k] == selected;
    RecordedCompatible(destinations, selected);
    items := Some(planned);
  }

  lemma NothingRecorded()
    ensures Firsts([]) == [] && Recorded(map[], [])
  {
  }

  /**
   The plan is refused if a commit path is, if a destination lies under none,
   if two different items want one place, or if nothing is selected; otherwise
   it holds the first item of every place, and each has exactly one root.
   */
  method BuildPlan(values: seq<string>, selected: seq<Planned>) returns (plan: Option<seq<Planned>>)
    ensures plan.Some? <==>
              && (forall i :: 0 <= i < |values| ==> ValidRelative(values[i])) && PrefixFree(SplitAll(values))
              && (forall k :: 0 <= k < |selected| ==> SomeRoot(values, selected[k].destination))
              && Compatible(selected) && selected != []
    ensures plan.Some? ==> plan.value == Firsts(selected)
    ensures plan.Some? ==> forall k :: 0 <= k < |plan.value| ==> HasOneRoot(SplitAll(values), plan.value[k].destination)
  {
    hide ValidRelative, PrefixFree, Split, Compatible, Firsts, HasOneRoot, SomeRoot;
    var roots := ExpandCommitPaths(values);
    if roots.None? {
      return None;
    }
    var items := PlanItems(values, selected);
    NothingRecorded();
    if items.None? || items.value == [] {
      if selected != [] {
        FirstsPlace(selected);
      }
      return None;
    }
    FirstsPlace(selected);
    forall i | 0 <= i < |items.value|
      ensures HasOneRoot(SplitAll(values), items.value[i].destination)
    {
      RootOfItem(values, selected, items.value[i]);
    }
    plan := items;
  }

  lemma RootOfItem(values: seq<string>, selected: seq<Planned>, item: Planned)
    requires PrefixFree(SplitAll(values)) && item in selected
    requires forall k :: 0 <= k < |selected| ==> SomeRoot(values, selected[k].destination)
    ensures HasOneRoot(SplitAll(values), item.destination)
  {
    hide PrefixFree, Split;
    assert SomeRoot(values, item.destination);
    var paths := SplitAll(values);
    var i :| 0 <= i < |values| && Split(values[i]) <= Split(item.destination);
    assert paths[i] <= Split(item.destination);
    forall j | 0 <= j < |paths| && paths[j] <= Split(item.destination)
      ensures j == i
    {
      OneRoot(paths, i, j, Split(item.destination));
    }
  }
}
