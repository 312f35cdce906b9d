/** The migration-source picker: the list of candidate sources with a selection
    flag each, re-sorted after every change so that selected sources come first in
    the order the user gave them, and the selected ids persisted as the
    migration-sources preference. */
module MigrateMangaConfigScreen {
  import Wrappers
  import opened LongParsing

  datatype Source = Source(id: int, lang: string, name: string)

  /** A source as the source manager lists it; only HTTP sources can be picked. */
  datatype CatalogueSource = CatalogueSource(id: int, lang: string, name: string, isHttpSource: bool)

  datatype MigrationSource = MigrationSource(source: Source, isSelected: bool)
  {
    function Id(): int { source.id }
  }

  /** The presets of the select-all / select-none / pinned / enabled actions. */
  datatype SelectionConfig = All | None | Pinned | Enabled

  // ---------------------------------------------------------------- ids

  function Ids(xs: seq<MigrationSource>): (ids: seq<int>)
    ensures |ids| == |xs| && forall i :: 0 <= i < |xs| ==> ids[i] == xs[i].Id()
  {
    seq(|xs|, i requires 0 <= i < |xs| => xs[i].Id())
  }

  predicate DistinctIds(xs: seq<MigrationSource>)
  {
    forall i, j :: 0 <= i < j < |xs| ==> xs[i].Id() != xs[j].Id()
  }

  predicate NoDup(s: seq<int>)
  {
    forall i, j :: 0 <= i < j < |s| ==> s[i] != s[j]
  }

  /** `filter { it.isSelected }.map { it.source.id }`: the selected ids in list order. */
  function SelectedIds(xs: seq<MigrationSource>): seq<int>
    decreases |xs|
  {
    if xs == [] then []
    else SelectedIds(xs[..|xs| - 1]) + (if xs[|xs| - 1].isSelected then [xs[|xs| - 1].Id()] else [])
  }

  /** `List.indexOf`: the first position of v, or -1 when v is absent. */
  function IndexOf(s: seq<int>, v: int): (r: int)
    ensures r == -1 <==> v !in s
    ensures r >= 0 ==> r < |s| && s[r] == v && forall j :: 0 <= j < r ==> s[j] != v
    decreases |s|
  {
    if s == [] then -1
    else if s[0] == v then 0
    else
      var k := IndexOf(s[1..], v);
      if k < 0 then -1 else k + 1
  }

  // ---------------------------------------------------------------- the comparator

  /** Kotlin's `String.compareTo`: lexicographic by character. */
  predicate StrLess(a: string, b: string)
    decreases |a|
  {
    if |a| == 0 then |b| > 0
    else if |b| == 0 then false
    else if a[0] != b[0] then a[0] < b[0]
    else StrLess(a[1..], b[1..])
  }

  /** The third sort key: the source's name followed by its language as the
      device displays it (`displayLanguage`). */
  function DisplayKey(s: Source, displayLanguage: string -> string): string
  {
    s.name + " (" + displayLanguage(s.lang) + ")"
  }

  /** `sourcesComparator(included)`: x sorts strictly before y. The keys are, in
      turn, selected before unselected, the position of the id in `included`
      (-1 when absent), and the display key. */
  predicate KeyLess(x: MigrationSource, y: MigrationSource, included: seq<int>, displayLanguage: string -> string)
  {
    if x.isSelected != y.isSelected then x.isSelected
    else if IndexOf(included, x.Id()) != IndexOf(included, y.Id()) then
      IndexOf(included, x.Id()) < IndexOf(included, y.Id())
    else StrLess(DisplayKey(x.source, displayLanguage), DisplayKey(y.source, displayLanguage))
  }

  /** No element sorts strictly before an element in front of it. */
  ghost predicate Sorted(ys: seq<MigrationSource>, included: seq<int>, displayLanguage: string -> string)
  {
    forall i, j :: 0 <= i < j < |ys| ==> !KeyLess(ys[j], ys[i], included, displayLanguage)
  }

  /** Inserts x in front of the first element it sorts strictly before, that is
      after every element it ties with: this keeps the sort stable. */
  function Insert(x: MigrationSource, ys: seq<MigrationSource>, included: seq<int>, displayLanguage: string -> string)
    : (r: seq<MigrationSource>)
    ensures multiset(r) == multiset(ys) + multiset{x}
    decreases |ys|
  {
    if ys == [] then [x]
    else if KeyLess(x, ys[0], included, displayLanguage) then [x] + ys
    else
      assert ys == [ys[0]] + ys[1..];
      [ys[0]] + Insert(x, ys[1..], included, displayLanguage)
  }

  /** `sortedWith(sourcesComparator(included))`, a stable sort. */
  function SortWith(xs: seq<MigrationSource>, included: seq<int>, displayLanguage: string -> string)
    : (r: seq<MigrationSource>)
    ensures multiset(r) == multiset(xs)
    decreases |xs|
  {
    if xs == [] then []
    else
      assert xs == xs[..|xs| - 1] + [xs[|xs| - 1]];
      Insert(xs[|xs| - 1], SortWith(xs[..|xs| - 1], included, displayLanguage), included, displayLanguage)
  }

  /** What `updateSources` stores for the list an action produced: that list sorted
      by the comparator built from its own selected ids. */
  function Resort(updated: seq<MigrationSource>, displayLanguage: string -> string): seq<MigrationSource>
  {
    SortWith(updated, SelectedIds(updated), displayLanguage)
  }

  // ---------------------------------------------------------------- order lemmas

  lemma {:induction false} StrLessAsymmetric(a: string, b: string)
    ensures !(StrLess(a, b) && StrLess(b, a))
    decreases |a|
  {
    if |a| > 0 && |b| > 0 && a[0] == b[0] {
      StrLessAsymmetric(a[1..], b[1..]);
    }
  }

  lemma {:induction false} StrLessTransitive(a: string, b: string, c: string)
    requires StrLess(a, b) && StrLess(b, c)
    ensures StrLess(a, c)
    decreases |a|
  {
    if |a| > 0 && a[0] == b[0] && b[0] == c[0] {
      StrLessTransitive(a[1..], b[1..], c[1..]);
    }
  }

  /** Two different strings are always ordered one way or the other. */
  lemma {:induction false} StrLessTotal(a: string, b: string)
    ensures a == b || StrLess(a, b) || StrLess(b, a)
    decreases |a|
  {
    if |a| > 0 && |b| > 0 && a[0] == b[0] {
      StrLessTotal(a[1..], b[1..]);
      if a[1..] == b[1..] {
        assert a == [a[0]] + a[1..] && b == [b[0]] + b[1..];
      }
    }
  }

  lemma KeyLessAsymmetric(x: MigrationSource, y: MigrationSource, included: seq<int>, displayLanguage: string -> string)
    ensures !(KeyLess(x, y, included, displayLanguage) && KeyLess(y, x, included, displayLanguage))
  {
    StrLessAsymmetric(DisplayKey(x.source, displayLanguage), DisplayKey(y.source, displayLanguage));
  }

  lemma KeyLessTransitive(x: MigrationSource, y: MigrationSource, z: MigrationSource,
                          included: seq<int>, displayLanguage: string -> string)
    requires KeyLess(x, y, included, displayLanguage) && KeyLess(y, z, included, displayLanguage)
    ensures KeyLess(x, z, included, displayLanguage)
  {
    if x.isSelected == y.isSelected == z.isSelected
       && IndexOf(included, x.Id()) == IndexOf(included, y.Id()) == IndexOf(included, z.Id()) {
      StrLessTransitive(DisplayKey(x.source, displayLanguage), DisplayKey(y.source, displayLanguage),
                        DisplayKey(z.source, displayLanguage));
    }
  }

  lemma {:induction false} InsertSorted(x: MigrationSource, ys: seq<MigrationSource>, included: seq<int>,
                                        displayLanguage: string -> string)
    requires Sorted(ys, included, displayLanguage)
    ensures Sorted(Insert(x, ys, included, displayLanguage), included, displayLanguage)
    decreases |ys|
  {
    if ys == [] {
    } else if KeyLess(x, ys[0], included, displayLanguage) {
      var r := [x] + ys;
      forall i, j | 0 <= i < j < |r| ensures !KeyLess(r[j], r[i], included, displayLanguage) {
        if i == 0 {
          if j == 1 {
            KeyLessAsymmetric(x, ys[0], included, displayLanguage);
          } else if KeyLess(r[j], x, included, displayLanguage) {
            KeyLessTransitive(r[j], x, ys[0], included, displayLanguage);
          }
        }
      }
    } else {
      var rest := Insert(x, ys[1..], included, displayLanguage);
      InsertSorted(x, ys[1..], included, displayLanguage);
      var r := [ys[0]] + rest;
      forall j | 0 < j < |r| ensures !KeyLess(r[j], ys[0], included, displayLanguage) {
        assert r[j] in multiset(rest);
        if r[j] != x {
          assert r[j] in multiset(ys[1..]);
          var k :| 0 <= k < |ys[1..]| && ys[1..][k] == r[j];
          assert ys[k + 1] == r[j];
        }
      }
    }
  }

  lemma {:induction false} SortWithSorted(xs: seq<MigrationSource>, included: seq<int>, displayLanguage: string -> string)
    ensures Sorted(SortWith(xs, included, displayLanguage), included, displayLanguage)
    decreases |xs|
  {
    if xs != [] {
      SortWithSorted(xs[..|xs| - 1], included, displayLanguage);
      InsertSorted(xs[|xs| - 1], SortWith(xs[..|xs| - 1], included, displayLanguage), included, displayLanguage);
    }
  }

  // ---------------------------------------------------------------- stability

  /** Neither source sorts strictly before the other. */
  predicate Tie(x: MigrationSource, y: MigrationSource, included: seq<int>, displayLanguage: string -> string)
  {
    !KeyLess(x, y, included, displayLanguage) && !KeyLess(y, x, included, displayLanguage)
  }

  /** The elements of ys that tie with e, in the order of ys. */
  function TiedWith(ys: seq<MigrationSource>, e: MigrationSource, included: seq<int>, displayLanguage: string -> string)
    : seq<MigrationSource>
    decreases |ys|
  {
    if ys == [] then []
    else
      TiedWith(ys[..|ys| - 1], e, included, displayLanguage)
        + (if Tie(ys[|ys| - 1], e, included, displayLanguage) then [ys[|ys| - 1]] else [])
  }

  /** Tied sources agree on all three keys, so the comparator cannot tell them apart. */
  lemma TieMeansSameKeys(x: MigrationSource, y: MigrationSource, included: seq<int>, displayLanguage: string -> string)
    requires Tie(x, y, included, displayLanguage)
    ensures x.isSelected == y.isSelected && IndexOf(included, x.Id()) == IndexOf(included, y.Id())
    ensures DisplayKey(x.source, displayLanguage) == DisplayKey(y.source, displayLanguage)
  {
    StrLessTotal(DisplayKey(x.source, displayLanguage), DisplayKey(y.source, displayLanguage));
  }

  /** What sorts before a source sorts before everything tied with it. */
  lemma LessThanTied(x: MigrationSource, y: MigrationSource, z: MigrationSource,
                     included: seq<int>, displayLanguage: string -> string)
    requires KeyLess(x, y, included, displayLanguage) && Tie(y, z, included, displayLanguage)
    ensures KeyLess(x, z, included, displayLanguage)
  {
    TieMeansSameKeys(y, z, included, displayLanguage);
  }

  lemma {:induction false} TiedWithAppend(a: seq<MigrationSource>, b: seq<MigrationSource>, e: MigrationSource,
                                          included: seq<int>, displayLanguage: string -> string)
    ensures TiedWith(a + b, e, included, displayLanguage)
         == TiedWith(a, e, included, displayLanguage) + TiedWith(b, e, included, displayLanguage)
    decreases |b|
  {
    if b == [] {
      assert a + b == a;
    } else {
      var b' := b[..|b| - 1];
      assert (a + b)[..|a + b| - 1] == a + b';
      TiedWithAppend(a, b', e, included, displayLanguage);
    }
  }

  lemma {:induction false} NoneTied(ys: seq<MigrationSource>, e: MigrationSource, included: seq<int>,
                                    displayLanguage: string -> string)
    requires forall k :: 0 <= k < |ys| ==> !Tie(ys[k], e, included, displayLanguage)
    ensures TiedWith(ys, e, included, displayLanguage) == []
    decreases |ys|
  {
    if ys != [] {
      NoneTied(ys[..|ys| - 1], e, included, displayLanguage);
    }
  }

  /** When x sorts before the head of a sorted list, nothing in the list ties with
      anything tied with x. */
  lemma NothingAboveTied(x: MigrationSource, ys: seq<MigrationSource>, e: MigrationSource,
                         included: seq<int>, displayLanguage: string -> string)
    requires Sorted(ys, included, displayLanguage) && ys != []
    requires KeyLess(x, ys[0], included, displayLanguage) && Tie(x, e, included, displayLanguage)
    ensures TiedWith(ys, e, included, displayLanguage) == []
  {
    TieMeansSameKeys(x, e, included, displayLanguage);
    forall k | 0 <= k < |ys| ensures !Tie(ys[k], e, included, displayLanguage) {
      if k > 0 {
        if KeyLess(ys[0], ys[k], included, displayLanguage) {
          KeyLessTransitive(x, ys[0], ys[k], included, displayLanguage);
        } else {
          LessThanTied(x, ys[0], ys[k], included, displayLanguage);
        }
      }
    }
    NoneTied(ys, e, included, displayLanguage);
  }

  lemma SortedTail(ys: seq<MigrationSource>, included: seq<int>, displayLanguage: string -> string)
    requires Sorted(ys, included, displayLanguage) && ys != []
    ensures Sorted(ys[1..], included, displayLanguage)
  {
    forall i, j | 0 <= i < j < |ys| - 1
      ensures !KeyLess(ys[1..][j], ys[1..][i], included, displayLanguage)
    {
      assert ys[1..][j] == ys[j + 1] && ys[1..][i] == ys[i + 1];
    }
  }

  /** x sorts before the head: it goes in front, and the tied elements of ys all
      tie with x and so come after it. */
  lemma InsertTiedInFront(x: MigrationSource, ys: seq<MigrationSource>, e: MigrationSource,
                          included: seq<int>, displayLanguage: string -> string)
    requires Sorted(ys, included, displayLanguage) && ys != []
    requires KeyLess(x, ys[0], included, displayLanguage)
    ensures TiedWith(Insert(x, ys, included, displayLanguage), e, included, displayLanguage)
         == TiedWith(ys, e, included, displayLanguage) + (if Tie(x, e, included, displayLanguage) then [x] else [])
  {
    assert Insert(x, ys, included, displayLanguage) == [x] + ys;
    TiedWithAppend([x], ys, e, included, displayLanguage);
    assert [x][..0] == [];
    if Tie(x, e, included, displayLanguage) {
      NothingAboveTied(x, ys, e, included, displayLanguage);
    }
  }

  /** x goes after the head: the head's tie status is counted first. */
  lemma InsertTiedAfterHead(x: MigrationSource, ys: seq<MigrationSource>, e: MigrationSource, extra: seq<MigrationSource>,
                            included: seq<int>, displayLanguage: string -> string)
    requires ys != [] && !KeyLess(x, ys[0], included, displayLanguage)
    requires TiedWith(Insert(x, ys[1..], included, displayLanguage), e, included, displayLanguage)
          == TiedWith(ys[1..], e, included, displayLanguage) + extra
    ensures TiedWith(Insert(x, ys, included, displayLanguage), e, included, displayLanguage)
         == TiedWith(ys, e, included, displayLanguage) + extra
  {
    var rest := Insert(x, ys[1..], included, displayLanguage);
    assert Insert(x, ys, included, displayLanguage) == [ys[0]] + rest;
    assert ys == [ys[0]] + ys[1..];
    TiedWithAppend([ys[0]], rest, e, included, displayLanguage);
    TiedWithAppend([ys[0]], ys[1..], e, included, displayLanguage);
  }

  /** Inserting x into a sorted list puts it after every element tied with it:
      among the elements tied with e, x comes last when it is one of them. */
  lemma {:induction false} InsertTied(x: MigrationSource, ys: seq<MigrationSource>, e: MigrationSource,
                                      included: seq<int>, displayLanguage: string -> string)
    requires Sorted(ys, included, displayLanguage)
    ensures TiedWith(Insert(x, ys, included, displayLanguage), e, included, displayLanguage)
         == TiedWith(ys, e, included, displayLanguage) + (if Tie(x, e, included, displayLanguage) then [x] else [])
    decreases |ys|
  {
    if ys == [] {
      assert [x][..0] == [];
    } else if KeyLess(x, ys[0], included, displayLanguage) {
      InsertTiedInFront(x, ys, e, included, displayLanguage);
    } else {
      SortedTail(ys, included, displayLanguage);
      InsertTied(x, ys[1..], e, included, displayLanguage);
      InsertTiedAfterHead(x, ys, e, if Tie(x, e, included, displayLanguage) then [x] else [], included, displayLanguage);
    }
  }

  /** The sort is stable: the elements tied with any e appear in the sorted list in
      the order they had in the input. */
  lemma {:induction false} SortWithStable(xs: seq<MigrationSource>, e: MigrationSource, included: seq<int>,
                                          displayLanguage: string -> string)
    ensures TiedWith(SortWith(xs, included, displayLanguage), e, included, displayLanguage)
         == TiedWith(xs, e, included, displayLanguage)
    decreases |xs|
  {
    if xs != [] {
      var init := xs[..|xs| - 1];
      SortWithStable(init, e, included, displayLanguage);
      SortWithSorted(init, included, displayLanguage);
      InsertTied(xs[|xs| - 1], SortWith(init, included, displayLanguage), e, included, displayLanguage);
    }
  }

  // ---------------------------------------------------------------- selected ids

  lemma {:induction false} SelectedIdsAppend(a: seq<MigrationSource>, b: seq<MigrationSource>)
    ensures SelectedIds(a + b) == SelectedIds(a) + SelectedIds(b)
    decreases |b|
  {
    if b == [] {
      assert a + b == a;
    } else {
      assert (a + b)[..|a + b| - 1] == a + b[..|b| - 1];
      SelectedIdsAppend(a, b[..|b| - 1]);
    }
  }

  /** The selected ids are exactly the ids of the selected elements. */
  lemma {:induction false} SelectedIdsMembership(xs: seq<MigrationSource>, v: int)
    ensures v in SelectedIds(xs) <==> exists k :: 0 <= k < |xs| && xs[k].isSelected && xs[k].Id() == v
    decreases |xs|
  {
    if xs != [] {
      var init := xs[..|xs| - 1];
      SelectedIdsMembership(init, v);
      if exists k :: 0 <= k < |xs| && xs[k].isSelected && xs[k].Id() == v {
        var k :| 0 <= k < |xs| && xs[k].isSelected && xs[k].Id() == v;
        if k < |init| {
          assert init[k] == xs[k];
        }
      }
      if v in SelectedIds(init) {
        var k :| 0 <= k < |init| && init[k].isSelected && init[k].Id() == v;
        assert xs[k] == init[k];
      }
    }
  }

  lemma {:induction false} NoneSelected(xs: seq<MigrationSource>)
    requires forall k :: 0 <= k < |xs| ==> !xs[k].isSelected
    ensures SelectedIds(xs) == []
    decreases |xs|
  {
    if xs != [] {
      NoneSelected(xs[..|xs| - 1]);
    }
  }

  lemma {:induction false} DistinctSelectedIds(xs: seq<MigrationSource>)
    requires DistinctIds(xs)
    ensures NoDup(SelectedIds(xs))
    decreases |xs|
  {
    if xs != [] {
      var init := xs[..|xs| - 1];
      var x := xs[|xs| - 1];
      DistinctSelectedIds(init);
      if x.isSelected {
        SelectedIdsMembership(init, x.Id());
        forall k | 0 <= k < |init| ensures init[k].Id() != x.Id() {
          assert init[k] == xs[k];
        }
      }
    }
  }

  /** An unselected element may go anywhere without changing the selected ids. */
  lemma {:induction false} InsertUnselected(x: MigrationSource, ys: seq<MigrationSource>, included: seq<int>,
                                            displayLanguage: string -> string)
    requires !x.isSelected
    ensures SelectedIds(Insert(x, ys, included, displayLanguage)) == SelectedIds(ys)
    decreases |ys|
  {
    if ys == [] {
      assert SelectedIds([x]) == SelectedIds([]) + [];
    } else if KeyLess(x, ys[0], included, displayLanguage) {
      SelectedIdsAppend([x], ys);
      assert SelectedIds([x]) == SelectedIds([]) + [];
    } else {
      InsertUnselected(x, ys[1..], included, displayLanguage);
      SelectedIdsAppend([ys[0]], Insert(x, ys[1..], included, displayLanguage));
      SelectedIdsAppend([ys[0]], ys[1..]);
      assert ys == [ys[0]] + ys[1..];
    }
  }

  /** A selected element that no selected element of a sorted list sorts after
      lands behind all of them. */
  lemma {:induction false} InsertSelectedLast(x: MigrationSource, ys: seq<MigrationSource>, included: seq<int>,
                                              displayLanguage: string -> string)
    requires x.isSelected
    requires Sorted(ys, included, displayLanguage)
    requires forall k :: 0 <= k < |ys| && ys[k].isSelected ==> !KeyLess(x, ys[k], included, displayLanguage)
    ensures SelectedIds(Insert(x, ys, included, displayLanguage)) == SelectedIds(ys) + [x.Id()]
    decreases |ys|
  {
    if ys == [] {
      assert SelectedIds([x]) == SelectedIds([]) + [x.Id()];
    } else if KeyLess(x, ys[0], included, displayLanguage) {
      forall k | 0 <= k < |ys| ensures !ys[k].isSelected {
        if ys[k].isSelected && k > 0 {
          assert KeyLess(ys[k], ys[0], included, displayLanguage);
        }
      }
      NoneSelected(ys);
      SelectedIdsAppend([x], ys);
      assert SelectedIds([x]) == SelectedIds([]) + [x.Id()];
    } else {
      InsertSelectedLast(x, ys[1..], included, displayLanguage);
      SelectedIdsAppend([ys[0]], Insert(x, ys[1..], included, displayLanguage));
      SelectedIdsAppend([ys[0]], ys[1..]);
      assert ys == [ys[0]] + ys[1..];
    }
  }

  lemma IndexOfInPrefix(p: seq<int>, q: seq<int>, v: int)
    requires v in p
    ensures 0 <= IndexOf(p + q, v) < |p|
  {
    var k :| 0 <= k < |p| && p[k] == v;
    assert (p + q)[k] == v;
  }

  lemma IndexOfAfterPrefix(p: seq<int>, q: seq<int>, v: int)
    requires v !in p && |q| > 0 && q[0] == v
    ensures IndexOf(p + q, v) == |p|
  {
    assert (p + q)[|p|] == v;
  }

  lemma NoDupPrefixExcludes(p: seq<int>, v: int, included: seq<int>)
    requires p + [v] <= included
    requires NoDup(included)
    ensures v !in p
  {
    forall k | 0 <= k < |p| ensures p[k] != v {
      assert included[k] == p[k] && included[|p|] == v;
    }
  }

  lemma LaterIndexNotBefore(x: MigrationSource, y: MigrationSource, included: seq<int>,
                            displayLanguage: string -> string)
    requires x.isSelected == y.isSelected
    requires IndexOf(included, x.Id()) > IndexOf(included, y.Id())
    ensures !KeyLess(x, y, included, displayLanguage)
  {
  }

  /** With the comparator's id list made of the selected ids p of a sorted part
      followed by x's id, the selected x sorts after every selected element
      already there. */
  lemma SelectedAfterEarlierSelected(x: MigrationSource, ys: seq<MigrationSource>, p: seq<int>, rest: seq<int>,
                                     displayLanguage: string -> string)
    requires x.isSelected
    requires SelectedIds(ys) == p && x.Id() !in p
    requires |rest| > 0 && rest[0] == x.Id()
    ensures forall k :: 0 <= k < |ys| && ys[k].isSelected ==> !KeyLess(x, ys[k], p + rest, displayLanguage)
  {
    IndexOfAfterPrefix(p, rest, x.Id());
    forall k | 0 <= k < |ys| && ys[k].isSelected ensures !KeyLess(x, ys[k], p + rest, displayLanguage) {
      SelectedIdsMembership(ys, ys[k].Id());
      IndexOfInPrefix(p, rest, ys[k].Id());
      LaterIndexNotBefore(x, ys[k], p + rest, displayLanguage);
    }
  }

  lemma InsertNextSelected(x: MigrationSource, ys: seq<MigrationSource>, included: seq<int>,
                            displayLanguage: string -> string)
    requires x.isSelected
    requires Sorted(ys, included, displayLanguage)
    requires SelectedIds(ys) + [x.Id()] <= included
    requires NoDup(included)
    ensures SelectedIds(Insert(x, ys, included, displayLanguage)) == SelectedIds(ys) + [x.Id()]
  {
    var p := SelectedIds(ys);
    var rest := included[|p|..];
    assert included == p + rest;
    NoDupPrefixExcludes(p, x.Id(), included);
    SelectedAfterEarlierSelected(x, ys, p, rest, displayLanguage);
    InsertSelectedLast(x, ys, included, displayLanguage);
  }

  /** Sorting by the comparator built from a list whose front is the selected ids
      of xs keeps those ids in their order. */
  lemma {:induction false} SortKeepsSelectedOrder(xs: seq<MigrationSource>, included: seq<int>,
                                                  displayLanguage: string -> string)
    requires SelectedIds(xs) <= included
    requires NoDup(included)
    ensures SelectedIds(SortWith(xs, included, displayLanguage)) == SelectedIds(xs)
    decreases |xs|
  {
    if xs != [] {
      var init := xs[..|xs| - 1];
      var x := xs[|xs| - 1];
      var ys := SortWith(init, included, displayLanguage);
      assert SelectedIds(init) <= SelectedIds(xs);
      SortKeepsSelectedOrder(init, included, displayLanguage);
      SortWithSorted(init, included, displayLanguage);
      if x.isSelected {
        InsertNextSelected(x, ys, included, displayLanguage);
      } else {
        InsertUnselected(x, ys, included, displayLanguage);
      }
    }
  }

  // ---------------------------------------------------------------- what a re-sort guarantees

  /** The stored list is a permutation of what the action produced. */
  lemma ResortIsPermutation(updated: seq<MigrationSource>, displayLanguage: string -> string)
    ensures multiset(Resort(updated, displayLanguage)) == multiset(updated)
    ensures |Resort(updated, displayLanguage)| == |updated|
  {
    assert |multiset(Resort(updated, displayLanguage))| == |multiset(updated)|;
  }

  /** Every selected source comes before every unselected one. */
  lemma ResortSelectedFirst(updated: seq<MigrationSource>, displayLanguage: string -> string)
    ensures var r := Resort(updated, displayLanguage);
      forall i, j :: 0 <= i < j < |r| && r[j].isSelected ==> r[i].isSelected
  {
    SortWithSorted(updated, SelectedIds(updated), displayLanguage);
  }

  /** The selected sources keep the order the action gave them. */
  lemma ResortKeepsSelectedOrder(updated: seq<MigrationSource>, displayLanguage: string -> string)
    requires DistinctIds(updated)
    ensures SelectedIds(Resort(updated, displayLanguage)) == SelectedIds(updated)
  {
    DistinctSelectedIds(updated);
    SortKeepsSelectedOrder(updated, SelectedIds(updated), displayLanguage);
  }

  /** Sources the comparator cannot tell apart (unselected, same name and displayed
      language) keep the order the action gave them. */
  lemma ResortIsStable(updated: seq<MigrationSource>, e: MigrationSource, displayLanguage: string -> string)
    ensures TiedWith(Resort(updated, displayLanguage), e, SelectedIds(updated), displayLanguage)
         == TiedWith(updated, e, SelectedIds(updated), displayLanguage)
  {
    SortWithStable(updated, e, SelectedIds(updated), displayLanguage);
  }

  /** An unselected source's id is not among the selected ids. */
  lemma UnselectedNotIncluded(updated: seq<MigrationSource>, x: MigrationSource)
    requires DistinctIds(updated)
    requires x in updated && !x.isSelected
    ensures IndexOf(SelectedIds(updated), x.Id()) == -1
  {
    SelectedIdsMembership(updated, x.Id());
    var m :| 0 <= m < |updated| && updated[m] == x;
    forall k | 0 <= k < |updated| && updated[k].isSelected ensures updated[k].Id() != x.Id() {
      assert k != m;
    }
  }

  /** The unselected sources follow in ascending order of their display key. */
  lemma ResortUnselectedByName(updated: seq<MigrationSource>, displayLanguage: string -> string)
    requires DistinctIds(updated)
    ensures var r := Resort(updated, displayLanguage);
      forall i, j :: 0 <= i < j < |r| && !r[i].isSelected && !r[j].isSelected ==>
        var a := DisplayKey(r[i].source, displayLanguage);
        var b := DisplayKey(r[j].source, displayLanguage);
        a == b || StrLess(a, b)
  {
    var r := Resort(updated, displayLanguage);
    SortWithSorted(updated, SelectedIds(updated), displayLanguage);
    forall i, j | 0 <= i < j < |r| && !r[i].isSelected && !r[j].isSelected
      ensures var a := DisplayKey(r[i].source, displayLanguage);
        var b := DisplayKey(r[j].source, displayLanguage);
        a == b || StrLess(a, b)
    {
      assert r[i] in multiset(updated) && r[j] in multiset(updated);
      UnselectedNotIncluded(updated, r[i]);
      UnselectedNotIncluded(updated, r[j]);
      assert !KeyLess(r[j], r[i], SelectedIds(updated), displayLanguage);
      StrLessTotal(DisplayKey(r[i].source, displayLanguage), DisplayKey(r[j].source, displayLanguage));
    }
  }

  lemma {:induction false} DistinctIdsCountOnce(xs: seq<MigrationSource>, e: MigrationSource)
    requires DistinctIds(xs)
    ensures multiset(xs)[e] <= 1
    decreases |xs|
  {
    if xs != [] {
      var init := xs[..|xs| - 1];
      assert xs == init + [xs[|xs| - 1]];
      DistinctIdsCountOnce(init, e);
    }
  }

  /** Rearranging a list with distinct ids keeps them distinct. */
  lemma DistinctIdsPermutation(xs: seq<MigrationSource>, ys: seq<MigrationSource>)
    requires DistinctIds(xs) && multiset(xs) == multiset(ys)
    ensures DistinctIds(ys)
  {
    forall i, j | 0 <= i < j < |ys| ensures ys[i].Id() != ys[j].Id() {
      if ys[i] == ys[j] {
        assert ys == ys[..j] + ys[j..];
        assert ys[i] in ys[..j] && ys[j] in ys[j..];
        assert multiset(ys)[ys[j]] == multiset(ys[..j])[ys[j]] + multiset(ys[j..])[ys[j]];
        DistinctIdsCountOnce(xs, ys[j]);
      } else {
        assert ys[i] in multiset(xs) && ys[j] in multiset(xs);
        var a :| 0 <= a < |xs| && xs[a] == ys[i];
        var b :| 0 <= b < |xs| && xs[b] == ys[j];
        assert a != b;
        if a < b {
          assert xs[a].Id() != xs[b].Id();
        } else {
          assert xs[b].Id() != xs[a].Id();
        }
      }
    }
  }

  // ---------------------------------------------------------------- actions

  /** The action of `toggleSelection(id)`: flips the flag of the source with that
      id and leaves every other entry as it is. */
  function FlipById(xs: seq<MigrationSource>, id: int): (r: seq<MigrationSource>)
    ensures |r| == |xs|
    ensures forall i :: 0 <= i < |xs| ==> r[i].source == xs[i].source
    ensures forall i :: 0 <= i < |xs| ==> (r[i].isSelected != xs[i].isSelected <==> xs[i].Id() == id)
  {
    seq(|xs|, i requires 0 <= i < |xs| =>
      xs[i].(isSelected := if xs[i].Id() == id then !xs[i].isSelected else xs[i].isSelected))
  }

  /** The selection predicate of `toggleSelection(config)`. */
  function ConfigSelects(config: SelectionConfig, id: int, pinned: seq<int>, disabled: seq<int>): bool
  {
    match config
    case All => true
    case None => false
    case Pinned => id in pinned
    case Enabled => id !in disabled
  }

  /** The action of `toggleSelection(config)`: every flag set by the preset. */
  function SetSelection(xs: seq<MigrationSource>, config: SelectionConfig, pinned: seq<int>, disabled: seq<int>)
    : (r: seq<MigrationSource>)
    ensures |r| == |xs|
    ensures forall i :: 0 <= i < |xs| ==> r[i].source == xs[i].source
  {
    seq(|xs|, i requires 0 <= i < |xs| => xs[i].(isSelected := ConfigSelects(config, xs[i].Id(), pinned, disabled)))
  }

  function RemoveAt(xs: seq<MigrationSource>, i: int): (r: seq<MigrationSource>)
    requires 0 <= i < |xs|
    ensures |r| == |xs| - 1
  {
    xs[..i] + xs[i + 1..]
  }

  /** The action of `orderSource(from, to)`: `add(to, removeAt(from))` on a copy.
      `None` where `removeAt` or `add` throws on an index out of range. */
  function Move(xs: seq<MigrationSource>, from: int, to: int): (r: Wrappers.Option<seq<MigrationSource>>)
    ensures r.Some? <==> 0 <= from < |xs| && 0 <= to < |xs|
    ensures r.Some? ==> |r.value| == |xs| && r.value[to] == xs[from] && multiset(r.value) == multiset(xs)
  {
    if 0 <= from < |xs| && 0 <= to < |xs| then
      var rest := RemoveAt(xs, from);
      var moved := rest[..to] + [xs[from]] + rest[to..];
      assert xs == xs[..from] + [xs[from]] + xs[from + 1..];
      assert rest == rest[..to] + rest[to..];
      assert multiset(moved) == multiset(rest) + multiset{xs[from]};
      Wrappers.Some(moved)
    else Wrappers.None
  }

  /** The initial selection rule: a saved migration list decides; without one the
      pinned sources; without those every source that is not disabled. */
  function InitiallySelected(id: int, included: seq<int>, pinned: seq<int>, disabled: seq<int>): bool
  {
    if |included| > 0 then id in included
    else if |pinned| > 0 then id in pinned
    else id !in disabled
  }

  predicate Eligible(c: CatalogueSource, languages: set<string>)
  {
    c.isHttpSource && c.lang in languages
  }

  function Entry(c: CatalogueSource, included: seq<int>, pinned: seq<int>, disabled: seq<int>): MigrationSource
  {
    MigrationSource(Source(c.id, c.lang, c.name), InitiallySelected(c.id, included, pinned, disabled))
  }

  /** The list `initSources` builds: HTTP sources in an enabled language, in
      catalogue order, each flagged by the initial selection rule. */
  function InitialSources(catalogue: seq<CatalogueSource>, languages: set<string>, included: seq<int>,
                          pinned: seq<int>, disabled: seq<int>): seq<MigrationSource>
    decreases |catalogue|
  {
    if catalogue == [] then []
    else
      var c := catalogue[|catalogue| - 1];
      InitialSources(catalogue[..|catalogue| - 1], languages, included, pinned, disabled)
        + (if Eligible(c, languages) then [Entry(c, included, pinned, disabled)] else [])
  }

  predicate CatalogueIdsDistinct(catalogue: seq<CatalogueSource>)
  {
    forall i, j :: 0 <= i < j < |catalogue| ==> catalogue[i].id != catalogue[j].id
  }

  // ---------------------------------------------------------------- action lemmas

  /** Toggling the same id twice restores the list. */
  lemma FlipByIdInvolution(xs: seq<MigrationSource>, id: int)
    ensures FlipById(FlipById(xs, id), id) == xs
  {
  }

  /** Toggling changes whether `id` is selected, when such a source exists, and
      no other id's selection. */
  lemma FlipByIdSelection(xs: seq<MigrationSource>, id: int, v: int)
    requires DistinctIds(xs)
    ensures v != id ==> (v in SelectedIds(FlipById(xs, id)) <==> v in SelectedIds(xs))
    ensures v == id ==> (v in SelectedIds(FlipById(xs, id)) <==> v in Ids(xs) && v !in SelectedIds(xs))
  {
    var r := FlipById(xs, id);
    SelectedIdsMembership(xs, v);
    SelectedIdsMembership(r, v);
    if v == id && v in Ids(xs) && v !in SelectedIds(xs) {
      var k :| 0 <= k < |xs| && xs[k].Id() == v;
      assert r[k].isSelected;
    }
    if v == id && v in SelectedIds(r) {
      var k :| 0 <= k < |r| && r[k].isSelected && r[k].Id() == v;
      assert Ids(xs)[k] == v;
      forall m | 0 <= m < |xs| && xs[m].isSelected ensures xs[m].Id() != v {
        if m != k {
          assert m < k || k < m;
        }
      }
    }
  }

  lemma {:induction false} AllSelectedIds(xs: seq<MigrationSource>)
    requires forall k :: 0 <= k < |xs| ==> xs[k].isSelected
    ensures SelectedIds(xs) == Ids(xs)
    decreases |xs|
  {
    if xs != [] {
      AllSelectedIds(xs[..|xs| - 1]);
      assert Ids(xs) == Ids(xs[..|xs| - 1]) + [xs[|xs| - 1].Id()];
    }
  }

  /** The presets: All selects every source, None none, Pinned exactly the pinned
      ones and Enabled exactly those not disabled. */
  lemma SelectionPresets(xs: seq<MigrationSource>, config: SelectionConfig, pinned: seq<int>, disabled: seq<int>, v: int)
    ensures var r := SetSelection(xs, config, pinned, disabled);
      && (config == All ==> SelectedIds(r) == Ids(xs))
      && (config == None ==> SelectedIds(r) == [])
      && (config == Pinned ==> (v in SelectedIds(r) <==> v in Ids(xs) && v in pinned))
      && (config == Enabled ==> (v in SelectedIds(r) <==> v in Ids(xs) && v !in disabled))
  {
    var r := SetSelection(xs, config, pinned, disabled);
    assert Ids(r) == Ids(xs);
    if config == All {
      AllSelectedIds(r);
    } else if config == None {
      NoneSelected(r);
    } else {
      SelectedIdsMembership(r, v);
    }
  }

  /** Moving puts the element at `from` at index `to`; the other elements keep
      their relative order. */
  lemma MoveKeepsOthersInOrder(xs: seq<MigrationSource>, from: int, to: int)
    requires Move(xs, from, to).Some?
    ensures RemoveAt(Move(xs, from, to).value, to) == RemoveAt(xs, from)
  {
    var rest := RemoveAt(xs, from);
    var r := Move(xs, from, to).value;
    assert r[..to] == rest[..to];
    assert r[to + 1..] == rest[to..];
    assert rest == rest[..to] + rest[to..];
  }

  /** Moving back undoes a move. */
  lemma MoveRoundTrip(xs: seq<MigrationSource>, from: int, to: int)
    requires Move(xs, from, to).Some?
    ensures Move(Move(xs, from, to).value, to, from) == Wrappers.Some(xs)
  {
    var r := Move(xs, from, to).value;
    MoveKeepsOthersInOrder(xs, from, to);
    var rest := RemoveAt(xs, from);
    assert RemoveAt(r, to) == rest;
    assert r[to] == xs[from];
    assert xs == rest[..from] + [xs[from]] + rest[from..];
  }

  /** m is the entry of an eligible catalogue source. */
  ghost predicate EntryOf(m: MigrationSource, catalogue: seq<CatalogueSource>, languages: set<string>,
                          included: seq<int>, pinned: seq<int>, disabled: seq<int>)
  {
    exists i :: 0 <= i < |catalogue| && Eligible(catalogue[i], languages) && m == Entry(catalogue[i], included, pinned, disabled)
  }

  /** The initial list holds exactly the eligible catalogue sources, each flagged by
      the initial selection rule. */
  lemma {:induction false} InitialSourcesContents(catalogue: seq<CatalogueSource>, languages: set<string>,
                                                  included: seq<int>, pinned: seq<int>, disabled: seq<int>)
    ensures var r := InitialSources(catalogue, languages, included, pinned, disabled);
      && (forall k :: 0 <= k < |r| ==> EntryOf(r[k], catalogue, languages, included, pinned, disabled))
      && (forall i :: 0 <= i < |catalogue| && Eligible(catalogue[i], languages) ==>
            Entry(catalogue[i], included, pinned, disabled) in r)
    decreases |catalogue|
  {
    if catalogue != [] {
      var init := catalogue[..|catalogue| - 1];
      var last := |catalogue| - 1;
      InitialSourcesContents(init, languages, included, pinned, disabled);
      var r0 := InitialSources(init, languages, included, pinned, disabled);
      assert forall k :: 0 <= k < |InitialSources(init, languages, included, pinned, disabled)| ==>
        EntryOf(InitialSources(init, languages, included, pinned, disabled)[k], init, languages, included, pinned, disabled);
      var r := InitialSources(catalogue, languages, included, pinned, disabled);
      forall k | 0 <= k < |r| ensures EntryOf(r[k], catalogue, languages, included, pinned, disabled) {
        if k < |r0| {
          assert EntryOf(r0[k], init, languages, included, pinned, disabled);
          var i :| 0 <= i < |init| && Eligible(init[i], languages) && r0[k] == Entry(init[i], included, pinned, disabled);
          assert catalogue[i] == init[i] && r[k] == r0[k];
        } else {
          assert r[k] == Entry(catalogue[last], included, pinned, disabled);
        }
      }
      forall i | 0 <= i < |catalogue| && Eligible(catalogue[i], languages)
        ensures Entry(catalogue[i], included, pinned, disabled) in r
      {
        if i < |init| {
          assert init[i] == catalogue[i];
        }
      }
    }
  }

  /** A catalogue with distinct ids gives an initial list with distinct ids. */
  lemma {:induction false} InitialSourcesDistinct(catalogue: seq<CatalogueSource>, languages: set<string>,
                                                  included: seq<int>, pinned: seq<int>, disabled: seq<int>)
    requires CatalogueIdsDistinct(catalogue)
    ensures DistinctIds(InitialSources(catalogue, languages, included, pinned, disabled))
    decreases |catalogue|
  {
    if catalogue != [] {
      var init := catalogue[..|catalogue| - 1];
      var c := catalogue[|catalogue| - 1];
      InitialSourcesDistinct(init, languages, included, pinned, disabled);
      InitialSourcesContents(init, languages, included, pinned, disabled);
      var r0 := InitialSources(init, languages, included, pinned, disabled);
      assert forall k :: 0 <= k < |InitialSources(init, languages, included, pinned, disabled)| ==>
        EntryOf(InitialSources(init, languages, included, pinned, disabled)[k], init, languages, included, pinned, disabled);
      forall k | 0 <= k < |r0| ensures r0[k].Id() != c.id {
        assert EntryOf(r0[k], init, languages, included, pinned, disabled);
        var i :| 0 <= i < |init| && Eligible(init[i], languages) && r0[k] == Entry(init[i], included, pinned, disabled);
        assert catalogue[i] == init[i];
      }
    }
  }

  // ---------------------------------------------------------------- the screen model

  /** The source preferences the picker reads and writes. The stored sets of
      pinned and disabled ids are given in their iteration order. */
  class SourcePreferences {
    var enabledLanguages: set<string>
    var pinnedSources: seq<string>
    var disabledSources: seq<string>
    var migrationSources: seq<int>

    constructor (enabledLanguages: set<string>, pinnedSources: seq<string>, disabledSources: seq<string>,
                 migrationSources: seq<int>)
      ensures this.enabledLanguages == enabledLanguages && this.pinnedSources == pinnedSources
      ensures this.disabledSources == disabledSources && this.migrationSources == migrationSources
    {
      this.enabledLanguages := enabledLanguages;
      this.pinnedSources := pinnedSources;
      this.disabledSources := disabledSources;
      this.migrationSources := migrationSources;
    }
  }

  /** The picker's state holder: the displayed list of sources. `catalogue` is what
      the source manager lists and `displayLanguage` names a language code the way
      the device displays it. */
  class ScreenModel {
    var sources: seq<MigrationSource>
    const preferences: SourcePreferences
    const catalogue: seq<CatalogueSource>
    const displayLanguage: string -> string

    ghost predicate Valid()
      reads this
    {
      DistinctIds(sources) && CatalogueIdsDistinct(catalogue)
    }

    /** The empty initial state; `InitSources` fills it. */
    constructor (preferences: SourcePreferences, catalogue: seq<CatalogueSource>, displayLanguage: string -> string)
      requires CatalogueIdsDistinct(catalogue)
      ensures Valid() && sources == []
      ensures this.preferences == preferences && this.catalogue == catalogue
      ensures this.displayLanguage == displayLanguage
    {
      this.preferences := preferences;
      this.catalogue := catalogue;
      this.displayLanguage := displayLanguage;
      sources := [];
    }

    /** `updateSources`: stores the action's list re-sorted and, when saving,
        persists the selected ids in displayed order, which is the order the
        action gave them. */
    method UpdateSources(updated: seq<MigrationSource>, save: bool)
      requires Valid() && DistinctIds(updated)
      modifies this`sources, preferences`migrationSources
      ensures Valid()
      ensures sources == Resort(updated, displayLanguage)
      ensures save ==> preferences.migrationSources == SelectedIds(sources) == SelectedIds(updated)
      ensures !save ==> preferences.migrationSources == old(preferences.migrationSources)
    {
      sources := SortWith(updated, SelectedIds(updated), displayLanguage);
      DistinctIdsPermutation(updated, sources);
      ResortKeepsSelectedOrder(updated, displayLanguage);
      if save {
        preferences.migrationSources := SelectedIds(sources);
      }
    }

    /** `initSources`: builds the initial list and stores it without saving. */
    method InitSources()
      requires Valid()
      modifies this`sources, preferences`migrationSources
      ensures Valid()
      ensures sources == Resort(InitialSources(catalogue, preferences.enabledLanguages, preferences.migrationSources,
                                               ParseIds(preferences.pinnedSources), ParseIds(preferences.disabledSources)),
                                displayLanguage)
      ensures preferences.migrationSources == old(preferences.migrationSources)
    {
      var languages := preferences.enabledLanguages;
      var pinned := ParseIds(preferences.pinnedSources);
      var included := preferences.migrationSources;
      var disabled := ParseIds(preferences.disabledSources);
      var initial := InitialSources(catalogue, languages, included, pinned, disabled);
      InitialSourcesDistinct(catalogue, languages, included, pinned, disabled);
      UpdateSources(initial, false);
    }

    /** `toggleSelection(id)`. */
    method ToggleSelection(id: int)
      requires Valid()
      modifies this`sources, preferences`migrationSources
      ensures Valid()
      ensures sources == Resort(FlipById(old(sources), id), displayLanguage)
      ensures preferences.migrationSources == SelectedIds(sources) == SelectedIds(FlipById(old(sources), id))
    {
      var updated := FlipById(sources, id);
      assert Ids(updated) == Ids(sources);
      UpdateSources(updated, true);
    }

    /** `toggleSelection(config)`: reads the pinned and disabled ids, dropping
        entries that are not numbers, and applies the preset. */
    method ToggleSelectionConfig(config: SelectionConfig)
      requires Valid()
      modifies this`sources, preferences`migrationSources
      ensures Valid()
      ensures var updated := SetSelection(old(sources), config, ParseIds(preferences.pinnedSources),
                                          ParseIds(preferences.disabledSources));
        && sources == Resort(updated, displayLanguage)
        && preferences.migrationSources == SelectedIds(sources) == SelectedIds(updated)
    {
      var pinned := ParseIds(preferences.pinnedSources);
      var disabled := ParseIds(preferences.disabledSources);
      var updated := SetSelection(sources, config, pinned, disabled);
      assert Ids(updated) == Ids(sources);
      UpdateSources(updated, true);
    }

    /** `orderSource(from, to)`; `false` where the list operations throw, and then
        nothing changes. */
    method OrderSource(from: int, to: int) returns (ok: bool)
      requires Valid()
      modifies this`sources, preferences`migrationSources
      ensures Valid()
      ensures ok <==> Move(old(sources), from, to).Some?
      ensures ok ==> sources == Resort(Move(old(sources), from, to).value, displayLanguage)
      ensures ok ==> preferences.migrationSources == SelectedIds(sources) == SelectedIds(Move(old(sources), from, to).value)
      ensures !ok ==> sources == old(sources) && preferences.migrationSources == old(preferences.migrationSources)
    {
      var moved := Move(sources, from, to);
      if moved.None? {
        return false;
      }
      DistinctIdsPermutation(sources, moved.value);
      UpdateSources(moved.value, true);
      ok := true;
    }
  }
}
