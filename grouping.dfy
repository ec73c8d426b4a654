/**
  The grouper `getScenarioGroups` (vrt/misw-4103-pixelmatch/index.js:20-31):
  buckets the screenshot names of one corpus by scenario code.
*/
module Grouping {
  import opened Wrappers
  import opened Naming

  /** One `{ file, step }` record pushed by the grouper. */
  datatype Shot = Shot(file: string, step: nat)

  /**
    The `groups` object: its keys in insertion order (the order `Object.keys`
    reports for keys that are not array indices, as `ESCddd` never is) and the
    array stored under each key.
  */
  datatype Groups = Groups(order: seq<string>, lists: map<string, seq<Shot>>)

  /** Keys are listed once each, listed keys are exactly the stored ones, and no array is empty. */
  ghost predicate WellFormed(g: Groups)
  {
    && (forall i, j :: 0 <= i < j < |g.order| ==> g.order[i] != g.order[j])
    && (forall k :: k in g.lists <==> k in g.order)
    && (forall k :: k in g.lists ==> g.lists[k] != [])
  }

  /** The scenario code of a file name, if the name is a screenshot name. */
  function KeyOf(file: string): Option<string>
  {
    match ParseName(file)
    case None => None
    case Some(n) => Some(n.scenario)
  }

  /** The effect of one file name on the groups: one turn of the grouper's loop. */
  function AddFile(g: Groups, file: string): Groups
  {
    match ParseName(file)
    case None => g
    case Some(n) =>
      var entry := Shot(file, n.step);
      if n.scenario in g.lists then Groups(g.order, g.lists[n.scenario := g.lists[n.scenario] + [entry]])
      else Groups(g.order + [n.scenario], g.lists[n.scenario := [entry]])
  }

  /** The groups after the loop has visited every name of `files`. */
  function GroupFiles(files: seq<string>): Groups
  {
    if files == [] then Groups([], map[])
    else AddFile(GroupFiles(files[..|files| - 1]), files[|files| - 1])
  }

  /** The grouper itself: a loop that adds keys on first sight and pushes onto their arrays. */
  method GetScenarioGroups(files: seq<string>) returns (g: Groups)
    ensures g == GroupFiles(files)
  {
    var order: seq<string> := [];
    var lists: map<string, seq<Shot>> := map[];
    for i := 0 to |files|
      invariant Groups(order, lists) == GroupFiles(files[..i])
    {
      var file := files[i];
      assert files[..i + 1][..i] == files[..i];
      assert GroupFiles(files[..i + 1]) == AddFile(Groups(order, lists), file);
      var m := ParseName(file);
      if m.Some? {
        var scenario, step := m.value.scenario, m.value.step;
        if scenario !in lists {
          order := order + [scenario];
          lists := lists[scenario := []];
          assert lists[scenario] + [Shot(file, step)] == [Shot(file, step)];
        }
        lists := lists[scenario := lists[scenario] + [Shot(file, step)]];
      }
      assert Groups(order, lists) == GroupFiles(files[..i + 1]);
    }
    assert files[..|files|] == files;
    g := Groups(order, lists);
  }

  /** Some name in `files` carries scenario code `k`. */
  ghost predicate Mentions(files: seq<string>, k: string)
  {
    exists p :: 0 <= p < |files| && KeyOf(files[p]) == Some(k)
  }

  /**
    Reference definition of what scenario `k` should receive: the screenshot
    names with code `k`, each with its step, in input order.
  */
  function EntriesFor(files: seq<string>, k: string): (r: seq<Shot>)
    ensures forall e :: e in r ==> e.file in files && ParseName(e.file) == Some(ShotName(k, e.step))
    ensures r != [] <==> Mentions(files, k)
  {
    if files == [] then []
    else
      var init, f := files[..|files| - 1], files[|files| - 1];
      var rest := EntriesFor(init, k);
      assert Mentions(init, k) ==> Mentions(files, k) by {
        if p :| 0 <= p < |init| && KeyOf(init[p]) == Some(k) {
          assert files[p] == init[p];
        }
      }
      assert Mentions(files, k) && !Mentions(init, k) ==> KeyOf(f) == Some(k) by {
        if p :| 0 <= p < |files| && KeyOf(files[p]) == Some(k) {
          if p < |init| { assert init[p] == files[p]; }
        }
      }
      match ParseName(f)
      case None => rest
      case Some(n) => if n.scenario == k then rest + [Shot(f, n.step)] else rest
  }

  /**
    The grouper loses nothing and invents nothing: the array under each key is
    exactly the matching names with that code, in input order (duplicates kept),
    the keys are exactly the codes that occur, and no array is empty.
  */
  lemma {:induction false} GroupFilesContents(files: seq<string>)
    ensures WellFormed(GroupFiles(files))
    ensures forall k :: k in GroupFiles(files).lists <==> Mentions(files, k)
    ensures forall k :: k in GroupFiles(files).lists ==> GroupFiles(files).lists[k] == EntriesFor(files, k)
  {
    GroupFilesFaithful(files);
    forall k ensures EntriesFor(files, k) != [] <==> Mentions(files, k) {
    }
  }

  /** `g` holds, for the names `files`, exactly the reference entries of each key. */
  ghost predicate Faithful(files: seq<string>, g: Groups)
  {
    && WellFormed(g)
    && (forall k :: k in g.lists <==> EntriesFor(files, k) != [])
    && (forall k :: k in g.lists ==> g.lists[k] == EntriesFor(files, k))
  }

  /** The grouping of every listing is faithful to it, by induction on the listing. */
  lemma {:induction false} GroupFilesFaithful(files: seq<string>)
    ensures Faithful(files, GroupFiles(files))
  {
    if files != [] {
      var init, f := files[..|files| - 1], files[|files| - 1];
      GroupFilesFaithful(init);
      assert files == init + [f];
      AddFileFaithful(init, f, GroupFiles(init));
    }
  }

  /** One turn of the loop keeps the groups faithful to the names seen so far. */
  lemma AddFileFaithful(init: seq<string>, f: string, g0: Groups)
    requires Faithful(init, g0)
    ensures Faithful(init + [f], AddFile(g0, f))
  {
    var files := init + [f];
    assert files[..|files| - 1] == init;
    var g := AddFile(g0, f);
    AddFileWellFormed(g0, f);
    match ParseName(f)
    case None =>
      forall k ensures EntriesFor(files, k) == EntriesFor(init, k) {
      }
    case Some(n) =>
      var entry := Shot(f, n.step);
      forall k ensures EntriesFor(files, k) == EntriesFor(init, k) + (if n.scenario == k then [entry] else []) {
      }
      forall k ensures k in g.lists <==> EntriesFor(files, k) != [] {
        if k != n.scenario {
          assert (k in g.lists <==> k in g0.lists) && EntriesFor(files, k) == EntriesFor(init, k);
        }
      }
      forall k | k in g.lists ensures g.lists[k] == EntriesFor(files, k) {
        if k != n.scenario {
          assert g.lists[k] == g0.lists[k] && EntriesFor(files, k) == EntriesFor(init, k);
        } else if k in g0.lists {
          assert g.lists[k] == g0.lists[k] + [entry];
        } else {
          assert g.lists[k] == [entry] && EntriesFor(init, k) == [];
        }
      }
  }

  /** One turn of the loop keeps the groups well formed. */
  lemma AddFileWellFormed(g: Groups, f: string)
    requires WellFormed(g)
    ensures WellFormed(AddFile(g, f))
  {
    match ParseName(f)
    case None =>
    case Some(n) =>
      var g' := AddFile(g, f);
      if n.scenario !in g.lists {
        assert g'.order == g.order + [n.scenario];
        forall i, j | 0 <= i < j < |g'.order| ensures g'.order[i] != g'.order[j] {
          if j == |g.order| {
            assert g'.order[i] == g.order[i] && g.order[i] in g.lists;
          }
        }
      }
  }

  /** Every screenshot name of the corpus ends up in the array of its scenario, with its step. */
  lemma GroupingLossless(files: seq<string>, p: nat)
    requires p < |files| && ParseName(files[p]).Some?
    ensures var n := ParseName(files[p]).value;
            n.scenario in GroupFiles(files).lists && Shot(files[p], n.step) in GroupFiles(files).lists[n.scenario]
  {
    var n := ParseName(files[p]).value;
    EntriesForComplete(files, p);
    GroupFilesContents(files);
    assert KeyOf(files[p]) == Some(n.scenario);
  }

  lemma {:induction false} EntriesForComplete(files: seq<string>, p: nat)
    requires p < |files| && ParseName(files[p]).Some?
    ensures Shot(files[p], ParseName(files[p]).value.step) in EntriesFor(files, ParseName(files[p]).value.scenario)
  {
    var init := files[..|files| - 1];
    if p < |init| {
      assert init[p] == files[p];
      EntriesForComplete(init, p);
    }
  }

  /** `order` lists the keys by first appearance: each key occurs before any occurrence of a later key. */
  ghost predicate FirstAppearanceOrder(files: seq<string>, order: seq<string>)
  {
    forall i, j :: 0 <= i < j < |order| ==>
      exists p :: 0 <= p < |files| && KeyOf(files[p]) == Some(order[i]) && !Mentions(files[..p], order[j])
  }

  /** The key order `Object.keys` later reports is the order in which the codes first occur. */
  lemma {:induction false} GroupOrderFirstAppearance(files: seq<string>)
    ensures FirstAppearanceOrder(files, GroupFiles(files).order)
  {
    if files != [] {
      var init := files[..|files| - 1];
      GroupOrderFirstAppearance(init);
      GroupFilesContents(init);
      var g := GroupFiles(files);
      assert files == init + [files[|files| - 1]];
      forall i, j | 0 <= i < j < |g.order|
        ensures exists p :: 0 <= p < |files| && KeyOf(files[p]) == Some(g.order[i]) && !Mentions(files[..p], g.order[j])
      {
        OrderPairStep(init, files[|files| - 1], i, j);
      }
    }
  }

  /** One pair of keys in the inductive step of GroupOrderFirstAppearance. */
  lemma OrderPairStep(init: seq<string>, f: string, i: nat, j: nat)
    requires FirstAppearanceOrder(init, GroupFiles(init).order)
    requires WellFormed(GroupFiles(init))
    requires forall k :: k in GroupFiles(init).lists <==> Mentions(init, k)
    requires i < j < |GroupFiles(init + [f]).order|
    ensures exists p :: 0 <= p < |init + [f]| && KeyOf((init + [f])[p]) == Some(GroupFiles(init + [f]).order[i])
                        && !Mentions((init + [f])[..p], GroupFiles(init + [f]).order[j])
  {
    var files := init + [f];
    assert files[..|files| - 1] == init;
    var g0, g := GroupFiles(init), GroupFiles(files);
    assert g == AddFile(g0, f);
    if j < |g0.order| {
      assert g.order[i] == g0.order[i] && g.order[j] == g0.order[j];
      var p :| 0 <= p < |init| && KeyOf(init[p]) == Some(g0.order[i]) && !Mentions(init[..p], g0.order[j]);
      assert init[..p] == files[..p] && init[p] == files[p];
    } else {
      var k := g.order[j];
      assert g.order == g0.order + [k] && k !in g0.lists;
      assert g0.order[i] in g0.lists;
      var p :| 0 <= p < |init| && KeyOf(init[p]) == Some(g0.order[i]);
      assert files[p] == init[p];
      assert !Mentions(files[..p], k) by {
        forall q | 0 <= q < p ensures KeyOf(files[..p][q]) != Some(k) {
          assert files[..p][q] == init[q];
        }
      }
    }
  }
}
