/**
 * The first-writer-wins merge of the crawler: the specification of its
 * CollectItems step, an independent position-based reference definition of
 * "keep the first item of every name", and the lemmas that connect them.
 */
module Merge {
  import opened Wrappers
  import opened MetadataItems

  /** Some item of `s` has the given name (the `Exists` scan). */
  predicate HasName(s: seq<MetadataItem>, name: string) {
    exists m :: m in s && m.name == name
  }

  /** No two positions of `s` hold items with the same name. */
  predicate NamesUnique(s: seq<MetadataItem>) {
    forall i, j :: 0 <= i < j < |s| ==> s[i].name != s[j].name
  }

  /** One step of CollectItems: append `x` unless an item with its name is already present. */
  function AddIfAbsent(results: seq<MetadataItem>, x: MetadataItem): (r: seq<MetadataItem>)
    ensures HasName(r, x.name)
    ensures r == results || r == results + [x]
    ensures r == results + [x] <==> !HasName(results, x.name)
  {
    if HasName(results, x.name) then results else results + [x]
  }

  /**
   * CollectItems on a non-null reader output: every item of `items`, in order,
   * passed through `AddIfAbsent`. Defined on prefixes so that it matches a loop
   * over `items`. The collection only grows at its end.
   */
  function MergeFirstWins(results: seq<MetadataItem>, items: seq<MetadataItem>): (r: seq<MetadataItem>)
    ensures |results| <= |r| <= |results| + |items|
    ensures r[..|results|] == results
    decreases |items|
  {
    if items == [] then results
    else AddIfAbsent(MergeFirstWins(results, items[..|items| - 1]), items[|items| - 1])
  }

  /** CollectItems: a null reader output leaves the results as they are. */
  function Collected(results: seq<MetadataItem>, readerResults: Option<seq<MetadataItem>>): (r: seq<MetadataItem>)
    ensures readerResults.None? ==> r == results
    ensures |results| <= |r| && r[..|results|] == results
  {
    match readerResults
    case None => results
    case Some(items) => MergeFirstWins(results, items)
  }

  /** Position `k` of `s` is the first one that carries the name `s[k].name`. */
  predicate IsFirstWithName(s: seq<MetadataItem>, k: nat)
    requires k < |s|
  {
    forall j :: 0 <= j < k ==> s[j].name != s[k].name
  }

  /**
   * The reference definition: the items of `s` at the first position of their
   * name, in the order of `s`. It looks at positions of the input, where the
   * merge looks at names already in its output.
   */
  function FirstWins(s: seq<MetadataItem>): seq<MetadataItem>
    decreases |s|
  {
    if s == [] then []
    else FirstWins(s[..|s| - 1]) + (if IsFirstWithName(s, |s| - 1) then [s[|s| - 1]] else [])
  }

  /** The positions `FirstWins` keeps, in increasing order. */
  function FirstIndices(s: seq<MetadataItem>): (ix: seq<nat>)
    ensures forall m :: 0 <= m < |ix| ==> ix[m] < |s|
    decreases |s|
  {
    if s == [] then []
    else FirstIndices(s[..|s| - 1]) + (if IsFirstWithName(s, |s| - 1) then [|s| - 1] else [])
  }

  predicate StrictlyIncreasing(ix: seq<nat>) {
    forall i, j :: 0 <= i < j < |ix| ==> ix[i] < ix[j]
  }

  /** Merging is a fold: merging `a + b` is merging `a`, then `b`. */
  lemma {:induction false} MergeIsFold(results: seq<MetadataItem>, a: seq<MetadataItem>, b: seq<MetadataItem>)
    ensures MergeFirstWins(results, a + b) == MergeFirstWins(MergeFirstWins(results, a), b)
    decreases |b|
  {
    if b == [] {
      assert a + b == a;
    } else {
      var b' := b[..|b| - 1];
      assert (a + b)[..|a + b| - 1] == a + b';
      assert (a + b)[|a + b| - 1] == b[|b| - 1];
      MergeIsFold(results, a, b');
    }
  }

  /** A name is present after the merge exactly when it was present before or occurs in `items`. */
  lemma {:induction false} MergeNames(results: seq<MetadataItem>, items: seq<MetadataItem>, name: string)
    ensures HasName(MergeFirstWins(results, items), name) <==> HasName(results, name) || HasName(items, name)
    decreases |items|
  {
    if items != [] {
      var items' := items[..|items| - 1];
      var x := items[|items| - 1];
      MergeNames(results, items', name);
      assert items == items' + [x];
      var prev := MergeFirstWins(results, items');
      if HasName(items, name) && !HasName(items', name) {
        var m :| m in items && m.name == name;
        assert m == x;
      }
      if HasName(prev + [x], name) && x.name != name {
        var m :| m in prev + [x] && m.name == name;
        assert m in prev;
      }
    }
  }

  /** The merge never introduces a second item with a name already present. */
  lemma {:induction false} MergeKeepsNamesUnique(results: seq<MetadataItem>, items: seq<MetadataItem>)
    requires NamesUnique(results)
    ensures NamesUnique(MergeFirstWins(results, items))
    decreases |items|
  {
    if items != [] {
      var items' := items[..|items| - 1];
      var x := items[|items| - 1];
      MergeKeepsNamesUnique(results, items');
      var prev := MergeFirstWins(results, items');
      if !HasName(prev, x.name) {
        var r := prev + [x];
        forall i, j | 0 <= i < j < |r| ensures r[i].name != r[j].name {
          if j == |prev| {
            assert r[i] in prev;
          }
        }
      }
    }
  }

  lemma {:induction false} FirstWinsNames(s: seq<MetadataItem>, name: string)
    ensures HasName(FirstWins(s), name) <==> HasName(s, name)
    decreases |s|
  {
    if s != [] {
      var s' := s[..|s| - 1];
      var x := s[|s| - 1];
      assert s == s' + [x];
      FirstWinsNames(s', name);
      if HasName(s, name) && !HasName(s', name) {
        var m :| m in s && m.name == name;
        assert m == x;
        forall j | 0 <= j < |s| - 1 ensures s[j].name != x.name {
          assert s[j] in s';
        }
      }
      if HasName(FirstWins(s), name) && !HasName(FirstWins(s'), name) {
        var m :| m in FirstWins(s) && m.name == name;
        assert m == x;
      }
    }
  }

  /** Merging into an empty collection keeps exactly the first item of every name. */
  lemma {:induction false} MergeFromEmptyIsFirstWins(s: seq<MetadataItem>)
    ensures MergeFirstWins([], s) == FirstWins(s)
    decreases |s|
  {
    if s != [] {
      var s' := s[..|s| - 1];
      var x := s[|s| - 1];
      assert s == s' + [x];
      MergeFromEmptyIsFirstWins(s');
      MergeNames([], s', x.name);
      if HasName(s', x.name) {
        var m :| m in s' && m.name == x.name;
        var j :| 0 <= j < |s'| && s'[j] == m;
        assert s[j].name == x.name;
      } else {
        forall j | 0 <= j < |s| - 1 ensures s[j].name != x.name {
          assert s[j] in s';
        }
      }
    }
  }

  /**
   * `FirstWins(s)` is the order-preserving subsequence of `s` at exactly the
   * positions that are the first of their name.
   */
  lemma {:induction false} FirstWinsIsSubsequence(s: seq<MetadataItem>)
    ensures |FirstWins(s)| == |FirstIndices(s)|
    ensures forall m :: 0 <= m < |FirstWins(s)| ==> FirstWins(s)[m] == s[FirstIndices(s)[m]]
    ensures StrictlyIncreasing(FirstIndices(s))
    ensures forall k :: 0 <= k < |s| ==> (k in FirstIndices(s) <==> IsFirstWithName(s, k))
    decreases |s|
  {
    if s != [] {
      var s' := s[..|s| - 1];
      FirstWinsIsSubsequence(s');
      assert forall k :: 0 <= k < |s'| ==> (IsFirstWithName(s, k) <==> IsFirstWithName(s', k));
    }
  }

  /** The first-writer-wins result never holds two items with the same name. */
  lemma FirstWinsNamesUnique(s: seq<MetadataItem>)
    ensures NamesUnique(FirstWins(s))
  {
    MergeKeepsNamesUnique([], s);
    MergeFromEmptyIsFirstWins(s);
  }

  /**
   * First writer wins: the item at the first position of a name is in the
   * result, and it is the only item there with that name.
   */
  lemma FirstWriterWins(s: seq<MetadataItem>, k: nat)
    requires k < |s| && IsFirstWithName(s, k)
    ensures s[k] in FirstWins(s)
    ensures forall x :: x in FirstWins(s) && x.name == s[k].name ==> x == s[k]
  {
    FirstWinsIsSubsequence(s);
    var ix := FirstIndices(s);
    var m :| 0 <= m < |ix| && ix[m] == k;
    assert FirstWins(s)[m] == s[k];
    forall x | x in FirstWins(s) && x.name == s[k].name ensures x == s[k] {
      var p :| 0 <= p < |FirstWins(s)| && FirstWins(s)[p] == x;
      var kp := ix[p];
      assert IsFirstWithName(s, kp);
      assert s[kp].name == s[k].name;
      assert kp == k;
    }
  }

  /** Items with names of their own, none already present, are all appended in order. */
  lemma {:induction false} MergeDisjoint(results: seq<MetadataItem>, items: seq<MetadataItem>)
    requires NamesUnique(items)
    requires forall k :: 0 <= k < |items| ==> !HasName(results, items[k].name)
    ensures MergeFirstWins(results, items) == results + items
    decreases |items|
  {
    if items == [] {
      assert results + items == results;
    } else {
      var items' := items[..|items| - 1];
      var x := items[|items| - 1];
      assert items == items' + [x];
      MergeDisjoint(results, items');
      assert !HasName(results, items[|items| - 1].name);
      forall m | m in results + items' ensures m.name != x.name {
        if m !in results {
          var k :| 0 <= k < |items'| && items'[k] == m;
          assert items[k] == m;
        }
      }
      assert results + items' + [x] == results + items;
    }
  }

  /**
   * Merging `first` and then `second + [late]`, where the names are distinct,
   * `second` shares none with `first` and `late` repeats one of `first`'s,
   * gives `first + second`.
   */
  lemma MergeLateDuplicate(first: seq<MetadataItem>, second: seq<MetadataItem>, late: MetadataItem)
    requires NamesUnique(first) && NamesUnique(second)
    requires forall k :: 0 <= k < |second| ==> !HasName(first, second[k].name)
    requires HasName(first, late.name)
    ensures MergeFirstWins(MergeFirstWins([], first), second + [late]) == first + second
  {
    assert MergeFirstWins([], first) == first by {
      MergeDisjoint([], first);
      assert [] + first == first;
    }
    assert MergeFirstWins(first, second) == first + second by {
      MergeDisjoint(first, second);
    }
    var items := second + [late];
    assert MergeFirstWins(first, items) == AddIfAbsent(MergeFirstWins(first, second), late) by {
      assert items[..|items| - 1] == second && items[|items| - 1] == late;
    }
    assert HasName(first + second, late.name) by {
      var m :| m in first && m.name == late.name;
      assert m in first + second;
    }
  }

  /** With no repeated name, first-writer-wins keeps everything, in order. */
  lemma {:induction false} FirstWinsOfUniqueNames(s: seq<MetadataItem>)
    requires NamesUnique(s)
    ensures FirstWins(s) == s
    decreases |s|
  {
    if s != [] {
      var s' := s[..|s| - 1];
      assert NamesUnique(s');
      FirstWinsOfUniqueNames(s');
      assert IsFirstWithName(s, |s| - 1);
      assert s == s' + [s[|s| - 1]];
    }
  }
}
