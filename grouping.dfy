/**
 * The grouping loop both the downloader and the stacker run over a directory listing:
 * a dictionary from key to the list of files with that key, filled by appending each
 * file under its key in listing order, keys kept in order of first appearance (Python
 * dictionaries iterate in insertion order). Computing a key may skip the file (an error
 * the loop catches) or abort the whole loop (an error it does not catch).
 */
module Grouping {
  import opened Wrappers

  /** What computing an item's key gives. */
  datatype KeyOutcome = Key(key: string) | Skip | Crash

  predicate Distinct(s: seq<string>) {
    forall i, j :: 0 <= i < j < |s| ==> s[i] != s[j]
  }

  predicate HasKey(items: seq<string>, keyOf: string -> KeyOutcome, k: string) {
    exists i :: 0 <= i < |items| && keyOf(items[i]) == Key(k)
  }

  predicate AnyCrash(items: seq<string>, keyOf: string -> KeyOutcome) {
    exists i :: 0 <= i < |items| && keyOf(items[i]).Crash?
  }

  /** The items whose key is `k`, in listing order. */
  function Members(items: seq<string>, keyOf: string -> KeyOutcome, k: string): (r: seq<string>)
    ensures |r| <= |items|
    ensures forall x :: x in r ==> x in items && keyOf(x) == Key(k)
    ensures forall i :: 0 <= i < |items| && keyOf(items[i]) == Key(k) ==> items[i] in r
  {
    if items == [] then []
    else
      var init, x := items[..|items| - 1], items[|items| - 1];
      assert items == init + [x];
      var rest := Members(init, keyOf, k);
      if keyOf(x) == Key(k) then rest + [x] else rest
  }

  /** A key no item has has an empty group. */
  lemma NoMembersWithoutKey(items: seq<string>, keyOf: string -> KeyOutcome, k: string)
    requires !HasKey(items, keyOf, k)
    ensures Members(items, keyOf, k) == []
  {
  }

  /** The items that have a key, in listing order. */
  function Keyed(items: seq<string>, keyOf: string -> KeyOutcome): (r: seq<string>)
    ensures forall x :: x in r <==> x in items && keyOf(x).Key?
  {
    if items == [] then []
    else
      var init, x := items[..|items| - 1], items[|items| - 1];
      assert items == init + [x];
      var rest := Keyed(init, keyOf);
      if keyOf(x).Key? then rest + [x] else rest
  }

  /** The distinct keys, in order of first appearance. */
  function KeyOrder(items: seq<string>, keyOf: string -> KeyOutcome): (r: seq<string>)
    ensures Distinct(r)
    ensures forall k :: k in r <==> HasKey(items, keyOf, k)
  {
    if items == [] then []
    else
      var init, x := items[..|items| - 1], items[|items| - 1];
      var rest := KeyOrder(init, keyOf);
      forall k ensures HasKey(items, keyOf, k) <==> HasKey(init, keyOf, k) || keyOf(x) == Key(k) {
        if HasKey(items, keyOf, k) {
          var i :| 0 <= i < |items| && keyOf(items[i]) == Key(k);
          if i < |init| { assert init[i] == items[i]; }
        }
        if HasKey(init, keyOf, k) {
          var i :| 0 <= i < |init| && keyOf(init[i]) == Key(k);
          assert items[i] == init[i];
        }
      }
      if keyOf(x).Key? && keyOf(x).key !in rest then rest + [keyOf(x).key] else rest
  }

  /** The groups one after the other, in the order of `ks`. */
  function Concat(items: seq<string>, keyOf: string -> KeyOutcome, ks: seq<string>): seq<string> {
    if ks == [] then [] else Members(items, keyOf, ks[0]) + Concat(items, keyOf, ks[1..])
  }

  /** The dictionary the loop builds: keys in insertion order and each key's list. */
  datatype Groups = Groups(keys: seq<string>, members: map<string, seq<string>>)

  /**
   * The grouping loop. It fails exactly when some item's key raises an uncaught error;
   * otherwise each key of some item appears once, in order of first appearance, with the
   * items that have that key in listing order. Skipped items are in no group.
   */
  method GroupByKey(items: seq<string>, keyOf: string -> KeyOutcome) returns (r: Result<Groups, string>)
    ensures r.Failure? <==> AnyCrash(items, keyOf)
    ensures r.Success? ==> r.value.keys == KeyOrder(items, keyOf)
    ensures r.Success? ==> forall k :: k in r.value.members <==> k in r.value.keys
    ensures r.Success? ==> forall k :: k in r.value.members ==> r.value.members[k] == Members(items, keyOf, k)
  {
    var keys: seq<string> := [];
    var members: map<string, seq<string>> := map[];
    var i := 0;
    while i < |items|
      invariant 0 <= i <= |items|
      invariant !AnyCrash(items[..i], keyOf)
      invariant keys == KeyOrder(items[..i], keyOf)
      invariant forall k :: k in members <==> k in keys
      invariant Tracks(members, items[..i], keyOf)
    {
      var x := items[i];
      GroupStep(items, keyOf, i);
      TracksStep(members, items, keyOf, i);
      match keyOf(x) {
        case Crash =>
          return Failure("uncaught error while computing the key of " + x);
        case Skip =>
        case Key(k) =>
          var group := if k in members then members[k] else [];
          members := members[k := group + [x]];
          if k !in keys {
            keys := keys + [k];
          }
      }
      i := i + 1;
    }
    assert items[..i] == items;
    r := Success(Groups(keys, members));
  }

  /** Each key of the map holds its group over `prefix`. */
  predicate Tracks(members: map<string, seq<string>>, prefix: seq<string>, keyOf: string -> KeyOutcome) {
    forall k :: k in members ==> members[k] == Members(prefix, keyOf, k)
  }

  /** What one more item does to the keys and the crash flag of a prefix. */
  lemma GroupStep(items: seq<string>, keyOf: string -> KeyOutcome, i: int)
    requires 0 <= i < |items|
    ensures var x := items[i];
      KeyOrder(items[..i + 1], keyOf)
        == if keyOf(x).Key? && keyOf(x).key !in KeyOrder(items[..i], keyOf)
           then KeyOrder(items[..i], keyOf) + [keyOf(x).key] else KeyOrder(items[..i], keyOf)
    ensures keyOf(items[i]).Crash? ==> AnyCrash(items, keyOf)
    ensures !AnyCrash(items[..i], keyOf) && !keyOf(items[i]).Crash? ==> !AnyCrash(items[..i + 1], keyOf)
  {
    var pre := items[..i + 1];
    assert pre[..i] == items[..i] && pre[i] == items[i];
    if !AnyCrash(items[..i], keyOf) && !keyOf(items[i]).Crash? {
      forall j | 0 <= j < |pre| ensures !keyOf(pre[j]).Crash? {
        if j < i {
          assert pre[j] == items[..i][j];
        }
      }
    }
  }

  /** Appending item `i` to the group of its key keeps the map tracking the groups. */
  lemma TracksStep(members: map<string, seq<string>>, items: seq<string>, keyOf: string -> KeyOutcome, i: int)
    requires 0 <= i < |items| && Tracks(members, items[..i], keyOf)
    requires forall k :: k in members <==> k in KeyOrder(items[..i], keyOf)
    ensures keyOf(items[i]).Skip? ==> Tracks(members, items[..i + 1], keyOf)
    ensures keyOf(items[i]).Key? ==>
      var k := keyOf(items[i]).key;
      Tracks(members[k := (if k in members then members[k] else []) + [items[i]]], items[..i + 1], keyOf)
  {
    var pre := items[..i + 1];
    assert pre[..|pre| - 1] == items[..i] && pre[|pre| - 1] == items[i];
    if keyOf(items[i]).Key? {
      var k := keyOf(items[i]).key;
      if k !in members {
        NoMembersWithoutKey(items[..i], keyOf, k);
      }
    }
  }

  lemma {:induction false} ConcatSnoc(items: seq<string>, keyOf: string -> KeyOutcome, ks: seq<string>, k: string)
    ensures Concat(items, keyOf, ks + [k]) == Concat(items, keyOf, ks) + Members(items, keyOf, k)
  {
    if ks != [] {
      assert (ks + [k])[1..] == ks[1..] + [k];
      ConcatSnoc(items, keyOf, ks[1..], k);
    }
  }

  /** Appending one item adds it to the group of its key and changes no other group. */
  lemma {:induction false} ConcatAddOne(items: seq<string>, keyOf: string -> KeyOutcome, x: string, ks: seq<string>)
    requires Distinct(ks)
    ensures multiset(Concat(items + [x], keyOf, ks))
         == multiset(Concat(items, keyOf, ks))
            + (if keyOf(x).Key? && keyOf(x).key in ks then multiset{x} else multiset{})
  {
    if ks != [] {
      var more := items + [x];
      assert more[..|more| - 1] == items && more[|more| - 1] == x;
      DistinctTail(ks);
      ConcatAddOne(items, keyOf, x, ks[1..]);
    }
  }

  /** The tail of a list without repeats has none either, and lacks the head. */
  lemma DistinctTail(ks: seq<string>)
    requires Distinct(ks) && ks != []
    ensures Distinct(ks[1..]) && ks[0] !in ks[1..]
  {
    forall i, j | 0 <= i < j < |ks[1..]| ensures ks[1..][i] != ks[1..][j] {
      assert ks[1..][i] == ks[i + 1] && ks[1..][j] == ks[j + 1];
    }
    forall j | 0 <= j < |ks[1..]| ensures ks[1..][j] != ks[0] {
      assert ks[1..][j] == ks[j + 1];
    }
  }

  /**
   * The groups partition the items that have a key: every such item lies in exactly
   * one group (the group of its key), as often as it was listed, and nothing else does.
   */
  lemma {:induction false} GroupsPartition(items: seq<string>, keyOf: string -> KeyOutcome)
    ensures multiset(Concat(items, keyOf, KeyOrder(items, keyOf))) == multiset(Keyed(items, keyOf))
  {
    if items != [] {
      var init, x := items[..|items| - 1], items[|items| - 1];
      assert items == init + [x];
      GroupsPartition(init, keyOf);
      var ks := KeyOrder(init, keyOf);
      ConcatAddOne(init, keyOf, x, ks);
      if keyOf(x).Key? && keyOf(x).key !in ks {
        var k := keyOf(x).key;
        ConcatSnoc(items, keyOf, ks, k);
        NoMembersWithoutKey(init, keyOf, k);
      }
    }
  }

  /** An item whose key is `k` is in the group of `k` and in no other group. */
  lemma InOneGroupOnly(items: seq<string>, keyOf: string -> KeyOutcome, i: int, k: string)
    requires 0 <= i < |items| && keyOf(items[i]).Key?
    ensures items[i] in Members(items, keyOf, keyOf(items[i]).key)
    ensures k != keyOf(items[i]).key ==> items[i] !in Members(items, keyOf, k)
  {
  }

  /**
   * Appending keeps listing order: the group of `k` over `a + b` is its group over `a`
   * followed by its group over `b`.
   */
  lemma {:induction false} MembersAppend(a: seq<string>, b: seq<string>, keyOf: string -> KeyOutcome, k: string)
    ensures Members(a + b, keyOf, k) == Members(a, keyOf, k) + Members(b, keyOf, k)
    decreases |b|
  {
    if b == [] {
      assert a + b == a;
    } else {
      var init, x := b[..|b| - 1], b[|b| - 1];
      assert (a + b)[..|a + b| - 1] == a + init && (a + b)[|a + b| - 1] == x;
      MembersAppend(a, init, keyOf, k);
    }
  }

  /** The keyed items of `a + b` are those of `a` followed by those of `b`. */
  lemma {:induction false} KeyedAppend(a: seq<string>, b: seq<string>, keyOf: string -> KeyOutcome)
    ensures Keyed(a + b, keyOf) == Keyed(a, keyOf) + Keyed(b, keyOf)
    decreases |b|
  {
    if b == [] {
      assert a + b == a;
    } else {
      var init, x := b[..|b| - 1], b[|b| - 1];
      assert (a + b)[..|a + b| - 1] == a + init && (a + b)[|a + b| - 1] == x;
      KeyedAppend(a, init, keyOf);
    }
  }

  /**
   * Keys come in order of first appearance: wherever an item carries a later key, an
   * earlier item carries each key listed before it.
   */
  lemma {:induction false} KeyOrderFirstAppearance(items: seq<string>, keyOf: string -> KeyOutcome, j1: int, j2: int, i2: int)
    requires 0 <= j1 < j2 < |KeyOrder(items, keyOf)|
    requires 0 <= i2 < |items| && keyOf(items[i2]) == Key(KeyOrder(items, keyOf)[j2])
    ensures exists i1 :: 0 <= i1 < i2 && keyOf(items[i1]) == Key(KeyOrder(items, keyOf)[j1])
  {
    var r := KeyOrder(items, keyOf);
    var init, x := items[..|items| - 1], items[|items| - 1];
    var rest := KeyOrder(init, keyOf);
    assert |rest| <= |r| && forall j :: 0 <= j < |rest| ==> r[j] == rest[j];
    assert j1 < |rest|;
    if i2 == |items| - 1 {
      assert HasKey(init, keyOf, rest[j1]);
      var i1 :| 0 <= i1 < |init| && keyOf(init[i1]) == Key(rest[j1]);
      assert items[i1] == init[i1];
    } else {
      assert init[i2] == items[i2];
      if j2 < |rest| {
        KeyOrderFirstAppearance(init, keyOf, j1, j2, i2);
        var i1 :| 0 <= i1 < i2 && keyOf(init[i1]) == Key(rest[j1]);
        assert items[i1] == init[i1];
      } else {
        assert HasKey(init, keyOf, r[j2]);
        assert false;
      }
    }
  }
}
