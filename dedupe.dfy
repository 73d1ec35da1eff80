/** `_deduplicate` of extract_links.py: `list(dict.fromkeys(items))`. A dict
    keeps its keys in insertion order and inserting a key that is already
    present does not move it, so the result lists every distinct item once,
    at the place where it first occurs. */
module Dedupe {

  predicate NoDuplicates(s: seq<string>) {
    forall i, j :: 0 <= i < j < |s| ==> s[i] != s[j]
  }

  /** `list(dict.fromkeys(items))`: the keys of the dict after inserting the
      items one at a time. */
  function Deduplicate(items: seq<string>): (r: seq<string>)
    ensures NoDuplicates(r)
    ensures forall x :: x in r <==> x in items
    decreases |items|
  {
    if items == [] then []
    else
      var keys := Deduplicate(items[..|items| - 1]);
      var last := items[|items| - 1];
      if last in keys then keys else keys + [last]
  }

  /** The position of the first occurrence of `x` in `s`. */
  function FirstIndex(s: seq<string>, x: string): (n: nat)
    requires x in s
    ensures n < |s| && s[n] == x && x !in s[..n]
    decreases |s|
  {
    if s[0] == x then 0
    else
      var n := 1 + FirstIndex(s[1..], x);
      assert s[..n] == [s[0]] + s[1..][..n - 1];
      n
  }

  /** Appending items does not move a first occurrence. */
  lemma {:induction false} FirstIndexPrefix(s: seq<string>, t: seq<string>, x: string)
    requires x in s
    ensures FirstIndex(s + t, x) == FirstIndex(s, x)
    decreases |s|
  {
    if s[0] != x {
      assert (s + t)[1..] == s[1..] + t;
      FirstIndexPrefix(s[1..], t, x);
    }
  }

  /** An item that is new when appended first occurs at the end. */
  lemma {:induction false} FirstIndexAppend(s: seq<string>, x: string)
    requires x !in s
    ensures FirstIndex(s + [x], x) == |s|
    decreases |s|
  {
    if s != [] {
      assert (s + [x])[1..] == s[1..] + [x];
      FirstIndexAppend(s[1..], x);
    }
  }

  /** The distinct items come out in the order of their first occurrences. */
  lemma {:induction false} DeduplicateFirstOccurrenceOrder(items: seq<string>)
    ensures forall i, j :: 0 <= i < j < |Deduplicate(items)| ==>
      FirstIndex(items, Deduplicate(items)[i]) < FirstIndex(items, Deduplicate(items)[j])
    decreases |items|
  {
    if items != [] {
      var init := items[..|items| - 1];
      var last := items[|items| - 1];
      var keys := Deduplicate(init);
      var r := Deduplicate(items);
      DeduplicateFirstOccurrenceOrder(init);
      assert items == init + [last];
      forall x | x in init ensures FirstIndex(items, x) == FirstIndex(init, x) {
        FirstIndexPrefix(init, [last], x);
      }
      forall i, j | 0 <= i < j < |r| ensures FirstIndex(items, r[i]) < FirstIndex(items, r[j]) {
        assert r[i] == keys[i] && keys[i] in init;
        assert FirstIndex(items, r[i]) == FirstIndex(init, keys[i]);
        if j < |keys| {
          assert r[j] == keys[j] && keys[j] in init;
          assert FirstIndex(items, r[j]) == FirstIndex(init, keys[j]);
          assert FirstIndex(init, keys[i]) < FirstIndex(init, keys[j]);
        } else {
          assert r[j] == last && last !in init;
          FirstIndexAppend(init, last);
          assert FirstIndex(items, r[j]) == |init|;
        }
      }
    }
  }

  /** A list without duplicates is left as it is, so `_deduplicate` is
      idempotent. */
  lemma {:induction false} DeduplicateNoDuplicates(items: seq<string>)
    requires NoDuplicates(items)
    ensures Deduplicate(items) == items
    decreases |items|
  {
    if items != [] {
      var init := items[..|items| - 1];
      var last := items[|items| - 1];
      DeduplicateNoDuplicates(init);
      forall k | 0 <= k < |init| ensures init[k] != last {
        assert init[k] == items[k];
      }
      assert items == init + [last];
    }
  }

  lemma DeduplicateIdempotent(items: seq<string>)
    ensures Deduplicate(Deduplicate(items)) == Deduplicate(items)
  {
    DeduplicateNoDuplicates(Deduplicate(items));
  }
}
