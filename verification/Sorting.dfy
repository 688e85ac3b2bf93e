/** `Vec::sort`, `Vec::dedup` and `slice::binary_search` on byte arrays. */
module Sorting {
  import opened Octets

  ghost predicate Ascending(s: seq<Hash>) {
    forall i, j | 0 <= i < j < |s| :: !Less(s[j], s[i])
  }

  ghost predicate StrictlyAscending(s: seq<Hash>) {
    forall i, j | 0 <= i < j < |s| :: Less(s[i], s[j])
  }

  ghost function Members(s: seq<Hash>): set<Hash> {
    set x | x in s
  }

  function Insert(x: Hash, s: seq<Hash>): (r: seq<Hash>)
    ensures |r| == |s| + 1
  {
    if |s| == 0 then [x]
    else if Less(s[0], x) then [s[0]] + Insert(x, s[1..])
    else [x] + s
  }

  function Sort(s: seq<Hash>): (r: seq<Hash>)
    ensures |r| == |s|
  {
    if |s| == 0 then [] else Insert(s[0], Sort(s[1..]))
  }

  /** Drop every element equal to its neighbour. */
  function Dedup(s: seq<Hash>): (r: seq<Hash>)
    ensures |r| <= |s|
    ensures s != [] ==> r != []
  {
    if |s| <= 1 then s
    else if s[0] == s[1] then Dedup(s[1..])
    else [s[0]] + Dedup(s[1..])
  }

  lemma {:induction false} InsertElements(x: Hash, s: seq<Hash>)
    ensures multiset(Insert(x, s)) == multiset(s) + multiset{x}
  {
    if s != [] {
      assert s == [s[0]] + s[1..];
      if Less(s[0], x) {
        InsertElements(x, s[1..]);
      }
    }
  }

  /** An element put before an ascending sequence whose first element is not smaller. */
  lemma PrependAscending(x: Hash, s: seq<Hash>)
    requires Ascending(s)
    requires s != [] ==> !Less(s[0], x)
    ensures Ascending([x] + s)
  {
    forall k | 0 <= k < |s| ensures !Less(s[k], x) {
      if k > 0 && Less(s[k], x) {
        LessTotal(s[0], s[k]);
        if Less(s[0], s[k]) {
          LessTransitive(s[0], s[k], x);
        }
      }
    }
  }

  lemma {:induction false} InsertSorts(x: Hash, s: seq<Hash>)
    requires Ascending(s)
    ensures Ascending(Insert(x, s))
    ensures Insert(x, s)[0] == x || (s != [] && Insert(x, s)[0] == s[0])
  {
    if s != [] && Less(s[0], x) {
      LessAsymmetric(s[0], x);
      InsertSorts(x, s[1..]);
      PrependAscending(s[0], Insert(x, s[1..]));
    } else {
      PrependAscending(x, s);
    }
  }

  lemma {:induction false} SortSorts(s: seq<Hash>)
    ensures Ascending(Sort(s))
    ensures multiset(Sort(s)) == multiset(s)
  {
    if s != [] {
      SortSorts(s[1..]);
      InsertSorts(s[0], Sort(s[1..]));
      InsertElements(s[0], Sort(s[1..]));
      assert s == [s[0]] + s[1..];
    }
  }

  lemma {:induction false} DedupOfSorted(s: seq<Hash>)
    requires Ascending(s)
    ensures StrictlyAscending(Dedup(s))
    ensures Members(Dedup(s)) == Members(s)
  {
    if |s| > 1 {
      DedupOfSorted(s[1..]);
      var d := Dedup(s[1..]);
      assert s == [s[0]] + s[1..];
      if s[0] == s[1] {
        assert s[1] in s[1..];
      } else {
        forall k | 0 <= k < |d| ensures Less(s[0], d[k]) {
          assert d[k] in Members(d);
          LessTotal(s[0], s[1]);
          LessTotal(s[0], d[k]);
        }
        assert Members([s[0]] + d) == {s[0]} + Members(d);
        assert Members(s) == {s[0]} + Members(s[1..]);
      }
    }
  }

  /** A set has only one strictly ascending listing. */
  lemma {:induction false} AscendingListingUnique(s: seq<Hash>, t: seq<Hash>)
    requires StrictlyAscending(s) && StrictlyAscending(t)
    requires Members(s) == Members(t)
    ensures s == t
  {
    if s == [] {
      assert forall k | 0 <= k < |t| :: t[k] in Members(t);
    } else {
      assert s[0] in Members(t) && t != [];
      FirstIsLeast(s, t);
      FirstIsLeast(t, s);
      LessTotal(s[0], t[0]);
      assert s == [s[0]] + s[1..] && t == [t[0]] + t[1..];
      TailMembers(s);
      TailMembers(t);
      AscendingListingUnique(s[1..], t[1..]);
    }
  }

  lemma FirstIsLeast(s: seq<Hash>, t: seq<Hash>)
    requires StrictlyAscending(s) && s != [] && t != []
    requires Members(s) == Members(t)
    ensures !Less(t[0], s[0])
  {
    assert t[0] in Members(t);
    var k :| 0 <= k < |s| && s[k] == t[0];
    if k > 0 {
      LessAsymmetric(s[0], s[k]);
    } else {
      LessIrreflexive(s[0]);
    }
  }

  lemma TailMembers(s: seq<Hash>)
    requires StrictlyAscending(s) && s != []
    ensures Members(s[1..]) == Members(s) - {s[0]}
  {
    LessIrreflexive(s[0]);
    assert s == [s[0]] + s[1..];
  }

  datatype Position = Found(index: nat) | InsertAt(index: nat)

  /** `binary_search`: the index of `key`, or the place where it belongs. */
  method BinarySearch(s: seq<Hash>, key: Hash) returns (p: Position)
    requires StrictlyAscending(s)
    ensures p.Found? ==> p.index < |s| && s[p.index] == key
    ensures p.InsertAt? ==>
              && p.index <= |s|
              && (forall k | 0 <= k < p.index :: Less(s[k], key))
              && (forall k | p.index <= k < |s| :: Less(key, s[k]))
    ensures p.Found? <==> key in s
  {
    var lo, hi := 0, |s|;
    while lo < hi
      invariant lo <= hi <= |s|
      invariant forall k | 0 <= k < lo :: Less(s[k], key)
      invariant forall k | hi <= k < |s| :: Less(key, s[k])
    {
      var mid := (lo + hi) / 2;
      if s[mid] == key {
        return Found(mid);
      }
      LessTotal(s[mid], key);
      if Less(s[mid], key) {
        forall k | 0 <= k < mid ensures Less(s[k], key) {
          LessTransitive(s[k], s[mid], key);
        }
        lo := mid + 1;
      } else {
        forall k | mid < k < |s| ensures Less(key, s[k]) {
          LessTransitive(key, s[mid], s[k]);
        }
        hi := mid;
      }
    }
    LessIrreflexive(key);
    return InsertAt(lo);
  }
}
