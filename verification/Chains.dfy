/** Null-terminated singly linked chains threaded through memory cells, and the address-sorted
    sequences they represent.  Both the page free list and the slab free chain are built on these. */
module Chains {
  import opened WordMemory

  /** The link that position `i` of a chain must hold: the i-th cell, or null past the end. */
  function At(s: seq<nat>, i: nat): nat {
    if i < |s| then s[i] else 0
  }

  /** Following links from `head` visits exactly the cells of `s`, in order, and then stops. */
  ghost predicate Chain(w: Words, head: nat, s: seq<nat>) {
    && head == At(s, 0)
    && 0 !in s
    && forall i {:trigger Load(w, s[i])} :: 0 <= i < |s| ==> Load(w, s[i]) == At(s, i + 1)
  }

  ghost predicate Sorted(s: seq<nat>) {
    forall i, j :: 0 <= i < j < |s| ==> s[i] < s[j]
  }

  function Elements(s: seq<nat>): (r: set<nat>) {
    set x | x in s
  }

  /** How many leading elements of `s` lie below `x`. */
  function Rank(s: seq<nat>, x: nat): (k: nat)
    ensures k <= |s|
    ensures forall i :: 0 <= i < k ==> s[i] < x
    ensures k < |s| ==> x <= s[k]
  {
    if s == [] || x <= s[0] then 0 else 1 + Rank(s[1..], x)
  }

  /** Sorted insertion. */
  function Insert(s: seq<nat>, x: nat): seq<nat> {
    s[..Rank(s, x)] + [x] + s[Rank(s, x)..]
  }

  /** Memory after `x` is linked into the chain `s` at its sorted place. */
  function Linked(w: Words, s: seq<nat>, x: nat): Words {
    var k := Rank(s, x);
    if k == 0 then w[x := At(s, 0)] else w[s[k - 1] := x][x := At(s, k)]
  }

  /** The sequence `s` without the `n` elements from position `i` on. */
  function Without(s: seq<nat>, i: nat, n: nat): seq<nat>
    requires i + n <= |s|
  {
    s[..i] + s[i + n..]
  }

  /** Memory after those elements are unlinked from the chain `s`. */
  function Unlinked(w: Words, s: seq<nat>, i: nat, n: nat): Words
    requires i + n <= |s|
  {
    if i == 0 then w else w[s[i - 1] := At(s, i + n)]
  }

  lemma UnlinkedAt(w: Words, s: seq<nat>, i: nat, n: nat)
    requires i + n <= |s|
    ensures Unlinked(w, s, i, n) == if i == 0 then w else w[s[i - 1] := At(s, i + n)]
  {
  }

  // ---------------------------------------------------------------- what a chain determines

  /** Memory and a head pointer determine the chain, so no chain can revisit a cell. */
  lemma {:induction false} ChainUnique(w: Words, head: nat, s: seq<nat>, t: seq<nat>)
    requires Chain(w, head, s) && Chain(w, head, t)
    ensures s == t
  {
    if |s| <= |t| {
      ChainPrefix(w, head, s, t, |s|);
    } else {
      ChainPrefix(w, head, t, s, |t|);
    }
  }

  lemma {:induction false} ChainPrefix(w: Words, head: nat, s: seq<nat>, t: seq<nat>, n: nat)
    requires Chain(w, head, s) && Chain(w, head, t)
    requires n <= |s| <= |t|
    ensures s[..n] == t[..n]
    ensures At(s, n) == At(t, n)
    ensures n == |s| ==> |s| == |t|
  {
    if n == 0 {
    } else {
      ChainPrefix(w, head, s, t, n - 1);
      assert Load(w, s[n - 1]) == At(s, n) && Load(w, t[n - 1]) == At(t, n);
    }
    assert n < |t| ==> At(t, n) in t;
  }

  /** Every cell of a chain occurs on it once: chains are acyclic. */
  lemma {:induction false} ChainAcyclic(w: Words, head: nat, s: seq<nat>, i: nat, j: nat)
    requires Chain(w, head, s)
    requires i < j < |s|
    ensures s[i] != s[j]
  {
    if s[i] == s[j] {
      ChainSuffix(w, head, s, i);
      ChainSuffix(w, head, s, j);
      ChainUnique(w, s[i], s[i..], s[j..]);
    }
  }

  lemma ChainSuffix(w: Words, head: nat, s: seq<nat>, i: nat)
    requires Chain(w, head, s)
    requires i <= |s|
    ensures Chain(w, At(s, i), s[i..])
  {
    var t := s[i..];
    forall k {:trigger Load(w, t[k])} | 0 <= k < |t| ensures Load(w, t[k]) == At(t, k + 1) {
      assert Load(w, s[i + k]) == At(s, i + k + 1);
    }
  }

  lemma LinkAt(w: Words, head: nat, s: seq<nat>, i: nat)
    requires Chain(w, head, s) && i < |s|
    ensures Load(w, s[i]) == At(s, i + 1) && s[i] in s && s[i] != 0
  {
    assert s[i] in s;
  }

  lemma HeadIs(w: Words, head: nat, s: seq<nat>)
    requires Chain(w, head, s)
    ensures head == At(s, 0) && 0 !in s && (head == 0 <==> s == [])
  {
    assert s != [] ==> s[0] in s;
  }

  /** A chain depends on its own cells only. */
  lemma ChainFrame(w: Words, w': Words, head: nat, s: seq<nat>)
    requires Chain(w, head, s)
    requires forall x :: x in s ==> Load(w', x) == Load(w, x)
    ensures Chain(w', head, s)
  {
    forall i {:trigger Load(w', s[i])} | 0 <= i < |s| ensures Load(w', s[i]) == At(s, i + 1) {
      assert s[i] in s;
      assert Load(w, s[i]) == At(s, i + 1);
    }
  }

  // ---------------------------------------------------------------- sorted sequences

  /** A strictly ascending sequence is determined by its elements. */
  lemma {:induction false} SortedUnique(s: seq<nat>, t: seq<nat>)
    requires Sorted(s) && Sorted(t)
    requires forall x :: x in s <==> x in t
    ensures s == t
    decreases |s|
  {
    if s == [] {
      assert t != [] ==> At(t, 0) in t;
    } else {
      assert s[0] in s;
      assert t != [];
      assert t[0] in t;
      assert s[0] == t[0];
      forall x ensures x in s[1..] <==> x in t[1..] {
        assert x in s[1..] ==> x in s && x != s[0];
        assert x in t[1..] ==> x in t && x != t[0];
      }
      SortedUnique(s[1..], t[1..]);
      assert s == [s[0]] + s[1..] && t == [t[0]] + t[1..];
    }
  }

  lemma SortedBelow(s: seq<nat>, j: nat, x: nat)
    requires Sorted(s) && j < |s|
    ensures s[j] < x ==> forall i :: 0 <= i <= j ==> s[i] < x
    ensures j + 1 < |s| ==> s[j] < s[j + 1]
  {
  }

  lemma SortedSize(s: seq<nat>)
    requires Sorted(s)
    ensures |Elements(s)| == |s|
  {
    if s == [] {
      assert Elements(s) == {};
    } else {
      var n := |s| - 1;
      SortedSize(s[..n]);
      assert Elements(s) == Elements(s[..n]) + {s[n]} by {
        assert s == s[..n] + [s[n]];
      }
      assert s[n] !in Elements(s[..n]);
    }
  }

  lemma RankIs(s: seq<nat>, x: nat, k: nat)
    requires Sorted(s)
    requires k <= |s|
    requires forall i :: 0 <= i < k ==> s[i] < x
    requires k < |s| ==> x <= s[k]
    ensures Rank(s, x) == k
  {
  }

  lemma InsertElements(s: seq<nat>, x: nat)
    ensures |Insert(s, x)| == |s| + 1
    ensures Elements(Insert(s, x)) == Elements(s) + {x}
    ensures forall y :: y in Insert(s, x) <==> y in s || y == x
  {
    var k := Rank(s, x);
    assert s == s[..k] + s[k..];
  }

  lemma InsertSorted(s: seq<nat>, x: nat)
    requires Sorted(s) && x !in s
    ensures Sorted(Insert(s, x))
  {
    var k := Rank(s, x);
    if k < |s| { assert s[k] in s; }
  }

  lemma {:induction false} RankBefore(s: seq<nat>, t: seq<nat>, x: nat)
    requires t != [] ==> x <= t[0]
    ensures Rank(s + t, x) == Rank(s, x)
  {
    if s == [] {
      assert s + t == t;
    } else {
      assert (s + t)[1..] == s[1..] + t && (s + t)[0] == s[0];
      RankBefore(s[1..], t, x);
    }
  }

  /** Insertion in front of `t` leaves `t` alone. */
  lemma InsertBefore(s: seq<nat>, t: seq<nat>, x: nat)
    requires t != [] ==> x <= t[0]
    ensures Insert(s + t, x) == Insert(s, x) + t
  {
    hide Rank;
    RankBefore(s, t, x);
    var k := Rank(s, x);
    var front, back := s[..k], s[k..];
    assert (s + t)[..k] == front;
    assert (s + t)[k..] == back + t;
    assert front + [x] + (back + t) == (front + [x] + back) + t;
  }

  lemma WithoutSorted(s: seq<nat>, i: nat, n: nat)
    requires Sorted(s) && i + n <= |s|
    ensures Sorted(Without(s, i, n))
    ensures forall y :: y in Without(s, i, n) <==> y in s && y !in s[i..i + n]
  {
    var t := Without(s, i, n);
    forall y ensures y in t <==> y in s && y !in s[i..i + n] {
      assert y in s <==> y in s[..i] || y in s[i..i + n] || y in s[i + n..] by {
        assert s == s[..i] + s[i..i + n] + s[i + n..];
      }
      assert y in s[i..i + n] ==> y !in s[..i] && y !in s[i + n..];
    }
  }

  // ---------------------------------------------------------------- relinking

  lemma InsertedLink(w: Words, s: seq<nat>, x: nat, i: nat)
    requires Chain(w, At(s, 0), s) && Sorted(s) && x !in s && x != 0
    requires i <= |s|
    ensures Load(Linked(w, s, x), Insert(s, x)[i]) == At(Insert(s, x), i + 1)
  {
    var k, t := Rank(s, x), Insert(s, x);
    if i < k {
      assert t[i] == s[i] && s[i] in s;
      assert Load(w, s[i]) == At(s, i + 1);
    } else if i > k {
      assert t[i] == s[i - 1] && s[i - 1] in s;
      assert Load(w, s[i - 1]) == At(s, i);
    }
  }

  /** Linking a new cell at its rank gives the chain of the sorted insertion. */
  lemma ChainInsert(w: Words, s: seq<nat>, x: nat)
    requires Chain(w, At(s, 0), s) && Sorted(s) && x !in s && x != 0
    ensures Chain(Linked(w, s, x), At(Insert(s, x), 0), Insert(s, x))
  {
    var t, w' := Insert(s, x), Linked(w, s, x);
    InsertElements(s, x);
    forall i {:trigger Load(w', t[i])} | 0 <= i < |t| ensures Load(w', t[i]) == At(t, i + 1) {
      InsertedLink(w, s, x, i);
    }
    hide Insert, Linked, Sorted;
  }

  /** Unlinking a stretch of cells gives the chain of what is left. */
  lemma ChainWithout(w: Words, s: seq<nat>, i: nat, n: nat)
    requires Chain(w, At(s, 0), s) && Sorted(s) && i + n <= |s|
    ensures Chain(Unlinked(w, s, i, n), At(Without(s, i, n), 0), Without(s, i, n))
  {
    var t, w' := Without(s, i, n), Unlinked(w, s, i, n);
    forall k {:trigger Load(w', t[k])} | 0 <= k < |t| ensures Load(w', t[k]) == At(t, k + 1) {
      var j := if k < i then k else k + n;
      assert t[k] == s[j];
      assert Load(w, s[j]) == At(s, j + 1);
    }
    WithoutSorted(s, i, n);
  }

  /** Links of `s` are all in place except the last. */
  ghost predicate OpenChain(w: Words, s: seq<nat>) {
    forall k {:trigger Load(w, s[k])} :: 0 <= k < |s| - 1 ==> Load(w, s[k]) == At(s, k + 1)
  }

  lemma OpenChainStart(w: Words, s: seq<nat>)
    requires |s| <= 1
    ensures OpenChain(w, s)
  {
  }

  lemma OpenChainStep(w: Words, s: seq<nat>, k: nat)
    requires Sorted(s) && k + 1 < |s| && OpenChain(w, s[..k + 1])
    ensures OpenChain(w[s[k] := s[k + 1]], s[..k + 2])
  {
    var t, w' := s[..k + 2], w[s[k] := s[k + 1]];
    forall i {:trigger Load(w', t[i])} | 0 <= i < k + 1 ensures Load(w', t[i]) == At(t, i + 1) {
      assert i < k ==> Load(w, s[..k + 1][i]) == At(s[..k + 1], i + 1);
    }
  }

  lemma CloseChain(w: Words, s: seq<nat>)
    requires s != [] && Sorted(s) && 0 !in s && OpenChain(w, s)
    ensures Chain(w[s[|s| - 1] := 0], s[0], s)
  {
    var w' := w[s[|s| - 1] := 0];
    forall i {:trigger Load(w', s[i])} | 0 <= i < |s| ensures Load(w', s[i]) == At(s, i + 1) {
      assert i < |s| - 1 ==> Load(w, s[i]) == At(s, i + 1);
    }
  }

  // ---------------------------------------------------------------- linking a cell twice

  /** Following links from the head of a chain after a second insertion of its cell `x` still leads to `x`. */
  lemma {:induction false} RelinkedPrefix(w: Words, s: seq<nat>, x: nat, t: seq<nat>, j: nat)
    requires Chain(w, At(s, 0), s) && Sorted(s) && x in s
    requires Chain(Linked(w, s, x), At(Insert(s, x), 0), t)
    requires j <= Rank(s, x)
    ensures j < |t| && t[j] == s[j]
  {
    var k, w' := Rank(s, x), Linked(w, s, x);
    RankOfMember(s, x);
    assert s[j] in s;
    if j == 0 {
    } else {
      RelinkedPrefix(w, s, x, t, j - 1);
      assert Load(w', t[j - 1]) == At(t, j);
      assert Load(w, s[j - 1]) == At(s, j);
      assert s[j - 1] < s[k];
    }
  }

  lemma RankOfMember(s: seq<nat>, x: nat)
    requires Sorted(s) && x in s
    ensures Rank(s, x) < |s| && s[Rank(s, x)] == x
  {
    var i :| 0 <= i < |s| && s[i] == x;
    RankIs(s, x, i);
  }

  /** A second insertion of the same element breaks the order. */
  lemma InsertTwice(s: seq<nat>, x: nat)
    requires Sorted(s) && x in s
    ensures !Sorted(Insert(s, x))
  {
    var k, t := Rank(s, x), Insert(s, x);
    RankOfMember(s, x);
    assert t[k] == x && t[k + 1] == x;
  }

  /** Linking in a cell that is on the chain already makes it point at itself: no chain is left. */
  lemma RelinkLoops(w: Words, s: seq<nat>, x: nat)
    requires Chain(w, At(s, 0), s) && Sorted(s) && x in s
    ensures !exists t :: Chain(Linked(w, s, x), At(Insert(s, x), 0), t)
  {
    var k, w', head := Rank(s, x), Linked(w, s, x), At(Insert(s, x), 0);
    RankOfMember(s, x);
    forall t ensures !Chain(w', head, t) {
      if Chain(w', head, t) {
        RelinkedPrefix(w, s, x, t, k);
        assert Load(w', t[k]) == At(t, k + 1);
        ChainAcyclic(w', head, t, k, k + 1);
      }
    }
  }
}
