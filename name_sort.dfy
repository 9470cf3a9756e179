/** The ordering step of `renderResults`: the matched list is sorted in place
    by botanical name before it is shown. The locale-aware `localeCompare`
    is stood in for by lexicographic order on character codes. */
module NameSort {

  import opened Plants

  /** `a` comes no later than `b`: lexicographic order on characters, a
      prefix before any longer text. */
  predicate NameLe(a: string, b: string)
    decreases |a|
  {
    a == [] || (b != [] && (a[0] < b[0] || (a[0] == b[0] && NameLe(a[1..], b[1..]))))
  }

  lemma {:induction false} NameLeTotal(a: string, b: string)
    ensures NameLe(a, b) || NameLe(b, a)
    decreases |a|
  {
    if a != [] && b != [] && a[0] == b[0] {
      NameLeTotal(a[1..], b[1..]);
    }
  }

  lemma {:induction false} NameLeTransitive(a: string, b: string, c: string)
    requires NameLe(a, b) && NameLe(b, c)
    ensures NameLe(a, c)
    decreases |a|
  {
    if a != [] && a[0] == b[0] && b[0] == c[0] {
      NameLeTransitive(a[1..], b[1..], c[1..]);
    }
  }

  /** Two names that are each no later than the other are the same name. */
  lemma {:induction false} NameLeAntisymmetric(a: string, b: string)
    requires NameLe(a, b) && NameLe(b, a)
    ensures a == b
    decreases |a|
  {
    if a != [] {
      NameLeAntisymmetric(a[1..], b[1..]);
      assert a == [a[0]] + a[1..] && b == [b[0]] + b[1..];
    }
  }

  /** Each record's name is no later than the next one's. */
  predicate SortedByName(s: seq<Plant>) {
    forall i :: 0 < i < |s| ==> NameLe(s[i - 1].botanicalName, s[i].botanicalName)
  }

  /** Sorted neighbour by neighbour means sorted in every pair. */
  lemma {:induction false} SortedByNamePairwise(s: seq<Plant>, i: nat, j: nat)
    requires SortedByName(s) && i < j < |s|
    ensures NameLe(s[i].botanicalName, s[j].botanicalName)
    decreases j - i
  {
    if i + 1 < j {
      SortedByNamePairwise(s, i + 1, j);
      NameLeTransitive(s[i].botanicalName, s[i + 1].botanicalName, s[j].botanicalName);
    }
  }

  /** Insertion of `s[i]` into the sorted prefix `s[..i]` is under way: it
      has been swapped back to index `j`; both the part before it and the
      part from it to `i` are sorted, and the record just before the gap is
      no later than the one just after it. */
  predicate Inserting(s: seq<Plant>, j: nat, i: nat) {
    && j <= i < |s|
    && SortedByName(s[..j])
    && SortedByName(s[j..i + 1])
    && (0 < j < i ==> NameLe(s[j - 1].botanicalName, s[j + 1].botanicalName))
  }

  lemma InsertStart(s: seq<Plant>, i: nat)
    requires i < |s| && SortedByName(s[..i])
    ensures Inserting(s, i, i)
  {
  }

  /** Swapping the record back past a later-named neighbour keeps the insertion going. */
  lemma InsertStep(s: seq<Plant>, j: nat, i: nat)
    requires Inserting(s, j, i) && 0 < j
    requires !NameLe(s[j - 1].botanicalName, s[j].botanicalName)
    ensures Inserting(s[j - 1 := s[j]][j := s[j - 1]], j - 1, i)
  {
    var t := s[j - 1 := s[j]][j := s[j - 1]];
    NameLeTotal(s[j - 1].botanicalName, s[j].botanicalName);
    assert t[..j - 1] == s[..j - 1];
    assert SortedByName(t[..j - 1]) by {
      forall k | 0 < k < j - 1
        ensures NameLe(t[k - 1].botanicalName, t[k].botanicalName)
      {
        assert s[..j][k - 1] == t[k - 1] && s[..j][k] == t[k];
      }
    }
    var u := t[j - 1..i + 1];
    assert SortedByName(u) by {
      forall k | 0 < k < |u|
        ensures NameLe(u[k - 1].botanicalName, u[k].botanicalName)
      {
        if k >= 3 {
          assert s[j..i + 1][k - 2] == u[k - 1] && s[j..i + 1][k - 1] == u[k];
        }
      }
    }
    if 0 < j - 1 {
      assert s[..j][j - 2] == s[j - 2];
    }
  }

  /** Once the record meets an earlier-named neighbour (or the front) the prefix is sorted. */
  lemma InsertDone(s: seq<Plant>, j: nat, i: nat)
    requires Inserting(s, j, i)
    requires j == 0 || NameLe(s[j - 1].botanicalName, s[j].botanicalName)
    ensures SortedByName(s[..i + 1])
  {
  }

  /** One step of the insertion: swap `a[j]` with the record before it. */
  method SwapWithPrevious(a: array<Plant>, j: nat)
    requires 0 < j < a.Length
    modifies a
    ensures a[..] == old(a[..])[j - 1 := old(a[j])][j := old(a[j - 1])]
    ensures multiset(a[..]) == multiset(old(a[..]))
  {
    a[j - 1], a[j] := a[j], a[j - 1];
  }

  /** Moves `a[i]` back into the sorted prefix `a[..i]`, leaving `a[..i + 1]` sorted. */
  method InsertAt(a: array<Plant>, i: nat)
    requires i < a.Length && SortedByName(a[..i])
    modifies a
    ensures SortedByName(a[..i + 1])
    ensures a[i + 1..] == old(a[i + 1..])
    ensures multiset(a[..]) == multiset(old(a[..]))
  {
    InsertStart(a[..], i);
    var j: nat := i;
    while 0 < j && !NameLe(a[j - 1].botanicalName, a[j].botanicalName)
      invariant Inserting(a[..], j, i)
      invariant a[i + 1..] == old(a[i + 1..])
      invariant multiset(a[..]) == multiset(old(a[..]))
    {
      InsertStep(a[..], j, i);
      SwapWithPrevious(a, j);
      j := j - 1;
    }
    InsertDone(a[..], j, i);
    assert a[..][..i + 1] == a[..i + 1];
  }

  /** `list.sort((a, b) => a.botanical_name.localeCompare(b.botanical_name))`,
      as an insertion sort that swaps each record back into place. */
  method SortByName(a: array<Plant>)
    modifies a
    ensures SortedByName(a[..])
    ensures multiset(a[..]) == multiset(old(a[..]))
  {
    var i := 0;
    while i < a.Length
      invariant 0 <= i <= a.Length
      invariant SortedByName(a[..i])
      invariant multiset(a[..]) == multiset(old(a[..]))
    {
      InsertAt(a, i);
      i := i + 1;
    }
    assert a[..a.Length] == a[..];
  }

  /** `filterPlants` followed by the sort in `renderResults`: the records
      that pass the selection, in name order. An empty list is returned
      before sorting, as the source does. */
  method FilterAndSort(catalog: seq<Plant>, sel: Selection) returns (r: seq<Plant>)
    ensures SortedByName(r)
    ensures multiset(r) == multiset(FilterPlants(catalog, sel))
    ensures forall p :: p in r <==> p in catalog && Matches(sel, p)
    ensures sel == NoSelection ==> multiset(r) == multiset(catalog)
  {
    var filtered := FilterPlants(catalog, sel);
    FilterNoSelection(catalog);
    if |filtered| == 0 {
      return [];
    }
    var a := new Plant[|filtered|](k requires 0 <= k < |filtered| => filtered[k]);
    assert a[..] == filtered;
    SortByName(a);
    r := a[..];
    assert forall p :: p in r <==> p in multiset(r);
    assert forall p :: p in filtered <==> p in multiset(filtered);
  }
}
